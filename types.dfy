/** Storage kinds, the value-type to storage-kind mapping, bind payloads, and the
    type-level list and set algebra of `source/sqlpp/types.h`, re-expressed as
    ordinary functions over sequences. */
module Types {
  import opened Wrappers

  /** The four storage kinds, and the `bool` kind that conditions evaluate to. */
  datatype Kind = Integer | Real | Text | Blob | Bool

  /** Application-level value types a column or literal may be declared with.
      `Int64`, `Double`, `StdString` and `ByteVector` are the storage types
      themselves; `Integral` stands for every other integral type (`int`, `char`,
      `bool`, ...), `Floating` for every other floating type, and `Other` for a
      type that has no converter. */
  datatype AppType =
    | Int64 | Double | StdString | ByteVector
    | Integral(name: string)
    | Floating(name: string)
    | Other(name: string)

  /** The storage kind a value type converts to; `None` when no converter exists,
      which makes every use of the type a compile error. */
  function DbType(t: AppType): (r: Option<Kind>)
    ensures r.None? <==> t.Other?
    ensures r.Some? ==> r.value != Bool
  {
    match t
    case Int64 => Some(Integer)
    case Double => Some(Real)
    case StdString => Some(Text)
    case ByteVector => Some(Blob)
    case Integral(_) => Some(Integer)
    case Floating(_) => Some(Real)
    case Other(_) => None
  }

  /** The storage type that represents a storage kind. */
  function StorageType(k: Kind): (r: AppType)
    requires k != Bool
    ensures DbType(r) == Some(k)
    ensures TypeName(r) != "UNKNOWN"
  {
    match k
    case Integer => Int64
    case Real => Double
    case Text => StdString
    case Blob => ByteVector
  }

  /** The SQL column type name of a value type: only the four storage types have one. */
  function TypeName(t: AppType): (r: string)
    ensures r == "UNKNOWN" <==> !(t.Int64? || t.Double? || t.StdString? || t.ByteVector?)
  {
    match t
    case Int64 => "INTEGER"
    case Double => "REAL"
    case StdString => "TEXT"
    case ByteVector => "BLOB"
    case _ => "UNKNOWN"
  }

  /** Distinct storage kinds get distinct column type names. */
  lemma TypeNameInjective(k1: Kind, k2: Kind)
    requires k1 != Bool && k2 != Bool
    ensures TypeName(StorageType(k1)) == TypeName(StorageType(k2)) <==> k1 == k2
  {
  }

  /** A deferred binding: only its payload and its position in a bind list matter. */
  datatype Bind =
    | IntegerBind(i: int)
    | RealBind(r: real)
    | TextBind(s: string)
    | BlobBind(bytes: seq<bv8>)

  function BindKind(b: Bind): (k: Kind)
    ensures k != Bool
  {
    match b
    case IntegerBind(_) => Integer
    case RealBind(_) => Real
    case TextBind(_) => Text
    case BlobBind(_) => Blob
  }

  // ---------------------------------------------------------------------------
  // Type lists: `types::List<T...>` is a sequence; each template below is a
  // function that follows the recursion of its specialisations.
  // ---------------------------------------------------------------------------

  predicate NoDup<T(==)>(l: seq<T>) {
    forall i, j :: 0 <= i < j < |l| ==> l[i] != l[j]
  }

  function Elems<T>(l: seq<T>): set<T> {
    set x | x in l
  }

  /** `Contains<U, L>` for a non-list `U`: recursion on the head and tail of `L`. */
  function Contains<T(==)>(u: T, l: seq<T>): (r: bool)
    ensures r <==> u in l
  {
    |l| > 0 && (u == l[0] || Contains(u, l[1..]))
  }

  /** `Contains<U, L>` for a list `U`: every element of `U` is in `L`; the empty
      list is contained in every list. */
  function ContainsList<T(==)>(u: seq<T>, l: seq<T>): (r: bool)
    ensures r <==> forall x :: x in u ==> x in l
  {
    |u| == 0 || (Contains(u[0], l) && ContainsList(u[1..], l))
  }

  /** `Size<L>`. */
  function Size<T>(l: seq<T>): (r: nat)
    ensures r == |l|
  {
    if |l| == 0 then 0 else 1 + Size(l[1..])
  }

  /** `Get<I, L>`: the 0-based `i`-th element, by recursion on the tail. */
  function Get<T>(i: nat, l: seq<T>): (r: T)
    requires i < |l|
    ensures r == l[i]
  {
    if i == 0 then l[0] else Get(i - 1, l[1..])
  }

  /** `MakeList<T...>`: built by prepending (`Insert`) each argument, it lists
      the arguments in order. */
  function MakeList<T>(ts: seq<T>): (r: seq<T>)
    ensures r == ts
  {
    if |ts| == 0 then [] else [ts[0]] + MakeList(ts[1..])
  }

  /** `Concat<L1, L2>`: moves the elements of `L2` one by one to the back of `L1`. */
  function Concat2<T>(l1: seq<T>, l2: seq<T>): (r: seq<T>)
    ensures r == l1 + l2
    decreases |l2|
  {
    if |l2| == 0 then l1 else Concat2(l1 + [l2[0]], l2[1..])
  }

  /** N-ary `Concat`, a left fold of `Concat2`: the lists one after another. */
  function Concat<T>(ls: seq<seq<T>>): (r: seq<T>)
    requires |ls| > 0
    ensures r == Flatten(ls)
    ensures |r| == Total(ls)
    decreases |ls|
  {
    if |ls| == 1 then ls[0]
    else
      var r := Concat([Concat2(ls[0], ls[1])] + ls[2..]);
      assert ([ls[0] + ls[1]] + ls[2..])[1..] == ls[2..];
      assert ls[1..][1..] == ls[2..];
      FlattenTotal(ls);
      r
  }

  /** The lists of `ls` joined in order, the reference for `Concat`. */
  function Flatten<T>(ls: seq<seq<T>>): seq<T> {
    if |ls| == 0 then [] else ls[0] + Flatten(ls[1..])
  }

  lemma {:induction false} FlattenTotal<T>(ls: seq<seq<T>>)
    ensures |Flatten(ls)| == Total(ls)
  {
    if |ls| > 0 {
      FlattenTotal(ls[1..]);
    }
  }

  function Total<T>(ls: seq<seq<T>>): nat {
    if |ls| == 0 then 0 else |ls[0]| + Total(ls[1..])
  }

  /** `Add<U, L>`: `L` unchanged when it already contains `U`, otherwise `U` in front. */
  function Add<T(==)>(u: T, l: seq<T>): (r: seq<T>)
    ensures Elems(r) == Elems(l) + {u}
    ensures NoDup(l) ==> NoDup(r)
    ensures u in l ==> r == l
  {
    if Contains(u, l) then l else [u] + l
  }

  /** Adding an element twice is the same as adding it once. */
  lemma AddIdempotent<T>(u: T, l: seq<T>)
    ensures Add(u, Add(u, l)) == Add(u, l)
  {
  }

  /** `MakeSet<T...>`: a list holding every argument exactly once. */
  function MakeSet<T(==)>(ts: seq<T>): (r: seq<T>)
    ensures Elems(r) == Elems(ts)
    ensures NoDup(r)
  {
    if |ts| == 0 then [] else Add(ts[0], MakeSet(ts[1..]))
  }

  /** `MakeSet<T>` of one type is the one-element list. */
  lemma MakeSetSingleton<T>(t: T)
    ensures MakeSet([t]) == [t]
  {
    assert [t][1..] == [];
  }

  /** `Merge2<L1, L2>`: `Add` folded over `L2` into `L1`. */
  function Merge2<T(==)>(l1: seq<T>, l2: seq<T>): (r: seq<T>)
    ensures Elems(r) == Elems(l1) + Elems(l2)
    ensures NoDup(l1) ==> NoDup(r)
  {
    if |l2| == 0 then l1 else Add(l2[0], Merge2(l1, l2[1..]))
  }

  /** Merging a duplicate-free list into the empty list gives that list back, in
      order: so the tables of `e op literal` are exactly those of `e`. */
  lemma {:induction false} Merge2EmptyLeft<T>(l: seq<T>)
    requires NoDup(l)
    ensures Merge2([], l) == l
  {
    if |l| > 0 {
      assert NoDup(l[1..]) by {
        forall i, j | 0 <= i < j < |l[1..]| ensures l[1..][i] != l[1..][j] {
          assert l[1..][i] == l[i + 1] && l[1..][j] == l[j + 1];
        }
      }
      Merge2EmptyLeft(l[1..]);
      assert l[0] !in l[1..] by {
        forall k | 0 <= k < |l[1..]| ensures l[1..][k] != l[0] {
          assert l[1..][k] == l[k + 1];
        }
      }
      assert [l[0]] + l[1..] == l;
    }
  }

  /** Merging with the empty list on the right changes nothing. */
  lemma Merge2EmptyRight<T>(l: seq<T>)
    ensures Merge2(l, []) == l
  {
  }

  /** Every element of any of the lists. */
  ghost function UnionAll<T>(ls: seq<seq<T>>): set<T> {
    set l, x | l in ls && x in l :: x
  }

  lemma UnionAllCons<T>(a: seq<T>, t: seq<seq<T>>)
    ensures UnionAll([a] + t) == Elems(a) + UnionAll(t)
  {
    var ls := [a] + t;
    forall x | x in UnionAll(ls) ensures x in Elems(a) + UnionAll(t) {
      var l :| l in ls && x in l;
      if l != a { assert l in t; }
    }
    forall x | x in Elems(a) + UnionAll(t) ensures x in UnionAll(ls) {
      if x in a { assert a in ls; } else { var l :| l in t && x in l; assert l in ls; }
    }
  }

  /** N-ary `Merge<L...>`, a left fold of `Merge2`; there is no `Merge<>`. */
  function Merge<T(==)>(ls: seq<seq<T>>): (r: seq<T>)
    requires |ls| > 0
    ensures Elems(r) == UnionAll(ls)
    ensures NoDup(ls[0]) ==> NoDup(r)
    decreases |ls|
  {
    if |ls| == 1 then
      assert ls == [ls[0]];
      ls[0]
    else
      var m := Merge2(ls[0], ls[1]);
      var rest := [m] + ls[2..];
      assert UnionAll(rest) == UnionAll(ls) by {
        UnionAllCons(m, ls[2..]);
        UnionAllCons(ls[1], ls[2..]);
        assert ls[1..] == [ls[1]] + ls[2..];
        UnionAllCons(ls[0], ls[1..]);
        assert ls == [ls[0]] + ls[1..];
      }
      Merge(rest)
  }

  /** `Merge` of one list is that list; of two lists, `Merge2` of them. */
  lemma MergeSmall<T>(a: seq<T>, b: seq<T>)
    ensures Merge([a]) == a
    ensures Merge([a, b]) == Merge2(a, b)
  {
    assert [a, b][2..] == [];
    assert [Merge2(a, b)] + [a, b][2..] == [Merge2(a, b)];
  }

  /** `IntList<I...>::contains(j)`. */
  function IntListContains(l: seq<nat>, j: nat): (r: bool)
    ensures r <==> j in l
  {
    |l| > 0 && (j == l[0] || IntListContains(l[1..], j))
  }

  /** `AddIntList<J, L>`: `J` prepended. */
  function AddIntList(j: nat, l: seq<nat>): (r: seq<nat>)
    ensures |r| == |l| + 1 && r[0] == j && r[1..] == l
  {
    [j] + l
  }
}
