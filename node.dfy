/** The expression tree of `source/sqlpp/expr/node.h` and `node.cpp`: leaves,
    unary and binary operator nodes, their precedence, the recursive renderer
    that adds parentheses only where precedence needs them, and `Data`, which
    carries a tree together with the tables and binds it collected. */
module Nodes {
  import opened Wrappers
  import opened Types
  import opened Strings

  datatype UnaryOp = MINUS | PLUS | COMPLEMENT | NOT

  datatype BinaryOp =
    | MUL | DIV | MOD | PLUS | MINUS | SHL | SHR | BAND | BOR
    | LS | LE | GT | GE | EQ | NE | AND | OR

  /** Position of a unary op code in its enumeration. */
  function UnaryCode(op: UnaryOp): (i: nat)
    ensures i < |UnaryTokens|
  {
    match op
    case MINUS => 0
    case PLUS => 1
    case COMPLEMENT => 2
    case NOT => 3
  }

  /** Position of a binary op code in its enumeration (MUL = 0 ... OR = 16). */
  function BinaryCode(op: BinaryOp): (i: nat)
    ensures i < |BinaryTokens|
  {
    match op
    case MUL => 0
    case DIV => 1
    case MOD => 2
    case PLUS => 3
    case MINUS => 4
    case SHL => 5
    case SHR => 6
    case BAND => 7
    case BOR => 8
    case LS => 9
    case LE => 10
    case GT => 11
    case GE => 12
    case EQ => 13
    case NE => 14
    case AND => 15
    case OR => 16
  }

  /** The code tables index the token tables: distinct op codes never share a slot. */
  lemma CodesInjective(a: BinaryOp, b: BinaryOp, u: UnaryOp, v: UnaryOp)
    ensures BinaryCode(a) == BinaryCode(b) ==> a == b
    ensures UnaryCode(u) == UnaryCode(v) ==> u == v
  {
  }

  const UnaryTokens: seq<string> := ["-", "+", "~", "NOT "]

  const BinaryTokens: seq<string> :=
    [" * ", " / ", " % ", " + ", " - ", " << ", " >> ", " & ", " | ",
     " < ", " <= ", " > ", " >= ", " = ", " <> ", " AND ", " OR "]

  function UnaryToken(op: UnaryOp): string { UnaryTokens[UnaryCode(op)] }

  function BinaryToken(op: BinaryOp): string { BinaryTokens[BinaryCode(op)] }

  /** Precedence classes, loosest first. */
  datatype Precedence = OR | AND | CMP | ORD | BOR | BAND | SHIFT | ADD | MUL | UNARY | VALUE

  /** The integer value of a precedence class (`static_cast<int>`). */
  function Level(p: Precedence): (n: nat)
    ensures n <= 10
  {
    match p
    case OR => 0
    case AND => 1
    case CMP => 2
    case ORD => 3
    case BOR => 4
    case BAND => 5
    case SHIFT => 6
    case ADD => 7
    case MUL => 8
    case UNARY => 9
    case VALUE => 10
  }

  /** `BinaryOperator::getPrecedence`. */
  function BinaryPrecedence(op: BinaryOp): (p: Precedence)
    ensures op.AND? || op.OR? <==> Level(p) <= Level(Precedence.AND)
    ensures Level(Precedence.OR) <= Level(p) <= Level(Precedence.MUL)
  {
    match op
    case MUL | DIV | MOD => Precedence.MUL
    case PLUS | MINUS => Precedence.ADD
    case SHL | SHR => Precedence.SHIFT
    case BAND => Precedence.BAND
    case BOR => Precedence.BOR
    case LS | LE | GT | GE => Precedence.ORD
    case EQ | NE => Precedence.CMP
    case AND => Precedence.AND
    case OR => Precedence.OR
  }

  /** An expression tree. A placeholder leaf renders as `?`; in this model it also
      records the bind it stands for, so that the order of a bind list can be
      compared with the order of the placeholders. */
  datatype Node =
    | ColumnLeaf(table: string, field: string)
    | PlaceholderLeaf(bind: Bind)
    | Unary(uop: UnaryOp, child: Node)
    | Binary(bop: BinaryOp, left: Node, right: Node)

  /** `getPrecedence` of each node kind. */
  function PrecedenceOf(n: Node): (p: Precedence)
    ensures n.ColumnLeaf? || n.PlaceholderLeaf? <==> p == Precedence.VALUE
    ensures n.Unary? <==> p == Precedence.UNARY
  {
    match n
    case ColumnLeaf(_, _) => Precedence.VALUE
    case PlaceholderLeaf(_) => Precedence.VALUE
    case Unary(_, _) => Precedence.UNARY
    case Binary(op, _, _) => BinaryPrecedence(op)
  }

  /** A parent wraps a child iff the parent binds strictly tighter. */
  predicate NeedsParens(parent: Node, child: Node) {
    Level(PrecedenceOf(parent)) > Level(PrecedenceOf(child))
  }

  function Wrap(parens: bool, s: string): string {
    if parens then "(" + s + ")" else s
  }

  /** `Node::dump(stream, parenthesis)`. */
  function Dump(n: Node, parens: bool): (r: string)
    ensures |r| > 0
  {
    match n
    case ColumnLeaf(t, f) => Wrap(parens, t + "." + f)
    case PlaceholderLeaf(_) => Wrap(parens, "?")
    case Unary(op, c) => Wrap(parens, UnaryToken(op) + Dump(c, NeedsParens(n, c)))
    case Binary(op, l, r) =>
      Wrap(parens, Dump(l, NeedsParens(n, l)) + BinaryToken(op) + Dump(r, NeedsParens(n, r)))
  }

  // ---------------------------------------------------------------------------
  // What a tree refers to: its placeholders (left to right) and its tables.
  // ---------------------------------------------------------------------------

  /** The binds of the placeholder leaves, in left-to-right order. */
  function LeafBinds(n: Node): seq<Bind> {
    match n
    case ColumnLeaf(_, _) => []
    case PlaceholderLeaf(b) => [b]
    case Unary(_, c) => LeafBinds(c)
    case Binary(_, l, r) => LeafBinds(l) + LeafBinds(r)
  }

  /** The tables of the column leaves. */
  function LeafTables(n: Node): set<string> {
    match n
    case ColumnLeaf(t, _) => {t}
    case PlaceholderLeaf(_) => {}
    case Unary(_, c) => LeafTables(c)
    case Binary(_, l, r) => LeafTables(l) + LeafTables(r)
  }

  /** No table or field name of the tree contains `c`. */
  predicate NamesAvoid(n: Node, c: char) {
    match n
    case ColumnLeaf(t, f) => c !in t && c !in f
    case PlaceholderLeaf(_) => true
    case Unary(_, ch) => NamesAvoid(ch, c)
    case Binary(_, l, r) => NamesAvoid(l, c) && NamesAvoid(r, c)
  }

  /** No operator token contains a placeholder mark or a parenthesis. */
  lemma TokensAvoid(c: char, bop: BinaryOp, uop: UnaryOp)
    requires c == '?' || c == '(' || c == ')'
    ensures c !in BinaryToken(bop) && c !in UnaryToken(uop)
    ensures Count(c, BinaryToken(bop)) == 0 && Count(c, UnaryToken(uop)) == 0
  {
    CountAbsent(c, BinaryToken(bop));
    CountAbsent(c, UnaryToken(uop));
  }

  /** Rendering with parentheses is rendering without them, wrapped. */
  lemma DumpWrap(n: Node, parens: bool)
    ensures Dump(n, parens) == Wrap(parens, Dump(n, false))
  {
  }

  lemma CountWrap(c: char, parens: bool, s: string)
    ensures Count(c, Wrap(parens, s)) == Count(c, s) + (if parens then Count(c, "(") + Count(c, ")") else 0)
  {
    if parens {
      CountConcat3(c, "(", s, ")");
    }
  }

  /** The text of a leaf, before any wrapping. */
  lemma LeafText(n: Node)
    requires n.ColumnLeaf? || n.PlaceholderLeaf?
    ensures Dump(n, false) == if n.ColumnLeaf? then n.table + "." + n.field else "?"
  {
  }

  /** The rendered text holds exactly one `?` per placeholder leaf (when no name
      contains a `?`). */
  lemma {:induction false} DumpPlaceholderCount(n: Node, parens: bool)
    requires NamesAvoid(n, '?')
    ensures Count('?', Dump(n, parens)) == |LeafBinds(n)|
  {
    DumpWrap(n, parens);
    CountWrap('?', parens, Dump(n, false));
    CountAbsent('?', "(");
    CountAbsent('?', ")");
    match n {
      case ColumnLeaf(t, f) =>
        LeafText(n);
        CountConcat3('?', t, ".", f);
        CountAbsent('?', t);
        CountAbsent('?', f);
        CountAbsent('?', ".");
      case PlaceholderLeaf(_) =>
        LeafText(n);
        assert "?"[1..] == "";
      case Unary(op, c) =>
        var inner := Dump(c, NeedsParens(n, c));
        assert Dump(n, false) == UnaryToken(op) + inner;
        DumpPlaceholderCount(c, NeedsParens(n, c));
        CountConcat('?', UnaryToken(op), inner);
        TokensAvoid('?', BinaryOp.MUL, op);
      case Binary(op, l, r) =>
        var dl, dr := Dump(l, NeedsParens(n, l)), Dump(r, NeedsParens(n, r));
        assert Dump(n, false) == dl + BinaryToken(op) + dr;
        DumpPlaceholderCount(l, NeedsParens(n, l));
        DumpPlaceholderCount(r, NeedsParens(n, r));
        CountConcat3('?', dl, BinaryToken(op), dr);
        TokensAvoid('?', op, UnaryOp.MINUS);
    }
  }

  /** Number of edges whose child binds looser than its parent. */
  function LooserEdges(n: Node): nat {
    match n
    case ColumnLeaf(_, _) => 0
    case PlaceholderLeaf(_) => 0
    case Unary(_, c) => (if NeedsParens(n, c) then 1 else 0) + LooserEdges(c)
    case Binary(_, l, r) =>
      (if NeedsParens(n, l) then 1 else 0) + LooserEdges(l)
      + (if NeedsParens(n, r) then 1 else 0) + LooserEdges(r)
  }

  /** The rendered text opens exactly one parenthesis per child that binds looser
      than its parent, plus one when the node itself is wrapped: no parenthesis
      is added anywhere else. */
  lemma {:induction false} DumpParenCount(n: Node, parens: bool)
    requires NamesAvoid(n, '(')
    ensures Count('(', Dump(n, parens)) == LooserEdges(n) + (if parens then 1 else 0)
  {
    DumpWrap(n, parens);
    CountWrap('(', parens, Dump(n, false));
    assert "("[1..] == "";
    CountAbsent('(', ")");
    match n {
      case ColumnLeaf(t, f) =>
        LeafText(n);
        CountConcat3('(', t, ".", f);
        CountAbsent('(', t);
        CountAbsent('(', f);
        CountAbsent('(', ".");
      case PlaceholderLeaf(_) =>
        LeafText(n);
        CountAbsent('(', "?");
      case Unary(op, c) =>
        var inner := Dump(c, NeedsParens(n, c));
        assert Dump(n, false) == UnaryToken(op) + inner;
        DumpParenCount(c, NeedsParens(n, c));
        CountConcat('(', UnaryToken(op), inner);
        TokensAvoid('(', BinaryOp.MUL, op);
      case Binary(op, l, r) =>
        var dl, dr := Dump(l, NeedsParens(n, l)), Dump(r, NeedsParens(n, r));
        assert Dump(n, false) == dl + BinaryToken(op) + dr;
        DumpParenCount(l, NeedsParens(n, l));
        DumpParenCount(r, NeedsParens(n, r));
        CountConcat3('(', dl, BinaryToken(op), dr);
        TokensAvoid('(', op, UnaryOp.MINUS);
    }
  }

  /** The text with every parenthesis removed. */
  function StripParens(s: string): string {
    if |s| == 0 then ""
    else (if s[0] == '(' || s[0] == ')' then "" else [s[0]]) + StripParens(s[1..])
  }

  lemma {:induction false} StripConcat(a: string, b: string)
    ensures StripParens(a + b) == StripParens(a) + StripParens(b)
  {
    if |a| == 0 {
      assert a + b == b;
    } else {
      assert (a + b)[1..] == a[1..] + b;
      StripConcat(a[1..], b);
    }
  }

  lemma StripConcat3(a: string, b: string, d: string)
    ensures StripParens(a + b + d) == StripParens(a) + StripParens(b) + StripParens(d)
  {
    StripConcat(a + b, d);
    StripConcat(a, b);
  }

  lemma {:induction false} StripNoParens(s: string)
    requires '(' !in s && ')' !in s
    ensures StripParens(s) == s
  {
    if |s| > 0 {
      assert s == [s[0]] + s[1..];
      assert '(' !in s[1..] && ')' !in s[1..] by {
        forall k | 0 <= k < |s[1..]| ensures s[1..][k] != '(' && s[1..][k] != ')' {
          assert s[1..][k] == s[k + 1];
        }
      }
      StripNoParens(s[1..]);
    }
  }

  lemma StripWrap(parens: bool, s: string)
    ensures StripParens(Wrap(parens, s)) == StripParens(s)
  {
    if parens {
      StripConcat3("(", s, ")");
      assert StripParens("(") == "" by { assert "("[1..] == ""; }
      assert StripParens(")") == "" by { assert ")"[1..] == ""; }
    }
  }

  /** The fully flat in-order rendering, with no parentheses at all. */
  function Infix(n: Node): string {
    match n
    case ColumnLeaf(t, f) => t + "." + f
    case PlaceholderLeaf(_) => "?"
    case Unary(op, c) => UnaryToken(op) + Infix(c)
    case Binary(op, l, r) => Infix(l) + BinaryToken(op) + Infix(r)
  }

  predicate NoParenNames(n: Node) { NamesAvoid(n, '(') && NamesAvoid(n, ')') }

  /** Removing the parentheses from the rendered text leaves the flat in-order
      token sequence: parentheses are the only thing precedence adds. */
  lemma {:induction false} DumpStripsToInfix(n: Node, parens: bool)
    requires NoParenNames(n)
    ensures StripParens(Dump(n, parens)) == Infix(n)
  {
    DumpWrap(n, parens);
    StripWrap(parens, Dump(n, false));
    match n {
      case ColumnLeaf(t, f) =>
        LeafText(n);
        StripNoParens(t + "." + f);
      case PlaceholderLeaf(_) =>
        LeafText(n);
        StripNoParens("?");
      case Unary(op, c) =>
        var inner := Dump(c, NeedsParens(n, c));
        assert Dump(n, false) == UnaryToken(op) + inner;
        DumpStripsToInfix(c, NeedsParens(n, c));
        StripConcat(UnaryToken(op), inner);
        TokensAvoid('(', BinaryOp.MUL, op);
        TokensAvoid(')', BinaryOp.MUL, op);
        StripNoParens(UnaryToken(op));
      case Binary(op, l, r) =>
        var dl, dr := Dump(l, NeedsParens(n, l)), Dump(r, NeedsParens(n, r));
        assert Dump(n, false) == dl + BinaryToken(op) + dr;
        DumpStripsToInfix(l, NeedsParens(n, l));
        DumpStripsToInfix(r, NeedsParens(n, r));
        StripConcat3(dl, BinaryToken(op), dr);
        TokensAvoid('(', op, UnaryOp.MINUS);
        TokensAvoid(')', op, UnaryOp.MINUS);
        StripNoParens(BinaryToken(op));
    }
  }

  /** As in the source, a right operand of the same precedence is not wrapped, so
      `a - (b - c)` renders exactly like `(a - b) - c`. */
  lemma RightNestingRendersLikeLeftNesting(a: Node, b: Node, c: Node)
    requires a.ColumnLeaf? && b.ColumnLeaf? && c.ColumnLeaf?
    ensures Binary(BinaryOp.MINUS, a, Binary(BinaryOp.MINUS, b, c)) != Binary(BinaryOp.MINUS, Binary(BinaryOp.MINUS, a, b), c)
    ensures Dump(Binary(BinaryOp.MINUS, a, Binary(BinaryOp.MINUS, b, c)), false)
         == Dump(Binary(BinaryOp.MINUS, Binary(BinaryOp.MINUS, a, b), c), false)
  {
  }

  // ---------------------------------------------------------------------------
  // Data: a root (absent for an empty Data), its tables, and its binds.
  // ---------------------------------------------------------------------------

  /** `Data`. The table set (an `unordered_set`) is kept as a duplicate-free
      sequence in insertion order; only its elements matter. */
  datatype Data = Data(root: Option<Node>, tables: seq<string>, binds: seq<Bind>)
  {
    /** `operator bool`: a Data is truthy iff it has a root. */
    predicate IsSet() { root.Some? }
  }

  /** `unordered_set::insert` of one name. */
  function SetInsert(ts: seq<string>, t: string): (r: seq<string>)
    ensures Elems(r) == Elems(ts) + {t}
    ensures NoDup(ts) ==> NoDup(r)
  {
    if t in ts then ts else ts + [t]
  }

  /** `unordered_set::insert` of a range of names. */
  function SetInsertAll(ts: seq<string>, more: seq<string>): (r: seq<string>)
    ensures Elems(r) == Elems(ts) + Elems(more)
    ensures NoDup(ts) ==> NoDup(r)
    decreases |more|
  {
    if |more| == 0 then ts
    else
      assert Elems(more) == {more[0]} + Elems(more[1..]) by {
        assert more == [more[0]] + more[1..];
      }
      SetInsertAll(SetInsert(ts, more[0]), more[1..])
  }

  /** The invariant every Data built through the constructors keeps: its tables
      are exactly those of its column leaves, and its binds are exactly the binds
      of its placeholders, in left-to-right order. */
  predicate Coherent(d: Data) {
    NoDup(d.tables) &&
    match d.root
    case None => d.tables == [] && d.binds == []
    case Some(n) => Elems(d.tables) == LeafTables(n) && d.binds == LeafBinds(n)
  }

  /** The weaker invariant every binary constructor keeps, as written too: the
      binds are those of the placeholders, though not necessarily in their
      order. */
  predicate Balanced(d: Data) {
    NoDup(d.tables) &&
    match d.root
    case None => d.tables == [] && d.binds == []
    case Some(n) => Elems(d.tables) == LeafTables(n) && multiset(d.binds) == multiset(LeafBinds(n))
  }

  lemma CoherentIsBalanced(d: Data)
    requires Coherent(d)
    ensures Balanced(d)
  {
  }

  /** `Data::dump`: the root, never wrapped; nothing for an empty Data. */
  function DataDump(d: Data): (r: string)
    ensures |r| == 0 <==> !d.IsSet()
  {
    match d.root
    case None => ""
    case Some(n) => Dump(n, false)
  }

  /** `Data()`. */
  function EmptyData(): (r: Data)
    ensures !r.IsSet() && Coherent(r) && DataDump(r) == ""
  {
    Data(None, [], [])
  }

  /** `Data(table, field)`: a column leaf. */
  function ColumnData(table: string, field: string): (r: Data)
    ensures r.IsSet() && Coherent(r)
    ensures Elems(r.tables) == {table} && r.binds == []
    ensures DataDump(r) == table + "." + field
  {
    Data(Some(ColumnLeaf(table, field)), [table], [])
  }

  /** `Data(bind)`: a placeholder leaf carrying exactly one bind. */
  function BindData(b: Bind): (r: Data)
    ensures r.IsSet() && Coherent(r)
    ensures r.tables == [] && r.binds == [b]
    ensures DataDump(r) == "?"
  {
    Data(Some(PlaceholderLeaf(b)), [], [b])
  }

  /** `Data(op, child)`: the child's tables and binds, unchanged. */
  function UnaryData(op: UnaryOp, child: Data): (r: Data)
    requires child.IsSet()
    ensures r.IsSet() && r.tables == child.tables && r.binds == child.binds
    ensures Coherent(child) ==> Coherent(r)
  {
    Data(Some(Unary(op, child.root.value)), child.tables, child.binds)
  }

  /** `Data(op, left, right)` for the overloads that take the left operand by
      rvalue or both by const reference: tables are the union, binds are the
      left binds followed by the right ones. */
  function BinaryData(op: BinaryOp, left: Data, right: Data): (r: Data)
    requires left.IsSet() && right.IsSet()
    ensures r.IsSet() && r.root.value == Binary(op, left.root.value, right.root.value)
    ensures Elems(r.tables) == Elems(left.tables) + Elems(right.tables)
    ensures r.binds == left.binds + right.binds
    ensures Coherent(left) && Coherent(right) ==> Coherent(r)
  {
    Data(Some(Binary(op, left.root.value, right.root.value)),
         SetInsertAll(left.tables, right.tables),
         left.binds + right.binds)
  }

  /** How an operand is passed to a binary `Data` constructor. */
  datatype Passing = Lvalue | Rvalue

  /** The four binary `Data` constructors as written: the one taking the left
      operand by const reference and the right by rvalue starts from the right
      operand's tables and binds and appends the left ones. */
  function BinaryDataAsWritten(op: BinaryOp, left: Data, lp: Passing, right: Data, rp: Passing): (r: Data)
    requires left.IsSet() && right.IsSet()
    ensures r.root == BinaryData(op, left, right).root
    ensures Elems(r.tables) == Elems(left.tables) + Elems(right.tables)
    ensures r.binds == if lp.Lvalue? && rp.Rvalue? then right.binds + left.binds else left.binds + right.binds
    ensures !(lp.Lvalue? && rp.Rvalue?) ==> r == BinaryData(op, left, right)
    ensures Balanced(left) && Balanced(right) ==> Balanced(r)
    ensures Coherent(left) && Coherent(right) && (!(lp.Lvalue? && rp.Rvalue?) || left.binds == [] || right.binds == [])
      ==> Coherent(r)
  {
    if lp.Lvalue? && rp.Rvalue? then
      var r := Data(Some(Binary(op, left.root.value, right.root.value)),
                    SetInsertAll(right.tables, left.tables), right.binds + left.binds);
      assert multiset(r.binds) == multiset(left.binds + right.binds);
      assert left.binds == [] || right.binds == [] ==> r.binds == left.binds + right.binds;
      r
    else
      BinaryData(op, left, right)
  }

  /** `tables.insert(first, last)`: the names inserted one at a time. */
  method InsertEach(ts: seq<string>, more: seq<string>) returns (r: seq<string>)
    ensures r == SetInsertAll(ts, more)
  {
    r := ts;
    var i := 0;
    while i < |more|
      invariant 0 <= i <= |more|
      invariant SetInsertAll(r, more[i..]) == SetInsertAll(ts, more)
    {
      assert more[i..][1..] == more[i + 1..];
      r := SetInsert(r, more[i]);
      i := i + 1;
    }
    assert more[i..] == [];
  }

  /** The binary `Data` constructors as the source runs them: start from one
      operand's tables and binds, then insert the other operand's tables and
      append its binds. */
  method ConstructBinary(op: BinaryOp, left: Data, lp: Passing, right: Data, rp: Passing) returns (d: Data)
    requires left.IsSet() && right.IsSet()
    ensures d == BinaryDataAsWritten(op, left, lp, right, rp)
  {
    var first, second := left, right;
    if lp.Lvalue? && rp.Rvalue? {
      first, second := right, left;
    }
    var tables := InsertEach(first.tables, second.tables);
    d := Data(Some(Binary(op, left.root.value, right.root.value)), tables, first.binds + second.binds);
  }

  /** The const-left, rvalue-right constructor breaks the placeholder order: with
      one literal on each side the binds come out reversed. */
  lemma AsWrittenReversesBinds(x: Bind, y: Bind)
    requires x != y
    ensures var r := BinaryDataAsWritten(BinaryOp.AND, BindData(x), Lvalue, BindData(y), Rvalue);
      Coherent(BindData(x)) && Coherent(BindData(y)) && !Coherent(r)
  {
    var r := BinaryDataAsWritten(BinaryOp.AND, BindData(x), Lvalue, BindData(y), Rvalue);
    assert r.binds == [y, x];
    assert LeafBinds(r.root.value) == [x, y];
  }

  /** The binds of an optional root, as a statement's WHERE clause holds them. */
  function OptionBinds(root: Option<Node>): seq<Bind> {
    match root
    case None => []
    case Some(n) => LeafBinds(n)
  }

  /** The binds of a list of roots, list by list. */
  function NodesBinds(ns: seq<Node>): seq<Bind>
    decreases |ns|
  {
    if |ns| == 0 then [] else NodesBinds(ns[..|ns| - 1]) + LeafBinds(ns[|ns| - 1])
  }

  /** Each root of a list, rendered unwrapped. */
  function DumpAll(ns: seq<Node>): (r: seq<string>)
    ensures |r| == |ns| && forall i :: 0 <= i < |ns| ==> r[i] == Dump(ns[i], false)
  {
    seq(|ns|, i requires 0 <= i < |ns| => Dump(ns[i], false))
  }

  predicate AllAvoid(ns: seq<Node>, c: char) {
    forall i :: 0 <= i < |ns| ==> NamesAvoid(ns[i], c)
  }

  /** The rendered roots of a list hold one `?` per placeholder. */
  lemma {:induction false} DumpAllPlaceholderCount(ns: seq<Node>)
    requires AllAvoid(ns, '?')
    ensures CountAll('?', DumpAll(ns)) == |NodesBinds(ns)|
    decreases |ns|
  {
    if |ns| > 0 {
      var init := ns[..|ns| - 1];
      assert DumpAll(ns)[..|ns| - 1] == DumpAll(init);
      DumpAllPlaceholderCount(init);
      DumpPlaceholderCount(ns[|ns| - 1], false);
    }
  }

  /** One more root at the end of a list. */
  lemma NodesBindsSnoc(ns: seq<Node>, n: Node)
    ensures NodesBinds(ns + [n]) == NodesBinds(ns) + LeafBinds(n)
  {
    assert (ns + [n])[..|ns|] == ns;
  }

  /** The WHERE clause of a statement: present iff there is a root. */
  function WhereClause(where: Option<Node>): string {
    match where
    case None => ""
    case Some(n) => " WHERE " + Dump(n, false)
  }

  /** The WHERE part of a statement's `dump`. */
  method WriteWhere(s0: string, where: Option<Node>) returns (s: string)
    ensures s == s0 + WhereClause(where)
  {
    s := s0;
    if where.Some? {
      s := s + " WHERE " + Dump(where.value, false);
    }
  }

  /** A WHERE clause holds one `?` per placeholder of its root. */
  lemma WhereCount(where: Option<Node>)
    requires where.Some? ==> NamesAvoid(where.value, '?')
    ensures Count('?', WhereClause(where)) == |OptionBinds(where)|
  {
    if where.Some? {
      CountConcat('?', " WHERE ", Dump(where.value, false));
      CountAbsent('?', " WHERE ");
      DumpPlaceholderCount(where.value, false);
    }
  }

  /** The text of a coherent Data holds one `?` per bind. */
  lemma DataPlaceholderCount(d: Data)
    requires Coherent(d)
    requires d.IsSet() ==> NamesAvoid(d.root.value, '?')
    ensures Count('?', DataDump(d)) == |d.binds|
  {
    if d.IsSet() {
      DumpPlaceholderCount(d.root.value, false);
    }
  }

  /** The text of a balanced Data holds one `?` per bind: the count survives
      every constructor, whatever order it puts the binds in. */
  lemma BalancedPlaceholderCount(d: Data)
    requires Balanced(d)
    requires d.IsSet() ==> NamesAvoid(d.root.value, '?')
    ensures Count('?', DataDump(d)) == |d.binds|
  {
    if d.IsSet() {
      DumpPlaceholderCount(d.root.value, false);
      assert |d.binds| == |multiset(d.binds)| == |multiset(LeafBinds(d.root.value))| == |LeafBinds(d.root.value)|;
    }
  }
}
