/** The UPDATE statement of `source/sqlpp/stmt/update.h` and `update.cpp`:
    `UpdateData` accumulates (column, expression) assignments, their binds, and
    an optional WHERE root. */
module Update {
  import opened Wrappers
  import opened Types
  import opened Strings
  import opened Nodes
  import opened Expression
  import opened Schema

  /** The text of one assignment: `column = expression`. */
  function AssignmentText(a: (string, Node)): string {
    a.0 + " = " + Dump(a.1, false)
  }

  /** The assignment texts, in order. */
  function AssignmentTexts(asg: seq<(string, Node)>): (r: seq<string>)
    ensures |r| == |asg|
    decreases |asg|
  {
    if |asg| == 0 then [] else AssignmentTexts(asg[..|asg| - 1]) + [AssignmentText(asg[|asg| - 1])]
  }

  /** The binds of the assignment expressions' placeholders, assignment by
      assignment. */
  function AssignmentBinds(asg: seq<(string, Node)>): seq<Bind>
    decreases |asg|
  {
    if |asg| == 0 then [] else AssignmentBinds(asg[..|asg| - 1]) + LeafBinds(asg[|asg| - 1].1)
  }

  lemma AssignmentsSnoc(asg: seq<(string, Node)>, a: (string, Node))
    ensures AssignmentTexts(asg + [a]) == AssignmentTexts(asg) + [AssignmentText(a)]
    ensures AssignmentBinds(asg + [a]) == AssignmentBinds(asg) + LeafBinds(a.1)
  {
    assert (asg + [a])[..|asg|] == asg;
  }

  /** The text of an UPDATE statement. */
  function RenderUpdate(tableName: string, asg: seq<(string, Node)>, root: Option<Node>): string {
    "UPDATE " + tableName + " SET " + Join(AssignmentTexts(asg), ", ") + WhereClause(root)
  }

  /** No name of the statement contains a `?`. */
  predicate PlaceholderFree(tableName: string, asg: seq<(string, Node)>, root: Option<Node>) {
    '?' !in tableName &&
    (forall i :: 0 <= i < |asg| ==> '?' !in asg[i].0 && NamesAvoid(asg[i].1, '?')) &&
    (root.Some? ==> NamesAvoid(root.value, '?'))
  }

  lemma {:induction false} AssignmentTextsCount(asg: seq<(string, Node)>)
    requires forall i :: 0 <= i < |asg| ==> '?' !in asg[i].0 && NamesAvoid(asg[i].1, '?')
    ensures CountAll('?', AssignmentTexts(asg)) == |AssignmentBinds(asg)|
    decreases |asg|
  {
    if |asg| > 0 {
      var init, a := asg[..|asg| - 1], asg[|asg| - 1];
      assert AssignmentTexts(asg)[..|asg| - 1] == AssignmentTexts(init);
      AssignmentTextsCount(init);
      CountConcat3('?', a.0, " = ", Dump(a.1, false));
      CountAbsent('?', a.0);
      CountAbsent('?', " = ");
      DumpPlaceholderCount(a.1, false);
    }
  }

  /** The text of an UPDATE holds exactly one `?` per placeholder of its
      assignments and its WHERE root. */
  lemma UpdatePlaceholderCount(tableName: string, asg: seq<(string, Node)>, root: Option<Node>)
    requires PlaceholderFree(tableName, asg, root)
    ensures Count('?', RenderUpdate(tableName, asg, root)) == |AssignmentBinds(asg) + OptionBinds(root)|
  {
    var head := "UPDATE " + tableName + " SET ";
    CountConcat3('?', "UPDATE ", tableName, " SET ");
    CountAbsent('?', "UPDATE ");
    CountAbsent('?', tableName);
    CountAbsent('?', " SET ");
    CountJoin('?', AssignmentTexts(asg), ", ");
    AssignmentTextsCount(asg);
    WhereCount(root);
    CountConcat3('?', head, Join(AssignmentTexts(asg), ", "), WhereClause(root));
  }

  /** `UpdateData`. */
  class UpdateData {
    var tableName: string
    var assignments: seq<(string, Node)>
    var binds: seq<Bind>
    var root: Option<Node>

    /** What the builders keep: the binds are those of the assignment
        placeholders in assignment order, then those of the WHERE root. */
    predicate Valid()
      reads this
    {
      binds == AssignmentBinds(assignments) + OptionBinds(root)
    }

    /** The text `dump` writes. */
    function Sql(): string
      reads this
    {
      RenderUpdate(tableName, assignments, root)
    }

    constructor (tableName: string)
      ensures this.tableName == tableName && assignments == [] && binds == [] && root == None
      ensures Valid()
    {
      this.tableName := tableName;
      assignments, binds, root := [], [], None;
    }

    /** The copy constructor: every field, each tree cloned. */
    constructor Copy(other: UpdateData)
      ensures tableName == other.tableName && assignments == other.assignments
      ensures binds == other.binds && root == other.root
      ensures Sql() == other.Sql() && (other.Valid() ==> Valid())
    {
      var asg := CloneAssignments([], other.assignments);
      tableName, binds := other.tableName, other.binds;
      assignments := asg;
      root := other.root;
    }

    /** Copy assignment as written: the other's assignments are appended to the
        target's own, and the target keeps its WHERE root when the other has
        none. */
    method AssignAsWritten(other: UpdateData)
      modifies this
      ensures this != other ==>
                tableName == old(other.tableName) && binds == old(other.binds) &&
                assignments == old(assignments) + old(other.assignments) &&
                root == (if old(other.root).Some? then old(other.root) else old(root))
      ensures this == other ==>
                tableName == old(tableName) && binds == old(binds) &&
                assignments == old(assignments) && root == old(root)
    {
      if this != other {
        tableName := other.tableName;
        binds := other.binds;
        assignments := CloneAssignments(assignments, other.assignments);
        if other.root.Some? {
          root := other.root;
        }
      }
    }

    /** Copy assignment as intended: the target becomes an exact copy. */
    method Assign(other: UpdateData)
      modifies this
      ensures tableName == old(other.tableName) && binds == old(other.binds)
      ensures assignments == old(other.assignments) && root == old(other.root)
      ensures Sql() == old(other.Sql()) && (old(other.Valid()) ==> Valid())
    {
      if this != other {
        tableName := other.tableName;
        binds := other.binds;
        assignments := CloneAssignments([], other.assignments);
        root := other.root;
      }
    }

    /** `addAssignment`: appends (column, root) and the expression's binds. */
    method AddAssignment(column: string, data: Data)
      requires data.IsSet()
      modifies this
      ensures assignments == old(assignments) + [(column, data.root.value)]
      ensures binds == old(binds) + data.binds
      ensures tableName == old(tableName) && root == old(root)
      ensures old(Valid()) && old(root).None? && Coherent(data) ==> Valid()
    {
      AssignmentsSnoc(assignments, (column, data.root.value));
      assignments := assignments + [(column, data.root.value)];
      binds := binds + data.binds;
    }

    /** `addCondition`: appends the condition's binds and replaces the root. */
    method AddCondition(cond: Data)
      modifies this
      ensures binds == old(binds) + cond.binds && root == cond.root
      ensures tableName == old(tableName) && assignments == old(assignments)
      ensures old(Valid()) && old(root).None? && Coherent(cond) ==> Valid()
    {
      binds := binds + cond.binds;
      root := cond.root;
    }

    /** `dump`. */
    method Dump() returns (s: string)
      ensures s == Sql()
    {
      s := "UPDATE " + tableName + " SET ";
      s := WriteAssignments(s, assignments);
      s := WriteWhere(s, root);
    }

    /** `execute`: the text with the binds in accumulated order, one bind per
        placeholder of the text. */
    method Execute() returns (sql: string, args: seq<Bind>)
      ensures sql == Sql() && args == binds
      ensures Valid() && PlaceholderFree(tableName, assignments, root) ==> Count('?', sql) == |args|
    {
      sql := Dump();
      args := binds;
      if Valid() && PlaceholderFree(tableName, assignments, root) {
        UpdatePlaceholderCount(tableName, assignments, root);
      }
    }
  }

  /** The assignment loop of `dump`: `column = expression` for each assignment,
      after a `", "` for all but the first. */
  method WriteAssignments(head: string, asg: seq<(string, Node)>) returns (s: string)
    ensures s == head + Join(AssignmentTexts(asg), ", ")
  {
    ghost var texts := AssignmentTexts(asg);
    s := head;
    var first := true;
    var i := 0;
    while i < |asg|
      invariant 0 <= i <= |asg|
      invariant first <==> i == 0
      invariant s == head + Join(texts[..i], ", ")
    {
      JoinPrefixStep(head, texts, i, ", ", s);
      AssignmentTextAt(asg, i);
      if !first {
        s := s + ", ";
      }
      first := false;
      s := s + asg[i].0 + " = " + Nodes.Dump(asg[i].1, false);
      i := i + 1;
    }
    assert texts[..i] == texts;
  }

  lemma {:induction false} AssignmentTextAt(asg: seq<(string, Node)>, i: nat)
    requires i < |asg|
    ensures AssignmentTexts(asg)[i] == asg[i].0 + " = " + Dump(asg[i].1, false)
    decreases |asg|
  {
    if i < |asg| - 1 {
      assert asg[..|asg| - 1][i] == asg[i];
      AssignmentTextAt(asg[..|asg| - 1], i);
    }
  }

  /** The clone loop of the copy operations: the assignments of `more`, cloned,
      after those of `init`. */
  method CloneAssignments(init: seq<(string, Node)>, more: seq<(string, Node)>) returns (r: seq<(string, Node)>)
    ensures r == init + more
  {
    r := init;
    var i := 0;
    while i < |more|
      invariant 0 <= i <= |more| && r == init + more[..i]
    {
      assert more[..i + 1] == more[..i] + [more[i]];
      r := r + [(more[i].0, more[i].1)];
      i := i + 1;
    }
    assert more[..i] == more;
  }

  /** Copy assignment as written breaks the binds: assigning a statement with one
      assignment to another with one assignment leaves two placeholders and one
      bind. */
  method AssignAsWrittenLosesBinds(x: Bind, y: Bind) returns (target: UpdateData)
    ensures |target.assignments| == 2 && target.binds == [y]
    ensures !target.Valid()
    ensures Count('?', target.Sql()) == 2
  {
    target := new UpdateData("t");
    target.AddAssignment("a", BindData(x));
    var other := new UpdateData("t");
    other.AddAssignment("b", BindData(y));
    target.AssignAsWritten(other);
    ghost var asg := [("a", PlaceholderLeaf(x)), ("b", PlaceholderLeaf(y))];
    assert target.assignments == asg && target.root == None;
    TwoAssignments(x, y);
    assert |AssignmentBinds(asg) + OptionBinds(None)| == 2;
  }

  lemma TwoAssignments(x: Bind, y: Bind)
    ensures AssignmentBinds([("a", PlaceholderLeaf(x)), ("b", PlaceholderLeaf(y))]) == [x, y]
    ensures Count('?', RenderUpdate("t", [("a", PlaceholderLeaf(x)), ("b", PlaceholderLeaf(y))], None)) == 2
  {
    var asg := [("a", PlaceholderLeaf(x)), ("b", PlaceholderLeaf(y))];
    AssignmentsSnoc([("a", PlaceholderLeaf(x))], ("b", PlaceholderLeaf(y)));
    AssignmentsSnoc([], ("a", PlaceholderLeaf(x)));
    assert [("a", PlaceholderLeaf(x))] + [("b", PlaceholderLeaf(y))] == asg;
    assert AssignmentBinds(asg) == [x, y];
    assert PlaceholderFree("t", asg, None);
    UpdatePlaceholderCount("t", asg, None);
  }

  // ---------------------------------------------------------------------------
  // The builder: `update(a, aa...)` and its duplicate-index check.
  // ---------------------------------------------------------------------------

  /** The static walk of `addAssignments`: each index must be absent from the
      indices seen so far, which grow by `AddIntList`. */
  function AssignmentsAccepted(seen: seq<nat>, indices: seq<nat>): bool
    decreases |indices|
  {
    |indices| == 0 ||
    (!IntListContains(seen, indices[0]) && AssignmentsAccepted(AddIntList(indices[0], seen), indices[1..]))
  }

  /** The walk accepts exactly the index lists with no repeated index and no
      index already seen. */
  lemma {:induction false} AcceptedIffFresh(seen: seq<nat>, indices: seq<nat>)
    ensures AssignmentsAccepted(seen, indices)
        <==> NoDup(indices) && forall k :: 0 <= k < |indices| ==> indices[k] !in seen
    decreases |indices|
  {
    if |indices| > 0 {
      var j, rest := indices[0], indices[1..];
      AcceptedIffFresh(AddIntList(j, seen), rest);
      assert forall k :: 0 < k < |indices| ==> indices[k] == rest[k - 1];
      if NoDup(indices) && forall k :: 0 <= k < |indices| ==> indices[k] !in seen {
        assert NoDup(rest) by {
          forall a, b | 0 <= a < b < |rest| ensures rest[a] != rest[b] {
            assert rest[a] == indices[a + 1] && rest[b] == indices[b + 1];
          }
        }
        forall k | 0 <= k < |rest| ensures rest[k] !in AddIntList(j, seen) {
          assert rest[k] == indices[k + 1];
        }
      }
      if AssignmentsAccepted(seen, indices) {
        forall a, b | 0 <= a < b < |indices| ensures indices[a] != indices[b] {
          if a == 0 {
            assert indices[b] == rest[b - 1] && rest[b - 1] !in AddIntList(j, seen);
          } else {
            assert indices[a] == rest[a - 1] && indices[b] == rest[b - 1];
          }
        }
      }
    }
  }

  /** No column may be updated twice. */
  lemma AcceptedIffDistinct(indices: seq<nat>)
    ensures AssignmentsAccepted([], indices) <==> NoDup(indices)
  {
    AcceptedIffFresh([], indices);
  }

  function Indices(asg: seq<Assignment>): (r: seq<nat>)
    ensures |r| == |asg| && forall i :: 0 <= i < |asg| ==> r[i] == asg[i].column.index
  {
    seq(|asg|, i requires 0 <= i < |asg| => asg[i].column.index)
  }

  /** The (column name, tree) pairs a list of assignments adds. */
  function AssignmentPairs(asg: seq<Assignment>): (r: seq<(string, Node)>)
    requires forall i :: 0 <= i < |asg| ==> asg[i].expr.data.IsSet()
    ensures |r| == |asg|
    decreases |asg|
  {
    if |asg| == 0 then []
    else
      var last := asg[|asg| - 1];
      assert last.expr.data.IsSet();
      AssignmentPairs(asg[..|asg| - 1]) + [(last.column.name, last.expr.data.root.value)]
  }

  /** The binds a list of assignments adds. */
  function DataBinds(asg: seq<Assignment>): seq<Bind>
    decreases |asg|
  {
    if |asg| == 0 then [] else DataBinds(asg[..|asg| - 1]) + asg[|asg| - 1].expr.data.binds
  }

  lemma PairsStep(asg: seq<Assignment>, i: nat)
    requires i < |asg|
    requires forall k :: 0 <= k < |asg| ==> asg[k].expr.data.IsSet()
    ensures AssignmentPairs(asg[..i + 1]) == AssignmentPairs(asg[..i]) + [(asg[i].column.name, asg[i].expr.data.root.value)]
    ensures DataBinds(asg[..i + 1]) == DataBinds(asg[..i]) + asg[i].expr.data.binds
  {
    assert asg[..i + 1][..i] == asg[..i];
  }

  /** `update(a, aa...)`: the table name of the first assignment's column, then one
      `addAssignment` per assignment in argument order. */
  method MakeUpdate(asg: seq<Assignment>) returns (d: UpdateData)
    requires |asg| > 0
    requires forall i :: 0 <= i < |asg| ==> asg[i].expr.data.IsSet()
    requires AssignmentsAccepted([], Indices(asg))
    ensures fresh(d)
    ensures d.tableName == asg[0].column.table.name && d.root == None
    ensures d.assignments == AssignmentPairs(asg) && d.binds == DataBinds(asg)
    ensures (forall i :: 0 <= i < |asg| ==> Coherent(asg[i].expr.data)) ==> d.Valid()
  {
    d := new UpdateData(asg[0].column.table.name);
    ghost var coherent := forall i :: 0 <= i < |asg| ==> Coherent(asg[i].expr.data);
    var i := 0;
    while i < |asg|
      invariant 0 <= i <= |asg|
      invariant d.tableName == asg[0].column.table.name && d.root == None
      invariant d.assignments == AssignmentPairs(asg[..i]) && d.binds == DataBinds(asg[..i])
      invariant coherent ==> d.Valid()
    {
      PairsStep(asg, i);
      d.AddAssignment(asg[i].column.name, asg[i].expr.data);
      i := i + 1;
    }
    assert asg[..i] == asg;
  }

  /** `where` on a named statement: the data is copied, the copy gets the
      condition after all assignments, and the original is unchanged. */
  method WhereCopy(upd: UpdateData, cond: Expr) returns (w: UpdateData)
    requires cond.kind == Bool
    ensures fresh(w)
    ensures w.tableName == upd.tableName && w.assignments == upd.assignments
    ensures w.binds == upd.binds + cond.data.binds && w.root == cond.data.root
    ensures upd.Valid() && upd.root.None? && WellFormed(cond) ==> w.Valid()
  {
    w := new UpdateData.Copy(upd);
    w.AddCondition(cond.data);
  }

  /** `where` on a temporary statement: its data moves into the result. */
  method WhereMove(upd: UpdateData, cond: Expr) returns (w: UpdateData)
    requires cond.kind == Bool
    modifies upd
    ensures w == upd
    ensures w.tableName == old(upd.tableName) && w.assignments == old(upd.assignments)
    ensures w.binds == old(upd.binds) + cond.data.binds && w.root == cond.data.root
    ensures old(upd.Valid() && upd.root.None?) && WellFormed(cond) ==> w.Valid()
  {
    upd.AddCondition(cond.data);
    w := upd;
  }
}
