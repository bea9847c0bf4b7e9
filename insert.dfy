/** The INSERT statement of `source/sqlpp/stmt/insert.h` and `insert.cpp`:
    `InsertData` accumulates the table name, the column names of a named insert,
    and the binds. */
module Insert {
  import opened Wrappers
  import opened Types
  import opened Strings
  import opened Schema

  /** `n` placeholders separated by `", "`. */
  function Placeholders(n: nat): string {
    Join(Repeat("?", n), ", ")
  }

  /** The text of an INSERT: default values without binds, a positional list
      without names, and otherwise one placeholder per name. */
  function RenderInsert(tableName: string, names: seq<string>, binds: seq<Bind>): string {
    "INSERT INTO " + tableName + ValuesClause(names, binds)
  }

  /** What follows the table name. */
  function ValuesClause(names: seq<string>, binds: seq<Bind>): string {
    if |binds| == 0 then " DEFAULT VALUES"
    else if |names| == 0 then " VALUES (" + Placeholders(|binds|) + ")"
    else " (" + Join(names, ", ") + ") VALUES (" + Placeholders(|names|) + ")"
  }

  lemma PlaceholdersCount(n: nat)
    ensures Count('?', Placeholders(n)) == n
  {
    assert '?' !in ", ";
    CountJoin('?', Repeat("?", n), ", ");
    CountRepeat('?', n);
    assert Repeat("?", n) == Repeat(['?'], n);
  }

  lemma NamedClauseCount(names: seq<string>)
    requires forall i :: 0 <= i < |names| ==> '?' !in names[i]
    ensures Count('?', " (" + Join(names, ", ") + ") VALUES (" + Placeholders(|names|) + ")") == |names|
  {
    CountJoin('?', names, ", ");
    CountAllAbsent('?', names);
    PlaceholdersCount(|names|);
    NamedShapeCount(Join(names, ", "), Placeholders(|names|));
  }

  lemma NamedShapeCount(ns: string, ps: string)
    ensures Count('?', " (" + ns + ") VALUES (" + ps + ")") == Count('?', ns) + Count('?', ps)
  {
    var a := " (";
    var b := ") VALUES (";
    var c := ")";
    CountAbsent('?', a);
    CountAbsent('?', b);
    CountAbsent('?', c);
    CountConcat3('?', a, ns, b);
    CountConcat3('?', a + ns + b, ps, c);
  }

  lemma PositionalClauseCount(n: nat)
    ensures Count('?', " VALUES (" + Placeholders(n) + ")") == n
  {
    CountConcat3('?', " VALUES (", Placeholders(n), ")");
    CountAbsent('?', " VALUES (");
    CountAbsent('?', ")");
    PlaceholdersCount(n);
  }

  lemma ValuesClauseCount(names: seq<string>, binds: seq<Bind>)
    requires |names| == 0 || |names| == |binds|
    requires forall i :: 0 <= i < |names| ==> '?' !in names[i]
    ensures Count('?', ValuesClause(names, binds)) == |binds|
  {
    if |binds| == 0 {
      CountAbsent('?', " DEFAULT VALUES");
    } else if |names| == 0 {
      PositionalClauseCount(|binds|);
    } else {
      NamedClauseCount(names);
    }
  }

  /** An INSERT holds one `?` per bind, as long as a named insert has one name
      per bind and no name contains a `?`. */
  lemma InsertPlaceholderCount(tableName: string, names: seq<string>, binds: seq<Bind>)
    requires |names| == 0 || |names| == |binds|
    requires '?' !in tableName && forall i :: 0 <= i < |names| ==> '?' !in names[i]
    ensures Count('?', RenderInsert(tableName, names, binds)) == |binds|
  {
    var clause := ValuesClause(names, binds);
    ValuesClauseCount(names, binds);
    CountAbsent('?', tableName);
    CountAbsent('?', "INSERT INTO ");
    CountConcat3('?', "INSERT INTO ", tableName, clause);
  }

  /** `InsertData`. */
  class InsertData {
    var tableName: string
    var names: seq<string>
    var binds: seq<Bind>

    /** What the builders keep: a positional insert has no names, a named
        insert one name per bind. */
    predicate Valid()
      reads this
    {
      |names| == 0 || |names| == |binds|
    }

    /** The text `dump` writes. */
    function Sql(): string
      reads this
    {
      RenderInsert(tableName, names, binds)
    }

    constructor (tableName: string)
      ensures this.tableName == tableName && names == [] && binds == []
      ensures Valid() && Sql() == "INSERT INTO " + tableName + " DEFAULT VALUES"
    {
      this.tableName := tableName;
      names, binds := [], [];
    }

    /** The (defaulted) copy constructor. */
    constructor Copy(other: InsertData)
      ensures tableName == other.tableName && names == other.names && binds == other.binds
    {
      tableName, names, binds := other.tableName, other.names, other.binds;
    }

    /** `addValue(name, bind)`: appends to both lists. */
    method AddNamedValue(name: string, bind: Bind)
      modifies this
      ensures names == old(names) + [name] && binds == old(binds) + [bind]
      ensures tableName == old(tableName)
      ensures |old(names)| == |old(binds)| ==> Valid()
    {
      names := names + [name];
      binds := binds + [bind];
    }

    /** `addValue(bind)`: appends to the binds only. */
    method AddValue(bind: Bind)
      modifies this
      ensures binds == old(binds) + [bind]
      ensures tableName == old(tableName) && names == old(names)
      ensures old(names) == [] ==> Valid()
    {
      binds := binds + [bind];
    }

    /** `dump`. */
    method Dump() returns (s: string)
      ensures s == Sql()
    {
      s := "INSERT INTO " + tableName;
      if |binds| == 0 {
        s := s + " DEFAULT VALUES";
      } else if |names| == 0 {
        s := s + " VALUES (";
        s := WritePlaceholders(s, |binds|);
        s := s + ")";
      } else {
        s := WriteNamed(s, names);
      }
    }

    /** `execute`: the text with the binds in insertion order. */
    method Execute() returns (sql: string, args: seq<Bind>)
      ensures sql == Sql() && args == binds
      ensures Valid() && '?' !in tableName && (forall i :: 0 <= i < |names| ==> '?' !in names[i])
        ==> Count('?', sql) == |args|
    {
      sql := Dump();
      args := binds;
      if Valid() && '?' !in tableName && (forall i :: 0 <= i < |names| ==> '?' !in names[i]) {
        InsertPlaceholderCount(tableName, names, binds);
      }
    }
  }

  /** The positional loop of `dump`: `n` placeholders, `", "` before all but the
      first. */
  method WritePlaceholders(s0: string, n: nat) returns (s: string)
    ensures s == s0 + Placeholders(n)
  {
    s := s0;
    var i := 0;
    while i < n
      invariant 0 <= i <= n && s == s0 + Placeholders(i)
    {
      if i != 0 {
        s := s + ", ";
      }
      JoinSnoc(Repeat("?", i), "?", ", ");
      s := s + "?";
      i := i + 1;
    }
  }

  /** One more placeholder in the placeholder list. */
  lemma PlaceholdersStep(i: nat)
    ensures Placeholders(i + 1) == if i == 0 then "?" else Placeholders(i) + ", " + "?"
  {
    JoinSnoc(Repeat("?", i), "?", ", ");
  }

  /** The named loop of `dump`: the names go to the statement and one
      placeholder per name to a second buffer, written after ` VALUES (`. */
  method WriteNamed(s0: string, names: seq<string>) returns (s: string)
    ensures s == s0 + " (" + Join(names, ", ") + ") VALUES (" + Placeholders(|names|) + ")"
  {
    s := s0 + " (";
    ghost var head := s;
    var vals := "";
    var first := true;
    var i := 0;
    while i < |names|
      invariant 0 <= i <= |names|
      invariant first <==> i == 0
      invariant s == head + Join(names[..i], ", ")
      invariant vals == Placeholders(i)
    {
      JoinPrefixStep(head, names, i, ", ", s);
      PlaceholdersStep(i);
      if !first {
        s := s + ", ";
        vals := vals + ", ";
      }
      first := false;
      s := s + names[i];
      vals := vals + "?";
      i := i + 1;
    }
    assert names[..i] == names;
    s := s + ") VALUES (" + vals + ")";
  }

  // ---------------------------------------------------------------------------
  // Builders: `insertInto(table).values(v...)` and `insertValues(col <<= v, ...)`.
  // ---------------------------------------------------------------------------

  /** `insertInto(table)`: a statement on the table's name with no values. */
  method InsertInto(t: Table) returns (d: InsertData)
    ensures fresh(d) && d.tableName == t.name && d.names == [] && d.binds == []
    ensures d.Valid() && d.Sql() == "INSERT INTO " + t.name + " DEFAULT VALUES"
  {
    d := new InsertData(t.name);
  }

  /** A positional value: its declared type and the bind `createBind` makes of it. */
  datatype Arg = Arg(appType: AppType, bind: Bind)

  /** `createBind` converts a value to the storage kind of its type. */
  predicate Converted(a: Arg) {
    DbType(a.appType) == Some(BindKind(a.bind))
  }

  function ArgTypes(args: seq<Arg>): (r: seq<AppType>)
    ensures |r| == |args| && forall i :: 0 <= i < |args| ==> r[i] == args[i].appType
  {
    seq(|args|, i requires 0 <= i < |args| => args[i].appType)
  }

  function ArgBinds(args: seq<Arg>): (r: seq<Bind>)
    ensures |r| == |args| && forall i :: 0 <= i < |args| ==> r[i] == args[i].bind
  {
    seq(|args|, i requires 0 <= i < |args| => args[i].bind)
  }

  /** The kind check of `addValues`, value by value: with `|vs|` values left,
      the next one fills column `N = |row| - |vs|` and must have its kind. */
  function AddValuesAccepted(row: seq<Kind>, vs: seq<AppType>): bool
    requires |vs| <= |row|
    decreases |vs|
  {
    |vs| == 0 ||
    (DbType(vs[0]) == Some(row[|row| - |vs|]) && AddValuesAccepted(row, vs[1..]))
  }

  /** `init` and `addValues` together: the count check, then the kind walk. */
  predicate ValuesAccepted(row: seq<Kind>, vs: seq<AppType>) {
    |vs| == |row| && AddValuesAccepted(row, vs)
  }

  lemma {:induction false} AddValuesAcceptedIff(row: seq<Kind>, vs: seq<AppType>)
    requires |vs| <= |row|
    ensures AddValuesAccepted(row, vs)
        <==> forall k :: 0 <= k < |vs| ==> DbType(vs[k]) == Some(row[|row| - |vs| + k])
    decreases |vs|
  {
    if |vs| > 0 {
      AddValuesAcceptedIff(row, vs[1..]);
      assert forall k :: 0 < k < |vs| ==> vs[k] == vs[1..][k - 1];
    }
  }

  /** The positional values are accepted exactly when there is one per column and
      each has its column's storage kind. */
  lemma ValuesAcceptedIff(row: seq<Kind>, vs: seq<AppType>)
    ensures ValuesAccepted(row, vs)
        <==> |vs| == |row| && forall k :: 0 <= k < |vs| ==> DbType(vs[k]) == Some(row[k])
  {
    if |vs| == |row| {
      AddValuesAcceptedIff(row, vs);
    }
  }

  /** `addValues`: one unnamed bind per value, in argument order. */
  method AddValues(d: InsertData, args: seq<Arg>)
    modifies d
    ensures d.tableName == old(d.tableName) && d.names == old(d.names)
    ensures d.binds == old(d.binds) + ArgBinds(args)
    ensures old(d.names) == [] ==> d.Valid()
  {
    var i := 0;
    while i < |args|
      invariant 0 <= i <= |args|
      invariant d.tableName == old(d.tableName) && d.names == old(d.names)
      invariant d.binds == old(d.binds) + ArgBinds(args[..i])
      invariant old(d.names) == [] ==> d.Valid()
    {
      assert ArgBinds(args[..i + 1]) == ArgBinds(args[..i]) + [args[i].bind];
      d.AddValue(args[i].bind);
      i := i + 1;
    }
    assert args[..i] == args;
  }

  /** Positionally accepted values bind, at each column's position, a value of
      that column's storage kind. */
  lemma AcceptedBindKinds(t: Table, args: seq<Arg>)
    requires ValidTable(t) && ValuesAccepted(Row(t), ArgTypes(args))
    requires forall i :: 0 <= i < |args| ==> Converted(args[i])
    ensures |ArgBinds(args)| == ColumnCount(t)
    ensures forall k :: 0 <= k < |args| ==> BindKind(ArgBinds(args)[k]) == Row(t)[k]
  {
    ValuesAcceptedIff(Row(t), ArgTypes(args));
  }

  /** `values(v...)` on a named `Insert`: the data is copied, and the copy gets
      one bind per column. */
  method ValuesCopy(ins: InsertData, t: Table, args: seq<Arg>) returns (row: InsertData)
    requires ValidTable(t) && |args| > 0
    requires ValuesAccepted(Row(t), ArgTypes(args))
    requires forall i :: 0 <= i < |args| ==> Converted(args[i])
    ensures fresh(row)
    ensures row.tableName == ins.tableName && row.names == ins.names
    ensures row.binds == ins.binds + ArgBinds(args)
    ensures ins.names == [] ==> row.Valid()
  {
    row := new InsertData.Copy(ins);
    AddValues(row, args);
  }

  /** `values(v...)` on a temporary `Insert`: its data moves into the result. */
  method ValuesMove(ins: InsertData, t: Table, args: seq<Arg>) returns (row: InsertData)
    requires ValidTable(t) && |args| > 0
    requires ValuesAccepted(Row(t), ArgTypes(args))
    requires forall i :: 0 <= i < |args| ==> Converted(args[i])
    modifies ins
    ensures row == ins
    ensures row.tableName == old(ins.tableName) && row.names == old(ins.names)
    ensures row.binds == old(ins.binds) + ArgBinds(args)
    ensures old(ins.names) == [] ==> row.Valid()
  {
    AddValues(ins, args);
    row := ins;
  }

  /** `insertValues` takes `Value`s of one table class only. */
  predicate SameTable(values: seq<Value>)
    requires |values| > 0
  {
    forall i :: 0 <= i < |values| ==> values[i].column.table.id == values[0].column.table.id
  }

  function ValueNames(values: seq<Value>): (r: seq<string>)
    ensures |r| == |values| && forall i :: 0 <= i < |values| ==> r[i] == values[i].column.name
  {
    seq(|values|, i requires 0 <= i < |values| => values[i].column.name)
  }

  function ValueBinds(values: seq<Value>): (r: seq<Bind>)
    ensures |r| == |values| && forall i :: 0 <= i < |values| ==> r[i] == values[i].bind
  {
    seq(|values|, i requires 0 <= i < |values| => values[i].bind)
  }

  /** `insertValues(col <<= v, ...)`: the table name of the first value's table,
      then one (column name, bind) pair per value in argument order. */
  method InsertValues(values: seq<Value>) returns (d: InsertData)
    requires |values| > 0 && SameTable(values)
    ensures fresh(d)
    ensures d.tableName == values[0].column.table.name
    ensures d.names == ValueNames(values) && d.binds == ValueBinds(values)
    ensures d.Valid()
  {
    d := new InsertData(values[0].column.table.name);
    var i := 0;
    while i < |values|
      invariant 0 <= i <= |values|
      invariant d.tableName == values[0].column.table.name
      invariant d.names == ValueNames(values[..i]) && d.binds == ValueBinds(values[..i])
    {
      assert ValueNames(values[..i + 1]) == ValueNames(values[..i]) + [values[i].column.name];
      assert ValueBinds(values[..i + 1]) == ValueBinds(values[..i]) + [values[i].bind];
      d.AddNamedValue(values[i].column.name, values[i].bind);
      i := i + 1;
    }
    assert values[..i] == values;
  }

  // ---------------------------------------------------------------------------
  // The compile-time checks of the type-check driver.
  // ---------------------------------------------------------------------------

  /** `values("1"s, 1.0, 1)` on `Test(int, string, double)` is rejected for its
      kinds, `values(1, "1"s, 1.0, 1)` for its count, and `values(1, "1"s, 1.0)`
      is accepted. */
  lemma PositionalChecks()
    ensures !ValuesAccepted(Row(TestTable()), [StdString, Double, Integral("int")])
    ensures !ValuesAccepted(Row(TestTable()), [Integral("int"), StdString, Double, Integral("int")])
    ensures ValuesAccepted(Row(TestTable()), [Integral("int"), StdString, Double])
  {
    var row := Row(TestTable());
    ValuesAcceptedIff(row, [StdString, Double, Integral("int")]);
    ValuesAcceptedIff(row, [Integral("int"), StdString, Double]);
  }

  /** `insertValues(test.id <<= 1, another.id <<= 2)` mixes two tables. */
  lemma TwoTablesRejected()
    ensures !SameTable([ShiftIn(ColumnAt(TestTable(), 0), IntegerBind(1)),
                        ShiftIn(ColumnAt(AnotherTable(), 0), IntegerBind(2))])
  {
    var v1 := ShiftIn(ColumnAt(TestTable(), 0), IntegerBind(1));
    var v2 := ShiftIn(ColumnAt(AnotherTable(), 0), IntegerBind(2));
    assert v1.column.table.id == TestTable().id;
    assert v2.column.table.id == AnotherTable().id;
    assert [v1, v2][1].column.table.id != [v1, v2][0].column.table.id;
  }
}
