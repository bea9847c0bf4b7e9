/** The CREATE TABLE statement of `source/sqlpp/stmt/create.h` and `create.cpp`:
    `CreateTableData` holds the table name, the IF NOT EXISTS flag and one
    (name, type) description per column. */
module Create {
  import opened Wrappers
  import opened Types
  import opened Strings
  import opened Schema

  /** `ColumnDesc`: a column name and its SQL type name. */
  datatype ColumnDesc = ColumnDesc(name: string, sqlType: string)

  function DescText(c: ColumnDesc): string {
    c.name + " " + c.sqlType
  }

  /** The description texts, in order. */
  function DescTexts(cs: seq<ColumnDesc>): (r: seq<string>)
    ensures |r| == |cs|
    decreases |cs|
  {
    if |cs| == 0 then [] else DescTexts(cs[..|cs| - 1]) + [DescText(cs[|cs| - 1])]
  }

  /** The text of a CREATE TABLE statement. */
  function RenderCreate(tableName: string, ifNotExists: bool, cs: seq<ColumnDesc>): string {
    "CREATE TABLE " + (if ifNotExists then "IF NOT EXISTS " else "") + tableName
      + " (" + Join(DescTexts(cs), ", ") + ")"
  }

  /** `CreateTableData`. */
  class CreateTableData {
    var tableName: string
    var ifNotExists: bool
    var columnDesc: seq<ColumnDesc>

    /** The text `dump` writes. */
    function Sql(): string
      reads this
    {
      RenderCreate(tableName, ifNotExists, columnDesc)
    }

    constructor (tableName: string, ifNotExists: bool)
      ensures this.tableName == tableName && this.ifNotExists == ifNotExists && columnDesc == []
    {
      this.tableName, this.ifNotExists := tableName, ifNotExists;
      columnDesc := [];
    }

    /** `addColumnDesc`: appends one description at the end. */
    method AddColumnDesc(name: string, sqlType: string)
      modifies this
      ensures columnDesc == old(columnDesc) + [ColumnDesc(name, sqlType)]
      ensures tableName == old(tableName) && ifNotExists == old(ifNotExists)
    {
      columnDesc := columnDesc + [ColumnDesc(name, sqlType)];
    }

    /** `dump`. */
    method Dump() returns (s: string)
      ensures s == Sql()
    {
      s := "CREATE TABLE ";
      if ifNotExists {
        s := s + "IF NOT EXISTS ";
      }
      s := s + tableName + " (";
      s := WriteDescs(s, columnDesc);
      s := s + ")";
    }

    /** `execute`: the text, with no binds; the text has no placeholder when no
        name contains a `?`. */
    method Execute() returns (sql: string, args: seq<Bind>)
      ensures sql == Sql() && args == []
      ensures NoPlaceholderNames(tableName, columnDesc) ==> Count('?', sql) == |args|
    {
      sql := Dump();
      args := [];
      if NoPlaceholderNames(tableName, columnDesc) {
        CreatePlaceholderFree(tableName, ifNotExists, columnDesc);
      }
    }
  }

  /** The column loop of `dump`: each description as name, space, type, after a
      `", "` for all but the first. */
  method WriteDescs(head: string, cs: seq<ColumnDesc>) returns (s: string)
    ensures s == head + Join(DescTexts(cs), ", ")
  {
    ghost var texts := DescTexts(cs);
    s := head;
    var first := true;
    var i := 0;
    while i < |cs|
      invariant 0 <= i <= |cs|
      invariant first <==> i == 0
      invariant s == head + Join(texts[..i], ", ")
    {
      JoinPrefixStep(head, texts, i, ", ", s);
      DescTextAt(cs, i);
      if !first {
        s := s + ", ";
      }
      first := false;
      s := s + cs[i].name + " " + cs[i].sqlType;
      i := i + 1;
    }
    assert texts[..i] == texts;
  }

  lemma {:induction false} DescTextAt(cs: seq<ColumnDesc>, i: nat)
    requires i < |cs|
    ensures DescTexts(cs)[i] == cs[i].name + " " + cs[i].sqlType
    decreases |cs|
  {
    if i < |cs| - 1 {
      assert cs[..|cs| - 1][i] == cs[i];
      DescTextAt(cs[..|cs| - 1], i);
    }
  }

  /** No type name holds a `?`. */
  lemma TypeNameAvoids(t: AppType)
    ensures '?' !in TypeName(t)
  {
  }

  lemma {:induction false} DescTextsAvoid(cs: seq<ColumnDesc>)
    requires forall i :: 0 <= i < |cs| ==> '?' !in cs[i].name && '?' !in cs[i].sqlType
    ensures CountAll('?', DescTexts(cs)) == 0
    decreases |cs|
  {
    if |cs| > 0 {
      var c := cs[|cs| - 1];
      assert DescTexts(cs)[..|cs| - 1] == DescTexts(cs[..|cs| - 1]);
      DescTextsAvoid(cs[..|cs| - 1]);
      CountConcat3('?', c.name, " ", c.sqlType);
      CountAbsent('?', c.name);
      CountAbsent('?', " ");
      CountAbsent('?', c.sqlType);
    }
  }

  /** No name or type of the statement contains a `?`. */
  predicate NoPlaceholderNames(tableName: string, cs: seq<ColumnDesc>) {
    '?' !in tableName && forall i :: 0 <= i < |cs| ==> '?' !in cs[i].name && '?' !in cs[i].sqlType
  }

  lemma CreateHeadCount(tableName: string, ifNotExists: bool)
    requires '?' !in tableName
    ensures Count('?', "CREATE TABLE " + (if ifNotExists then "IF NOT EXISTS " else "") + tableName) == 0
  {
    var flag := if ifNotExists then "IF NOT EXISTS " else "";
    CountAbsent('?', tableName);
    FlagCount(ifNotExists);
    CountAbsent('?', "CREATE TABLE ");
    CountConcat3('?', "CREATE TABLE ", flag, tableName);
  }

  lemma FlagCount(ifNotExists: bool)
    ensures Count('?', if ifNotExists then "IF NOT EXISTS " else "") == 0
  {
    if ifNotExists {
      CountAbsent('?', "IF NOT EXISTS ");
    }
  }

  lemma CreateBodyCount(cs: seq<ColumnDesc>)
    requires forall i :: 0 <= i < |cs| ==> '?' !in cs[i].name && '?' !in cs[i].sqlType
    ensures Count('?', " (" + Join(DescTexts(cs), ", ") + ")") == 0
  {
    DescTextsAvoid(cs);
    ParenthesisedCount(DescTexts(cs));
  }

  lemma ParenthesisedCount(texts: seq<string>)
    requires CountAll('?', texts) == 0
    ensures Count('?', " (" + Join(texts, ", ") + ")") == 0
  {
    CountJoin('?', texts, ", ");
    CountAbsent('?', " (");
    CountAbsent('?', ")");
    CountConcat3('?', " (", Join(texts, ", "), ")");
  }

  /** A CREATE TABLE text holds no `?` unless a name or a type does: it needs no
      binds. */
  lemma CreatePlaceholderFree(tableName: string, ifNotExists: bool, cs: seq<ColumnDesc>)
    requires NoPlaceholderNames(tableName, cs)
    ensures Count('?', RenderCreate(tableName, ifNotExists, cs)) == 0
  {
    var head := "CREATE TABLE " + (if ifNotExists then "IF NOT EXISTS " else "") + tableName;
    var body := " (" + Join(DescTexts(cs), ", ") + ")";
    CreateHeadCount(tableName, ifNotExists);
    CreateBodyCount(cs);
    assert RenderCreate(tableName, ifNotExists, cs) == head + body;
    CountConcat('?', head, body);
  }

  /** The description of column `n`: its name and the type name of its storage
      kind `Row[n]`. */
  function DescribeColumn(t: Table, n: nat): (c: ColumnDesc)
    requires ValidTable(t) && n < ColumnCount(t)
    ensures c.name == GetColumnName(t, n) && c.sqlType != "UNKNOWN"
  {
    ColumnDesc(GetColumnName(t, n), TypeName(StorageType(Row(t)[n])))
  }

  /** The descriptions of the columns `0 .. n-1`, in index order. */
  function Describe(t: Table, n: nat): (r: seq<ColumnDesc>)
    requires ValidTable(t) && n <= ColumnCount(t)
    ensures |r| == n
    decreases n
  {
    if n == 0 then [] else Describe(t, n - 1) + [DescribeColumn(t, n - 1)]
  }

  /** `insertColumns<N>`: adds column `N`, then goes on while `N + 1 < COLUMN_COUNT`.
      Column 0 is always added, so a table needs at least one column. */
  method InsertColumns(d: CreateTableData, t: Table)
    requires ValidTable(t) && ColumnCount(t) >= 1
    modifies d
    ensures d.columnDesc == old(d.columnDesc) + Describe(t, ColumnCount(t))
    ensures d.tableName == old(d.tableName) && d.ifNotExists == old(d.ifNotExists)
  {
    var n := 0;
    d.AddColumnDesc(GetColumnName(t, n), TypeName(StorageType(Row(t)[n])));
    while n + 1 < ColumnCount(t)
      invariant 0 <= n < ColumnCount(t)
      invariant d.columnDesc == old(d.columnDesc) + Describe(t, n + 1)
      invariant d.tableName == old(d.tableName) && d.ifNotExists == old(d.ifNotExists)
    {
      n := n + 1;
      d.AddColumnDesc(GetColumnName(t, n), TypeName(StorageType(Row(t)[n])));
    }
  }

  /** `CreateTable::make`: the table's name, the flag, and every column. */
  method MakeCreate(t: Table, ifNotExists: bool) returns (d: CreateTableData)
    requires ValidTable(t) && ColumnCount(t) >= 1
    ensures fresh(d)
    ensures d.tableName == t.name && d.ifNotExists == ifNotExists
    ensures d.columnDesc == Describe(t, ColumnCount(t))
  {
    d := new CreateTableData(t.name, ifNotExists);
    InsertColumns(d, t);
  }

  /** `createTable(table)`. */
  method CreateTable(t: Table) returns (d: CreateTableData)
    requires ValidTable(t) && ColumnCount(t) >= 1
    ensures fresh(d)
    ensures d.tableName == t.name && !d.ifNotExists
    ensures d.columnDesc == Describe(t, ColumnCount(t))
  {
    d := MakeCreate(t, false);
  }

  /** `createTableIfNotExists(table)`. */
  method CreateTableIfNotExists(t: Table) returns (d: CreateTableData)
    requires ValidTable(t) && ColumnCount(t) >= 1
    ensures fresh(d)
    ensures d.tableName == t.name && d.ifNotExists
    ensures d.columnDesc == Describe(t, ColumnCount(t))
  {
    d := MakeCreate(t, true);
  }

  /** The storage kind a column type name stands for: the inverse of the type
      names of the storage types. */
  function KindOfTypeName(s: string): (k: Option<Kind>)
    ensures k.Some? ==> k.value != Bool && TypeName(StorageType(k.value)) == s
  {
    if s == "INTEGER" then Some(Integer)
    else if s == "REAL" then Some(Real)
    else if s == "TEXT" then Some(Text)
    else if s == "BLOB" then Some(Blob)
    else None
  }

  /** Column `n` of a description names column `n` of the table and gives back
      its storage kind `Row[n]`: the description determines the row. */
  lemma {:induction false} DescribeRecoversRow(t: Table, n: nat)
    requires ValidTable(t) && n <= ColumnCount(t)
    ensures forall i :: 0 <= i < n ==>
      Describe(t, n)[i].name == t.columnNames[i] &&
      KindOfTypeName(Describe(t, n)[i].sqlType) == Some(Row(t)[i])
    decreases n
  {
    if n > 0 {
      DescribeRecoversRow(t, n - 1);
      var k := Row(t)[n - 1];
      assert KindOfTypeName(TypeName(StorageType(k))) == Some(k) by {
        match k {
          case Integer =>
          case Real =>
          case Text =>
          case Blob =>
        }
      }
    }
  }

  /** The descriptions of `Test(int, string, double)`. */
  function TestDescs(): seq<ColumnDesc> {
    [ColumnDesc("id", "INTEGER"), ColumnDesc("comment", "TEXT"), ColumnDesc("value", "REAL")]
  }

  lemma DescribeTestTable()
    ensures Describe(TestTable(), 3) == TestDescs()
  {
    var t := TestTable();
    assert Describe(t, 1) == [TestDescs()[0]];
    assert Describe(t, 2) == TestDescs()[..2];
  }

  lemma TestDescTexts()
    ensures Join(DescTexts(TestDescs()), ", ") == "id INTEGER, comment TEXT, value REAL"
  {
    TestDescTextList();
    JoinThree("id INTEGER", "comment TEXT", "value REAL");
  }

  lemma JoinThree(a: string, b: string, c: string)
    ensures Join([a, b, c], ", ") == a + ", " + b + ", " + c
  {
    JoinSnoc([a], b, ", ");
    JoinSnoc([a, b], c, ", ");
    assert [a] + [b] == [a, b] && [a, b] + [c] == [a, b, c];
  }

  lemma TestDescTextList()
    ensures DescTexts(TestDescs()) == ["id INTEGER", "comment TEXT", "value REAL"]
  {
    var cs := TestDescs();
    assert DescText(cs[0]) == "id INTEGER";
    assert DescText(cs[1]) == "comment TEXT";
    assert DescText(cs[2]) == "value REAL";
    assert cs[..2] == [cs[0], cs[1]] && [cs[0], cs[1]][..1] == [cs[0]];
  }

  /** `createTable(test)` on `Test(int, string, double)` lists
      `id INTEGER, comment TEXT, value REAL`. */
  lemma CreateTestTable()
    ensures Join(DescTexts(Describe(TestTable(), ColumnCount(TestTable()))), ", ")
         == "id INTEGER, comment TEXT, value REAL"
  {
    DescribeTestTable();
    TestDescTexts();
  }
}
