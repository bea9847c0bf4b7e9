/** Tables and columns of `source/sqlpp/table.h` and `source/sqlpp/column.h`,
    with the `Value` (`col <<= v`) and `Assignment` (`col = e`) records they
    produce. */
module Schema {
  import opened Wrappers
  import opened Types
  import opened Nodes
  import opened Expression
  import opened Strings

  /** `Table<T, V...>`: the table class `id`, its name, the declared value types
      `V...`, and the column names. Name and column names never change. */
  datatype Table = Table(id: TableId, name: string, valueTypes: seq<AppType>, columnNames: seq<string>)

  /** Every declared value type has a storage kind (otherwise `Row` does not
      exist), and there is one name per column. */
  predicate ValidTable(t: Table) {
    |t.columnNames| == |t.valueTypes| &&
    forall i :: 0 <= i < |t.valueTypes| ==> DbType(t.valueTypes[i]).Some?
  }

  /** The constructor: the name array has exactly `COLUMN_COUNT` slots, so fewer
      names leave the remaining slots empty. */
  function MakeTable(id: TableId, name: string, valueTypes: seq<AppType>, names: seq<string>): (t: Table)
    requires |names| <= |valueTypes|
    requires forall i :: 0 <= i < |valueTypes| ==> DbType(valueTypes[i]).Some?
    ensures ValidTable(t) && t.id == id && t.name == name && t.valueTypes == valueTypes
    ensures forall i :: 0 <= i < |valueTypes| ==>
      t.columnNames[i] == if i < |names| then names[i] else ""
  {
    Table(id, name, valueTypes, names + Repeat("", |valueTypes| - |names|))
  }

  /** `COLUMN_COUNT`: the number of declared value types. */
  function ColumnCount(t: Table): (n: nat)
    ensures n == |t.valueTypes|
  {
    Size(t.valueTypes)
  }

  /** `Row`: the storage kind of each column, in declaration order. */
  function Row(t: Table): (r: seq<Kind>)
    requires ValidTable(t)
    ensures |r| == ColumnCount(t)
    ensures forall i :: 0 <= i < |r| ==> Some(r[i]) == DbType(t.valueTypes[i]) && r[i] != Bool
  {
    seq(|t.valueTypes|, i requires 0 <= i < |t.valueTypes| => DbType(t.valueTypes[i]).value)
  }

  /** `getColumnName(i)`, for an index within the array. */
  function GetColumnName(t: Table, i: nat): (r: string)
    requires ValidTable(t) && i < ColumnCount(t)
    ensures r in t.columnNames
  {
    t.columnNames[i]
  }

  /** Column `i` is named with the `i`-th constructor argument. */
  lemma ColumnNameIsArgument(id: TableId, name: string, valueTypes: seq<AppType>, names: seq<string>, i: nat)
    requires |names| <= |valueTypes|
    requires forall k :: 0 <= k < |valueTypes| ==> DbType(valueTypes[k]).Some?
    requires i < |names|
    ensures GetColumnName(MakeTable(id, name, valueTypes, names), i) == names[i]
  {
  }

  /** `Column<T, V, I>`: the table, the value type `V`, the index `I` and the name. */
  datatype Column = Column(table: Table, valueType: AppType, index: nat, name: string)

  predicate ValidColumn(c: Column) {
    ValidTable(c.table) && c.index < ColumnCount(c.table)
    && c.valueType == c.table.valueTypes[c.index]
    && c.name == c.table.columnNames[c.index]
  }

  /** `table.column<N>()`. */
  function ColumnAt(t: Table, n: nat): (c: Column)
    requires ValidTable(t) && n < ColumnCount(t)
    ensures ValidColumn(c)
    ensures c.table == t && c.index == n && c.name == GetColumnName(t, n)
    ensures ColumnKind(c) == Row(t)[n]
  {
    Column(t, t.valueTypes[n], n, t.columnNames[n])
  }

  /** The column's storage kind `DbType<V>`. */
  function ColumnKind(c: Column): (k: Kind)
    requires ValidColumn(c)
    ensures Some(k) == DbType(c.valueType) && k != Bool
  {
    DbType(c.valueType).value
  }

  /** The expression a column is: a leaf rendering `table.name`, with the
      singleton type-level table set of its table class and no binds. */
  function ColumnExpr(c: Column): (e: Expr)
    requires ValidColumn(c)
    ensures WellFormed(e) && e.kind == ColumnKind(c)
    ensures e.tables == MakeSet([c.table.id]) && e.tables == [c.table.id]
    ensures Elems(e.data.tables) == {c.table.name} && e.data.binds == []
    ensures DataDump(e.data) == c.table.name + "." + c.name
  {
    Expr(MakeSet([c.table.id]), ColumnKind(c), ColumnData(c.table.name, c.name))
  }

  /** `Value<T, V, I>`: a column together with the converted value to store in it. */
  datatype Value = Value(column: Column, bind: Bind)

  /** `col <<= v`: the value is converted to the column's storage kind. */
  function ShiftIn(c: Column, b: Bind): (v: Value)
    requires ValidColumn(c) && BindKind(b) == ColumnKind(c)
    ensures ValidColumn(v.column) && v.column.index == c.index && v.column.table.id == c.table.id
    ensures BindKind(v.bind) == ColumnKind(v.column) && v.bind == b
  {
    Value(c, b)
  }

  /** `Assignment<T, V, I>`: a column together with an expression of its table. */
  datatype Assignment = Assignment(column: Column, expr: Expr)

  /** `col = e`: accepted only when the expression's term kind is the column's
      storage kind and (as the assignment's expression type demands) its table
      set is exactly the column's own table. */
  function Assign(c: Column, e: Expr): (r: Result<Assignment>)
    requires ValidColumn(c)
    ensures r.Ok? <==> e.kind == ColumnKind(c) && e.tables == [c.table.id]
    ensures r.Ok? ==> r.value.column == c && r.value.expr == e
  {
    MakeSetSingleton(c.table.id);
    if e.kind == ColumnKind(c) && e.tables == MakeSet([c.table.id]) then Ok(Assignment(c, e))
    else Err("no assignment for this expression")
  }

  /** An arithmetic expression over columns of the assigned column's own table
      can be assigned; a column of another table class cannot. */
  lemma SameTableAssignable(c: Column, d: Column, op: BinaryOp, p1: Passing, p2: Passing, other: Column)
    requires ValidColumn(c) && ValidColumn(d) && ValidColumn(other)
    requires d.table.id == c.table.id && other.table.id != c.table.id
    requires ColumnKind(d) == ColumnKind(c) == ColumnKind(other)
    requires op.PLUS? && ColumnKind(c) == Integer
    ensures ApplyBinary(op, ColumnExpr(c), p1, ColumnExpr(d), p2).Ok?
    ensures Assign(c, ApplyBinary(op, ColumnExpr(c), p1, ColumnExpr(d), p2).value).Ok?
    ensures Assign(c, ColumnExpr(other)).Err?
  {
    var e := ApplyBinary(op, ColumnExpr(c), p1, ColumnExpr(d), p2).value;
    MergeSmall([c.table.id], [c.table.id]);
    assert Merge2([c.table.id], [c.table.id]) == [c.table.id];
    assert e.tables == [c.table.id];
  }

  /** `t.id + 1`, the value on the right: one bind, under the sum. Naming it
      (`auto e = t.id + 1;`) and multiplying by a value gives the case of
      `Expression.NamedTimesValue`: binds `[2, 1]` for placeholders read `1, 2`. */
  lemma ColumnPlusValue(c: Column, b: Bind)
    requires ValidColumn(c) && ColumnKind(c) == Integer
    ensures var e := ApplyWithValue(BinaryOp.PLUS, ColumnExpr(c), Rvalue, Int64, b, false);
      e.Ok? && e.value.kind == Integer && e.value.data.binds == [b] && LeafBinds(e.value.data.root.value) == [b]
  {
    var col := ColumnExpr(c);
    assert Admits(BinaryRule(BinaryOp.PLUS), Integer) && DbType(Int64) == Some(Integer);
    var e := ApplyWithValue(BinaryOp.PLUS, col, Rvalue, Int64, b, false);
    assert LeafBinds(col.data.root.value) == [];
    assert e.value.data.root.value == Binary(BinaryOp.PLUS, col.data.root.value, PlaceholderLeaf(b));
  }

  /** The table of the type checks: `Test(int, string, double)` with columns
      `id`, `comment` and `value`. */
  function TestTable(): (t: Table)
    ensures ValidTable(t) && ColumnCount(t) == 3 && t.name == "Test"
    ensures Row(t) == [Integer, Text, Real]
    ensures t.columnNames == ["id", "comment", "value"]
  {
    MakeTable("TestTable", "Test", [Integral("int"), StdString, Double], ["id", "comment", "value"])
  }

  /** The second table of the type checks: `Another(int, string)`. */
  function AnotherTable(): (t: Table)
    ensures ValidTable(t) && ColumnCount(t) == 2 && t.name == "Another"
    ensures Row(t) == [Integer, Text] && t.id != TestTable().id
  {
    MakeTable("AnotherTable", "Another", [Integral("int"), StdString], ["id", "value"])
  }

  /** Comparing two columns of different storage kinds is rejected; comparing
      two of the same kind is accepted and yields a condition. */
  lemma ColumnComparison(op: BinaryOp, t: Table, i: nat, p1: Passing, j: nat, p2: Passing)
    requires ValidTable(t) && i < ColumnCount(t) && j < ColumnCount(t) && IsComparison(op)
    ensures ApplyBinary(op, ColumnExpr(ColumnAt(t, i)), p1, ColumnExpr(ColumnAt(t, j)), p2).Ok? <==> Row(t)[i] == Row(t)[j]
  {
    ComparisonYieldsCondition(op, ColumnExpr(ColumnAt(t, i)), p1, ColumnExpr(ColumnAt(t, j)), p2);
  }

  /** Comparing a Text column with a Real column is rejected, while comparing two
      columns of the same kind is accepted. */
  lemma TextRealComparisonRejected()
    ensures ApplyBinary(BinaryOp.GT, ColumnExpr(ColumnAt(TestTable(), 1)), Rvalue, ColumnExpr(ColumnAt(TestTable(), 2)), Rvalue).Err?
    ensures ApplyBinary(BinaryOp.GT, ColumnExpr(ColumnAt(TestTable(), 0)), Rvalue, ColumnExpr(ColumnAt(TestTable(), 0)), Rvalue).Ok?
  {
    var t := TestTable();
    ColumnComparison(BinaryOp.GT, t, 1, Rvalue, 2, Rvalue);
    ColumnComparison(BinaryOp.GT, t, 0, Rvalue, 0, Rvalue);
  }
}
