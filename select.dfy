/** The SELECT statement of `source/sqlpp/stmt/select.h` and `select.cpp`:
    `SelectData` accumulates columns, tables, a WHERE root, GROUP BY and ORDER BY
    roots, binds and a limit, and renders them as one SQL text. */
module Select {
  import opened Wrappers
  import opened Types
  import opened Strings
  import opened Nodes
  import opened Expression
  import opened Schema

  function ListClause(keyword: string, ns: seq<Node>): string {
    if |ns| == 0 then "" else keyword + Join(DumpAll(ns), ", ")
  }

  function LimitClause(limit: Option<nat>): string {
    match limit
    case None => ""
    case Some(l) => " LIMIT " + NatToString(l)
  }

  /** The text of a SELECT statement: columns, tables, then each optional clause
      in a fixed order, present iff its part of the state is. */
  function RenderSelect(columns: seq<string>, tables: seq<string>, where: Option<Node>,
                        groupBy: seq<Node>, orderBy: seq<Node>, limit: Option<nat>): string
  {
    SelectHead(columns, tables) + WhereClause(where) + ListClause(" GROUP BY ", groupBy)
    + ListClause(" ORDER BY ", orderBy) + LimitClause(limit)
  }

  /** No column text, table name or column name of a tree contains a `?`. */
  predicate PlaceholderFree(columns: seq<string>, tables: seq<string>, where: Option<Node>,
                            groupBy: seq<Node>, orderBy: seq<Node>)
  {
    (forall i :: 0 <= i < |columns| ==> '?' !in columns[i]) &&
    (forall i :: 0 <= i < |tables| ==> '?' !in tables[i]) &&
    (where.Some? ==> NamesAvoid(where.value, '?')) &&
    AllAvoid(groupBy, '?') && AllAvoid(orderBy, '?')
  }

  lemma ListClauseCount(keyword: string, ns: seq<Node>)
    requires AllAvoid(ns, '?') && '?' !in keyword
    ensures Count('?', ListClause(keyword, ns)) == |NodesBinds(ns)|
  {
    if |ns| > 0 {
      CountConcat('?', keyword, Join(DumpAll(ns), ", "));
      CountAbsent('?', keyword);
      CountJoin('?', DumpAll(ns), ", ");
      DumpAllPlaceholderCount(ns);
    }
  }

  /** The part of a SELECT before its optional clauses. */
  function SelectHead(columns: seq<string>, tables: seq<string>): string {
    "SELECT " + Join(columns, ", ") + " FROM " + Join(tables, ", ")
  }

  lemma HeadCount(columns: seq<string>, tables: seq<string>)
    requires forall i :: 0 <= i < |columns| ==> '?' !in columns[i]
    requires forall i :: 0 <= i < |tables| ==> '?' !in tables[i]
    ensures Count('?', SelectHead(columns, tables)) == 0
  {
    CountJoin('?', columns, ", ");
    CountJoin('?', tables, ", ");
    CountAllAbsent('?', columns);
    CountAllAbsent('?', tables);
    CountConcat3('?', "SELECT ", Join(columns, ", "), " FROM ");
    CountConcat('?', "SELECT " + Join(columns, ", ") + " FROM ", Join(tables, ", "));
    CountAbsent('?', "SELECT ");
    CountAbsent('?', " FROM ");
  }

  lemma LimitCount(limit: Option<nat>)
    ensures Count('?', LimitClause(limit)) == 0
  {
    if limit.Some? {
      CountConcat('?', " LIMIT ", NatToString(limit.value));
      CountAbsent('?', " LIMIT ");
      CountAbsent('?', NatToString(limit.value));
    }
  }

  /** The text of a SELECT holds exactly one `?` per bind of its WHERE, GROUP BY
      and ORDER BY trees, in that order. */
  lemma SelectPlaceholderCount(columns: seq<string>, tables: seq<string>, where: Option<Node>,
                               groupBy: seq<Node>, orderBy: seq<Node>, limit: Option<nat>)
    requires PlaceholderFree(columns, tables, where, groupBy, orderBy)
    ensures Count('?', RenderSelect(columns, tables, where, groupBy, orderBy, limit))
         == |OptionBinds(where) + NodesBinds(groupBy) + NodesBinds(orderBy)|
  {
    var h, w := SelectHead(columns, tables), WhereClause(where);
    var g, o := ListClause(" GROUP BY ", groupBy), ListClause(" ORDER BY ", orderBy);
    var l := LimitClause(limit);
    assert RenderSelect(columns, tables, where, groupBy, orderBy, limit) == h + w + g + o + l;
    HeadCount(columns, tables);
    WhereCount(where);
    ListClauseCount(" GROUP BY ", groupBy);
    ListClauseCount(" ORDER BY ", orderBy);
    LimitCount(limit);
    CountConcat('?', h + w + g + o, l);
    CountConcat('?', h + w + g, o);
    CountConcat('?', h + w, g);
    CountConcat('?', h, w);
  }

  /** `SelectData`. The table set is kept duplicate-free in insertion order. */
  class SelectData {
    var columns: seq<string>
    var tables: seq<string>
    var binds: seq<Bind>
    var where: Option<Node>
    var groupBy: seq<Node>
    var orderBy: seq<Node>
    var limit: Option<nat>

    /** What the builders keep: the table set has no duplicates and the binds are
        those of the WHERE placeholders, then the GROUP BY ones, then the ORDER BY
        ones, each in left-to-right order. */
    predicate Valid()
      reads this
    {
      NoDup(tables) && binds == OptionBinds(where) + NodesBinds(groupBy) + NodesBinds(orderBy)
    }

    /** The text `dump` writes. */
    function Sql(): string
      reads this
    {
      RenderSelect(columns, tables, where, groupBy, orderBy, limit)
    }

    predicate PlaceholderFreeNames()
      reads this
    {
      PlaceholderFree(columns, tables, where, groupBy, orderBy)
    }

    constructor ()
      ensures columns == [] && tables == [] && binds == [] && where == None
      ensures groupBy == [] && orderBy == [] && limit == None
      ensures Valid()
    {
      columns, tables, binds, where := [], [], [], None;
      groupBy, orderBy, limit := [], [], None;
    }

    /** The copy constructor as written: every field but `limit`, which starts
        empty. */
    constructor CopyAsWritten(other: SelectData)
      ensures columns == other.columns && tables == other.tables && binds == other.binds
      ensures where == other.where && groupBy == other.groupBy && orderBy == other.orderBy
      ensures limit == None
    {
      var gs := CloneAll(other.groupBy);
      var os := CloneAll(other.orderBy);
      columns, tables, binds, where := other.columns, other.tables, other.binds, other.where;
      groupBy, orderBy, limit := gs, os, None;
    }

    /** The copy constructor as intended: every field, `limit` included, so the
        copy renders the same text and passes the same binds. */
    constructor Copy(other: SelectData)
      ensures columns == other.columns && tables == other.tables && binds == other.binds
      ensures where == other.where && groupBy == other.groupBy && orderBy == other.orderBy
      ensures limit == other.limit
      ensures Sql() == other.Sql() && (other.Valid() ==> Valid())
    {
      var gs := CloneAll(other.groupBy);
      var os := CloneAll(other.orderBy);
      columns, tables, binds, where := other.columns, other.tables, other.binds, other.where;
      groupBy, orderBy, limit := gs, os, other.limit;
    }

    /** Copy assignment as written: every field but `limit`, which keeps the
        target's own value. */
    method AssignAsWritten(other: SelectData)
      modifies this
      ensures columns == old(other.columns) && tables == old(other.tables) && binds == old(other.binds)
      ensures where == old(other.where) && groupBy == old(other.groupBy) && orderBy == old(other.orderBy)
      ensures limit == old(limit)
    {
      if this != other {
        var gs := CloneAll(other.groupBy);
      var os := CloneAll(other.orderBy);
        columns := other.columns;
        tables := other.tables;
        where := other.where;
        groupBy := gs;
        orderBy := os;
        binds := other.binds;
      }
    }

    /** Copy assignment as intended: the target becomes an exact copy. */
    method Assign(other: SelectData)
      modifies this
      ensures columns == old(other.columns) && tables == old(other.tables) && binds == old(other.binds)
      ensures where == old(other.where) && groupBy == old(other.groupBy) && orderBy == old(other.orderBy)
      ensures limit == old(other.limit)
      ensures Sql() == old(other.Sql()) && (old(other.Valid()) ==> Valid())
    {
      if this != other {
        var gs := CloneAll(other.groupBy);
      var os := CloneAll(other.orderBy);
        columns := other.columns;
        tables := other.tables;
        where := other.where;
        groupBy := gs;
        orderBy := os;
        binds := other.binds;
        limit := other.limit;
      }
    }

    /** `addColumn`: appends `table.column` and inserts the table. */
    method AddColumn(tableName: string, columnName: string)
      modifies this
      ensures columns == old(columns) + [tableName + "." + columnName]
      ensures tables == SetInsert(old(tables), tableName)
      ensures Elems(tables) == Elems(old(tables)) + {tableName}
      ensures binds == old(binds) && where == old(where) && groupBy == old(groupBy)
      ensures orderBy == old(orderBy) && limit == old(limit)
      ensures old(Valid()) ==> Valid()
    {
      columns := columns + [tableName + "." + columnName];
      tables := SetInsert(tables, tableName);
    }

    /** `addCondition`: unions the condition's tables in, replaces the WHERE root
        and appends the condition's binds. Starting from a statement with no
        WHERE, GROUP BY or ORDER BY, a coherent condition keeps it valid. */
    method AddCondition(cond: Data)
      modifies this
      ensures tables == SetInsertAll(old(tables), cond.tables)
      ensures Elems(tables) == Elems(old(tables)) + Elems(cond.tables)
      ensures where == cond.root && binds == old(binds) + cond.binds
      ensures columns == old(columns) && groupBy == old(groupBy) && orderBy == old(orderBy) && limit == old(limit)
      ensures old(Valid()) && old(where).None? && old(groupBy) == [] && old(orderBy) == [] && Coherent(cond)
        ==> Valid()
    {
      tables := InsertEach(tables, cond.tables);
      where := cond.root;
      binds := binds + cond.binds;
    }

    /** `addGroupBy`: appends the root and its binds; the tables are unchanged. */
    method AddGroupBy(group: Data)
      requires group.IsSet()
      modifies this
      ensures groupBy == old(groupBy) + [group.root.value] && binds == old(binds) + group.binds
      ensures columns == old(columns) && tables == old(tables) && where == old(where)
      ensures orderBy == old(orderBy) && limit == old(limit)
      ensures old(Valid()) && old(orderBy) == [] && Coherent(group) ==> Valid()
    {
      NodesBindsSnoc(groupBy, group.root.value);
      groupBy := groupBy + [group.root.value];
      binds := binds + group.binds;
    }

    /** `addOrderBy`: appends the root and its binds; the tables are unchanged. */
    method AddOrderBy(order: Data)
      requires order.IsSet()
      modifies this
      ensures orderBy == old(orderBy) + [order.root.value] && binds == old(binds) + order.binds
      ensures columns == old(columns) && tables == old(tables) && where == old(where)
      ensures groupBy == old(groupBy) && limit == old(limit)
      ensures old(Valid()) && Coherent(order) ==> Valid()
    {
      NodesBindsSnoc(orderBy, order.root.value);
      orderBy := orderBy + [order.root.value];
      binds := binds + order.binds;
    }

    /** `addLimit`. */
    method AddLimit(l: nat)
      modifies this
      ensures limit == Some(l)
      ensures columns == old(columns) && tables == old(tables) && where == old(where)
      ensures groupBy == old(groupBy) && orderBy == old(orderBy) && binds == old(binds)
      ensures Valid() == old(Valid())
    {
      limit := Some(l);
    }

    /** `dump`. */
    method Dump() returns (s: string)
      ensures s == Sql()
    {
      s := WriteJoined("SELECT ", columns);
      s := WriteJoined(s + " FROM ", tables);
      s := WriteWhere(s, where);
      s := WriteList(s, " GROUP BY ", groupBy);
      s := WriteList(s, " ORDER BY ", orderBy);
      s := WriteLimit(s, limit);
    }

    /** `execute`: the text together with the binds in accumulated order, one
        bind per placeholder of the text. */
    method Execute() returns (sql: string, args: seq<Bind>)
      ensures sql == Sql() && args == binds
      ensures Valid() && PlaceholderFreeNames() ==> Count('?', sql) == |args|
    {
      sql := Dump();
      args := binds;
      if Valid() && PlaceholderFreeNames() {
        SelectPlaceholderCount(columns, tables, where, groupBy, orderBy, limit);
      }
    }
  }

  /** The GROUP BY / ORDER BY part of `dump`: the keyword and the roots joined,
      only when there is at least one root. */
  method WriteList(s0: string, keyword: string, ns: seq<Node>) returns (s: string)
    ensures s == s0 + ListClause(keyword, ns)
  {
    s := s0;
    if |ns| > 0 {
      s := WriteJoined(s + keyword, DumpAll(ns));
    }
  }

  /** The LIMIT part of `dump`. */
  method WriteLimit(s0: string, limit: Option<nat>) returns (s: string)
    ensures s == s0 + LimitClause(limit)
  {
    s := s0;
    if limit.Some? {
      s := s + " LIMIT " + NatToString(limit.value);
    }
  }

  /** The clone loop of the copy operations: one clone per root, in order. */
  method CloneAll(ns: seq<Node>) returns (r: seq<Node>)
    ensures r == ns
  {
    r := [];
    var i := 0;
    while i < |ns|
      invariant 0 <= i <= |ns| && r == ns[..i]
    {
      r := r + [ns[i]];
      i := i + 1;
    }
    assert ns[..i] == ns;
  }

  /** An item of a select list: a whole table or one column. */
  datatype SelectItem = WholeTable(table: Table) | OneColumn(column: Column)

  /** `selectColumn`: `table.*` for a table, `table.column` for a column. */
  function ItemText(item: SelectItem): (r: string)
    ensures item.WholeTable? ==> r == item.table.name + ".*"
    ensures item.OneColumn? ==> r == item.column.table.name + "." + item.column.name
  {
    match item
    case WholeTable(t) => t.name + "." + "*"
    case OneColumn(c) => c.table.name + "." + c.name
  }

  function ItemTable(item: SelectItem): Table {
    match item
    case WholeTable(t) => t
    case OneColumn(c) => c.table
  }

  /** `Select::Tables`: the table class of every item, in order. */
  function SelectTables(items: seq<SelectItem>): (r: seq<TableId>)
    ensures |r| == |items| && forall i :: 0 <= i < |items| ==> r[i] == ItemTable(items[i]).id
  {
    MakeList(seq(|items|, i requires 0 <= i < |items| => ItemTable(items[i]).id))
  }

  /** The column texts of a select list, in order. */
  function ItemTexts(items: seq<SelectItem>): (r: seq<string>)
    ensures |r| == |items|
    decreases |items|
  {
    if |items| == 0 then [] else ItemTexts(items[..|items| - 1]) + [ItemText(items[|items| - 1])]
  }

  /** Column `i` of a select is the text of item `i`. */
  lemma {:induction false} ItemTextsAt(items: seq<SelectItem>, i: nat)
    requires i < |items|
    ensures ItemTexts(items)[i] == ItemText(items[i])
    decreases |items|
  {
    if i < |items| - 1 {
      ItemTextsAt(items[..|items| - 1], i);
    }
  }

  /** The names of the tables of a select list. */
  function ItemTableNames(items: seq<SelectItem>): set<string>
    decreases |items|
  {
    if |items| == 0 then {}
    else ItemTableNames(items[..|items| - 1]) + {ItemTable(items[|items| - 1]).name}
  }

  /** `selectColumn`: one `addColumn` for a table (`*`) or a column. */
  method SelectColumn(d: SelectData, item: SelectItem)
    modifies d
    ensures d.columns == old(d.columns) + [ItemText(item)]
    ensures Elems(d.tables) == Elems(old(d.tables)) + {ItemTable(item).name}
    ensures old(NoDup(d.tables)) ==> NoDup(d.tables)
    ensures d.binds == old(d.binds) && d.where == old(d.where) && d.groupBy == old(d.groupBy)
    ensures d.orderBy == old(d.orderBy) && d.limit == old(d.limit)
  {
    match item {
      case WholeTable(t) => d.AddColumn(t.name, "*");
      case OneColumn(c) => d.AddColumn(c.table.name, c.name);
    }
  }

  lemma ItemsStep(items: seq<SelectItem>, i: nat)
    requires i < |items|
    ensures ItemTexts(items[..i + 1]) == ItemTexts(items[..i]) + [ItemText(items[i])]
    ensures ItemTableNames(items[..i + 1]) == ItemTableNames(items[..i]) + {ItemTable(items[i]).name}
  {
    assert items[..i + 1][..i] == items[..i];
  }

  /** `Select::make` / `select(...)` (`selectColumns`): one `selectColumn` per
      item, in argument order. */
  method MakeSelect(items: seq<SelectItem>) returns (d: SelectData)
    requires |items| > 0
    ensures fresh(d) && d.Valid()
    ensures d.columns == ItemTexts(items)
    ensures Elems(d.tables) == ItemTableNames(items)
    ensures d.binds == [] && d.where == None && d.groupBy == [] && d.orderBy == [] && d.limit == None
  {
    d := new SelectData();
    var i := 0;
    while i < |items|
      invariant 0 <= i <= |items|
      invariant d.columns == ItemTexts(items[..i])
      invariant NoDup(d.tables) && Elems(d.tables) == ItemTableNames(items[..i])
      invariant |d.binds| == 0 && d.where.None? && |d.groupBy| == 0 && |d.orderBy| == 0 && d.limit.None?
    {
      SelectColumn(d, items[i]);
      ItemsStep(items, i);
      i := i + 1;
    }
    assert items[..i] == items;
    assert d.binds == [] && d.groupBy == [] && d.orderBy == [];
    assert OptionBinds(d.where) + NodesBinds(d.groupBy) + NodesBinds(d.orderBy) == [];
  }

  /** `where` on a named statement: the statement data is copied by the copy
      constructor as written, so the copy starts without a `limit`; the copy
      gets the condition, and the original is left as it was. */
  method WhereCopy(sel: SelectData, cond: Expr) returns (w: SelectData)
    requires cond.kind == Bool
    ensures fresh(w)
    ensures w.columns == sel.columns && w.groupBy == sel.groupBy && w.orderBy == sel.orderBy && w.limit == None
    ensures Elems(w.tables) == Elems(sel.tables) + Elems(cond.data.tables)
    ensures w.where == cond.data.root && w.binds == sel.binds + cond.data.binds
    ensures sel.Valid() && sel.where.None? && sel.groupBy == [] && sel.orderBy == [] && WellFormed(cond)
      ==> w.Valid()
  {
    w := new SelectData.CopyAsWritten(sel);
    w.AddCondition(cond.data);
  }

  /** `where` on a temporary statement: its data moves into the result, which
      then gets the condition. */
  method WhereMove(sel: SelectData, cond: Expr) returns (w: SelectData)
    requires cond.kind == Bool
    modifies sel
    ensures w == sel
    ensures w.columns == old(sel.columns) && w.groupBy == old(sel.groupBy) && w.orderBy == old(sel.orderBy)
    ensures w.limit == old(sel.limit)
    ensures Elems(w.tables) == Elems(old(sel.tables)) + Elems(cond.data.tables)
    ensures w.where == cond.data.root && w.binds == old(sel.binds) + cond.data.binds
    ensures old(sel.Valid() && sel.where.None? && sel.groupBy == [] && sel.orderBy == []) && WellFormed(cond)
      ==> w.Valid()
  {
    sel.AddCondition(cond.data);
    w := sel;
  }

  /** The copy constructor as written loses a limit: the copy renders a
      different text from the original. */
  method CopyLosesLimit() returns (original: string, copied: string)
    ensures original == copied + " LIMIT 5"
  {
    var d := new SelectData();
    d.AddColumn("t", "a");
    d.AddLimit(5);
    var c := new SelectData.CopyAsWritten(d);
    original := d.Dump();
    copied := c.Dump();
    assert c.columns == d.columns && c.tables == d.tables && c.where == d.where;
    assert c.groupBy == d.groupBy && c.orderBy == d.orderBy && c.limit == None && d.limit == Some(5);
    LimitAppends(d.columns, d.tables, d.where, d.groupBy, d.orderBy, 5);
    LimitFiveText();
  }

  lemma LimitFiveText()
    ensures " LIMIT " + NatToString(5) == " LIMIT 5"
  {
    assert NatToString(5) == "5";
  }

  /** A limit adds its clause at the very end of the text. */
  lemma LimitAppends(columns: seq<string>, tables: seq<string>, where: Option<Node>,
                     groupBy: seq<Node>, orderBy: seq<Node>, l: nat)
    ensures RenderSelect(columns, tables, where, groupBy, orderBy, Some(l))
         == RenderSelect(columns, tables, where, groupBy, orderBy, None) + " LIMIT " + NatToString(l)
  {
  }
}
