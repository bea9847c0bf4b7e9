# sqlpp statement assembly, modelled in Dafny

sqlpp is a C++ SQL builder over SQLite. Tables and columns are typed objects. Expressions and
conditions are built from them with ordinary C++ operators, and the compiler rejects mismatched
storage kinds, wrong value counts, values from two tables and columns updated twice. Each statement
ends as SQL text plus an ordered list of binds, one per `?` placeholder.

This project models the core of that library:

- the type-level list algebra (`types.h`): `Contains`, `Size`, `Get`, `MakeList`, `Concat`, `Add`,
  `MakeSet`, `Merge2`/`Merge`, `IntList`, and the storage-kind mapping with its `TypeName`s;
- the expression tree and its `Data` record (`expr/node.h`, `expr/node.cpp`). This covers operator
  codes and tokens, precedence, the parenthesising `dump`, and the `Data` constructors that merge
  table sets and concatenate binds. A separate module gives the renderer with its right-operand
  rule corrected, and a reader that turns that renderer's token stream back into the tree;
- the typed `Expression`/`Condition` layer (`expr/expression.h`, `expr/condition.h`). Its
  overload-resolution rules become functions that return `Err` where the C++ has no overload;
- tables, columns, `col <<= v` and `col = e` (`table.h`, `column.h`);
- the four statement builders (`stmt/select`, `stmt/update`, `stmt/insert`, `stmt/create`). Each
  `*Data` object is a Dafny class whose methods update its fields in place. Its `Dump` method loops
  like the C++ `dump`, and is proved equal to a pure render function.

The main results are:

- Every statement's text holds exactly one `?` per bind of its expression trees. Every expression
  keeps as many binds as placeholders, however its operands were passed. The binds follow the
  placeholder order except in one case: a named left operand combined with a temporary right
  operand, when both sides carry binds (see Findings).
- Operator kind rules, the insert count and kind checks, and the update duplicate-index check each
  hold in both directions. Each is stated against a plain description of what it accepts.
- Four places in the source break these properties. Each is modelled as written and also as
  intended (see Findings).

Modules, one file each: `Wrappers`, `Types`, `Strings` (joining and counting helpers), `Nodes`,
`Reading` (the corrected renderer and its reader), `Expression`, `Schema`, `Select`, `Update`,
`Insert`, `Create`.

## Model

| member | source | states |
|---|---|---|
| Types.DbType | source/sqlpp/types.h:69-133 | a type has a storage kind iff it has a converter; a storage kind is never `bool` |
| Types.StorageType | source/sqlpp/types.h:19-22 | the storage type of a kind maps back to that kind and has a real type name |
| Types.TypeName | source/sqlpp/types.h:24-67 | the name is `UNKNOWN` exactly for the types other than the four storage types |
| Types.TypeNameInjective | source/sqlpp/types.h:33-67 | distinct storage kinds get distinct column type names |
| Types.Contains | source/sqlpp/types.h:219-235 | the recursive `Contains` of an element is membership |
| Types.ContainsList | source/sqlpp/types.h:237-241 | `Contains` of a list means every element is contained; the empty list is in every list |
| Types.Size | source/sqlpp/types.h:243-259 | `Size` counts the elements |
| Types.Get | source/sqlpp/types.h:201-217 | `Get<I, L>` by recursion on the tail is the 0-based `I`-th element |
| Types.MakeList | source/sqlpp/types.h:285-301 | building by prepending lists the arguments in order |
| Types.Concat2 | source/sqlpp/types.h:315-325 | moving `L2`'s elements one by one to the back of `L1` gives `L1 ++ L2` |
| Types.Concat | source/sqlpp/types.h:303-331 | the n-ary left fold is the lists one after another (`Flatten`), so its length is the sum of the lengths |
| Types.Add | source/sqlpp/types.h:333-343 | the element set grows by `U`; no duplicate is introduced; a contained `U` leaves `L` unchanged |
| Types.AddIdempotent | source/sqlpp/types.h:339-343 | adding twice equals adding once |
| Types.MakeSet | source/sqlpp/types.h:345-361 | holds every argument and no element twice |
| Types.MakeSetSingleton | source/sqlpp/types.h:351-361 | `MakeSet<T>` is the one-element list |
| Types.Merge2 | source/sqlpp/types.h:393-403 | holds every element of both lists; no duplicates when `L1` has none |
| Types.Merge2EmptyLeft | source/sqlpp/types.h:393-403 | merging a duplicate-free list into the empty list returns it in order |
| Types.Merge2EmptyRight | source/sqlpp/types.h:399-403 | merging the empty list changes nothing |
| Types.Merge | source/sqlpp/types.h:363-391 | the n-ary left fold holds the union of all lists; no duplicates when the first has none |
| Types.MergeSmall | source/sqlpp/types.h:375-391 | `Merge` of one list is that list and of two lists is `Merge2` |
| Types.IntListContains | source/sqlpp/types.h:405-424 | `contains(j)` is true iff `j` is one of the listed indices |
| Types.AddIntList | source/sqlpp/types.h:426-436 | `J` is put in front of the list |
| Nodes.UnaryCode | source/sqlpp/expr/node.h:68-73 | each unary code indexes the token table |
| Nodes.BinaryCode | source/sqlpp/expr/node.h:93-111 | each of the 17 binary codes indexes the token table |
| Nodes.CodesInjective | source/sqlpp/expr/node.cpp:61-64 | distinct operators get distinct table slots, so each has its own token |
| Nodes.BinaryPrecedence | source/sqlpp/expr/node.cpp:81-121 | only AND and OR rank at or below AND; every operator ranks between OR and MUL |
| Nodes.PrecedenceOf | source/sqlpp/expr/node.cpp:56-58 | leaves have precedence VALUE and unary nodes UNARY, and no other node does (also line 37) |
| Nodes.Dump | source/sqlpp/expr/node.cpp:123-133 | the rendering of a node is never empty (also lines 39-43, 60-67) |
| Nodes.DumpWrap | source/sqlpp/expr/node.cpp:123-133 | the `parenthesis` flag only wraps the unflagged text in `(` `)` (also lines 39-43, 60-67) |
| Nodes.LeafText | source/sqlpp/expr/node.cpp:28-31 | a column leaf renders `table.field` and a placeholder leaf `?` |
| Nodes.DumpPlaceholderCount | source/sqlpp/expr/node.cpp:123-133 | a tree's text holds exactly one `?` per placeholder leaf (also lines 39-43, 60-67) |
| Nodes.DumpParenCount | source/sqlpp/expr/node.cpp:129-131 | the number of `(` in the text is the number of edges where a child binds more loosely than its parent, plus one if the node itself is wrapped (also line 65) |
| Nodes.DumpStripsToInfix | source/sqlpp/expr/node.cpp:123-133 | without its parentheses, the text is the plain infix reading of the tree (also lines 39-43, 60-67) |
| Nodes.RightNestingRendersLikeLeftNesting | source/sqlpp/expr/node.cpp:129-131 | `a - (b - c)` and `(a - b) - c` are different trees with the same text |
| Reading.CorrectedAgreesElsewhere | source/sqlpp/expr/node.cpp:123-133 | the corrected renderer prints what `dump` prints for every tree without a right operand of its parent's precedence |
| Reading.DumpIsTokenTexts | source/sqlpp/expr/node.cpp:123-133 | the corrected text is the texts of its tokens, in order |
| Reading.CorrectedRoundTrip | source/sqlpp/expr/node.cpp:129-131 | reading the corrected rendering's tokens back, with left-associative operators, gives the tree |
| Reading.CorrectedTokensInjective | source/sqlpp/expr/node.cpp:129-131 | distinct trees give distinct corrected token streams |
| Reading.CorrectedRightNesting | source/sqlpp/expr/node.cpp:129-131 | corrected, `a - (b - c)` prints `a - (b - c)` |
| Reading.CorrectedLeftNesting | source/sqlpp/expr/node.cpp:129-131 | corrected, `(a - b) - c` prints `a - b - c`, as `dump` does |
| Reading.RightNestingKeepsParens | source/sqlpp/expr/node.cpp:129-131 | corrected, `a - (b - c)` prints its parentheses and differs from `(a - b) - c` |
| Nodes.SetInsert | source/sqlpp/expr/node.h:156 | inserting into the table set adds the name and keeps the set duplicate-free |
| Nodes.SetInsertAll | source/sqlpp/expr/node.cpp:162 | inserting a range adds all its names and keeps the set duplicate-free (also lines 171, 180, 188) |
| Nodes.DataDump | source/sqlpp/expr/node.cpp:203-205 | the text is empty exactly when there is no root |
| Nodes.EmptyData | source/sqlpp/expr/node.cpp:135 | the empty `Data` is unset, renders nothing and is coherent |
| Nodes.ColumnData | source/sqlpp/expr/node.cpp:142-143 | a column `Data` has its table in the set, no binds, and renders `table.field` |
| Nodes.BindData | source/sqlpp/expr/node.cpp:145 | a bind `Data` has no tables, the one bind, and renders `?` |
| Nodes.UnaryData | source/sqlpp/expr/node.cpp:147-155 | keeps the child's tables and binds and keeps binds matching placeholders |
| Nodes.BinaryData | source/sqlpp/expr/node.cpp:157-173 | unions the tables and puts left binds before right ones, keeping binds matching placeholders (also lines 184-190) |
| Nodes.BinaryDataAsWritten | source/sqlpp/expr/node.cpp:157-190 | the four constructors: the (lvalue, rvalue) one puts the right binds first, the other three are `BinaryData`; all keep binds a rearrangement of the placeholders |
| Nodes.InsertEach | source/sqlpp/expr/node.cpp:162 | the `tables.insert(range)` loop gives the set union (also lines 171, 180, 188) |
| Nodes.ConstructBinary | source/sqlpp/expr/node.cpp:157-190 | the constructor bodies, run step by step, give the as-written `Data` |
| Nodes.AsWrittenReversesBinds | source/sqlpp/expr/node.cpp:175-182 | for `x AND y` built from (lvalue, rvalue), the binds come out as `[y, x]` while the placeholders read `x, y` |
| Nodes.DataPlaceholderCount | source/sqlpp/expr/node.cpp:203-205 | a coherent `Data` renders one `?` per bind |
| Nodes.BalancedPlaceholderCount | source/sqlpp/expr/node.cpp:203-205 | a `Data` whose binds are its placeholders in any order renders one `?` per bind |
| Nodes.WriteWhere | source/sqlpp/stmt/select.cpp:97-100 | writes ` WHERE ` and the condition iff there is a root |
| Expression.RuleTerm | source/sqlpp/expr/expression.h:75-110 | a kind rule has a term exactly when all operand kinds are equal and admitted; the term is that kind |
| Expression.AllOfKindMeans | source/sqlpp/expr/expression.h:78-83 | the variadic specialisation matches exactly the lists of one kind |
| Expression.NumericKindsDoNotMix | source/sqlpp/expr/expression.h:95-110 | Integer and Real never mix in arithmetic; equal numeric kinds do |
| Expression.ApplyUnary | source/sqlpp/expr/expression.h:112-128 | `-`/`+` need a numeric operand, `~` an integer one, and `!` a condition; the kind and tables are kept |
| Expression.ApplyBinary | source/sqlpp/expr/expression.h:130-290 | defined iff both operands share an admitted kind; comparisons yield a condition; tables are unioned; binds are left then right, except that a named left operand with a temporary right one puts the right binds first; binds always match placeholders in number (also lines 29-37) |
| Expression.MakeLiteral | source/sqlpp/expr/expression.h:54-64 | a literal exists iff the value converts to its kind; it has no tables and one bind |
| Expression.ApplyWithValue | source/sqlpp/expr/expression.h:136-147 | `e op v` is defined iff the rule admits `e`'s kind and `v` converts to it; the value's bind goes on its own side, except after a named `e`, where it comes first; binds always match placeholders in number |
| Expression.NamedTimesValue | source/sqlpp/expr/expression.h:136-141 | `e * v` with a named `e` binds `v` before `e`'s binds, though its `?` is printed after them; so `auto e = t.id + 1; e * 2` binds `[2, 1]` (also lines 29-37) |
| Expression.SoundPlaceholderCount | source/sqlpp/expr/node.cpp:203-205 | any expression, however its operands were passed, renders one `?` per bind |
| Expression.ValueRightIsLiteralForm | source/sqlpp/expr/expression.h:136-141 | `e op v` equals `e op Literal(v)` |
| Expression.ValueLeftIsLiteralForm | source/sqlpp/expr/expression.h:142-147 | `v op e` equals `Literal(v) op e` |
| Expression.ComparisonYieldsCondition | source/sqlpp/expr/condition.h:62-168 | a comparison is defined iff the kinds agree, and it yields a condition |
| Expression.ConnectivesNeedConditions | source/sqlpp/expr/condition.h:44-60 | `&&`, `\|\|` and `!` are defined exactly over conditions (also lines 170-181) |
| Expression.AsWrittenConditionOrder | source/sqlpp/expr/node.cpp:175-182 | `c1 && (temporary c2)` with named `c1` gives binds out of placeholder order |
| Schema.MakeTable | source/sqlpp/table.h:28-29 | the table keeps its name and types, with one name slot per column; missing names are empty |
| Schema.ColumnCount | source/sqlpp/table.h:26 | `COLUMN_COUNT` is the number of declared types |
| Schema.Row | source/sqlpp/table.h:18 | `Row` lists each column's storage kind in declaration order |
| Schema.GetColumnName | source/sqlpp/table.h:39 | returns one of the column names |
| Schema.ColumnNameIsArgument | source/sqlpp/table.h:28-29 | column `i` is named by the `i`-th constructor argument (also line 39) |
| Schema.ColumnAt | source/sqlpp/table.h:34-37 | `column<N>()` is column `N` of the table, with name `getColumnName(N)` and kind `Row[N]` (also lines 23-24) |
| Schema.ColumnKind | source/sqlpp/column.h:14-20 | the column's expression kind is `DbType<V>` |
| Schema.ColumnExpr | source/sqlpp/column.h:22-25 | a column expression has its own table as table set, no binds, and renders `table.name` |
| Schema.ShiftIn | source/sqlpp/column.h:37-40 | `col <<= v` keeps the column and a bind of its storage kind |
| Schema.Assign | source/sqlpp/column.h:42-46 | `col = e` exists iff `e`'s kind is the column's and its table set is the column's table |
| Schema.SameTableAssignable | source/sqlpp/column.h:42-46 | `a = a + b` over one table is accepted; another table's column is not |
| Schema.TestTable | tests/compile/check_types.cpp:5-14 | the test table has three columns with kinds Integer, Text and Real |
| Schema.AnotherTable | tests/compile/check_types.cpp:16-24 | the second test table is a different table class |
| Schema.ColumnComparison | source/sqlpp/expr/condition.h:62-168 | comparing two columns is accepted iff their storage kinds agree |
| Schema.ColumnPlusValue | source/sqlpp/expr/expression.h:136-141 | `t.id + 1` is accepted for an integer column and holds one bind, under the sum |
| Schema.TextRealComparisonRejected | tests/compile/check_types.cpp:47-49 | `comment > value` (Text against Real) is rejected |
| Select.SelectPlaceholderCount | source/sqlpp/stmt/select.cpp:81-123 | a SELECT text holds one `?` per WHERE, GROUP BY and ORDER BY placeholder |
| Select.SelectData.constructor | source/sqlpp/stmt/select.cpp:12 | starts empty and valid |
| Select.SelectData.CopyAsWritten | source/sqlpp/stmt/select.cpp:14-19 | copies every field but `limit`, which starts unset |
| Select.SelectData.Copy | source/sqlpp/stmt/select.cpp:14-19 | the intended copy: every field, so the same text |
| Select.SelectData.AssignAsWritten | source/sqlpp/stmt/select.cpp:23-38 | copies every field but `limit`, which keeps the target's value |
| Select.SelectData.Assign | source/sqlpp/stmt/select.cpp:23-38 | the intended assignment: an exact copy, so the same text |
| Select.SelectData.AddColumn | source/sqlpp/stmt/select.cpp:42-45 | appends `table.column` and inserts the table; nothing else changes |
| Select.SelectData.AddCondition | source/sqlpp/stmt/select.cpp:47-57 | unions the condition's tables, replaces the root and appends its binds |
| Select.SelectData.AddGroupBy | source/sqlpp/stmt/select.cpp:59-67 | appends the root and its binds; the tables do not change |
| Select.SelectData.AddOrderBy | source/sqlpp/stmt/select.cpp:69-77 | appends the root and its binds; the tables do not change |
| Select.SelectData.AddLimit | source/sqlpp/stmt/select.cpp:79 | sets `limit`; nothing else changes |
| Select.SelectData.Dump | source/sqlpp/stmt/select.cpp:81-123 | the loop writes the columns, tables and each optional clause exactly when present |
| Select.SelectData.Execute | source/sqlpp/stmt/select.cpp:125-129 | sends the text with the binds in accumulated order, one bind per `?` |
| Select.CloneAll | source/sqlpp/stmt/select.cpp:17-18 | the clone loop yields the same list of trees |
| Select.ItemText | source/sqlpp/stmt/select.h:97-107 | a table selects `name.*` and a column selects `table.column` |
| Select.SelectTables | source/sqlpp/stmt/select.h:55 | `Tables` lists the item's table classes in argument order |
| Select.ItemTextsAt | source/sqlpp/stmt/select.h:89-95 | item `i`'s text is at position `i` |
| Select.SelectColumn | source/sqlpp/stmt/select.h:97-107 | one `addColumn` per item with that item's text and table |
| Select.MakeSelect | source/sqlpp/stmt/select.h:49-60 | the columns are the item texts in argument order; the table set is exactly the items' tables (also lines 89-95) |
| Select.WhereCopy | source/sqlpp/stmt/select.h:116-143 | the named form copies the data with the copy constructor as written, so the copy has no `limit`; it adds the condition once; the original is untouched (also lines 64-68, 76-80) |
| Select.WhereMove | source/sqlpp/stmt/select.h:116-143 | the temporary form moves the data and adds the condition once (also lines 70-74, 82-86) |
| Select.CopyLosesLimit | source/sqlpp/stmt/select.cpp:14-19 | a copy of `SELECT t.a FROM t LIMIT 5` renders without ` LIMIT 5` |
| Update.AssignmentTextsCount | source/sqlpp/stmt/update.cpp:56-62 | the assignment texts hold one `?` per assignment placeholder |
| Update.UpdatePlaceholderCount | source/sqlpp/stmt/update.cpp:54-68 | an UPDATE text holds one `?` per assignment and WHERE placeholder |
| Update.UpdateData.constructor | source/sqlpp/stmt/update.cpp:9 | starts with the table name, no assignments, no binds and no root |
| Update.UpdateData.Copy | source/sqlpp/stmt/update.cpp:11-16 | copies every field and clones every tree, so the same text |
| Update.UpdateData.AssignAsWritten | source/sqlpp/stmt/update.cpp:20-29 | replaces the binds but appends the assignments, and keeps the root when the other has none |
| Update.UpdateData.Assign | source/sqlpp/stmt/update.cpp:20-29 | the intended assignment: an exact copy, so the same text |
| Update.UpdateData.AddAssignment | source/sqlpp/stmt/update.cpp:33-42 | appends (column, root) and the expression's binds |
| Update.UpdateData.AddCondition | source/sqlpp/stmt/update.cpp:44-52 | appends the condition's binds after the existing ones and replaces the root |
| Update.UpdateData.Dump | source/sqlpp/stmt/update.cpp:54-68 | `UPDATE t SET c1 = e1, ...`, then ` WHERE cond` iff there is a root |
| Update.UpdateData.Execute | source/sqlpp/stmt/update.cpp:70-74 | sends the text with the binds, one bind per `?` |
| Update.CloneAssignments | source/sqlpp/stmt/update.cpp:13-14 | the clone loop appends the other's assignments unchanged (also lines 24-25) |
| Update.AssignAsWrittenLosesBinds | source/sqlpp/stmt/update.cpp:20-29 | after the assignment the text has two `?` but only one bind |
| Update.AcceptedIffFresh | source/sqlpp/stmt/update.h:73-81 | the walk accepts iff no index repeats and none was seen before |
| Update.AcceptedIffDistinct | source/sqlpp/stmt/update.h:73-81 | `update(...)` is accepted iff no column index occurs twice (also line 47) |
| Update.MakeUpdate | source/sqlpp/stmt/update.h:44-55 | the first column's table name, then one (name, root) and its binds per assignment in order (also lines 73-81, 102-106) |
| Update.WhereCopy | source/sqlpp/stmt/update.h:59-64 | the named form copies the data and adds the condition after all assignments (also lines 91-94) |
| Update.WhereMove | source/sqlpp/stmt/update.h:66-70 | the temporary form moves the data and adds the condition (also lines 91-94) |
| Insert.PlaceholdersCount | source/sqlpp/stmt/insert.cpp:27-33 | the placeholder list holds exactly `n` `?` |
| Insert.InsertPlaceholderCount | source/sqlpp/stmt/insert.cpp:23-49 | an INSERT text holds one `?` per bind, in all three shapes |
| Insert.InsertData.constructor | source/sqlpp/stmt/insert.cpp:9 | starts with no names and no binds: `INSERT INTO t DEFAULT VALUES` |
| Insert.InsertData.Copy | source/sqlpp/stmt/insert.cpp:11 | the defaulted copy keeps every field |
| Insert.InsertData.AddNamedValue | source/sqlpp/stmt/insert.cpp:16-19 | appends to both names and binds |
| Insert.InsertData.AddValue | source/sqlpp/stmt/insert.cpp:21 | appends to the binds only |
| Insert.InsertData.Dump | source/sqlpp/stmt/insert.cpp:23-49 | default values with no binds, else a positional or a named list |
| Insert.InsertData.Execute | source/sqlpp/stmt/insert.cpp:51-55 | sends the text with the binds in insertion order, one bind per `?` |
| Insert.WritePlaceholders | source/sqlpp/stmt/insert.cpp:28-32 | the index loop writes `n` placeholders separated by `, ` |
| Insert.WriteNamed | source/sqlpp/stmt/insert.cpp:34-47 | the two-buffer loop writes the names, then one `?` per name |
| Insert.InsertInto | source/sqlpp/stmt/insert.h:42-50 | the table's name with no values (also lines 147-151) |
| Insert.AddValuesAcceptedIff | source/sqlpp/stmt/insert.h:101-110 | the walk accepts iff the value at position `N = COUNT - remaining` has kind `Row[N]` |
| Insert.ValuesAcceptedIff | source/sqlpp/stmt/insert.h:87-110 | accepted iff one value per column and each has its column's kind |
| Insert.AddValues | source/sqlpp/stmt/insert.h:101-110 | one unnamed bind per value, in argument order |
| Insert.AcceptedBindKinds | source/sqlpp/stmt/insert.h:101-107 | accepted values bind one value of each column's kind, position by position |
| Insert.ValuesCopy | source/sqlpp/stmt/insert.h:73-78 | the named form copies the data and appends the binds (also lines 54-58) |
| Insert.ValuesMove | source/sqlpp/stmt/insert.h:80-85 | the temporary form moves the data and appends the binds (also lines 60-64) |
| Insert.InsertValues | source/sqlpp/stmt/insert.h:119-142 | the first value's table name, then one (name, bind) pair per value in order (also lines 153-157) |
| Insert.PositionalChecks | tests/compile/check_types.cpp:35-41 | wrong kinds and a wrong count are rejected; matching values are accepted |
| Insert.TwoTablesRejected | tests/compile/check_types.cpp:43-45 | values from two tables are rejected |
| Create.CreateTableData.constructor | source/sqlpp/stmt/create.cpp:9-10 | the table name and flag, with no columns |
| Create.CreateTableData.AddColumnDesc | source/sqlpp/stmt/create.cpp:17-20 | appends (name, type) at the end |
| Create.CreateTableData.Dump | source/sqlpp/stmt/create.cpp:22-33 | `CREATE TABLE [IF NOT EXISTS ]t (n1 T1, ...)` in the order descriptions were added |
| Create.CreateTableData.Execute | source/sqlpp/stmt/create.cpp:35-39 | sends the text with no binds; when no name or type holds a `?`, neither does the text |
| Create.CreatePlaceholderFree | source/sqlpp/stmt/create.cpp:22-33 | a CREATE TABLE text has no `?` unless a name or a type has one |
| Create.DescribeColumn | source/sqlpp/stmt/create.h:57-59 | column `N` is named `getColumnName(N)` and its type is never `UNKNOWN` |
| Create.InsertColumns | source/sqlpp/stmt/create.h:55-62 | exactly one description per index `0 .. COLUMN_COUNT-1`, in index order |
| Create.MakeCreate | source/sqlpp/stmt/create.h:41-50 | the table's name, the flag, and every column |
| Create.CreateTable | source/sqlpp/stmt/create.h:67-71 | `ifNotExists` is false |
| Create.CreateTableIfNotExists | source/sqlpp/stmt/create.h:73-77 | `ifNotExists` is true |
| Create.KindOfTypeName | source/sqlpp/types.h:33-67 | reading a type name back gives the kind it was written for |
| Create.DescribeRecoversRow | source/sqlpp/stmt/create.h:55-62 | the descriptions give back the column names and the row kinds |
| Create.CreateTestTable | tests/compile/check_types.cpp:33 | the test table is created with `id INTEGER, comment TEXT, value REAL` |

## Left out

- SQLite itself is not modelled: opening, preparing, stepping and result decoding. `execute` returns the text and the bind list it would pass.
- Binds are payload-tagged values. The `sqlite3_bind_*` marshalling and the numeric casts of `toDb`/`fromDb` are not modelled; only the storage kind of a converted value is kept.
- C++ overload resolution and SFINAE become `Result` values: `Err` means "does not compile". `static_assert`s and template-parameter constraints become `requires` clauses or predicates.
- Copy and move overloads are merged wherever they behave the same. The binary `Data` constructors differ, so they and the typed binary operators that reach them take each operand's category (named or temporary) as a parameter.
- `Data` is a value. So its copy and copy-assignment are identity on values, and the null dereference of copying a `Data` without a root is not modelled.
- The table `unordered_set` is a duplicate-free sequence in insertion order. Every table property is stated on its element set, so the `FROM` order the model renders is one of the orders the library may produce.
- `AnyExpr` and `ExprTables` are not defined in the headers. They are modelled as "all operands share one kind; result tables are the `Merge` of the operands'".
- `TxtExpr` is declared, but no operator uses it, so it has no model.
- `getPrecedence`'s `default: throw` cannot be reached with a closed operator type, so it is not modelled.
- `getColumnName(i)` out of range is undefined behaviour in the source; here it is a `requires`.
- The type-level table lists of expressions and the runtime table names are not linked by a proof.
- `Select.SelectData.Valid`: `AddCondition` preserves it only when no WHERE, GROUP BY or ORDER BY is present yet, because the builder stages add clauses in that order.
- The headers `select.h` and `insert.h` name `Column<T, V>` and `Value<T, V>` with two template arguments, while `column.h` and `value.h` declare three. The model follows the evident meaning: a column, and a value of one table class.
- `Update.WhereCopy` and `Update.WhereMove` do not model that `UpdateWhere` binds only a temporary condition (its constructor takes `Condition&&`). A named condition is rejected by the source.
- `Insert.InsertValues` does not reject the same column given twice; neither does the source.
- The fluent stages after `where` (`groupBy`, `orderBy`, `limit`) are not declared in the headers, so only the `SelectData` methods they would call are modelled.
- Statement texts are rendered with `dump` as written (`Nodes.Dump`). The corrected renderer of `Reading` is proved on its own and is not used by the statements.
- `Reading.CorrectedRoundTrip` reads the token stream, not the characters: splitting a text into tokens is not modelled, because table and column names may hold any character.
- `source/sqlpp/stmt/common.h` only forwards `dump` and `execute` to the data object; it is not part of this model.

## Findings

| source | as written | input that shows it | evidently intended | confidence | as-written member | corrected member |
|---|---|---|---|---|---|---|
| source/sqlpp/expr/node.cpp:175-182 | `Data(op, const Data& left, Data&& right)` starts from the right operand's binds and appends the left's | a named condition `c1` combined with a temporary: `c1 && (t.b == y)` where `c1` is `t.a == x`; likewise `auto e = t.id + 1; e * 2` | binds in placeholder order, left then right, as the other three constructors do | not executed | Nodes.AsWrittenReversesBinds | Nodes.BinaryData |
| source/sqlpp/stmt/update.cpp:20-29 | copy assignment replaces the binds but appends the other's assignments to its own, and keeps its WHERE root when the other has none | assigning an `UpdateData` with one `?` assignment to another with one `?` assignment | the target becomes an exact copy, as the `SelectData` assignment does | not executed | Update.AssignAsWrittenLosesBinds | Update.UpdateData.Assign |
| source/sqlpp/stmt/select.cpp:14-38 | the copy constructor and copy assignment copy every field except `limit` | copying a `SelectData` for `SELECT t.a FROM t LIMIT 5` | a copy renders the same text | not executed | Select.CopyLosesLimit | Select.SelectData.Copy |
| source/sqlpp/expr/node.cpp:129-131 | a child is wrapped only when its parent binds strictly tighter, so a right operand of the same precedence is not wrapped | `t.a - (t.b - t.c)` renders `t.a - t.b - t.c`, which SQL reads as `(t.a - t.b) - t.c` | also wrap a right operand that does not bind tighter than its parent, so the text reads back as the tree | not executed | Nodes.RightNestingRendersLikeLeftNesting | Reading.CorrectedRoundTrip |
