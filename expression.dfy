/** Typed expressions and conditions of `source/sqlpp/expr/expression.h` and
    `source/sqlpp/expr/condition.h`. The C++ types `Expression<T, V>` and
    `Condition<T>` become a record of the type-level table list `T`, the value
    kind `V` and the runtime `Data`; an operator that has no instance for its
    operand types (a compile error in the source) returns `Err`. */
module Expression {
  import opened Wrappers
  import opened Types
  import opened Nodes
  import opened Strings

  /** The type-level identity of a table class. */
  type TableId = string

  /** `Expression<T, V>`; a `Condition<T>` is an expression of kind `Bool`. */
  datatype Expr = Expr(tables: seq<TableId>, kind: Kind, data: Data)

  /** What every expression built by the constructors and operators satisfies. */
  predicate WellFormed(e: Expr) {
    e.data.IsSet() && Coherent(e.data) && NoDup(e.tables)
  }

  const NoOperator := "no operator for these operand kinds"

  /** The kind-selection templates. `AnyExpr` is not defined in the headers of the
      model; it is taken as "all operands share one kind, of any kind". */
  datatype Rule = IntRule | TxtRule | NumRule | BoolRule | AnyRule

  /** The kinds a rule has a specialisation for. */
  predicate Admits(rule: Rule, k: Kind) {
    match rule
    case IntRule => k == Integer
    case TxtRule => k == Text
    case NumRule => k == Integer || k == Real
    case BoolRule => k == Bool
    case AnyRule => true
  }

  /** Every kind of the list is `k`. */
  predicate AllOfKind(kinds: seq<Kind>, k: Kind) {
    |kinds| == 0 || (kinds[0] == k && AllOfKind(kinds[1..], k))
  }

  /** The `Term` of a rule instantiated with operands of the given kinds, or `None`
      when no specialisation matches (the operator does not exist). */
  function RuleTerm(rule: Rule, kinds: seq<Kind>): (r: Option<Kind>)
    requires |kinds| > 0
    ensures r.Some? <==> Admits(rule, kinds[0]) && forall i :: 0 <= i < |kinds| ==> kinds[i] == kinds[0]
    ensures r.Some? ==> r.value == kinds[0]
  {
    AllOfKindMeans(kinds, kinds[0]);
    match rule
    case IntRule => if AllOfKind(kinds, Integer) then Some(Integer) else None
    case TxtRule => if AllOfKind(kinds, Text) then Some(Text) else None
    case NumRule =>
      if AllOfKind(kinds, Integer) then Some(Integer)
      else if AllOfKind(kinds, Real) then Some(Real)
      else None
    case BoolRule => if AllOfKind(kinds, Bool) then Some(Bool) else None
    case AnyRule => if AllOfKind(kinds, kinds[0]) then Some(kinds[0]) else None
  }

  lemma {:induction false} AllOfKindMeans(kinds: seq<Kind>, k: Kind)
    ensures AllOfKind(kinds, k) <==> forall i :: 0 <= i < |kinds| ==> kinds[i] == k
  {
    if |kinds| > 0 {
      AllOfKindMeans(kinds[1..], k);
      assert forall i :: 0 < i < |kinds| ==> kinds[i] == kinds[1..][i - 1];
    }
  }

  /** Integer and Real operands never mix in an arithmetic operator. */
  lemma NumericKindsDoNotMix()
    ensures RuleTerm(NumRule, [Integer, Real]) == None
    ensures RuleTerm(NumRule, [Real, Integer]) == None
    ensures RuleTerm(NumRule, [Integer, Integer]) == Some(Integer)
    ensures RuleTerm(NumRule, [Real, Real]) == Some(Real)
  {
  }

  /** The rule each unary operator is declared with. */
  function UnaryRule(op: UnaryOp): Rule {
    match op
    case MINUS | PLUS => NumRule
    case COMPLEMENT => IntRule
    case NOT => BoolRule
  }

  /** The rule each binary operator is declared with. */
  function BinaryRule(op: BinaryOp): Rule {
    match op
    case MUL | DIV | PLUS | MINUS => NumRule
    case MOD | SHL | SHR | BAND | BOR => IntRule
    case LS | LE | GT | GE | EQ | NE => AnyRule
    case AND | OR => BoolRule
  }

  /** The comparison operators, which return a `Condition`. */
  predicate IsComparison(op: BinaryOp) {
    op.LS? || op.LE? || op.GT? || op.GE? || op.EQ? || op.NE?
  }

  /** `-e`, `+e`, `~e` and `!c`: a new expression over a unary node, with the
      operand's tables and kind. */
  function ApplyUnary(op: UnaryOp, e: Expr): (r: Result<Expr>)
    requires e.data.IsSet()
    ensures r.Ok? <==> Admits(UnaryRule(op), e.kind)
    ensures r.Ok? ==> r.value.kind == e.kind && r.value.tables == e.tables
    ensures r.Ok? ==> r.value.data == UnaryData(op, e.data)
    ensures r.Ok? && WellFormed(e) ==> WellFormed(r.value)
  {
    match RuleTerm(UnaryRule(op), [e.kind])
    case None => Err(NoOperator)
    case Some(k) => Ok(Expr(Merge([e.tables]), k, UnaryData(op, e.data)))
  }

  /** A binary operator over two expressions: the operands must share one kind the
      operator's rule admits; the result has the merged tables, the term kind (or
      `Bool` for a comparison), and a binary node with the operands in argument
      order. Each operand is forwarded as it was passed (`std::forward`), so a
      named left operand with a temporary right operand reaches the `Data`
      constructor that lists the right binds first. */
  function ApplyBinary(op: BinaryOp, e1: Expr, p1: Passing, e2: Expr, p2: Passing): (r: Result<Expr>)
    requires e1.data.IsSet() && e2.data.IsSet()
    ensures r.Ok? <==> e1.kind == e2.kind && Admits(BinaryRule(op), e1.kind)
    ensures r.Ok? ==> r.value.kind == if IsComparison(op) then Bool else e1.kind
    ensures r.Ok? ==> Elems(r.value.tables) == Elems(e1.tables) + Elems(e2.tables)
    ensures r.Ok? ==> r.value.data.root == Some(Binary(op, e1.data.root.value, e2.data.root.value))
    ensures r.Ok? ==> r.value.data.binds ==
                      if p1.Lvalue? && p2.Rvalue? then e2.data.binds + e1.data.binds else e1.data.binds + e2.data.binds
    ensures r.Ok? && Sound(e1) && Sound(e2) ==> Sound(r.value)
    ensures r.Ok? && WellFormed(e1) && WellFormed(e2) && InOrder(e1, p1, e2, p2) ==> WellFormed(r.value)
  {
    var kinds := [e1.kind, e2.kind];
    assert kinds[0] == e1.kind && kinds[1] == e2.kind;
    match RuleTerm(BinaryRule(op), kinds)
    case None => Err(NoOperator)
    case Some(k) =>
      assert UnionAll([e1.tables, e2.tables]) == Elems(e1.tables) + Elems(e2.tables) by {
        UnionAllCons(e1.tables, [e2.tables]);
        UnionAllCons(e2.tables, []);
      }
      Ok(Expr(Merge([e1.tables, e2.tables]), if IsComparison(op) then Bool else k,
              BinaryDataAsWritten(op, e1.data, p1, e2.data, p2)))
  }

  /** The binds come out in placeholder order: every passing but a named left
      operand with a temporary right one, or either side without binds. */
  predicate InOrder(e1: Expr, p1: Passing, e2: Expr, p2: Passing) {
    !(p1.Lvalue? && p2.Rvalue?) || e1.data.binds == [] || e2.data.binds == []
  }

  /** What every expression keeps whatever way its operands were passed: a set
      tree, its tables, and its binds matching its placeholders one for one. */
  predicate Sound(e: Expr) {
    e.data.IsSet() && Balanced(e.data) && NoDup(e.tables)
  }

  /** The text of any expression holds one `?` per bind it passes. */
  lemma SoundPlaceholderCount(e: Expr)
    requires Sound(e) && NamesAvoid(e.data.root.value, '?')
    ensures Count('?', DataDump(e.data)) == |e.data.binds|
  {
    BalancedPlaceholderCount(e.data);
  }

  lemma WellFormedIsSound(e: Expr)
    requires WellFormed(e)
    ensures Sound(e)
  {
    CoherentIsBalanced(e.data);
  }

  /** `Literal<V>(value)`: accepted only when the value's type converts to `V`; no
      tables and exactly one bind. */
  function MakeLiteral(v: Kind, t: AppType, b: Bind): (r: Result<Expr>)
    ensures r.Ok? <==> DbType(t) == Some(v)
    ensures r.Ok? ==> r.value.tables == [] && r.value.kind == v && r.value.data == BindData(b)
    ensures r.Ok? ==> WellFormed(r.value) && r.value.data.binds == [b]
  {
    if DbType(t) == Some(v) then Ok(Expr([], v, BindData(b))) else Err("literal of the wrong type")
  }

  /** `e op value` and `value op e`: the value becomes a temporary `Literal` of
      the term kind of `e`, it keeps its side, and the result has the tables of
      `e` alone. With a named `e` on the left, the literal's bind comes first. */
  function ApplyWithValue(op: BinaryOp, e: Expr, p: Passing, t: AppType, b: Bind, valueLeft: bool): (r: Result<Expr>)
    requires e.data.IsSet()
    ensures r.Ok? <==> Admits(BinaryRule(op), e.kind) && DbType(t) == Some(e.kind)
    ensures r.Ok? ==> r.value.kind == if IsComparison(op) then Bool else e.kind
    ensures r.Ok? && NoDup(e.tables) ==> r.value.tables == e.tables
    ensures r.Ok? ==> r.value.data.root == Some(if valueLeft then Binary(op, PlaceholderLeaf(b), e.data.root.value)
                                                 else Binary(op, e.data.root.value, PlaceholderLeaf(b)))
    ensures r.Ok? ==> r.value.data.binds == if valueLeft || p.Lvalue? then [b] + e.data.binds else e.data.binds + [b]
    ensures r.Ok? && Sound(e) ==> Sound(r.value)
    ensures r.Ok? && WellFormed(e) && (valueLeft || p.Rvalue? || e.data.binds == []) ==> WellFormed(r.value)
  {
    match RuleTerm(BinaryRule(op), [e.kind])
    case None => Err(NoOperator)
    case Some(term) =>
      if DbType(t) != Some(term) then Err("literal of the wrong type")
      else
        var lit := BindData(b);
        var k := if IsComparison(op) then Bool else term;
        if valueLeft then Ok(Expr(Merge([e.tables]), k, BinaryDataAsWritten(op, lit, Rvalue, e.data, p)))
        else Ok(Expr(Merge([e.tables]), k, BinaryDataAsWritten(op, e.data, p, lit, Rvalue)))
  }

  /** `e * v` with `e` named: the literal is a temporary, so its bind comes
      before those of `e` although its placeholder is printed after them. */
  lemma NamedTimesValue(e: Expr, b: Bind)
    requires e.data.IsSet() && e.kind == Integer
    ensures var f := ApplyWithValue(BinaryOp.MUL, e, Lvalue, Int64, b, false);
      f.Ok? && f.value.data.binds == [b] + e.data.binds
      && LeafBinds(f.value.data.root.value) == LeafBinds(e.data.root.value) + [b]
  {
    assert Admits(BinaryRule(BinaryOp.MUL), Integer) && DbType(Int64) == Some(Integer);
  }

  /** A value of the right type on the right agrees with building the literal
      first and applying the general operator to it as a temporary. */
  lemma ValueRightIsLiteralForm(op: BinaryOp, e: Expr, p: Passing, t: AppType, b: Bind)
    requires WellFormed(e) && DbType(t) == Some(e.kind)
    ensures MakeLiteral(e.kind, t, b) == Ok(Expr([], e.kind, BindData(b)))
    ensures ApplyWithValue(op, e, p, t, b, false) == ApplyBinary(op, e, p, Expr([], e.kind, BindData(b)), Rvalue)
  {
    MergeSmall(e.tables, []);
    Merge2EmptyRight(e.tables);
    SameKindsTerm(BinaryRule(op), e.kind);
  }

  /** A value of the right type on the left agrees with building the literal
      first and applying the general operator: the literal stays on the left and
      the tables are still those of `e`. */
  lemma ValueLeftIsLiteralForm(op: BinaryOp, e: Expr, p: Passing, t: AppType, b: Bind)
    requires WellFormed(e) && DbType(t) == Some(e.kind)
    ensures ApplyWithValue(op, e, p, t, b, true) == ApplyBinary(op, Expr([], e.kind, BindData(b)), Rvalue, e, p)
  {
    LiteralLeftTables(e.tables);
    SameKindsTerm(BinaryRule(op), e.kind);
  }

  /** With no tables on the left, merging gives the right-hand tables back. */
  lemma LiteralLeftTables(l: seq<TableId>)
    requires NoDup(l)
    ensures Merge([[], l]) == l && Merge([l]) == l
  {
    MergeSmall([], l);
    MergeSmall(l, []);
    Merge2EmptyLeft(l);
  }

  /** Two operands of one kind meet a rule as one operand of that kind does. */
  lemma SameKindsTerm(rule: Rule, k: Kind)
    ensures RuleTerm(rule, [k, k]) == RuleTerm(rule, [k])
  {
    var kinds := [k, k];
    assert kinds[0] == k && kinds[1] == k;
  }

  /** Comparisons need both operands of one kind and yield a condition. */
  lemma ComparisonYieldsCondition(op: BinaryOp, e1: Expr, p1: Passing, e2: Expr, p2: Passing)
    requires IsComparison(op) && e1.data.IsSet() && e2.data.IsSet()
    ensures ApplyBinary(op, e1, p1, e2, p2).Ok? <==> e1.kind == e2.kind
    ensures ApplyBinary(op, e1, p1, e2, p2).Ok? ==> ApplyBinary(op, e1, p1, e2, p2).value.kind == Bool
  {
  }

  /** `&&`, `||` and `!` exist only over conditions. */
  lemma ConnectivesNeedConditions(op: BinaryOp, e1: Expr, p1: Passing, e2: Expr, p2: Passing)
    requires (op.AND? || op.OR?) && e1.data.IsSet() && e2.data.IsSet()
    ensures ApplyBinary(op, e1, p1, e2, p2).Ok? <==> e1.kind == Bool && e2.kind == Bool
    ensures ApplyUnary(UnaryOp.NOT, e1).Ok? <==> e1.kind == Bool
  {
    assert BinaryRule(op) == BoolRule;
  }

  /** With the constructor as written, `c1 && (c2)` where `c1` is a named
      condition and the right side a temporary lists the right binds first, so the
      binds no longer follow the placeholders. */
  lemma AsWrittenConditionOrder(x: Bind, y: Bind)
    requires x != y
    ensures var c1 := Data(Some(Binary(BinaryOp.EQ, ColumnLeaf("t", "a"), PlaceholderLeaf(x))), ["t"], [x]);
      var c2 := Data(Some(Binary(BinaryOp.EQ, ColumnLeaf("t", "b"), PlaceholderLeaf(y))), ["t"], [y]);
      Coherent(c1) && Coherent(c2)
      && !Coherent(BinaryDataAsWritten(BinaryOp.AND, c1, Lvalue, c2, Rvalue))
      && Coherent(BinaryData(BinaryOp.AND, c1, c2))
  {
    var c1 := Data(Some(Binary(BinaryOp.EQ, ColumnLeaf("t", "a"), PlaceholderLeaf(x))), ["t"], [x]);
    var c2 := Data(Some(Binary(BinaryOp.EQ, ColumnLeaf("t", "b"), PlaceholderLeaf(y))), ["t"], [y]);
    var w := BinaryDataAsWritten(BinaryOp.AND, c1, Lvalue, c2, Rvalue);
    assert w.binds == [y, x];
    assert LeafBinds(c1.root.value) == [x] by {
      assert LeafBinds(ColumnLeaf("t", "a")) == [];
    }
    assert LeafBinds(c2.root.value) == [y] by {
      assert LeafBinds(ColumnLeaf("t", "b")) == [];
    }
    assert LeafBinds(w.root.value) == [x, y];
  }
}
