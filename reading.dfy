/** Reading a rendered expression back. `Node::dump` in
    `source/sqlpp/expr/node.cpp` wraps a child only when its parent binds
    strictly tighter, so a right operand of the same precedence loses its
    parentheses and `a - (b - c)` is printed as `a - b - c`, which SQL reads as
    `(a - b) - c`. This module gives the renderer that also wraps such a right
    operand, the token stream it prints, and a precedence-climbing reader of
    that stream (binary operators associate to the left, as in SQL); the reader
    returns every tree from its rendering, so distinct trees never print alike. */
module Reading {
  import opened Wrappers
  import opened Strings
  import opened Nodes

  function Lev(n: Node): nat { Level(PrecedenceOf(n)) }

  /** A right operand is wrapped when its parent binds at least as tightly. */
  predicate RightNeedsParens(parent: Node, child: Node) {
    Lev(parent) >= Lev(child)
  }

  /** The renderer with the right-operand rule corrected; everything else is
      as in `Node::dump`. */
  function CorrectedDump(n: Node, parens: bool): (r: string)
    ensures |r| > 0
  {
    match n
    case ColumnLeaf(t, f) => Wrap(parens, t + "." + f)
    case PlaceholderLeaf(_) => Wrap(parens, "?")
    case Unary(op, c) => Wrap(parens, UnaryToken(op) + CorrectedDump(c, NeedsParens(n, c)))
    case Binary(op, l, r) =>
      Wrap(parens, CorrectedDump(l, NeedsParens(n, l)) + BinaryToken(op) + CorrectedDump(r, RightNeedsParens(n, r)))
  }

  /** No node of the tree has a right operand of its own precedence. */
  predicate NoEqualRight(n: Node) {
    match n
    case ColumnLeaf(_, _) => true
    case PlaceholderLeaf(_) => true
    case Unary(_, c) => NoEqualRight(c)
    case Binary(_, l, r) => Lev(r) != Lev(n) && NoEqualRight(l) && NoEqualRight(r)
  }

  /** The two renderers differ only at a right operand of equal precedence. */
  lemma {:induction false} CorrectedAgreesElsewhere(n: Node, parens: bool)
    requires NoEqualRight(n)
    ensures CorrectedDump(n, parens) == Dump(n, parens)
  {
    match n {
      case ColumnLeaf(_, _) =>
      case PlaceholderLeaf(_) =>
      case Unary(op, c) =>
        CorrectedAgreesElsewhere(c, NeedsParens(n, c));
      case Binary(op, l, r) =>
        CorrectedAgreesElsewhere(l, NeedsParens(n, l));
        CorrectedAgreesElsewhere(r, NeedsParens(n, r));
    }
  }

  // ---------------------------------------------------------------------------
  // The token stream of a rendering.
  // ---------------------------------------------------------------------------

  /** A leaf, an operator token, or a parenthesis. */
  datatype Tok = AtomTok(leaf: Node) | PrefixTok(uop: UnaryOp) | InfixTok(bop: BinaryOp) | OpenTok | CloseTok

  function TokText(t: Tok): string {
    match t
    case AtomTok(leaf) => if leaf.ColumnLeaf? then leaf.table + "." + leaf.field else "?"
    case PrefixTok(op) => UnaryToken(op)
    case InfixTok(op) => BinaryToken(op)
    case OpenTok => "("
    case CloseTok => ")"
  }

  function Texts(ts: seq<Tok>): string {
    if |ts| == 0 then "" else TokText(ts[0]) + Texts(ts[1..])
  }

  lemma {:induction false} TextsConcat(a: seq<Tok>, b: seq<Tok>)
    ensures Texts(a + b) == Texts(a) + Texts(b)
  {
    if |a| == 0 {
      assert a + b == b;
    } else {
      assert (a + b)[1..] == a[1..] + b;
      TextsConcat(a[1..], b);
    }
  }

  function WrapToks(parens: bool, ts: seq<Tok>): seq<Tok> {
    if parens then [OpenTok] + ts + [CloseTok] else ts
  }

  /** The tokens `CorrectedDump` prints, in order. */
  function Toks(n: Node, parens: bool): (r: seq<Tok>)
    ensures |r| > 0
  {
    match n
    case ColumnLeaf(_, _) => WrapToks(parens, [AtomTok(n)])
    case PlaceholderLeaf(_) => WrapToks(parens, [AtomTok(n)])
    case Unary(op, c) => WrapToks(parens, [PrefixTok(op)] + Toks(c, NeedsParens(n, c)))
    case Binary(op, l, r) =>
      WrapToks(parens, Toks(l, NeedsParens(n, l)) + [InfixTok(op)] + Toks(r, RightNeedsParens(n, r)))
  }

  lemma TextsWrap(parens: bool, ts: seq<Tok>)
    ensures Texts(WrapToks(parens, ts)) == Wrap(parens, Texts(ts))
  {
    if parens {
      TextsConcat([OpenTok] + ts, [CloseTok]);
      TextsConcat([OpenTok], ts);
      assert Texts([CloseTok]) == ")";
      assert Texts([OpenTok]) == "(";
    }
  }

  /** The corrected text is the texts of the tokens, one after another. */
  lemma {:induction false} DumpIsTokenTexts(n: Node, parens: bool)
    ensures CorrectedDump(n, parens) == Texts(Toks(n, parens))
  {
    match n {
      case ColumnLeaf(_, _) =>
        TextsWrap(parens, [AtomTok(n)]);
        assert Texts([AtomTok(n)]) == TokText(AtomTok(n));
      case PlaceholderLeaf(_) =>
        TextsWrap(parens, [AtomTok(n)]);
        assert Texts([AtomTok(n)]) == TokText(AtomTok(n));
      case Unary(op, c) =>
        var tc := Toks(c, NeedsParens(n, c));
        DumpIsTokenTexts(c, NeedsParens(n, c));
        TextsConcat([PrefixTok(op)], tc);
        assert Texts([PrefixTok(op)]) == UnaryToken(op);
        TextsWrap(parens, [PrefixTok(op)] + tc);
      case Binary(op, l, r) =>
        var tl, tr := Toks(l, NeedsParens(n, l)), Toks(r, RightNeedsParens(n, r));
        DumpIsTokenTexts(l, NeedsParens(n, l));
        DumpIsTokenTexts(r, RightNeedsParens(n, r));
        TextsConcat(tl + [InfixTok(op)], tr);
        TextsConcat(tl, [InfixTok(op)]);
        assert Texts([InfixTok(op)]) == BinaryToken(op);
        TextsWrap(parens, tl + [InfixTok(op)] + tr);
    }
  }

  // ---------------------------------------------------------------------------
  // The reader: precedence climbing over the token stream.
  // ---------------------------------------------------------------------------

  /** A leaf, a prefix operator applied to a primary, or a parenthesised
      expression. */
  function ParsePrimary(ts: seq<Tok>): (r: Option<(Node, seq<Tok>)>)
    ensures r.Some? ==> |r.value.1| < |ts|
    decreases |ts|, 1
  {
    if |ts| == 0 then None
    else match ts[0]
      case AtomTok(leaf) => if leaf.ColumnLeaf? || leaf.PlaceholderLeaf? then Some((leaf, ts[1..])) else None
      case PrefixTok(op) =>
        (match ParsePrimary(ts[1..])
         case None => None
         case Some((c, rest)) => Some((Unary(op, c), rest)))
      case OpenTok =>
        (match ParseExpr(ts[1..], 0)
         case None => None
         case Some((e, rest)) => if |rest| > 0 && rest[0] == CloseTok then Some((e, rest[1..])) else None)
      case InfixTok(_) => None
      case CloseTok => None
  }

  /** An expression whose operators all bind at least at level `min`. */
  function ParseExpr(ts: seq<Tok>, min: nat): (r: Option<(Node, seq<Tok>)>)
    ensures r.Some? ==> |r.value.1| < |ts|
    decreases |ts|, 2
  {
    match ParsePrimary(ts)
    case None => None
    case Some((lhs, rest)) => ParseLoop(lhs, rest, min)
  }

  /** Extends `lhs` by operators of level `min` or tighter; the right operand
      takes only strictly tighter operators, so equal levels group to the left. */
  function ParseLoop(lhs: Node, ts: seq<Tok>, min: nat): (r: Option<(Node, seq<Tok>)>)
    ensures r.Some? ==> |r.value.1| <= |ts|
    decreases |ts|, 0
  {
    if |ts| > 0 && ts[0].InfixTok? && Level(BinaryPrecedence(ts[0].bop)) >= min then
      match ParseExpr(ts[1..], Level(BinaryPrecedence(ts[0].bop)) + 1)
      case None => None
      case Some((rhs, rest)) => ParseLoop(Binary(ts[0].bop, lhs, rhs), rest, min)
    else Some((lhs, ts))
  }

  /** A whole token stream read as one expression. */
  function Parse(ts: seq<Tok>): Option<Node> {
    match ParseExpr(ts, 0)
    case Some((n, rest)) => if rest == [] then Some(n) else None
    case None => None
  }

  /** The stream does not go on with an operator of level `k` or tighter. */
  predicate Stops(ts: seq<Tok>, k: nat) {
    |ts| == 0 || !ts[0].InfixTok? || Level(BinaryPrecedence(ts[0].bop)) < k
  }

  // One step of the reader each: what it does with the token in front.

  lemma ReadAtom(leaf: Node, rest: seq<Tok>)
    requires leaf.ColumnLeaf? || leaf.PlaceholderLeaf?
    ensures ParsePrimary([AtomTok(leaf)] + rest) == Some((leaf, rest))
  {
    assert ([AtomTok(leaf)] + rest)[1..] == rest;
  }

  lemma ReadPrefix(op: UnaryOp, ts: seq<Tok>, c: Node, rest: seq<Tok>)
    requires ParsePrimary(ts) == Some((c, rest))
    ensures ParsePrimary([PrefixTok(op)] + ts) == Some((Unary(op, c), rest))
  {
    assert ([PrefixTok(op)] + ts)[1..] == ts;
  }

  lemma ReadParenthesised(ts: seq<Tok>, n: Node, rest: seq<Tok>)
    requires ParseExpr(ts + ([CloseTok] + rest), 0) == Some((n, [CloseTok] + rest))
    ensures ParsePrimary([OpenTok] + ts + [CloseTok] + rest) == Some((n, rest))
  {
    assert [OpenTok] + ts + [CloseTok] + rest == [OpenTok] + (ts + ([CloseTok] + rest));
    assert ([OpenTok] + (ts + ([CloseTok] + rest)))[1..] == ts + ([CloseTok] + rest);
    assert ([CloseTok] + rest)[1..] == rest;
  }

  lemma ReadThenLoop(ts: seq<Tok>, n: Node, rest: seq<Tok>, min: nat)
    requires ParsePrimary(ts) == Some((n, rest))
    ensures ParseExpr(ts, min) == ParseLoop(n, rest, min)
  {
  }

  lemma LoopStops(lhs: Node, ts: seq<Tok>, min: nat)
    requires Stops(ts, min)
    ensures ParseLoop(lhs, ts, min) == Some((lhs, ts))
  {
  }

  lemma LoopTakes(l: Node, op: BinaryOp, ts: seq<Tok>, r: Node, rest: seq<Tok>, min: nat)
    requires min <= Level(BinaryPrecedence(op))
    requires ParseExpr(ts, Level(BinaryPrecedence(op)) + 1) == Some((r, rest))
    ensures ParseLoop(l, [InfixTok(op)] + ts, min) == ParseLoop(Binary(op, l, r), rest, min)
  {
    assert ([InfixTok(op)] + ts)[1..] == ts;
  }

  /** A primary rendering (a wrapped tree, or an unwrapped leaf or prefix
      application) reads back as one primary. */
  lemma {:induction false} ReadPrimary(n: Node, parens: bool, rest: seq<Tok>)
    requires parens || !n.Binary?
    ensures ParsePrimary(Toks(n, parens) + rest) == Some((n, rest))
    decreases n, if parens then 2 else 0
  {
    if parens {
      var inner := Toks(n, false);
      ReadExpr(n, false, [CloseTok] + rest, 0);
      LoopStops(n, [CloseTok] + rest, 0);
      ReadParenthesised(inner, n, rest);
    } else {
      match n {
        case ColumnLeaf(_, _) =>
          ReadAtom(n, rest);
        case PlaceholderLeaf(_) =>
          ReadAtom(n, rest);
        case Unary(op, c) =>
          var tc := Toks(c, NeedsParens(n, c));
          assert Toks(n, false) + rest == [PrefixTok(op)] + (tc + rest);
          ReadPrimary(c, NeedsParens(n, c), rest);
          ReadPrefix(op, tc + rest, c, rest);
      }
    }
  }

  /** Reading a rendering of `n` at level `min` yields `n` and then goes on
      with whatever follows, as long as an unwrapped `n` binds at level `min`
      or tighter and is not followed by a tighter operator. */
  lemma {:induction false} ReadExpr(n: Node, parens: bool, rest: seq<Tok>, min: nat)
    requires !parens ==> min <= Lev(n) && Stops(rest, Lev(n) + 1)
    ensures ParseExpr(Toks(n, parens) + rest, min) == ParseLoop(n, rest, min)
    decreases n, if parens then 3 else 1
  {
    if parens || !n.Binary? {
      ReadPrimary(n, parens, rest);
      ReadThenLoop(Toks(n, parens) + rest, n, rest, min);
    } else {
      var op, l, r := n.bop, n.left, n.right;
      var wl, wr := NeedsParens(n, l), RightNeedsParens(n, r);
      var tl, tr := Toks(l, wl), Toks(r, wr);
      var after := [InfixTok(op)] + (tr + rest);
      assert Toks(n, false) + rest == tl + after;
      ReadExpr(l, wl, after, min);
      ReadExpr(r, wr, rest, Lev(n) + 1);
      LoopStops(r, rest, Lev(n) + 1);
      LoopTakes(l, op, tr + rest, r, rest, min);
    }
  }

  /** The corrected rendering reads back as the tree it came from. */
  lemma CorrectedRoundTrip(n: Node)
    ensures Parse(Toks(n, false)) == Some(n)
  {
    ReadExpr(n, false, [], 0);
    assert Toks(n, false) + [] == Toks(n, false);
  }

  /** So distinct trees print distinct token streams. */
  lemma CorrectedTokensInjective(a: Node, b: Node)
    ensures Toks(a, false) == Toks(b, false) ==> a == b
  {
    CorrectedRoundTrip(a);
    CorrectedRoundTrip(b);
  }

  /** A binary node whose operands are both leaves prints them bare around
      its token, in both renderers. */
  lemma LeafOperands(op: BinaryOp, a: Node, b: Node)
    requires (a.ColumnLeaf? || a.PlaceholderLeaf?) && (b.ColumnLeaf? || b.PlaceholderLeaf?)
    ensures CorrectedDump(Binary(op, a, b), false) == Dump(a, false) + BinaryToken(op) + Dump(b, false)
    ensures Dump(Binary(op, a, b), false) == Dump(a, false) + BinaryToken(op) + Dump(b, false)
  {
    assert !NeedsParens(Binary(op, a, b), a) && !RightNeedsParens(Binary(op, a, b), b);
  }

  /** Corrected, `a - (b - c)` wraps its right operand. */
  lemma CorrectedRightNesting(a: Node, b: Node, c: Node)
    requires a.ColumnLeaf? && b.ColumnLeaf? && c.ColumnLeaf?
    ensures CorrectedDump(Binary(BinaryOp.MINUS, a, Binary(BinaryOp.MINUS, b, c)), false)
         == Dump(a, false) + BinaryToken(BinaryOp.MINUS) + Wrap(true, Dump(b, false) + BinaryToken(BinaryOp.MINUS) + Dump(c, false))
  {
    var bc := Binary(BinaryOp.MINUS, b, c);
    LeafOperands(BinaryOp.MINUS, b, c);
    CorrectedAgreesElsewhere(a, false);
    assert !NeedsParens(Binary(BinaryOp.MINUS, a, bc), a) && RightNeedsParens(Binary(BinaryOp.MINUS, a, bc), bc);
  }

  /** Corrected, `(a - b) - c` needs no parentheses. */
  lemma CorrectedLeftNesting(a: Node, b: Node, c: Node)
    requires a.ColumnLeaf? && b.ColumnLeaf? && c.ColumnLeaf?
    ensures CorrectedDump(Binary(BinaryOp.MINUS, Binary(BinaryOp.MINUS, a, b), c), false)
         == Dump(a, false) + BinaryToken(BinaryOp.MINUS) + Dump(b, false) + BinaryToken(BinaryOp.MINUS) + Dump(c, false)
  {
    var ab := Binary(BinaryOp.MINUS, a, b);
    LeafOperands(BinaryOp.MINUS, a, b);
    CorrectedAgreesElsewhere(c, false);
    assert !NeedsParens(Binary(BinaryOp.MINUS, ab, c), ab) && !RightNeedsParens(Binary(BinaryOp.MINUS, ab, c), c);
  }

  /** With the correction, `a - (b - c)` keeps its parentheses (two more
      characters) and no longer prints like `(a - b) - c`. */
  lemma RightNestingKeepsParens(a: Node, b: Node, c: Node)
    requires a.ColumnLeaf? && b.ColumnLeaf? && c.ColumnLeaf?
    ensures CorrectedDump(Binary(BinaryOp.MINUS, a, Binary(BinaryOp.MINUS, b, c)), false)
         != CorrectedDump(Binary(BinaryOp.MINUS, Binary(BinaryOp.MINUS, a, b), c), false)
  {
    CorrectedRightNesting(a, b, c);
    CorrectedLeftNesting(a, b, c);
  }
}
