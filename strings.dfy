/** Text helpers shared by the renderers: joining with a separator (the `first`
    flag loops of every `dump`), counting a character, and decimal numbers. */
module Strings {

  /** `xs` separated by `sep`: what a loop that writes `sep` before every item
      but the first produces. */
  function Join(xs: seq<string>, sep: string): string
    decreases |xs|
  {
    if |xs| == 0 then ""
    else if |xs| == 1 then xs[0]
    else Join(xs[..|xs| - 1], sep) + sep + xs[|xs| - 1]
  }

  /** One more item at the end of a joined list. */
  lemma JoinSnoc(xs: seq<string>, x: string, sep: string)
    ensures Join(xs + [x], sep) == if |xs| == 0 then x else Join(xs, sep) + sep + x
  {
    assert (xs + [x])[..|xs|] == xs;
  }

  /** The step of a `first`-flag loop: the prefix of one more item. */
  lemma JoinStep(xs: seq<string>, i: nat, sep: string)
    requires i < |xs|
    ensures Join(xs[..i + 1], sep) == if i == 0 then xs[i] else Join(xs[..i], sep) + sep + xs[i]
  {
    assert xs[..i + 1] == xs[..i] + [xs[i]];
    JoinSnoc(xs[..i], xs[i], sep);
  }

  /** The step of a `first`-flag loop that writes after a fixed `head`: `sep`
      before every item but the first. */
  lemma JoinPrefixStep(head: string, xs: seq<string>, i: nat, sep: string, s: string)
    requires i < |xs| && s == head + Join(xs[..i], sep)
    ensures i == 0 ==> s + xs[i] == head + Join(xs[..i + 1], sep)
    ensures i > 0 ==> s + sep + xs[i] == head + Join(xs[..i + 1], sep)
  {
    JoinStep(xs, i, sep);
  }

  /** Number of occurrences of `c` in `s`. */
  function Count(c: char, s: string): nat
  {
    if |s| == 0 then 0 else (if s[0] == c then 1 else 0) + Count(c, s[1..])
  }

  lemma {:induction false} CountConcat(c: char, a: string, b: string)
    ensures Count(c, a + b) == Count(c, a) + Count(c, b)
  {
    if |a| > 0 {
      assert (a + b)[1..] == a[1..] + b;
      CountConcat(c, a[1..], b);
    } else {
      assert a + b == b;
    }
  }

  lemma CountConcat3(c: char, a: string, b: string, d: string)
    ensures Count(c, a + b + d) == Count(c, a) + Count(c, b) + Count(c, d)
  {
    CountConcat(c, a + b, d);
    CountConcat(c, a, b);
  }

  lemma {:induction false} CountAbsent(c: char, s: string)
    requires c !in s
    ensures Count(c, s) == 0
  {
    if |s| > 0 {
      assert c !in s[1..] by {
        forall k | 0 <= k < |s[1..]| ensures s[1..][k] != c { assert s[1..][k] == s[k + 1]; }
      }
      CountAbsent(c, s[1..]);
    }
  }

  /** The occurrences of `c` in all of `xs`. */
  function CountAll(c: char, xs: seq<string>): nat
    decreases |xs|
  {
    if |xs| == 0 then 0 else CountAll(c, xs[..|xs| - 1]) + Count(c, xs[|xs| - 1])
  }

  /** Joining with a separator that does not contain `c` adds no `c`. */
  lemma {:induction false} CountJoin(c: char, xs: seq<string>, sep: string)
    requires c !in sep
    ensures Count(c, Join(xs, sep)) == CountAll(c, xs)
    decreases |xs|
  {
    if |xs| == 1 {
      assert xs[..0] == [];
    } else if |xs| > 1 {
      var init := xs[..|xs| - 1];
      CountJoin(c, init, sep);
      CountConcat(c, Join(init, sep) + sep, xs[|xs| - 1]);
      CountConcat(c, Join(init, sep), sep);
      CountAbsent(c, sep);
    }
  }

  /** No item of `xs` contains `c`. */
  lemma {:induction false} CountAllAbsent(c: char, xs: seq<string>)
    requires forall i :: 0 <= i < |xs| ==> c !in xs[i]
    ensures CountAll(c, xs) == 0
    decreases |xs|
  {
    if |xs| > 0 {
      CountAllAbsent(c, xs[..|xs| - 1]);
      CountAbsent(c, xs[|xs| - 1]);
    }
  }

  /** `n` copies of `s`. */
  function Repeat(s: string, n: nat): (r: seq<string>)
    ensures |r| == n && forall i :: 0 <= i < n ==> r[i] == s
  {
    if n == 0 then [] else Repeat(s, n - 1) + [s]
  }

  /** A list of `n` placeholders holds exactly `n` of them. */
  lemma {:induction false} CountRepeat(c: char, n: nat)
    ensures CountAll(c, Repeat([c], n)) == n
  {
    if n > 0 {
      assert Repeat([c], n)[..n - 1] == Repeat([c], n - 1);
      CountRepeat(c, n - 1);
      assert [c][1..] == [];
      assert Count(c, [c]) == 1;
    }
  }

  function Digit(d: nat): (ch: char)
    requires d < 10
    ensures '0' <= ch <= '9'
  {
    "0123456789"[d]
  }

  /** Decimal text of a natural number, as `operator<<` writes a `size_t`. */
  function NatToString(n: nat): (r: string)
    ensures |r| > 0
    ensures forall i :: 0 <= i < |r| ==> '0' <= r[i] <= '9'
  {
    if n < 10 then [Digit(n)] else NatToString(n / 10) + [Digit(n % 10)]
  }

  /** The `first`-flag loop of every `dump`: writes `xs` after `prefix`, separated by
      `", "`. */
  method WriteJoined(prefix: string, xs: seq<string>) returns (s: string)
    ensures s == prefix + Join(xs, ", ")
  {
    s := prefix;
    var first := true;
    var i := 0;
    while i < |xs|
      invariant 0 <= i <= |xs|
      invariant first <==> i == 0
      invariant s == prefix + Join(xs[..i], ", ")
    {
      if !first {
        s := s + ", ";
      }
      first := false;
      JoinStep(xs, i, ", ");
      s := s + xs[i];
      i := i + 1;
    }
    assert xs[..i] == xs;
  }

}
