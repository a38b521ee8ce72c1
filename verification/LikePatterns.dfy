/** `LIKE`: the backtracking matcher against what a pattern means, and the prefix it requires. */
module LikePatterns {
  import opened Options
  import opened ByteStrings
  import opened Values

  // ----- Characters

  /** A character, as the one well-formed UTF-8 sequence that spells it. */
  type Char = c: seq<Byte> | c != [] && Utf8Width(c) == |c| witness [0]

  const PERCENT: Char := [0x25]
  const UNDERSCORE: Char := [0x5F]
  const BACKSLASH: Char := [0x5C]

  lemma {:induction false} WidthOfFirst(s: seq<Byte>)
    requires s != [] && Utf8Width(s) > 0
    ensures Utf8Width(s[..Utf8Width(s)]) == Utf8Width(s)
  {
  }

  lemma {:induction false} WidthWithRest(c: Char, rest: seq<Byte>)
    ensures Utf8Width(c + rest) == |c| && (c + rest)[|c|..] == rest && (c + rest)[..|c|] == c
  {
  }

  /** `str::chars`. */
  function Chars(s: Utf8): seq<Char>
    decreases |s|
  {
    if s == [] then []
    else
      WidthOfFirst(s);
      [s[..Utf8Width(s)]] + Chars(s[Utf8Width(s)..])
  }

  function Spelled(cs: seq<Char>): Utf8 {
    if cs == [] then []
    else
      var rest := Spelled(cs[1..]);
      WidthWithRest(cs[0], rest);
      cs[0] + rest
  }

  lemma {:induction false} CharsSpelled(cs: seq<Char>)
    ensures Chars(Spelled(cs)) == cs
  {
    if cs != [] {
      CharsSpelled(cs[1..]);
      WidthWithRest(cs[0], Spelled(cs[1..]));
    }
  }

  lemma {:induction false} SpelledChars(s: Utf8)
    ensures Spelled(Chars(s)) == s
    decreases |s|
  {
    if s != [] {
      SpelledChars(s[Utf8Width(s)..]);
      assert Chars(s)[1..] == Chars(s[Utf8Width(s)..]);
    }
  }

  lemma {:induction false} SpelledPrefix(a: seq<Char>, b: seq<Char>)
    requires a <= b
    ensures IsPrefix(Spelled(a), Spelled(b))
  {
    if a != [] {
      SpelledPrefix(a[1..], b[1..]);
      var x, y := Spelled(a[1..]), Spelled(b[1..]);
      assert Spelled(b)[..|Spelled(a)|] == a[0] + y[..|x|];
    }
  }

  // ----- What a pattern means

  datatype Token = AnyRun | AnyOne | Exactly(c: Char)

  /** The token at `p`: a backslash takes the next character literally, and a last one itself. */
  function TokenAt(pat: seq<Char>, p: nat): Token
    requires p < |pat|
  {
    if pat[p] == PERCENT then AnyRun
    else if pat[p] == UNDERSCORE then AnyOne
    else if pat[p] == BACKSLASH then Exactly(if p + 1 < |pat| then pat[p + 1] else BACKSLASH)
    else Exactly(pat[p])
  }

  function Width(pat: seq<Char>, p: nat): (w: nat)
    requires p < |pat|
    ensures 1 <= w <= 2
  {
    if pat[p] == BACKSLASH then 2 else 1
  }

  function Left(pat: seq<Char>, p: nat): nat { if p < |pat| then |pat| - p else 0 }

  /** The text from `t` on is what the pattern from `p` on describes. */
  predicate Like(text: seq<Char>, t: nat, pat: seq<Char>, p: nat)
    requires t <= |text|
    decreases |text| - t, Left(pat, p)
  {
    if p >= |pat| then t == |text|
    else match TokenAt(pat, p)
         case AnyRun => Like(text, t, pat, p + 1) || (t < |text| && Like(text, t + 1, pat, p))
         case AnyOne => t < |text| && Like(text, t + 1, pat, p + 1)
         case Exactly(c) => t < |text| && text[t] == c && Like(text, t + 1, pat, p + Width(pat, p))
  }

  /** Some later start would do. */
  ghost predicate Later(text: seq<Char>, after: nat, pat: seq<Char>, p: nat) {
    exists s: nat :: after < s <= |text| && Like(text, s, pat, p)
  }

  /** A run takes any amount, so an earlier start is as good. */
  lemma {:induction false} RunEarlier(text: seq<Char>, t: nat, s: nat, pat: seq<Char>, p: nat)
    requires t <= s <= |text| && p < |pat| && TokenAt(pat, p) == AnyRun && Like(text, s, pat, p)
    ensures Like(text, t, pat, p)
    decreases s - t
  {
    if t < s { RunEarlier(text, t + 1, s, pat, p); }
  }

  lemma {:induction false} RunTakes(text: seq<Char>, t: nat, pat: seq<Char>, p: nat) returns (s: nat)
    requires t <= |text| && p < |pat| && TokenAt(pat, p) == AnyRun && Like(text, t, pat, p)
    ensures t <= s <= |text| && Like(text, s, pat, p + 1)
    decreases |text| - t
  {
    s := t;
    if !Like(text, t, pat, p + 1) { s := RunTakes(text, t + 1, pat, p); }
  }

  /** What the run at `p` opens: a match right here after it, or one that starts later. */
  lemma {:induction false} RunIsStar(text: seq<Char>, t: nat, pat: seq<Char>, p: nat)
    requires t <= |text| && p < |pat| && TokenAt(pat, p) == AnyRun
    ensures Like(text, t, pat, p) <==> Like(text, t, pat, p + 1) || Later(text, t, pat, p + 1)
  {
    if Like(text, t, pat, p) {
      var s := RunTakes(text, t, pat, p);
    }
    if Later(text, t, pat, p + 1) {
      var s: nat :| t < s <= |text| && Like(text, s, pat, p + 1);
      assert Like(text, s, pat, p);
      RunEarlier(text, t, s, pat, p);
    }
  }

  // ----- Between two runs

  /** The pattern from `q` reaches `p` in `n` tokens, none of them a run. */
  ghost predicate Fixed(pat: seq<Char>, q: nat, p: nat, n: nat)
    decreases n
  {
    if n == 0 then q == p
    else q < |pat| && TokenAt(pat, q) != AnyRun && Fixed(pat, q + Width(pat, q), p, n - 1)
  }

  lemma {:induction false} FixedMore(pat: seq<Char>, q: nat, p: nat, n: nat)
    requires Fixed(pat, q, p, n) && p < |pat| && TokenAt(pat, p) != AnyRun
    ensures Fixed(pat, q, p + Width(pat, p), n + 1)
    decreases n
  {
    if n > 0 { FixedMore(pat, q + Width(pat, q), p, n - 1); }
  }

  /** Such a stretch takes just as many characters. */
  lemma {:induction false} FixedTakes(text: seq<Char>, s: nat, pat: seq<Char>, q: nat, p: nat, n: nat)
    requires s <= |text| && Fixed(pat, q, p, n) && Like(text, s, pat, q)
    ensures s + n <= |text| && Like(text, s + n, pat, p)
    decreases n
  {
    if n > 0 { FixedTakes(text, s + 1, pat, q + Width(pat, q), p, n - 1); }
  }

  /** At a second run the first can be forgotten. */
  lemma {:induction false} StarSuperseded(text: seq<Char>, t: nat, pat: seq<Char>, p: nat, starT: nat, q: nat)
    requires starT <= t <= |text| && Fixed(pat, q, p, t - starT)
    requires p < |pat| && TokenAt(pat, p) == AnyRun && Later(text, starT, pat, q)
    ensures Like(text, t, pat, p)
  {
    var s: nat :| starT < s <= |text| && Like(text, s, pat, q);
    FixedTakes(text, s, pat, q, p, t - starT);
    RunEarlier(text, t, s + (t - starT), pat, p);
  }

  /** When the text is spent no later start is left. */
  lemma {:induction false} NoLaterAtEnd(text: seq<Char>, pat: seq<Char>, p: nat, starT: nat, q: nat)
    requires starT <= |text| && Fixed(pat, q, p, |text| - starT)
    ensures !Later(text, starT, pat, q)
  {
    forall s: nat | starT < s <= |text| ensures !Like(text, s, pat, q) {
      if Like(text, s, pat, q) { FixedTakes(text, s, pat, q, p, |text| - starT); }
    }
  }

  lemma {:induction false} LaterStep(text: seq<Char>, starT: nat, pat: seq<Char>, q: nat)
    requires starT < |text|
    ensures Later(text, starT, pat, q) <==> Like(text, starT + 1, pat, q) || Later(text, starT + 1, pat, q)
  {
    if Later(text, starT, pat, q) {
      var s: nat :| starT < s <= |text| && Like(text, s, pat, q);
      assert s == starT + 1 || Later(text, starT + 1, pat, q);
    }
  }

  lemma {:induction false} EndNeedsRuns(text: seq<Char>, pat: seq<Char>, p: nat)
    ensures Like(text, |text|, pat, p) <==> forall k | p <= k < |pat| :: pat[k] == PERCENT
    decreases Left(pat, p)
  {
    if p < |pat| { EndNeedsRuns(text, pat, p + 1); }
  }

  // ----- The matcher

  /** What the matcher's state promises: the whole question is this one, or a later start. */
  ghost predicate Stands(text: seq<Char>, pat: seq<Char>, t: nat, p: nat, star: Option<nat>, starT: nat) {
    && t <= |text|
    && (Like(text, 0, pat, 0) <==> Like(text, t, pat, p) || (star.Some? && Later(text, starT, pat, star.value + 1)))
    && (star.Some? ==> starT <= t && Fixed(pat, star.value + 1, p, t - starT))
  }

  lemma {:induction false} StandsAtRun(text: seq<Char>, pat: seq<Char>, t: nat, p: nat, star: Option<nat>, starT: nat)
    requires Stands(text, pat, t, p, star, starT) && p < |pat| && TokenAt(pat, p) == AnyRun
    ensures Stands(text, pat, t, p + 1, Some(p), t)
  {
    RunIsStar(text, t, pat, p);
    if star.Some? && Later(text, starT, pat, star.value + 1) {
      StarSuperseded(text, t, pat, p, starT, star.value + 1);
    }
    hide Like, Later;
  }

  lemma {:induction false} StandsAtMatch(text: seq<Char>, pat: seq<Char>, t: nat, p: nat, star: Option<nat>, starT: nat)
    requires Stands(text, pat, t, p, star, starT) && t < |text| && p < |pat|
    requires TokenAt(pat, p) == AnyOne || TokenAt(pat, p) == Exactly(text[t])
    ensures Stands(text, pat, t + 1, p + Width(pat, p), star, starT)
  {
    assert Like(text, t, pat, p) == Like(text, t + 1, pat, p + Width(pat, p));
    if star.Some? { FixedMore(pat, star.value + 1, p, t - starT); }
    hide Like, Later;
  }

  predicate Stuck(text: seq<Char>, t: nat, pat: seq<Char>, p: nat) {
    t < |text| && (p >= |pat| || (TokenAt(pat, p).Exactly? && TokenAt(pat, p).c != text[t]))
  }

  lemma {:induction false} StandsAfterBacktrack(text: seq<Char>, pat: seq<Char>, t: nat, p: nat, star: Option<nat>, starT: nat)
    requires Stands(text, pat, t, p, star, starT) && Stuck(text, t, pat, p)
    ensures star.None? ==> !Like(text, 0, pat, 0)
    ensures star.Some? ==> Stands(text, pat, starT + 1, star.value + 1, star, starT + 1)
  {
    assert !Like(text, t, pat, p);
    if star.Some? { LaterStep(text, starT, pat, star.value + 1); }
    hide Like, Later;
  }

  /** `like_matches`: forward, and back to the last run when that fails. */
  method LikeMatches(text: seq<Char>, pat: seq<Char>) returns (matched: bool)
    ensures matched <==> Like(text, 0, pat, 0)
  {
    hide Like, Later, Fixed;
    var t: nat, p: nat := 0, 0;
    var star: Option<nat>, starT := None, 0;
    while t < |text|
      invariant Stands(text, pat, t, p, star, starT)
      invariant star.Some? ==> starT <= t
      decreases if star.None? then |text| + 1 else |text| - starT, Left(pat, p) + |text| - t
    {
      if p < |pat| && pat[p] == PERCENT {
        StandsAtRun(text, pat, t, p, star, starT);
        star, starT, p := Some(p), t, p + 1;
      } else if p < |pat| && (pat[p] == UNDERSCORE || TokenAt(pat, p) == Exactly(text[t])) {
        StandsAtMatch(text, pat, t, p, star, starT);
        p, t := p + Width(pat, p), t + 1;
      } else {
        StandsAfterBacktrack(text, pat, t, p, star, starT);
        if star.None? { return false; }
        p, starT, t := star.value + 1, starT + 1, starT + 1;
      }
    }
    if star.Some? { NoLaterAtEnd(text, pat, p, starT, star.value + 1); }
    EndNeedsRuns(text, pat, p);
    var k := p;
    while k < |pat|
      invariant p <= k && forall j | p <= j < k && j < |pat| :: pat[j] == PERCENT
    {
      if pat[k] != PERCENT { return false; }
      k := k + 1;
    }
    return true;
  }

  // ----- The literal prefix

  /** The literal characters before the first run or single. */
  function Literal(pat: seq<Char>, p: nat): seq<Char>
    decreases Left(pat, p)
  {
    if p >= |pat| || !TokenAt(pat, p).Exactly? then []
    else [TokenAt(pat, p).c] + Literal(pat, p + Width(pat, p))
  }

  /** `like_prefix`: no prefix at all rather than an empty one. */
  method LikePrefix(pat: seq<Char>) returns (r: Option<seq<Char>>)
    ensures r == if Literal(pat, 0) == [] then None else Some(Literal(pat, 0))
  {
    var prefix: seq<Char> := [];
    var p: nat := 0;
    assert prefix + Literal(pat, 0) == Literal(pat, 0);
    while p < |pat| && TokenAt(pat, p).Exactly?
      invariant prefix + Literal(pat, p) == Literal(pat, 0)
      decreases Left(pat, p)
    {
      assert prefix + Literal(pat, p) == prefix + [TokenAt(pat, p).c] + Literal(pat, p + Width(pat, p));
      prefix := prefix + [TokenAt(pat, p).c];
      p := p + Width(pat, p);
    }
    assert prefix + Literal(pat, p) == prefix;
    return if prefix == [] then None else Some(prefix);
  }

  /** Every text the pattern matches starts with it. */
  lemma {:induction false} LiteralOpens(text: seq<Char>, t: nat, pat: seq<Char>, p: nat)
    requires t <= |text| && Like(text, t, pat, p)
    ensures Literal(pat, p) <= text[t..]
    decreases Left(pat, p)
  {
    if p < |pat| && TokenAt(pat, p).Exactly? {
      LiteralOpens(text, t + 1, pat, p + Width(pat, p));
      assert text[t..] == [text[t]] + text[t + 1..];
    }
  }

  /** And does so byte by byte, which is what the keyspace is ordered by. */
  lemma {:induction false} LiteralOpensBytes(text: Utf8, pat: seq<Char>)
    requires Like(Chars(text), 0, pat, 0)
    ensures IsPrefix(Spelled(Literal(pat, 0)), text)
  {
    var cs := Chars(text);
    LiteralOpens(cs, 0, pat, 0);
    assert cs[0..] == cs;
    SpelledPrefix(Literal(pat, 0), cs);
    SpelledChars(text);
  }
}
