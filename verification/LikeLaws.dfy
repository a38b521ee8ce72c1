/** What the usual patterns of `LIKE` match, said of the text itself. */
module LikeLaws {
  import opened ByteStrings
  import opened Values
  import opened LikePatterns

  /** The three special characters stand behind a backslash. */
  function QuotedChar(c: Char): seq<Char> {
    if c == PERCENT || c == UNDERSCORE || c == BACKSLASH then [BACKSLASH, c] else [c]
  }

  /** A text as a pattern of itself. */
  function Quoted(s: seq<Char>): seq<Char> { if s == [] then [] else QuotedChar(s[0]) + Quoted(s[1..]) }

  /** What stands before a pattern's place does not matter. */
  lemma {:induction false} LikeSuffix(text: seq<Char>, t: nat, a: seq<Char>, b: seq<Char>, p: nat)
    requires t <= |text|
    ensures Like(text, t, a + b, |a| + p) == Like(text, t, b, p)
    decreases |text| - t, Left(b, p)
  {
    if p < |b| {
      assert TokenAt(a + b, |a| + p) == TokenAt(b, p) && Width(a + b, |a| + p) == Width(b, p);
      if TokenAt(b, p) == AnyRun { LikeSuffix(text, t, a, b, p + 1); }
      if t < |text| { LikeSuffix(text, t + 1, a, b, if TokenAt(b, p) == AnyRun then p else p + Width(b, p)); }
    }
  }

  /** The text `s` stands in `text` at `t`. */
  predicate StandsAt(text: seq<Char>, t: nat, s: seq<Char>) { t + |s| <= |text| && text[t..t + |s|] == s }

  lemma {:induction false} StandsFirst(text: seq<Char>, t: nat, s: seq<Char>)
    requires s != []
    ensures StandsAt(text, t, s) <==> t < |text| && text[t] == s[0] && StandsAt(text, t + 1, s[1..])
  {
    if t < |text| && text[t] == s[0] && StandsAt(text, t + 1, s[1..]) {
      assert text[t..t + |s|] == [text[t]] + text[t + 1..t + |s|];
    }
    if StandsAt(text, t, s) {
      assert text[t] == text[t..t + |s|][0];
      assert text[t + 1..t + |s|] == text[t..t + |s|][1..];
    }
  }

  lemma {:induction false} CharOpens(text: seq<Char>, t: nat, c: Char, more: seq<Char>)
    requires t <= |text|
    ensures Like(text, t, QuotedChar(c) + more, 0) <==> t < |text| && text[t] == c && Like(text, t + 1, more, 0)
  {
    var q := QuotedChar(c);
    assert TokenAt(q + more, 0) == Exactly(c) && Width(q + more, 0) == |q|;
    if t < |text| { LikeSuffix(text, t + 1, q, more, 0); }
  }

  lemma {:induction false} QuotedOpens(text: seq<Char>, t: nat, s: seq<Char>, rest: seq<Char>)
    requires t <= |text|
    ensures Like(text, t, Quoted(s) + rest, 0) <==> StandsAt(text, t, s) && Like(text, t + |s|, rest, 0)
    decreases |s|
  {
    hide Like, QuotedChar;
    if s == [] {
      assert Quoted(s) + rest == rest;
      assert text[t..t] == s;
    } else {
      assert Quoted(s) + rest == QuotedChar(s[0]) + (Quoted(s[1..]) + rest);
      CharOpens(text, t, s[0], Quoted(s[1..]) + rest);
      StandsFirst(text, t, s);
      hide StandsAt;
      if t < |text| { QuotedOpens(text, t + 1, s[1..], rest); }
    }
  }

  /** A lone `%` takes whatever is left. */
  lemma {:induction false} PercentTakesAll(text: seq<Char>, t: nat)
    requires t <= |text|
    ensures Like(text, t, [PERCENT], 0)
    decreases |text| - t
  {
    if t < |text| { PercentTakesAll(text, t + 1); }
  }

  /** A quoted text matches itself and nothing else. */
  lemma {:induction false} QuotedIsItself(text: seq<Char>, s: seq<Char>)
    ensures Like(text, 0, Quoted(s), 0) <==> text == s
  {
    QuotedOpens(text, 0, s, []);
    assert Quoted(s) + [] == Quoted(s);
    if |s| == |text| { assert text[0..|s|] == text; }
  }

  /** `s%` is the texts that start with it. */
  lemma {:induction false} StartsIff(text: seq<Char>, s: seq<Char>)
    ensures Like(text, 0, Quoted(s) + [PERCENT], 0) <==> s <= text
  {
    QuotedOpens(text, 0, s, [PERCENT]);
    if |s| <= |text| { PercentTakesAll(text, |s|); }
    hide Like;
  }

  /** `%` and then a pattern: some end of the text matches that. */
  lemma {:induction false} PercentThen(text: seq<Char>, rest: seq<Char>)
    ensures Like(text, 0, [PERCENT] + rest, 0) <==> exists t: nat :: t <= |text| && Like(text, t, rest, 0)
  {
    var pat := [PERCENT] + rest;
    assert TokenAt(pat, 0) == AnyRun;
    if Like(text, 0, pat, 0) {
      var t := RunTakes(text, 0, pat, 0);
      LikeSuffix(text, t, [PERCENT], rest, 0);
    }
    if t: nat :| t <= |text| && Like(text, t, rest, 0) {
      LikeSuffix(text, t, [PERCENT], rest, 0);
      assert Like(text, t, pat, 0);
      RunEarlier(text, 0, t, pat, 0);
    }
  }

  /** `%s` is the texts that end with it, and `%s%` those that hold it. */
  lemma {:induction false} EndsIff(text: seq<Char>, s: seq<Char>)
    ensures Like(text, 0, [PERCENT] + Quoted(s), 0) <==> |s| <= |text| && text[|text| - |s|..] == s
  {
    var rest := Quoted(s);
    PercentThen(text, rest);
    assert rest + [] == rest;
    if Like(text, 0, [PERCENT] + rest, 0) {
      var t: nat :| t <= |text| && Like(text, t, rest, 0);
      QuotedOpens(text, t, s, []);
    }
    if |s| <= |text| && text[|text| - |s|..] == s {
      var t: nat := |text| - |s|;
      assert StandsAt(text, t, s);
      QuotedOpens(text, t, s, []);
      assert Like(text, t, rest, 0);
    }
  }

  lemma {:induction false} HoldsIff(text: seq<Char>, s: seq<Char>)
    ensures Like(text, 0, [PERCENT] + (Quoted(s) + [PERCENT]), 0) <==> exists t: nat :: t <= |text| && StandsAt(text, t, s)
  {
    var rest := Quoted(s) + [PERCENT];
    PercentThen(text, rest);
    if Like(text, 0, [PERCENT] + rest, 0) {
      var t: nat :| t <= |text| && Like(text, t, rest, 0);
      QuotedOpens(text, t, s, [PERCENT]);
      assert StandsAt(text, t, s);
    }
    if t: nat :| t <= |text| && StandsAt(text, t, s) {
      PercentTakesAll(text, t + |s|);
      QuotedOpens(text, t, s, [PERCENT]);
      assert Like(text, t, rest, 0);
    }
  }

  function Blanks(n: nat): seq<Char> { if n == 0 then [] else [UNDERSCORE] + Blanks(n - 1) }

  /** Each `_` is one character, whichever. */
  lemma {:induction false} BlanksCount(text: seq<Char>, t: nat, n: nat)
    requires t <= |text|
    ensures Like(text, t, Blanks(n), 0) <==> |text| - t == n
    decreases n
  {
    if n > 0 {
      assert Blanks(n) == [UNDERSCORE] + Blanks(n - 1);
      if t < |text| {
        LikeSuffix(text, t + 1, [UNDERSCORE], Blanks(n - 1), 0);
        BlanksCount(text, t + 1, n - 1);
      }
    }
  }
}
