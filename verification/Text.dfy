/** Python's whitespace and the string operations the guards use. */
module Text {

  /** `str.isspace`, and `\s` in a text pattern. */
  predicate IsSpace(c: char) {
    '\t' <= c <= '\r' || '\U{1C}' <= c <= ' ' || c == '\U{85}' || c == '\U{A0}' || c == '\U{1680}'
    || '\U{2000}' <= c <= '\U{200A}' || c == '\U{2028}' || c == '\U{2029}' || c == '\U{202F}'
    || c == '\U{205F}' || c == '\U{3000}'
  }

  predicate Blank(s: string) { forall c | c in s :: IsSpace(c) }

  function LeftStrip(s: string): (r: string)
    ensures |r| <= |s| && r == s[|s| - |r|..] && Blank(s[..|s| - |r|])
    ensures r != [] ==> !IsSpace(r[0])
  {
    if s != [] && IsSpace(s[0]) then
      var r := LeftStrip(s[1..]);
      assert s[..|s| - |r|] == [s[0]] + s[1..][..|s| - 1 - |r|];
      r
    else s
  }

  function RightStrip(s: string): (r: string)
    ensures |r| <= |s| && r == s[..|r|] && Blank(s[|r|..])
    ensures r != [] ==> !IsSpace(r[|r| - 1])
  {
    if s != [] && IsSpace(s[|s| - 1]) then
      var r := RightStrip(s[..|s| - 1]);
      assert s[|r|..] == s[..|s| - 1][|r|..] + [s[|s| - 1]];
      r
    else s
  }

  /** `str.strip`. */
  function Strip(s: string): string { RightStrip(LeftStrip(s)) }

  /** Each run of whitespace becomes one space. */
  function Collapse(s: string): string {
    if s == [] then []
    else if !IsSpace(s[0]) then [s[0]] + Collapse(s[1..])
    else if |s| > 1 && IsSpace(s[1]) then Collapse(s[1..])
    else [' '] + Collapse(s[1..])
  }

  /** `" ".join(parts)`. */
  function Joined(parts: seq<string>): string {
    if parts == [] then "" else if |parts| == 1 then parts[0] else parts[0] + " " + Joined(parts[1..])
  }

  /** Each part but the last has a space after it. */
  lemma {:induction false} JoinedAppend(parts: seq<string>, last: string)
    ensures Joined(parts + [last]) == if parts == [] then last else Joined(parts) + " " + last
  {
    if parts == [] {
      assert parts + [last] == [last];
    } else {
      JoinedAppend(parts[1..], last);
      assert (parts + [last])[1..] == parts[1..] + [last];
    }
  }

  predicate At(s: string, sub: string, i: nat) { i + |sub| <= |s| && s[i..i + |sub|] == sub }

  predicate Contains(s: string, sub: string) { exists i | 0 <= i <= |s| :: At(s, sub, i) }

  lemma {:induction false} StripSplits(s: string)
    ensures var l := LeftStrip(s); var r := RightStrip(l);
            s == s[..|s| - |l|] + (r + l[|r|..]) && At(s, r, |s| - |l|)
  {
    hide LeftStrip, RightStrip, Blank, At, IsSpace;
    var l := LeftStrip(s);
    var r := RightStrip(l);
    SliceTwice(s, |s| - |l|, |r|);
  }

  lemma {:induction false} SliceTwice(s: string, i: nat, n: nat)
    requires i + n <= |s|
    ensures s == s[..i] + (s[i..][..n] + s[i..][n..]) && At(s, s[i..][..n], i)
  {
    assert s[i..i + n] == s[i..][..n];
  }

  lemma {:induction false} StripIsInside(s: string)
    ensures Contains(s, Strip(s))
    ensures forall c | c in s :: c in Strip(s) || IsSpace(c)
  {
    hide IsSpace, LeftStrip, RightStrip, At;
    StripSplits(s);
    var l := LeftStrip(s);
    var r := RightStrip(l);
    var a, b := s[..|s| - |l|], l[|r|..];
    assert At(s, r, |s| - |l|);
    forall c | c in s ensures c in r || IsSpace(c) {
      assert c in a + (r + b);
      assert c in a || c in r || c in b;
    }
  }

  // ----- Collapsing

  /** Where the word that `s` opens with ends. */
  function WordEnd(s: string): (n: nat)
    ensures n <= |s| && (forall k | 0 <= k < n :: !IsSpace(s[k])) && (n < |s| ==> IsSpace(s[n]))
  {
    if s == [] || IsSpace(s[0]) then 0 else 1 + WordEnd(s[1..])
  }

  /** `str.split`. */
  function SplitWords(s: string): seq<string>
    decreases |s|
  {
    if s == [] then []
    else if IsSpace(s[0]) then SplitWords(s[1..])
    else [s[..WordEnd(s)]] + SplitWords(s[WordEnd(s)..])
  }

  lemma {:induction false} CollapsePrefix(s: string, n: nat)
    requires n <= |s| && forall k | 0 <= k < n :: !IsSpace(s[k])
    ensures Collapse(s) == s[..n] + Collapse(s[n..])
  {
    hide IsSpace;
    if n > 0 {
      CollapsePrefix(s[1..], n - 1);
      assert s[..n] == [s[0]] + s[1..][..n - 1] && s[1..][n - 1..] == s[n..];
    }
  }

  lemma {:induction false} WordThen(w: string, t: string)
    requires w != [] && (forall k | 0 <= k < |w| :: !IsSpace(w[k])) && (t != [] ==> IsSpace(t[0]))
    ensures SplitWords(w + t) == [w] + SplitWords(t)
  {
    hide IsSpace;
    var s := w + t;
    assert WordEnd(s) == |w|;
    assert s[..|w|] == w && s[|w|..] == t;
  }

  lemma {:induction false} CollapseHead(s: string)
    requires s != []
    ensures Collapse(s) != [] && Collapse(s)[0] == if IsSpace(s[0]) then ' ' else s[0]
  {
    hide IsSpace;
    if |s| > 1 && IsSpace(s[0]) && IsSpace(s[1]) { CollapseHead(s[1..]); }
  }

  /** Every space left is a plain one, and no two stand together. */
  lemma {:induction false} CollapseSpaces(s: string, k: nat)
    requires k < |Collapse(s)| && IsSpace(Collapse(s)[k])
    ensures Collapse(s)[k] == ' ' && (k + 1 < |Collapse(s)| ==> Collapse(s)[k + 1] != ' ')
  {
    assert IsSpace(' ');
    hide IsSpace;
    if |s| > 1 && IsSpace(s[0]) && IsSpace(s[1]) {
      CollapseSpaces(s[1..], k);
    } else if k > 0 {
      CollapseSpaces(s[1..], k - 1);
    } else if |s| > 1 {
      CollapseHead(s[1..]);
    }
  }

  lemma {:induction false} CollapseSpace(s: string)
    requires s != [] && IsSpace(s[0])
    ensures Collapse(s) == Collapse(s[1..]) || Collapse(s) == [' '] + Collapse(s[1..])
  {
    hide IsSpace;
  }

  lemma {:induction false} SplitSpace(c: char, t: string)
    requires IsSpace(c)
    ensures SplitWords([c] + t) == SplitWords(t)
  {
    hide IsSpace, WordEnd;
    assert ([c] + t)[1..] == t;
  }

  lemma {:induction false} PlainSpace()
    ensures IsSpace(' ')
  {
  }

  lemma {:induction false} CollapseNone()
    ensures Collapse([]) == []
  {
  }

  lemma {:induction false} WordFirst(s: string)
    requires s != [] && !IsSpace(s[0])
    ensures WordEnd(s) > 0
  {
    hide IsSpace;
  }

  lemma {:induction false} CollapseWord(w: string, t: string)
    requires w != [] && (forall k | 0 <= k < |w| :: !IsSpace(w[k])) && (t != [] ==> IsSpace(t[0]))
    requires SplitWords(Collapse(t)) == SplitWords(t)
    ensures SplitWords(Collapse(w + t)) == SplitWords(w + t)
  {
    hide IsSpace, Collapse, SplitWords, WordEnd;
    PlainSpace();
    var s := w + t;
    assert s[..|w|] == w && s[|w|..] == t;
    CollapsePrefix(s, |w|);
    if t != [] { CollapseHead(t); } else { CollapseNone(); }
    WordThen(w, Collapse(t));
    WordThen(w, t);
  }

  /** Collapsing leaves the words as they are. */
  lemma {:induction false} CollapseWords(s: string)
    ensures SplitWords(Collapse(s)) == SplitWords(s)
    decreases |s|
  {
    hide IsSpace, Collapse, SplitWords, WordEnd;
    PlainSpace();
    if s == [] {
      CollapseNone();
    } else if IsSpace(s[0]) {
      CollapseWords(s[1..]);
      CollapseSpace(s);
      SplitSpace(' ', Collapse(s[1..]));
      SplitSpace(s[0], s[1..]);
      assert s == [s[0]] + s[1..];
    } else {
      WordFirst(s);
      var w, t := s[..WordEnd(s)], s[WordEnd(s)..];
      CollapseWords(t);
      CollapseWord(w, t);
      assert w + t == s;
    }
  }
}
