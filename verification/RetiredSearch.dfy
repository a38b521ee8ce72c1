/** Every occurrence of a retired claim: searched for with overlaps, exempted or reported. */
module RetiredSearch {
  import opened Options
  import opened Text
  import opened RetiredClaims
  import Struck

  // ----- Lower case

  /** The one letter that `str.lower` turns into two characters. */
  const DOTTED_I: char := '\U{130}'

  /** `str.lower` of one character; `lower` holds the letters that become another single one. */
  function LowerChar(lower: map<char, char>, c: char): (r: string)
    ensures |r| == if c == DOTTED_I then 2 else 1
  {
    if c == DOTTED_I then ['i', '\U{307}'] else if c in lower then [lower[c]] else [c]
  }

  function Lower(lower: map<char, char>, s: string, n: nat): string
    requires n <= |s|
  {
    if n == 0 then "" else Lower(lower, s, n - 1) + LowerChar(lower, s[n - 1])
  }

  // ----- Exemptions

  datatype File = File(flat: Flat, lowered: string, marked: seq<bool>)

  /** What `normalize` guarantees of the file. */
  ghost predicate Mapped(f: File) {
    |f.flat.lines| == |f.flat.text| && NonDecreasing(f.flat.lines)
    && forall x | x in f.flat.lines :: 1 <= x <= |f.marked|
  }

  /** The leftmost shortest `~~...~~` with something in it, from `from` on. */
  function NextSpan(t: string, from: nat): (r: Option<(nat, nat)>)
    requires from <= |t|
    ensures r.Some? ==> from <= r.value.0 && r.value.0 + 5 <= r.value.1 <= |t|
  {
    var i := Struck.Find(t, from);
    if i + 3 > |t| then None
    else
      var j := Struck.Find(t, i + 3);
      if j == |t| then None else Some((i, j + 2))
  }

  /** All of them, each after the one before: `STRUCK.finditer`. */
  function Spans(t: string, from: nat): (r: seq<(nat, nat)>)
    requires from <= |t|
    decreases |t| - from
  {
    var next := NextSpan(t, from);
    if next.None? then [] else [next.value] + Spans(t, next.value.1)
  }

  lemma {:induction false} NextSpanShape(t: string, from: nat)
    requires from <= |t| && NextSpan(t, from).Some?
    ensures var sp := NextSpan(t, from).value;
            && Struck.MarkAt(t, sp.0) && Struck.MarkAt(t, sp.1 - 2)
            && forall j | sp.0 + 3 <= j < sp.1 - 2 :: !Struck.MarkAt(t, j)
  {
  }

  /** Each span is one `~~` and the nearest other that leaves something between them. */
  lemma {:induction false} SpanShape(t: string, from: nat, k: nat)
    requires from <= |t| && k < |Spans(t, from)|
    ensures var sp := Spans(t, from)[k];
            && from <= sp.0 && sp.0 + 5 <= sp.1 <= |t|
            && Struck.MarkAt(t, sp.0) && Struck.MarkAt(t, sp.1 - 2)
            && forall j | sp.0 + 3 <= j < sp.1 - 2 :: !Struck.MarkAt(t, j)
    decreases |t| - from
  {
    hide NextSpan, Struck.MarkAt;
    if k == 0 {
      NextSpanShape(t, from);
    } else {
      SpanShape(t, NextSpan(t, from).value.1, k - 1);
    }
  }

  lemma {:induction false} NextSpanMeets(t: string, from: nat, a: nat, b: nat)
    requires from <= a && a + 3 <= b && Struck.MarkAt(t, a) && Struck.MarkAt(t, b)
    ensures var next := NextSpan(t, from); next.Some? && next.value.0 < b + 2 && next.value.1 <= b + 2
  {
    var i := Struck.Find(t, from);
    assert i <= a;
    assert Struck.Find(t, i + 3) <= b;
  }

  /** No struck text is missed: two markers with something between them meet some span. */
  lemma {:induction false} SpansMissNone(t: string, from: nat, a: nat, b: nat) returns (k: nat)
    requires from <= a && a + 3 <= b && Struck.MarkAt(t, a) && Struck.MarkAt(t, b)
    ensures k < |Spans(t, from)| && Spans(t, from)[k].0 < b + 2 && a < Spans(t, from)[k].1
    decreases |t| - from
  {
    NextSpanMeets(t, from, a, b);
    hide NextSpan, Struck.MarkAt;
    k := 0;
    if NextSpan(t, from).value.1 <= a {
      var m := SpansMissNone(t, NextSpan(t, from).value.1, a, b);
      k := m + 1;
    }
  }

  predicate InSpan(t: string, start: nat, end: nat) {
    var spans := Spans(t, 0);
    exists k | 0 <= k < |spans| :: spans[k].0 <= start && end <= spans[k].1
  }

  /** Some line with a number in `lo..hi` is marked; numbers outside the file hold nothing. */
  predicate MarkedBetween(marked: seq<bool>, lo: int, hi: int) {
    exists i | 0 <= i < |marked| :: lo <= i + 1 <= hi && marked[i]
  }

  /** The line of a position, the last line for a position past the text. */
  function LineNear(f: File, i: nat): nat
    requires f.flat.lines != []
  {
    f.flat.lines[if i < |f.flat.lines| then i else |f.flat.lines| - 1]
  }

  /** `exempt`. The line of `end` is that of the character after the occurrence. */
  predicate Exempt(f: File, start: nat, end: nat) {
    || InSpan(f.flat.text, start, end)
    || (f.flat.lines != [] && MarkedBetween(f.marked, LineNear(f, start) - 2, LineNear(f, end) + 2))
  }

  method IsExempt(f: File, start: nat, end: nat) returns (b: bool)
    requires Mapped(f)
    ensures b <==> Exempt(f, start, end)
  {
    hide Spans, NonDecreasing;
    var spans := Spans(f.flat.text, 0);
    for k := 0 to |spans|
      invariant forall j | 0 <= j < k :: !(spans[j].0 <= start && end <= spans[j].1)
    {
      if spans[k].0 <= start && end <= spans[k].1 { return true; }
    }
    assert !InSpan(f.flat.text, start, end);
    hide InSpan;
    if f.flat.lines == [] { return false; }
    var first, last := LineNear(f, start), LineNear(f, end);
    assert first in f.flat.lines && last in f.flat.lines;
    var lo: nat := if first < 3 then 0 else first - 3;
    var hi := if |f.marked| < last + 2 then |f.marked| else last + 2;
    var i := lo;
    while i < hi
      invariant lo <= i && forall j | lo <= j < i && j < hi :: !f.marked[j]
    {
      if f.marked[i] { return true; }
      i := i + 1;
    }
    return false;
  }

  /** The exemption the prose describes: two lines either side of the lines the claim stands on. */
  predicate Described(f: File, start: nat, end: nat)
    requires start < end
  {
    || InSpan(f.flat.text, start, end)
    || (f.flat.lines != [] && MarkedBetween(f.marked, LineNear(f, start) - 2, LineNear(f, end - 1) + 2))
  }

  /** The code exempts whatever the prose does, and also what has a mark below that, down to two
      lines after the next word. */
  lemma {:induction false} ExemptWider(f: File, start: nat, end: nat)
    requires Mapped(f) && start < end
    ensures Exempt(f, start, end) <==>
            || Described(f, start, end)
            || (f.flat.lines != [] && MarkedBetween(f.marked, LineNear(f, end - 1) + 3, LineNear(f, end) + 2))
  {
    hide InSpan;
    if f.flat.lines != [] {
      var a: int, b: int, c: int := LineNear(f, start), LineNear(f, end - 1), LineNear(f, end);
      assert a <= b <= c;
      hide LineNear, Mapped;
      MarkedSplit(f.marked, a - 2, b + 2, c + 2);
    }
  }

  lemma {:induction false} MarkedSplit(marked: seq<bool>, a: int, b: int, c: int)
    requires a <= b + 1 && b <= c
    ensures MarkedBetween(marked, a, c) <==> MarkedBetween(marked, a, b) || MarkedBetween(marked, b + 1, c)
  {
    if MarkedBetween(marked, a, c) {
      var i: nat :| i < |marked| && a <= i + 1 <= c && marked[i];
      assert if i + 1 <= b then MarkedBetween(marked, a, b) else MarkedBetween(marked, b + 1, c);
    }
  }

  /** However the lines are marked, code and prose agree about this occurrence. */
  ghost predicate AlwaysAsDescribed(flat: Flat, lowered: string, n: nat, start: nat, end: nat)
    requires start < end
  {
    forall marked: seq<bool> | |marked| == n ::
      Exempt(File(flat, lowered, marked), start, end) <==> Described(File(flat, lowered, marked), start, end)
  }

  /** They agree exactly when the claim is struck, is followed by a word on its own last line or
      by nothing, or ends within two lines of the end of the file. */
  lemma {:induction false} AsDescribedIff(f: File, start: nat, end: nat)
    requires Mapped(f) && start < end && f.flat.lines != []
    ensures AlwaysAsDescribed(f.flat, f.lowered, |f.marked|, start, end) <==>
            || InSpan(f.flat.text, start, end)
            || LineNear(f, end) == LineNear(f, end - 1)
            || LineNear(f, end - 1) + 2 >= |f.marked|
  {
    hide InSpan;
    var n := |f.marked|;
    var a: int, b: int, c: int := LineNear(f, start), LineNear(f, end - 1), LineNear(f, end);
    assert a <= b <= c;
    if c == b || b + 2 >= n {
      forall marked: seq<bool> | |marked| == n
        ensures !MarkedBetween(marked, b + 3, c + 2)
      {
      }
      forall marked: seq<bool> | |marked| == n
        ensures Exempt(File(f.flat, f.lowered, marked), start, end) <==> Described(File(f.flat, f.lowered, marked), start, end)
      {
        ExemptWider(File(f.flat, f.lowered, marked), start, end);
      }
    } else if !InSpan(f.flat.text, start, end) {
      LaterMarkTaken(f, start, end);
    }
  }

  /** A mark three lines below the claim, where the next word is further down. */
  lemma {:induction false} LaterMarkTaken(f: File, start: nat, end: nat)
    requires Mapped(f) && start < end && f.flat.lines != [] && !InSpan(f.flat.text, start, end)
    requires LineNear(f, end - 1) < LineNear(f, end) && LineNear(f, end - 1) + 2 < |f.marked|
    ensures !AlwaysAsDescribed(f.flat, f.lowered, |f.marked|, start, end)
  {
    hide InSpan;
    var b: nat := LineNear(f, end - 1);
    var marked := seq(|f.marked|, i => i == b + 2);
    var g := File(f.flat, f.lowered, marked);
    assert marked[b + 2];
    assert MarkedBetween(marked, b + 3, LineNear(f, end) + 2);
    ExemptWider(g, start, end);
    assert Exempt(g, start, end) && !Described(g, start, end);
  }

  // ----- The search

  datatype Report = Report(phrase: nat, at: nat, line: nat)

  function ReportAt(f: File, phrase: nat, at: nat): Report {
    Report(phrase, at, if at < |f.flat.lines| then f.flat.lines[at] else 0)
  }

  /** The reference: look at each position in turn. */
  function Scan(f: File, phrase: nat, needle: string, n: nat): seq<Report> {
    if n == 0 then []
    else
      Scan(f, phrase, needle, n - 1)
      + if At(f.lowered, needle, n - 1) && !Exempt(f, n - 1, n - 1 + |needle|) then [ReportAt(f, phrase, n - 1)] else []
  }

  lemma {:induction false} ScanSkips(f: File, phrase: nat, needle: string, a: nat, b: nat)
    requires a <= b && forall i | a <= i < b :: !At(f.lowered, needle, i)
    ensures Scan(f, phrase, needle, b) == Scan(f, phrase, needle, a)
    decreases b
  {
    hide Exempt, At;
    if a < b { ScanSkips(f, phrase, needle, a, b - 1); }
  }

  /** `str.find(needle, from)`, with no position for -1. */
  method Find(s: string, needle: string, from: nat) returns (found: bool, i: nat)
    ensures found ==> from <= i && At(s, needle, i) && forall j | from <= j < i :: !At(s, needle, j)
    ensures !found ==> forall j: nat | from <= j :: !At(s, needle, j)
  {
    i := from;
    while i + |needle| <= |s|
      invariant from <= i && forall j | from <= j < i :: !At(s, needle, j)
    {
      if At(s, needle, i) { return true, i; }
      i := i + 1;
    }
    return false, 0;
  }

  /** One phrase: the loop from one hit to the next reports just what the scan reports. */
  method CheckPhrase(f: File, phrase: nat, needle: string) returns (problems: seq<Report>)
    requires Mapped(f)
    ensures problems == Scan(f, phrase, needle, |f.lowered| + 1)
  {
    hide Exempt, At, Mapped, Scan;
    problems := [];
    var found, start := Find(f.lowered, needle, 0);
    ghost var next := 0;
    assert Scan(f, phrase, needle, 0) == [] by { ScanNone(f, phrase, needle); }
    while found
      invariant found ==> next <= start && At(f.lowered, needle, start) && start <= |f.lowered|
      invariant found ==> forall j | next <= j < start :: !At(f.lowered, needle, j)
      invariant !found ==> forall j: nat | next <= j :: !At(f.lowered, needle, j)
      invariant problems == Scan(f, phrase, needle, next) && next <= |f.lowered| + 1
      decreases |f.lowered| + 1 - next
    {
      var end := start + |needle|;
      ScanSkips(f, phrase, needle, next, start);
      ScanStep(f, phrase, needle, start);
      var excused := IsExempt(f, start, end);
      if !excused { problems := problems + [ReportAt(f, phrase, start)]; }
      next := start + 1;
      found, start := Find(f.lowered, needle, start + 1);
      if found { HitInside(f.lowered, needle, start); }
    }
    ScanSkips(f, phrase, needle, next, |f.lowered| + 1);
  }

  lemma {:induction false} HitInside(s: string, needle: string, i: nat)
    requires At(s, needle, i)
    ensures i <= |s|
  {
  }

  lemma {:induction false} ScanNone(f: File, phrase: nat, needle: string)
    ensures Scan(f, phrase, needle, 0) == []
  {
  }

  lemma {:induction false} ScanStep(f: File, phrase: nat, needle: string, i: nat)
    requires At(f.lowered, needle, i)
    ensures Scan(f, phrase, needle, i + 1)
            == Scan(f, phrase, needle, i) + if Exempt(f, i, i + |needle|) then [] else [ReportAt(f, phrase, i)]
  {
    hide Exempt, At;
  }

  /** What is reported: each occurrence that is not exempt, once, with its line. */
  lemma {:induction false} ScanMember(f: File, phrase: nat, needle: string, n: nat, r: Report)
    ensures r in Scan(f, phrase, needle, n) <==>
            r.at < n && At(f.lowered, needle, r.at) && !Exempt(f, r.at, r.at + |needle|) && r == ReportAt(f, phrase, r.at)
  {
    hide Exempt, At;
    if n > 0 { ScanMember(f, phrase, needle, n - 1, r); }
  }

  /** Reports come in the order of the text, so none comes twice. */
  lemma {:induction false} ScanAscends(f: File, phrase: nat, needle: string, n: nat, a: nat, b: nat)
    requires a < b < |Scan(f, phrase, needle, n)|
    ensures Scan(f, phrase, needle, n)[a].at < Scan(f, phrase, needle, n)[b].at < n
  {
    var before := Scan(f, phrase, needle, n - 1);
    if b < |before| {
      ScanAscends(f, phrase, needle, n - 1, a, b);
    } else {
      ScanMember(f, phrase, needle, n - 1, before[a]);
    }
    hide Exempt, At;
  }

  // ----- The whole file

  /** A registry entry: whether its text is empty, and the text searched for. */
  datatype Phrase = Phrase(empty: bool, needle: string)

  function ScanAll(f: File, phrases: seq<Phrase>, n: nat): seq<Report>
    requires n <= |phrases|
  {
    if n == 0 then []
    else ScanAll(f, phrases, n - 1)
         + if phrases[n - 1].empty then [] else Scan(f, n - 1, phrases[n - 1].needle, |f.lowered| + 1)
  }

  /** What the file is once it has been read. */
  function FileOf(text: seq<Line>, lower: map<char, char>): File {
    var flat := FlatOf(text);
    File(flat, Lower(lower, flat.text, |flat.text|), seq(|text|, i requires 0 <= i < |text| => text[i].marked))
  }

  lemma {:induction false} FileMapped(text: seq<Line>, lower: map<char, char>)
    ensures Mapped(FileOf(text, lower))
  {
    MapShape(text);
    hide Lower, NonDecreasing, FlatOf;
  }

  /** The body of `check` for one file. */
  method CheckFile(text: seq<Line>, lower: map<char, char>, phrases: seq<Phrase>) returns (problems: seq<Report>)
    ensures problems == ScanAll(FileOf(text, lower), phrases, |phrases|)
  {
    hide Lower, Scan, Mapped, FlatOf;
    var flat := Normalize(text);
    var f := File(flat, Lower(lower, flat.text, |flat.text|), seq(|text|, i requires 0 <= i < |text| => text[i].marked));
    FileMapped(text, lower);
    problems := [];
    for n := 0 to |phrases|
      invariant problems == ScanAll(f, phrases, n)
    {
      if phrases[n].empty { continue; }
      var more := CheckPhrase(f, n, phrases[n].needle);
      problems := problems + more;
    }
  }

  // ----- Which line a report names

  /** The position in `s` that the position `i` of its lower case comes from. */
  ghost predicate ComesFrom(lower: map<char, char>, s: string, i: nat, k: nat) {
    k < |s| && |Lower(lower, s, k)| <= i < |Lower(lower, s, k + 1)|
  }

  /** Every position of the lower case comes from somewhere. */
  lemma {:induction false} Origin(lower: map<char, char>, s: string, n: nat, i: nat) returns (k: nat)
    requires n <= |s| && i < |Lower(lower, s, n)|
    ensures k < n && ComesFrom(lower, s, i, k)
  {
    if i >= |Lower(lower, s, n - 1)| { k := n - 1; } else { k := Origin(lower, s, n - 1, i); }
  }

  lemma {:induction false} LowerGrows(lower: map<char, char>, s: string, n: nat)
    requires n <= |s|
    ensures |Lower(lower, s, n)| >= n && (|Lower(lower, s, n)| == n <==> DOTTED_I !in s[..n])
  {
    if n > 0 {
      LowerGrows(lower, s, n - 1);
      assert s[..n] == s[..n - 1] + [s[n - 1]];
    }
  }

  lemma {:induction false} LowerMonotone(lower: map<char, char>, s: string, a: nat, b: nat)
    requires a <= b <= |s|
    ensures |Lower(lower, s, a)| <= |Lower(lower, s, b)|
    decreases b
  {
    if a < b { LowerMonotone(lower, s, a, b - 1); }
  }

  /** A position of the lower case is a position of the text itself exactly when the letter that
      grows does not stand before it. */
  lemma {:induction false} SamePlaceIff(lower: map<char, char>, s: string, i: nat, k: nat)
    requires ComesFrom(lower, s, i, k)
    ensures k <= i && (k == i <==> i <= |s| && DOTTED_I !in s[..i])
  {
    LowerGrows(lower, s, k);
    if i <= |s| {
      LowerGrows(lower, s, i);
      if k < i { LowerMonotone(lower, s, k + 1, i); }
    }
    hide Lower;
  }

  /** After position `k` and not after `i`, a word begins that is on a later line than the word before. */
  ghost predicate BreaksBetween(ps: seq<Piece>, n: nat, k: nat, i: nat)
    requires n <= |ps|
  {
    exists w | 0 < w < n :: k < |PushAll(ps, w).text| <= i && ps[w - 1].line < ps[w].line
  }

  lemma {:induction false} TextGrows(ps: seq<Piece>, v: nat, w: nat)
    requires v <= w <= |ps|
    ensures |PushAll(ps, v).text| <= |PushAll(ps, w).text|
    ensures v < w ==> |PushAll(ps, v).text| < |PushAll(ps, w).text|
    decreases w
  {
    if v < w { TextGrows(ps, v, w - 1); }
  }

  /** The line map at the end of the text so far. */
  lemma {:induction false} LastLine(ps: seq<Piece>, n: nat)
    requires 0 < n <= |ps|
    ensures var f := PushAll(ps, n); 0 < |f.text| == |f.lines| && f.lines[|f.text| - 1] == ps[n - 1].line
  {
    AsLong(ps, n - 1);
    PushAt(PushAll(ps, n - 1), ps[n - 1], |PushAll(ps, n).text| - 1);
    hide Push;
  }

  lemma {:induction false} LinesDifferIff(ps: seq<Piece>, n: nat, k: nat, i: nat)
    requires n <= |ps| && Ordered(ps) && k <= i < |PushAll(ps, n).text| && forall w | 0 <= w < |ps| :: 1 <= ps[w].line
    ensures var lines := PushAll(ps, n).lines; |lines| > i && (lines[k] != lines[i] <==> BreaksBetween(ps, n, k, i))
    decreases n, 1
  {
    if n > 0 {
      var f, p := PushAll(ps, n - 1), ps[n - 1];
      AsLong(ps, n - 1);
      PushAt(f, p, k);
      PushAt(f, p, i);
      hide Push, PushAll, Ordered, BreaksBetween;
      if i < |f.text| {
        LinesDifferIff(ps, n - 1, k, i);
        BreaksTop(ps, n, k, i);
      } else if k >= |f.text| {
        NoBreakPast(ps, n, k, i);
      } else {
        BreakAtWord(ps, n, k, i);
      }
    }
  }

  lemma {:induction false} BreaksTop(ps: seq<Piece>, n: nat, k: nat, i: nat)
    requires 0 < n <= |ps|
    ensures BreaksBetween(ps, n, k, i) <==>
            BreaksBetween(ps, n - 1, k, i) || (1 < n && k < |PushAll(ps, n - 1).text| <= i && ps[n - 2].line < ps[n - 1].line)
  {
    hide PushAll;
  }

  lemma {:induction false} NoBreakPast(ps: seq<Piece>, n: nat, k: nat, i: nat)
    requires 0 < n <= |ps| && |PushAll(ps, n - 1).text| <= k
    ensures !BreaksBetween(ps, n, k, i)
  {
    hide PushAll;
    forall w | 0 < w < n ensures |PushAll(ps, w).text| <= k { TextGrows(ps, w, n - 1); }
  }

  lemma {:induction false} BreaksBefore(ps: seq<Piece>, n: nat, k: nat, i: nat)
    requires n < |ps| && |PushAll(ps, n).text| > 0 && |PushAll(ps, n).text| <= i
    ensures BreaksBetween(ps, n, k, i) <==> BreaksBetween(ps, n, k, |PushAll(ps, n).text| - 1)
  {
    hide PushAll;
    forall w | 0 < w < n ensures |PushAll(ps, w).text| < |PushAll(ps, n).text| { TextGrows(ps, w, n); }
  }

  /** The positions lie on both sides of where the last word begins. */
  lemma {:induction false} BreakAtWord(ps: seq<Piece>, n: nat, k: nat, i: nat)
    requires 0 < n <= |ps| && Ordered(ps) && (forall w | 0 <= w < |ps| :: 1 <= ps[w].line)
    requires k < |PushAll(ps, n - 1).text| <= i < |PushAll(ps, n).text|
    ensures var before := PushAll(ps, n - 1).lines; |before| > k && (before[k] != ps[n - 1].line <==> BreaksBetween(ps, n, k, i))
    decreases n, 0
  {
    var f := PushAll(ps, n - 1);
    assert n > 1;
    LastLine(ps, n - 1);
    LinesNonDecreasing(ps, n - 1);
    hide PushAll, BreaksBetween;
    LinesDifferIff(ps, n - 1, k, |f.text| - 1);
    BreaksTop(ps, n, k, i);
    BreaksBefore(ps, n - 1, k, i);
    assert ps[n - 2].line <= ps[n - 1].line;
  }

  /** A report never names a line above the one its claim begins on. Past the end of the text it names
      line 0; before it, it names a later line just if a later line begins between where the claim is
      and where it is reported; and never, if the letter that grows does not stand before the claim. */
  lemma {:induction false} ReportedLine(text: seq<Line>, lower: map<char, char>, phrase: nat, i: nat, k: nat)
    requires ComesFrom(lower, FlatOf(text).text, i, k)
    ensures var f := FileOf(text, lower); var line := ReportAt(f, phrase, i).line; var ps := Pieces(text, |text|);
            && k < |f.flat.lines|
            && (line == 0 <==> i >= |f.flat.text|)
            && (line != 0 ==> line >= f.flat.lines[k])
            && (line != 0 ==> (line > f.flat.lines[k] <==> BreaksBetween(ps, |ps|, k, i)))
            && (DOTTED_I !in f.flat.text[..k + 1] ==> line == f.flat.lines[k])
  {
    var f, ps := FileOf(text, lower), Pieces(text, |text|);
    SamePlaceIff(lower, f.flat.text, i, k);
    MapShape(text);
    LowerGrows(lower, f.flat.text, k);
    LowerGrows(lower, f.flat.text, k + 1);
    if i < |f.flat.text| {
      PiecesOrdered(text, |text|);
      forall w: nat | w < |ps| ensures 1 <= ps[w].line { PiecesAtHome(text, |text|, w); }
      hide Pieces, Ordered, Push, BreaksBetween;
      LinesDifferIff(ps, |ps|, k, i);
    }
    hide Lower, FlatOf, BreaksBetween, PushAll;
    if i < |f.flat.lines| { assert f.flat.lines[i] in f.flat.lines; }
  }

  /** The exemption is asked for the place of the claim just if the letter does not stand before the
      claim's last character; else for one that ends further on. */
  lemma {:induction false} ClaimPlaceIff(lower: map<char, char>, s: string, start: nat, end: nat, k: nat, m: nat)
    requires start < end && ComesFrom(lower, s, start, k) && ComesFrom(lower, s, end - 1, m)
    ensures k <= start && m + 1 <= end
    ensures k == start && m + 1 == end <==> end <= |s| + 1 && DOTTED_I !in s[..end - 1]
    ensures m + 1 == end ==> k == start
  {
    SamePlaceIff(lower, s, start, k);
    SamePlaceIff(lower, s, end - 1, m);
    if end <= |s| + 1 && DOTTED_I !in s[..end - 1] { assert forall c | c in s[..start] :: c in s[..end - 1]; }
    hide ComesFrom;
  }

  /** A mark on the line numbered `i + 1` exempts what stands between the two positions. */
  predicate Near(flat: Flat, start: nat, end: nat, i: nat)
    requires flat.lines != []
  {
    var f := File(flat, "", []);
    LineNear(f, start) - 2 <= i + 1 <= LineNear(f, end) + 2
  }

  predicate MarkedNear(flat: Flat, marked: seq<bool>, start: nat, end: nat)
    requires flat.lines != []
  {
    exists i | 0 <= i < |marked| :: marked[i] && Near(flat, start, end, i)
  }

  lemma {:induction false} ExemptByLine(f: File, start: nat, end: nat)
    requires f.flat.lines != []
    ensures Exempt(f, start, end) <==> InSpan(f.flat.text, start, end) || MarkedNear(f.flat, f.marked, start, end)
  {
    hide InSpan;
    if MarkedNear(f.flat, f.marked, start, end) {
      var i: nat :| i < |f.marked| && f.marked[i] && Near(f.flat, start, end, i);
      assert MarkedBetween(f.marked, LineNear(f, start) - 2, LineNear(f, end) + 2);
    }
    if i: nat :| i < |f.marked| && f.marked[i] && LineNear(f, start) - 2 <= i + 1 <= LineNear(f, end) + 2 {
      assert Near(f.flat, start, end, i);
    }
  }

  /** However the lines are marked, the two places are exempt alike. */
  ghost predicate AlwaysAlike(flat: Flat, lowered: string, n: nat, start: nat, end: nat, k: nat, m: nat)
    requires flat.lines != []
  {
    forall marked: seq<bool> | |marked| == n ::
      Exempt(File(flat, lowered, marked), start, end) <==> Exempt(File(flat, lowered, marked), k, m)
  }

  /** Both places are struck; or neither is, and the same lines of the file are near. */
  predicate PlacedAlike(flat: Flat, n: nat, start: nat, end: nat, k: nat, m: nat)
    requires flat.lines != []
  {
    if InSpan(flat.text, start, end) then InSpan(flat.text, k, m)
    else !InSpan(flat.text, k, m) && forall i | 0 <= i < n :: Near(flat, start, end, i) <==> Near(flat, k, m, i)
  }

  /** Testing one place for another makes no difference just then. */
  lemma {:induction false} ShiftHarmlessIff(flat: Flat, lowered: string, n: nat, start: nat, end: nat, k: nat, m: nat)
    requires flat.lines != []
    ensures AlwaysAlike(flat, lowered, n, start, end, k, m) <==> PlacedAlike(flat, n, start, end, k, m)
  {
    hide InSpan, Exempt, Near;
    forall marked: seq<bool> | |marked| == n
      ensures var g := File(flat, lowered, marked);
              && (Exempt(g, start, end) <==> InSpan(flat.text, start, end) || MarkedNear(flat, marked, start, end))
              && (Exempt(g, k, m) <==> InSpan(flat.text, k, m) || MarkedNear(flat, marked, k, m))
    {
      ExemptByLine(File(flat, lowered, marked), start, end);
      ExemptByLine(File(flat, lowered, marked), k, m);
    }
    if !PlacedAlike(flat, n, start, end, k, m) {
      if InSpan(flat.text, start, end) || InSpan(flat.text, k, m) {
        var none := seq(n, _ => false);
        assert !MarkedNear(flat, none, start, end) && !MarkedNear(flat, none, k, m);
        assert Exempt(File(flat, lowered, none), start, end) != Exempt(File(flat, lowered, none), k, m);
      } else {
        var i: nat :| i < n && Near(flat, start, end, i) != Near(flat, k, m, i);
        var one := seq(n, j => j == i);
        assert one[i];
        assert Exempt(File(flat, lowered, one), start, end) != Exempt(File(flat, lowered, one), k, m);
      }
    }
  }

  // ----- Where the letter that grows stands before the claim

  lemma {:induction false} JoinOne(w: Word, v: Word)
    ensures Join([w], 1) == w && Join([w, v], 2) == w + " " + v
  {
    JoinTop([w], 1);
    assert Join([w, v], 1) == w by { JoinTop([w, v], 1); }
    JoinTop([w, v], 2);
  }

  /** A file of one unmarked line of two words. */
  lemma {:induction false} OneLine(w: Word, v: Word)
    ensures var f := FileOf([Line([w, v], false)], map[]);
            f.flat.text == w + " " + v && |f.flat.lines| == |f.flat.text| && f.marked == [false]
            && f.lowered == Lower(map[], w + " " + v, |w + " " + v|)
  {
    var text := [Line([w, v], false)];
    var ps := [Piece(w, 1), Piece(v, 1)];
    assert Placed([w, v], 1, 1) == [Piece(w, 1)];
    assert Placed([w, v], 2, 1) == ps;
    assert Pieces(text, 0) == [];
    assert Pieces(text, 1) == ps;
    TextIsJoin(ps, 2);
    AsLong(ps, 2);
    assert Words(ps, 2) == [w, v];
    JoinOne(w, v);
    hide Lower, PushAll, Pieces, Join;
  }

  lemma {:induction false} OneSpan(t: string, i: nat)
    requires i + 5 == |t| && Struck.MarkAt(t, i) && Struck.MarkAt(t, i + 3)
    requires forall k | 0 <= k < i :: !Struck.MarkAt(t, k)
    ensures Spans(t, 0) == [(i, i + 5)]
  {
    assert Struck.Find(t, 0) == i;
    assert Struck.Find(t, i + 3) == i + 3;
    assert Spans(t, i + 5) == [];
  }

  lemma {:induction false} LowerStep(s: string, n: nat)
    requires n < |s|
    ensures Lower(map[], s, n + 1) == Lower(map[], s, n) + LowerChar(map[], s[n])
  {
  }

  const LIVE_CLAIM: string := "\U{130}\U{130} a~~b~~"
  const STRUCK_CLAIM: string := "\U{130}\U{130}\U{130} ~~b~~"

  lemma {:induction false} LiveClaimSpans()
    ensures Spans(LIVE_CLAIM, 0) == [(4, 9)]
  {
    hide Spans;
    OneSpan(LIVE_CLAIM, 4);
  }

  lemma {:induction false} StruckClaimSpans()
    ensures Spans(STRUCK_CLAIM, 0) == [(4, 9)]
  {
    hide Spans;
    OneSpan(STRUCK_CLAIM, 4);
  }

  /** What is lowered first stays first. */
  lemma {:induction false} LowerAll(s: string, n: nat)
    requires n <= |s|
    ensures Lower(map[], s, n) <= Lower(map[], s, |s|)
    decreases |s| - n
  {
    if n < |s| {
      LowerStep(s, n);
      LowerAll(s, n + 1);
      hide Lower;
    }
  }

  lemma {:induction false} LowerFour(t: string)
    requires |t| >= 4 && t[0] == t[1] == DOTTED_I && t[2] == ' ' && t[3] == 'a'
    ensures |Lower(map[], t, 3)| == 5 && |Lower(map[], t, 4)| == 6 && Lower(map[], t, 4)[5] == 'a'
  {
    assert Lower(map[], t, 0) == "";
    LowerStep(t, 0);
    LowerStep(t, 1);
    LowerStep(t, 2);
    LowerStep(t, 3);
    hide Lower;
  }

  lemma {:induction false} LowerSeven(t: string)
    requires |t| >= 7 && t[0] == t[1] == t[2] == DOTTED_I && t[3] == ' ' && t[4] == t[5] == '~' && t[6] == 'b'
    ensures |Lower(map[], t, 6)| == 9 && |Lower(map[], t, 7)| == 10 && Lower(map[], t, 7)[9] == 'b'
  {
    assert Lower(map[], t, 0) == "";
    LowerStep(t, 0);
    LowerStep(t, 1);
    LowerStep(t, 2);
    LowerStep(t, 3);
    LowerStep(t, 4);
    LowerStep(t, 5);
    LowerStep(t, 6);
    hide Lower;
  }

  /** A one-letter needle stands where lowering has just written it. */
  lemma {:induction false} LowerPlaces(t: string, k: nat, c: char, i: nat)
    requires k < |t| && |Lower(map[], t, k)| == i && |Lower(map[], t, k + 1)| == i + 1 && Lower(map[], t, k + 1)[i] == c
    ensures At(Lower(map[], t, |t|), [c], i) && ComesFrom(map[], t, i, k)
  {
    LowerAll(t, k + 1);
    hide Lower;
    var all := Lower(map[], t, |t|);
    assert all[i] == c;
    assert all[i..i + 1] == [c];
  }

  lemma {:induction false} OnlySpan(t: string, a: nat, b: nat, start: nat, end: nat)
    requires Spans(t, 0) == [(a, b)]
    ensures InSpan(t, start, end) <==> a <= start && end <= b
  {
    assert Spans(t, 0)[0] == (a, b);
  }

  lemma {:induction false} Unmarked(f: File, start: nat, end: nat)
    requires f.marked == [false]
    ensures Exempt(f, start, end) <==> InSpan(f.flat.text, start, end)
  {
    hide InSpan;
  }

  lemma {:induction false} LiveFile()
    ensures var f := FileOf([Line(["\U{130}\U{130}", "a~~b~~"], false)], map[]);
            f.flat.text == LIVE_CLAIM && f.marked == [false] && f.lowered == Lower(map[], LIVE_CLAIM, |LIVE_CLAIM|)
  {
    OneLine("\U{130}\U{130}", "a~~b~~");
    hide Lower, FileOf;
    assert LIVE_CLAIM == "\U{130}\U{130}" + " " + "a~~b~~";
  }

  lemma {:induction false} StruckFile()
    ensures var f := FileOf([Line(["\U{130}\U{130}\U{130}", "~~b~~"], false)], map[]);
            f.flat.text == STRUCK_CLAIM && f.marked == [false] && f.lowered == Lower(map[], STRUCK_CLAIM, |STRUCK_CLAIM|)
  {
    OneLine("\U{130}\U{130}\U{130}", "~~b~~");
    hide Lower, FileOf;
    assert STRUCK_CLAIM == "\U{130}\U{130}\U{130}" + " " + "~~b~~";
  }

  /** Two of the letter, and the live claim after it is tested where a struck one stands: exempt. */
  lemma {:induction false} LiveClaimExempted()
    ensures var f := FileOf([Line(["\U{130}\U{130}", "a~~b~~"], false)], map[]);
            && At(f.lowered, ['a'], 5) && ComesFrom(map[], f.flat.text, 5, 3)
            && !InSpan(f.flat.text, 3, 4) && Exempt(f, 5, 6)
  {
    LiveFile();
    LiveClaimSpans();
    LowerFour(LIVE_CLAIM);
    hide Lower, Spans, FileOf, At, InSpan, Exempt, ComesFrom;
    LowerPlaces(LIVE_CLAIM, 3, 'a', 5);
    OnlySpan(LIVE_CLAIM, 4, 9, 3, 4);
    OnlySpan(LIVE_CLAIM, 4, 9, 5, 6);
    Unmarked(FileOf([Line(["\U{130}\U{130}", "a~~b~~"], false)], map[]), 5, 6);
  }

  /** Three of it, and a struck claim is tested past its end, and reported. */
  lemma {:induction false} StruckClaimReported()
    ensures var f := FileOf([Line(["\U{130}\U{130}\U{130}", "~~b~~"], false)], map[]);
            && At(f.lowered, ['b'], 9) && ComesFrom(map[], f.flat.text, 9, 6)
            && InSpan(f.flat.text, 6, 7) && !Exempt(f, 9, 10)
  {
    StruckFile();
    StruckClaimSpans();
    LowerSeven(STRUCK_CLAIM);
    hide Lower, Spans, FileOf, At, InSpan, Exempt, ComesFrom;
    LowerPlaces(STRUCK_CLAIM, 6, 'b', 9);
    OnlySpan(STRUCK_CLAIM, 4, 9, 6, 7);
    OnlySpan(STRUCK_CLAIM, 4, 9, 9, 10);
    Unmarked(FileOf([Line(["\U{130}\U{130}\U{130}", "~~b~~"], false)], map[]), 9, 10);
  }

  lemma {:induction false} TwoLines()
    ensures FlatOf([Line(["\U{130}", "a"], false), Line(["b"], false)]) == Flat("\U{130} a b", [1, 1, 1, 2, 2])
  {
    var text := [Line(["\U{130}", "a"], false), Line(["b"], false)];
    var ps := [Piece("\U{130}", 1), Piece("a", 1), Piece("b", 2)];
    assert Placed(text[0].words, 1, 1) == ps[..1];
    assert Placed(text[0].words, 2, 1) == ps[..2];
    assert Placed(text[1].words, 0, 2) == [];
    assert Placed(text[1].words, 1, 2) == ps[2..];
    assert Pieces(text, 0) == [];
    assert Pieces(text, 1) == ps[..2];
    assert Pieces(text, 2) == ps;
    hide Pieces, Placed;
    ThreeWords(ps);
  }

  lemma {:induction false} ThreeWords(ps: seq<Piece>)
    requires |ps| == 3 && |ps[0].word| == |ps[1].word| == |ps[2].word| == 1
    ensures PushAll(ps, 3) == Flat(ps[0].word + " " + ps[1].word + " " + ps[2].word, [ps[0].line, ps[1].line, ps[1].line, ps[2].line, ps[2].line])
  {
    assert PushAll(ps, 1) == Flat(ps[0].word, [ps[0].line]) by { assert PushAll(ps, 0) == Flat("", []) && Repeat(ps[0].line, 1) == [ps[0].line]; }
    var f, g := PushAll(ps, 1), PushAll(ps, 2);
    PushLetter(f, ps[1]);
    PushLetter(g, ps[2]);
    hide Push, Repeat;
    assert g == Push(f, ps[1]) && PushAll(ps, 3) == Push(g, ps[2]);
  }

  /** A word of one letter, not the first. */
  lemma {:induction false} PushLetter(f: Flat, p: Piece)
    requires |p.word| == 1
    ensures f.text != "" ==> Push(f, p) == Flat(f.text + " " + p.word, f.lines + [p.line, p.line])
  {
    assert Repeat(p.line, 2) == [p.line, p.line];
  }

  lemma {:induction false} LowerFive(t: string)
    requires |t| == 5 && t[0] == DOTTED_I && t[1] == ' ' && t[2] == 'a' && t[3] == ' ' && t[4] == 'b'
    ensures |Lower(map[], t, 2)| == 3 && |Lower(map[], t, 3)| == 4
    ensures |Lower(map[], t, 5)| == 6 && Lower(map[], t, 5)[3..] == ['a', ' ', 'b']
  {
    assert Lower(map[], t, 0) == "";
    LowerStep(t, 0);
    LowerStep(t, 1);
    LowerStep(t, 2);
    LowerStep(t, 3);
    LowerStep(t, 4);
    hide Lower;
  }

  /** A claim on one line, reported on the next. */
  lemma {:induction false} LineTooLow()
    ensures var text := [Line(["\U{130}", "a"], false), Line(["b"], false)];
            var f := FileOf(text, map[]);
            && At(f.lowered, ['a', ' ', 'b'], 3) && ComesFrom(map[], f.flat.text, 3, 2)
            && |f.flat.lines| == 5 && f.flat.lines[2] == 1 && ReportAt(f, 0, 3).line == 2
  {
    TwoLines();
    LowerFive("\U{130} a b");
    hide Lower, FlatOf;
    assert Lower(map[], "\U{130} a b", 5)[3..6] == ['a', ' ', 'b'];
  }
}
