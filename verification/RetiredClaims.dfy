/** Retired claims: one flat text with a line for each character, and every occurrence in it. */
module RetiredClaims {

  /** A word of the text: `str.split` gives no empty ones and none with a space inside. */
  type Word = w: string | w != [] && ' ' !in w witness "w"

  /** A source line: its words once leader and emphasis are off, and whether it says NOT_A_CLAIM. */
  datatype Line = Line(words: seq<Word>, marked: bool)

  /** A word and the number of the line it stands on. */
  datatype Piece = Piece(word: Word, line: nat)

  // ----- The reference: the words of the file, in order

  /** The first `k` words of line `number`, placed. */
  function Placed(words: seq<Word>, k: nat, number: nat): (r: seq<Piece>)
    requires k <= |words|
    ensures |r| == k && forall i | 0 <= i < k :: r[i] == Piece(words[i], number)
  {
    if k == 0 then [] else Placed(words, k - 1, number) + [Piece(words[k - 1], number)]
  }

  /** The words of the first `n` lines, placed. */
  function Pieces(text: seq<Line>, n: nat): seq<Piece>
    requires n <= |text|
  {
    if n == 0 then [] else Pieces(text, n - 1) + Placed(text[n - 1].words, |text[n - 1].words|, n)
  }

  function Words(ps: seq<Piece>, n: nat): (r: seq<Word>)
    requires n <= |ps|
    ensures |r| == n && forall i | 0 <= i < n :: r[i] == ps[i].word
  {
    if n == 0 then [] else Words(ps, n - 1) + [ps[n - 1].word]
  }

  /** The first `n` words with one space between each two. */
  function Join(ws: seq<Word>, n: nat): string
    requires n <= |ws|
  {
    if n == 0 then "" else Join(ws, n - 1) + (if n == 1 then "" else " ") + ws[n - 1]
  }

  // ----- The two lists, grown together

  function Repeat(x: nat, n: nat): (r: seq<nat>)
    ensures |r| == n && forall i | 0 <= i < n :: r[i] == x
  {
    if n == 0 then [] else Repeat(x, n - 1) + [x]
  }

  datatype Flat = Flat(text: string, lines: seq<nat>)

  /** One turn of the inner loop. */
  function Push(f: Flat, p: Piece): Flat {
    var gap := if f.text == "" then 0 else 1;
    Flat(f.text + (if gap == 0 then "" else " ") + p.word, f.lines + Repeat(p.line, gap + |p.word|))
  }

  function PushAll(ps: seq<Piece>, n: nat): Flat
    requires n <= |ps|
  {
    if n == 0 then Flat("", []) else Push(PushAll(ps, n - 1), ps[n - 1])
  }

  /** `normalize`: the two lists are those of the words in order. */
  method Normalize(text: seq<Line>) returns (f: Flat)
    ensures f == FlatOf(text)
  {
    hide Push, Placed, PushAll;
    f := Flat("", []);
    PushNone();
    for n := 0 to |text|
      invariant f == PushAll(Pieces(text, n), |Pieces(text, n)|)
    {
      f := NormalizeLine(f, text[n].words, n + 1, Pieces(text, n));
    }
  }

  method NormalizeLine(f0: Flat, words: seq<Word>, number: nat, ghost before: seq<Piece>) returns (f: Flat)
    requires f0 == PushAll(before, |before|)
    ensures f == PushAll(before + Placed(words, |words|, number), |before| + |words|)
  {
    f := f0;
    assert before + Placed(words, 0, number) == before;
    for k := 0 to |words|
      invariant f == PushAll(before + Placed(words, k, number), |before| + k)
    {
      PushNext(before, words, k, number);
      hide Push, Placed, PushAll;
      f := Push(f, Piece(words[k], number));
    }
  }

  lemma {:induction false} PushNone()
    ensures PushAll([], 0) == Flat("", [])
  {
  }

  lemma {:induction false} PushNext(before: seq<Piece>, words: seq<Word>, k: nat, number: nat)
    requires k < |words|
    ensures PushAll(before + Placed(words, k + 1, number), |before| + k + 1)
            == Push(PushAll(before + Placed(words, k, number), |before| + k), Piece(words[k], number))
  {
    var now, p := before + Placed(words, k, number), Piece(words[k], number);
    assert before + Placed(words, k + 1, number) == now + [p];
    PushAllPrefix(now, [p], |now|);
    hide Push, Placed;
  }

  lemma {:induction false} PushAllPrefix(a: seq<Piece>, b: seq<Piece>, n: nat)
    requires n <= |a|
    ensures PushAll(a + b, n) == PushAll(a, n)
  {
    hide Push;
    if n > 0 { PushAllPrefix(a, b, n - 1); }
  }

  // ----- What the flat text is

  lemma {:induction false} TextIsJoin(ps: seq<Piece>, n: nat)
    requires n <= |ps|
    ensures PushAll(ps, n).text == Join(Words(ps, |ps|), n)
    ensures n > 0 ==> PushAll(ps, n).text != ""
  {
    if n > 0 { TextIsJoin(ps, n - 1); }
  }

  lemma {:induction false} SpaceSplits(a: string, v: string, b: string, w: string)
    requires ' ' !in v && ' ' !in w && a + " " + v == b + " " + w
    ensures a == b && v == w
  {
    var s, t := a + " " + v, b + " " + w;
    assert s[|a|] == ' ' && t[|b|] == ' ';
    forall k | |a| < k < |s| ensures s[k] != ' ' { assert s[k] == v[k - |a| - 1]; }
    forall k | |b| < k < |t| ensures t[k] != ' ' { assert t[k] == w[k - |b| - 1]; }
    assert |a| == |b|;
    assert a == s[..|a|] && b == t[..|b|] && v == s[|a| + 1..] && w == t[|b| + 1..];
  }

  lemma {:induction false} JoinTop(ws: seq<Word>, n: nat)
    requires 0 < n <= |ws|
    ensures n == 1 ==> Join(ws, n) == ws[0]
    ensures n > 1 ==> Join(ws, n) == Join(ws, n - 1) + " " + ws[n - 1]
    ensures Join(ws, n) != "" && (n > 1 <==> ' ' in Join(ws, n))
  {
    if n > 1 { assert Join(ws, n)[|Join(ws, n - 1)|] == ' '; }
  }

  /** The words can be read back from the flat text. */
  lemma {:induction false} JoinInjective(a: seq<Word>, n: nat, b: seq<Word>, m: nat)
    requires n <= |a| && m <= |b| && Join(a, n) == Join(b, m)
    ensures n == m && a[..n] == b[..m]
  {
    if n > 0 { JoinTop(a, n); }
    if m > 0 { JoinTop(b, m); }
    assert n == 0 <==> m == 0;
    hide Join;
    if n > 1 {
      SpaceSplits(Join(a, n - 1), a[n - 1], Join(b, m - 1), b[m - 1]);
      JoinInjective(a, n - 1, b, m - 1);
      assert a[..n] == a[..n - 1] + [a[n - 1]] && b[..m] == b[..m - 1] + [b[m - 1]];
    }
  }

  function WordsOf(text: seq<Line>): seq<Word> { var ps := Pieces(text, |text|); Words(ps, |ps|) }

  function FlatOf(text: seq<Line>): Flat { var ps := Pieces(text, |text|); PushAll(ps, |ps|) }

  /** Two files have the same flat text exactly when they have the same words: where the lines
      break, and how much space stands between words, changes nothing. */
  lemma {:induction false} RewrapIff(a: seq<Line>, b: seq<Line>)
    ensures FlatOf(a).text == FlatOf(b).text <==> WordsOf(a) == WordsOf(b)
  {
    var ps, qs := Pieces(a, |a|), Pieces(b, |b|);
    TextIsJoin(ps, |ps|);
    TextIsJoin(qs, |qs|);
    var v, w := WordsOf(a), WordsOf(b);
    hide Pieces, PushAll, Words, Join;
    if Join(v, |v|) == Join(w, |w|) {
      JoinInjective(v, |v|, w, |w|);
      assert v == v[..|v|] && w == w[..|w|];
    }
  }

  // ----- What the line map is

  /** Where the word numbered `w` begins. */
  function Start(ps: seq<Piece>, w: nat): nat
    requires w <= |ps|
  {
    |PushAll(ps, w).text| + if w == 0 then 0 else 1
  }

  lemma {:induction false} AsLong(ps: seq<Piece>, n: nat)
    requires n <= |ps|
    ensures |PushAll(ps, n).lines| == |PushAll(ps, n).text|
    ensures n > 0 ==> PushAll(ps, n).text != ""
  {
    if n > 0 { AsLong(ps, n - 1); }
  }

  lemma {:induction false} PushAt(f: Flat, p: Piece, i: nat)
    requires |f.lines| == |f.text|
    ensures var g := Push(f, p); var o := |f.text| + if f.text == "" then 0 else 1;
            && |g.lines| == |g.text| == o + |p.word|
            && (i < |f.text| ==> g.text[i] == f.text[i] && g.lines[i] == f.lines[i])
            && (|f.text| <= i < |g.text| ==> g.lines[i] == p.line)
            && (o <= i < |g.text| ==> g.text[i] == p.word[i - o])
  {
  }

  /** Every character of every word is sent to that word's line. */
  lemma {:induction false} WordAt(ps: seq<Piece>, n: nat, w: nat, c: nat)
    requires w < n <= |ps| && c < |ps[w].word|
    ensures var f := PushAll(ps, n); var i := Start(ps, w) + c;
            i < |f.text| == |f.lines| && f.text[i] == ps[w].word[c] && f.lines[i] == ps[w].line
  {
    AsLong(ps, n - 1);
    AsLong(ps, n);
    PushAt(PushAll(ps, n - 1), ps[n - 1], Start(ps, w) + c);
    if w < n - 1 { WordAt(ps, n - 1, w, c); }
    hide Push;
  }

  /** No word stands on an earlier line than the word before it. */
  ghost predicate Ordered(ps: seq<Piece>) { forall a, b | 0 <= a < b < |ps| :: ps[a].line <= ps[b].line }

  /** Each word stands on the line it is sent to. */
  lemma {:induction false} PiecesAtHome(text: seq<Line>, n: nat, w: nat)
    requires n <= |text| && w < |Pieces(text, n)|
    ensures var p := Pieces(text, n)[w]; 1 <= p.line <= n && p.word in text[p.line - 1].words
  {
    if n > 0 && w < |Pieces(text, n - 1)| {
      PiecesAtHome(text, n - 1, w);
      hide Placed;
    }
  }

  lemma {:induction false} PiecesOrdered(text: seq<Line>, n: nat)
    requires n <= |text|
    ensures Ordered(Pieces(text, n))
  {
    if n > 0 {
      PiecesOrdered(text, n - 1);
      var earlier, latest := Pieces(text, n - 1), Placed(text[n - 1].words, |text[n - 1].words|, n);
      forall w: nat | w < |earlier| ensures earlier[w].line < n { PiecesAtHome(text, n - 1, w); }
      assert Pieces(text, n) == earlier + latest;
      hide Pieces, Placed;
    }
  }

  ghost predicate NonDecreasing(s: seq<nat>) { forall a, b | 0 <= a < b < |s| :: s[a] <= s[b] }

  lemma {:induction false} LinesBounded(ps: seq<Piece>, n: nat, top: nat)
    requires n <= |ps| && forall w | 0 <= w < n :: 1 <= ps[w].line <= top
    ensures forall x | x in PushAll(ps, n).lines :: 1 <= x <= top
  {
    if n > 0 { LinesBounded(ps, n - 1, top); }
  }

  lemma {:induction false} RepeatAfter(s: seq<nat>, x: nat, m: nat)
    requires NonDecreasing(s) && forall y | y in s :: y <= x
    ensures NonDecreasing(s + Repeat(x, m))
  {
    hide Repeat;
    var t := s + Repeat(x, m);
    forall a, b | 0 <= a < b < |t| ensures t[a] <= t[b] {
      if a < |s| { assert s[a] in s; }
    }
  }

  lemma {:induction false} LinesNonDecreasing(ps: seq<Piece>, n: nat)
    requires n <= |ps| && Ordered(ps) && forall w | 0 <= w < |ps| :: 1 <= ps[w].line
    ensures NonDecreasing(PushAll(ps, n).lines)
  {
    if n > 0 {
      LinesNonDecreasing(ps, n - 1);
      LinesBounded(ps, n - 1, ps[n - 1].line);
      var before, p := PushAll(ps, n - 1), ps[n - 1];
      hide Ordered, NonDecreasing;
      RepeatAfter(before.lines, p.line, (if before.text == "" then 0 else 1) + |p.word|);
    }
  }

  /** The position map: as long as the text, never going back, always a line of the file. */
  lemma {:induction false} MapShape(text: seq<Line>)
    ensures var f := FlatOf(text);
            |f.lines| == |f.text| && NonDecreasing(f.lines) && forall x | x in f.lines :: 1 <= x <= |text|
  {
    var ps := Pieces(text, |text|);
    PiecesOrdered(text, |text|);
    forall w: nat | w < |ps| ensures 1 <= ps[w].line <= |text| { PiecesAtHome(text, |text|, w); }
    hide Pieces, Ordered, NonDecreasing, PushAll;
    AsLong(ps, |ps|);
    LinesNonDecreasing(ps, |ps|);
    LinesBounded(ps, |ps|, |text|);
  }
}
