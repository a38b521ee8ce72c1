/** `~~struck~~` text: what one chunk keeps, and what that means for the whole file. */
module Struck {
  import opened Text
  import opened Options

  const MARK: string := "~~"

  predicate MarkAt(t: string, i: nat) { i + 1 < |t| && t[i] == '~' && t[i + 1] == '~' }

  /** `str.find("~~", from)`: the leftmost marker at or after `from`, `|t|` if there is none. */
  function Find(t: string, from: nat): (i: nat)
    requires from <= |t|
    ensures from <= i <= |t|
    ensures i < |t| ==> MarkAt(t, i)
    ensures forall j | from <= j < i :: !MarkAt(t, j)
    decreases |t| - from
  {
    if from == |t| then |t| else if MarkAt(t, from) then from else Find(t, from + 1)
  }

  /** `STRUCK.sub(" ", text)`: each leftmost shortest `~~...~~` becomes one space. */
  function Sub(t: string): string
    decreases |t|
  {
    var i := Find(t, 0);
    if i == |t| then t
    else
      var j := Find(t, i + 2);
      if j == |t| then t else t[..i] + " " + Sub(t[j + 2..])
  }

  /** The first half of `live`: what is kept before whitespace is collapsed, and the flag. */
  function Kept(t: string, inside: bool): (Option<string>, bool) {
    var stripped := Sub(t);
    var at := Find(stripped, 0);
    if at < |stripped| then (Some(if inside then stripped[at + 2..] else stripped[..at]), !inside)
    else if inside then (None, true)
    else (Some(stripped), inside)
  }

  // ----- The reference: pieces between markers, struck and live in turn

  /** The text between the markers, scanning left to right without overlap. */
  function Pieces(t: string): (ps: seq<string>)
    ensures |ps| > 0
    decreases |t|
  {
    var i := Find(t, 0);
    if i == |t| then [t] else [t[..i]] + Pieces(t[i + 2..])
  }

  function Markers(t: string): nat { |Pieces(t)| - 1 }

  predicate Odd(n: nat) { n > 0 && !Odd(n - 1) }

  lemma {:induction false} OddSum(a: nat, b: nat)
    ensures Odd(a + b) == (Odd(a) != Odd(b))
  {
    if a > 0 { OddSum(a - 1, b); }
  }

  /** Every second piece is live: the even ones, or the odd ones if a span was open. */
  function Live(ps: seq<string>, inside: bool): seq<string> {
    if ps == [] then []
    else (if inside then [] else [ps[0]]) + Live(ps[1..], !inside)
  }

  /** What `live` keeps, as pieces. */
  function KeptPieces(t: string, inside: bool): seq<string> {
    if !inside then Live(Pieces(t), false)
    else if Odd(Markers(t)) then [Pieces(t)[Markers(t)]]
    else []
  }

  predicate Clean(t: string) { forall k | 0 <= k < |t| :: !MarkAt(t, k) }

  predicate HalfOpen(t: string) { t != [] && t[|t| - 1] == '~' }

  lemma {:induction false} FindClean(t: string)
    ensures Find(t, 0) == |t| <==> Clean(t)
  {
  }

  /** A piece that a marker ends neither holds one nor ends in half of one. */
  lemma {:induction false} PieceBeforeMark(t: string)
    requires Find(t, 0) < |t|
    ensures Clean(t[..Find(t, 0)]) && !HalfOpen(t[..Find(t, 0)])
  {
    var i := Find(t, 0);
    forall k | 0 <= k < i ensures !MarkAt(t[..i], k) {
      assert !MarkAt(t, k);
    }
    if i > 0 { assert MarkAt(t, i) && !MarkAt(t, i - 1); }
  }

  lemma {:induction false} FindAfter(p: string, s: string)
    requires Clean(p) && !HalfOpen(p)
    ensures Find(p + s, 0) == |p| + Find(s, 0)
  {
    var t := p + s;
    var at := |p| + Find(s, 0);
    forall k | 0 <= k < at ensures !MarkAt(t, k) {
      if k < |p| { assert !MarkAt(p, k); } else { assert !MarkAt(s, k - |p|); }
    }
    if at < |t| { assert MarkAt(s, at - |p|); assert MarkAt(t, at); }
  }

  lemma {:induction false} FindShift(t: string, k: nat)
    requires k <= |t|
    ensures Find(t, k) == k + Find(t[k..], 0)
  {
    var s := t[k..];
    var at := k + Find(s, 0);
    forall j | k <= j < at ensures !MarkAt(t, j) { assert !MarkAt(s, j - k); }
    if at < |t| { assert MarkAt(s, at - k); assert MarkAt(t, at); }
    var i := Find(t, k);
    if i < |t| { assert MarkAt(s, i - k); }
  }

  /** Pieces as the scan makes them: all but the last end where a marker starts. */
  predicate WellSplit(ps: seq<string>) {
    ps != [] && Clean(ps[0]) && (|ps| > 1 ==> !HalfOpen(ps[0]) && WellSplit(ps[1..]))
  }

  lemma {:induction false} PiecesWellSplit(t: string)
    ensures WellSplit(Pieces(t))
    decreases |t|
  {
    FindClean(t);
    if Find(t, 0) < |t| {
      PieceBeforeMark(t);
      PiecesWellSplit(t[Find(t, 0) + 2..]);
    }
  }

  /** `Sub`, on the pieces: a pair of markers becomes a space, an unpaired one stays. */
  function SubPieces(ps: seq<string>): string
    requires ps != []
  {
    if |ps| == 1 then ps[0]
    else if |ps| == 2 then ps[0] + MARK + ps[1]
    else ps[0] + " " + SubPieces(ps[2..])
  }

  /** A pair of markers makes two pieces, and the rest the others. */
  lemma {:induction false} PiecesOfPair(t: string, i: nat, j: nat)
    requires i == Find(t, 0) && i + 2 <= |t| && j == Find(t, i + 2) && j + 2 <= |t|
    ensures Pieces(t) == [t[..i], t[i + 2..j]] + Pieces(t[j + 2..])
  {
    var rest := t[i + 2..];
    FindShift(t, i + 2);
    var at := Find(rest, 0);
    assert at == j - (i + 2) && rest[..at] == t[i + 2..j] && rest[at + 2..] == t[j + 2..];
    hide Find, MarkAt;
    assert Pieces(rest) == [rest[..at]] + Pieces(rest[at + 2..]);
    assert Pieces(t) == [t[..i]] + Pieces(rest);
  }

  lemma {:induction false} PiecesOfOne(t: string, i: nat)
    requires i == Find(t, 0) && i + 2 <= |t| && Find(t, i + 2) == |t|
    ensures Pieces(t) == [t[..i], t[i + 2..]] && t == t[..i] + MARK + t[i + 2..]
  {
    var rest := t[i + 2..];
    FindShift(t, i + 2);
    assert Pieces(rest) == [rest];
    assert Pieces(t) == [t[..i]] + Pieces(rest);
  }

  lemma {:induction false} SubIsPieces(t: string)
    ensures Sub(t) == SubPieces(Pieces(t))
    decreases |t|
  {
    var i := Find(t, 0);
    if i < |t| {
      var j := Find(t, i + 2);
      if j == |t| {
        PiecesOfOne(t, i);
      } else {
        PiecesOfPair(t, i, j);
        SubIsPieces(t[j + 2..]);
        assert Sub(t) == t[..i] + " " + Sub(t[j + 2..]);
        hide Sub, Find, MarkAt;
        assert Pieces(t)[2..] == Pieces(t[j + 2..]);
      }
    }
  }

  lemma {:induction false} LiveSkipsTwo(ps: seq<string>)
    requires |ps| > 2
    ensures Live(ps, false) == [ps[0]] + Live(ps[2..], false)
    ensures Joined(Live(ps, false)) == ps[0] + " " + Joined(Live(ps[2..], false))
  {
    assert ps[1..][1..] == ps[2..];
    var rest := Live(ps[2..], false);
    assert rest == [ps[2]] + Live(ps[2..][1..], true);
    assert ([ps[0]] + rest)[1..] == rest;
  }

  /** `s` is the joined live pieces, then the unpaired marker and the last piece if there is one. */
  ghost predicate Settled(s: string, live: string, last: string, unpaired: bool) {
    var at := Find(s, 0);
    if unpaired then at < |s| && s[..at] == live && s[at + 2..] == last && Find(s, at + 2) == |s|
    else at == |s| && s == live
  }

  lemma {:induction false} SettledAfter(p: string, q: string, live: string, last: string, unpaired: bool)
    requires Clean(p) && !HalfOpen(p) && Settled(q, live, last, unpaired)
    ensures Settled(p + q, p + live, last, unpaired)
  {
    hide Find, HalfOpen, Clean;
    FindAfter(p, q);
    var s, at := p + q, Find(q, 0);
    if unpaired {
      assert s[|p| + at + 2..] == q[at + 2..];
      FindShift(s, |p| + at + 2);
      FindShift(q, at + 2);
      assert s[..|p| + at] == p + q[..at];
    }
  }

  lemma {:induction false} SettledPair(a: string, b: string)
    requires Clean(a) && !HalfOpen(a) && Clean(b)
    ensures Settled(a + MARK + b, a, b, true)
  {
    var tail := MARK + b;
    assert a + MARK + b == a + tail;
    assert MarkAt(tail, 0);
    assert tail[2..] == b;
    FindShift(tail, 2);
    FindClean(b);
    assert Settled(tail, "", b, true);
    SettledAfter(a, tail, "", b, true);
    assert a + "" == a;
  }

  /** One unpaired marker at most survives, right after the joined live pieces. */
  lemma {:induction false} SubPiecesSettled(ps: seq<string>)
    requires WellSplit(ps)
    ensures Settled(SubPieces(ps), Joined(Live(ps, false)), ps[|ps| - 1], Odd(|ps| - 1))
    decreases |ps|
  {
    if |ps| == 1 {
      FindClean(ps[0]);
      assert Live(ps, false) == ps;
    } else if |ps| == 2 {
      assert WellSplit(ps[1..]);
      SettledPair(ps[0], ps[1]);
      assert ps[1..][1..] == [] && Live(ps[1..], true) == [];
      assert Live(ps, false) == [ps[0]];
    } else {
      hide Settled;
      assert ps[1..][1..] == ps[2..];
      SubPiecesSettled(ps[2..]);
      assert Odd(|ps| - 1) == !Odd(|ps| - 2) == Odd(|ps[2..]| - 1);
      LiveSkipsTwo(ps);
      SpaceEnds(ps[0]);
      SettledAfter(ps[0] + " ", SubPieces(ps[2..]), Joined(Live(ps[2..], false)), ps[|ps| - 1], Odd(|ps| - 1));
    }
  }

  lemma {:induction false} SpaceEnds(p: string)
    requires Clean(p)
    ensures Clean(p + " ") && !HalfOpen(p + " ")
  {
    forall k | 0 <= k < |p| + 1 ensures !MarkAt(p + " ", k) {
      if k < |p| { assert !MarkAt(p, k); }
    }
  }

  /** What `live` keeps is the joined `KeptPieces`, and the flag flips with the parity of the
      markers; after the pairing pass at most one marker is left. */
  lemma {:induction false} KeptIsPieces(t: string, inside: bool)
    ensures Kept(t, inside).1 == (inside != Odd(Markers(t)))
    ensures Kept(t, inside).0 == if inside && !Odd(Markers(t)) then None else Some(Joined(KeptPieces(t, inside)))
    ensures var s := Sub(t); var at := Find(s, 0);
            if Odd(Markers(t)) then at < |s| && Find(s, at + 2) == |s| else at == |s|
  {
    PiecesWellSplit(t);
    SubIsPieces(t);
    SubPiecesSettled(Pieces(t));
  }

  lemma {:induction false} LiveLast(ps: seq<string>, inside: bool)
    requires ps != [] && Odd(|ps|) == !inside
    ensures var l := Live(ps, inside); l != [] && l[|l| - 1] == ps[|ps| - 1]
    decreases |ps|
  {
    if |ps| > 1 { LiveLast(ps[1..], !inside); }
  }

  lemma {:induction false} LiveCount(ps: seq<string>, inside: bool)
    ensures !inside && ps != [] ==> Live(ps, inside) != []
    ensures |ps| == 2 ==> |Live(ps, inside)| == 1
    ensures inside && |ps| >= 3 ==> |Live(ps, inside)| >= if Odd(|ps|) then 1 else 2
    decreases |ps|
  {
    if |ps| > 1 {
      assert Live(ps, inside) == (if inside then [] else [ps[0]]) + ((if !inside then [] else [ps[1]]) + Live(ps[1..][1..], inside));
      if |ps| > 3 { LiveCount(ps[1..][1..], inside); }
    }
  }

  /** The kept pieces are always live ones, in order. They are all of the live ones exactly when
      the chunk starts outside a span or holds at most one marker: a chunk that starts inside
      one and reopens it loses the live text between. */
  lemma {:induction false} KeptExactIff(t: string, inside: bool)
    ensures KeptPieces(t, inside) == Live(Pieces(t), inside) <==> !inside || Markers(t) <= 1
    ensures var live, kept := Live(Pieces(t), inside), KeptPieces(t, inside);
            |kept| <= |live| && live[|live| - |kept|..] == kept
  {
    var ps := Pieces(t);
    hide Pieces;
    LiveCount(ps, inside);
    if inside && Odd(Markers(t)) {
      LiveLast(ps, true);
      var l := Live(ps, true);
      assert l[|l| - 1..] == [l[|l| - 1]];
      if |l| == 1 { assert l == [l[0]]; }
    } else if inside && |ps| == 1 {
      assert Live(ps, true) == [];
    }
  }

  /** The smallest loss: the claim `b` stands outside every span and is not kept. */
  lemma {:induction false} LiveTextLost()
    ensures Live(Pieces("a~~b~~c"), true) == ["b"] && KeptPieces("a~~b~~c", true) == []
  {
    var t := "a~~b~~c";
    assert Find(t, 0) == 1 by { assert MarkAt(t, 1) && !MarkAt(t, 0); }
    var u := t[3..];
    assert t[..1] == "a" && u == "b~~c";
    assert Find(u, 0) == 1 by { assert MarkAt(u, 1) && !MarkAt(u, 0); }
    assert u[..1] == "b" && u[3..] == "c";
    FindClean("c");
    assert Pieces(t) == ["a"] + Pieces(u) && Pieces(u) == ["b"] + Pieces("c");
    assert Pieces(t) == ["a", "b", "c"];
    assert Pieces(t)[1..] == ["b", "c"] && Pieces(t)[1..][1..] == ["c"];
    assert !Odd(2);
  }

  // ----- The whole file

  function TotalMarkers(chunks: seq<string>): nat {
    if chunks == [] then 0 else Markers(chunks[0]) + TotalMarkers(chunks[1..])
  }

  /** The flag `live` is handed for each chunk, carried from the one before. */
  function FlagAfter(chunks: seq<string>, inside: bool): bool {
    if chunks == [] then inside else FlagAfter(chunks[1..], Kept(chunks[0], inside).1)
  }

  /** All the pieces of a file in order, chunk after chunk, one span state running through them. */
  function FileLive(chunks: seq<string>, inside: bool): (r: seq<seq<string>>)
    ensures |r| == |chunks|
  {
    if chunks == [] then []
    else [Live(Pieces(chunks[0]), inside)] + FileLive(chunks[1..], inside != Odd(Markers(chunks[0])))
  }

  /** The carried flag is the parity of every marker before it. */
  lemma {:induction false} FlagIsParity(chunks: seq<string>, inside: bool)
    ensures FlagAfter(chunks, inside) == (inside != Odd(TotalMarkers(chunks)))
  {
    if chunks != [] {
      KeptIsPieces(chunks[0], inside);
      hide Kept, Markers;
      FlagIsParity(chunks[1..], Kept(chunks[0], inside).1);
      OddSum(Markers(chunks[0]), TotalMarkers(chunks[1..]));
    }
  }

  lemma {:induction false} TotalMarkersAppend(a: seq<string>, t: string)
    ensures TotalMarkers(a + [t]) == TotalMarkers(a) + Markers(t)
  {
    if a == [] {
      assert a + [t] == [t];
    } else {
      TotalMarkersAppend(a[1..], t);
      assert (a + [t])[1..] == a[1..] + [t];
    }
  }

  lemma {:induction false} FileLiveAt(chunks: seq<string>, inside: bool, k: nat)
    requires k < |chunks|
    ensures FileLive(chunks, inside)[k] == Live(Pieces(chunks[k]), inside != Odd(TotalMarkers(chunks[..k])))
  {
    if k > 0 {
      FileLiveAt(chunks[1..], inside != Odd(Markers(chunks[0])), k - 1);
      OddSum(Markers(chunks[0]), TotalMarkers(chunks[1..][..k - 1]));
      assert chunks[..k][1..] == chunks[1..][..k - 1];
    }
  }

  /** Chunk by chunk, everything kept is live in the file's own span structure, and nothing live
      is lost in a chunk unless it starts inside a span and holds two markers or more. */
  lemma {:induction false} FileRefines(chunks: seq<string>, k: nat)
    requires k < |chunks|
    ensures var flag := FlagAfter(chunks[..k], false);
            var live, kept := FileLive(chunks, false)[k], KeptPieces(chunks[k], flag);
            flag == Odd(TotalMarkers(chunks[..k]))
            && |kept| <= |live| && live[|live| - |kept|..] == kept
            && (kept == live <==> !flag || Markers(chunks[k]) <= 1)
  {
    FlagIsParity(chunks[..k], false);
    FileLiveAt(chunks, false, k);
    KeptExactIff(chunks[k], FlagAfter(chunks[..k], false));
  }
}
