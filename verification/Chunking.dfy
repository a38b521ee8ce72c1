/** How a file is cut into the chunks a claim is matched against. */
module Chunking {
  import Text

  /** Lines `first` to `last`, one-based, and the text they make. */
  datatype Chunk = Chunk(first: nat, last: nat, text: string)

  /** A line of source: whether it is only a comment, and then what follows the comment marker. */
  datatype SourceLine = SourceLine(text: string, comment: bool, body: string)

  function Bodies(lines: seq<SourceLine>, i: nat, j: nat): seq<string>
    requires j <= |lines|
    decreases j
  {
    if i >= j then [] else Bodies(lines, i, j - 1) + [lines[j - 1].body]
  }

  // ----- paragraphs

  /** Lines `i` to `j`, zero-based and half-open, are all comments. */
  predicate AllComments(lines: seq<SourceLine>, i: nat, j: nat)
    requires j <= |lines|
    decreases j
  {
    i >= j || (lines[j - 1].comment && AllComments(lines, i, j - 1))
  }

  lemma {:induction false} AllCommentsAt(lines: seq<SourceLine>, i: nat, j: nat, k: nat)
    requires i <= k < j <= |lines| && AllComments(lines, i, j)
    ensures lines[k].comment
    decreases j
  {
    if k < j - 1 { AllCommentsAt(lines, i, j - 1, k); }
  }

  function RunText(lines: seq<SourceLine>, i: nat, j: nat): string
    requires i <= j <= |lines|
  {
    Text.Joined(Bodies(lines, i, j))
  }

  /** A chunk of source: one line that is no comment, or a comment run that cannot be longer. */
  ghost predicate IsParagraph(lines: seq<SourceLine>, c: Chunk) {
    && 1 <= c.first <= c.last <= |lines|
    && (if lines[c.first - 1].comment then
          && AllComments(lines, c.first - 1, c.last)
          && (c.first > 1 ==> !lines[c.first - 2].comment)
          && (c.last < |lines| ==> !lines[c.last].comment)
          && c.text == RunText(lines, c.first - 1, c.last)
        else c.first == c.last && c.text == lines[c.first - 1].text)
  }

  /** The chunks stand end to end from line one to line `upTo`, each as it should be. */
  ghost predicate Cut(lines: seq<SourceLine>, chunks: seq<Chunk>, upTo: nat) {
    if chunks == [] then upTo == 0
    else
      var c := chunks[|chunks| - 1];
      c.last == upTo && IsParagraph(lines, c) && Cut(lines, chunks[..|chunks| - 1], c.first - 1)
  }

  lemma {:induction false} CutNext(lines: seq<SourceLine>, chunks: seq<Chunk>, upTo: nat, c: Chunk)
    requires Cut(lines, chunks, upTo) && IsParagraph(lines, c) && c.first == upTo + 1
    ensures Cut(lines, chunks + [c], c.last)
  {
    hide IsParagraph;
    assert (chunks + [c])[..|chunks|] == chunks;
  }

  /** The comment lines gathered so far, which begin a run and reach line `last`. */
  ghost predicate Gathered(lines: seq<SourceLine>, run: seq<string>, start: nat, last: nat) {
    && 1 <= start <= last <= |lines|
    && AllComments(lines, start - 1, last)
    && (start > 1 ==> !lines[start - 2].comment)
    && run == Bodies(lines, start - 1, last)
  }

  lemma {:induction false} GatherNext(lines: seq<SourceLine>, run: seq<string>, start: nat, at: nat)
    requires 1 <= at <= |lines| && lines[at - 1].comment
    requires if run == [] then start == at && (at > 1 ==> !lines[at - 2].comment)
             else Gathered(lines, run, start, at - 1)
    ensures Gathered(lines, run + [lines[at - 1].body], start, at)
  {
    assert run == Bodies(lines, start - 1, at - 1) && AllComments(lines, start - 1, at - 1);
  }

  datatype CutState = CutState(chunks: seq<Chunk>, run: seq<string>, start: nat, last: nat)

  function CutStep(s: CutState, lines: seq<SourceLine>, at: nat): CutState
    requires 1 <= at <= |lines| + 1
  {
    if at <= |lines| && lines[at - 1].comment then
      CutState(s.chunks, s.run + [lines[at - 1].body], if s.run == [] then at else s.start, at)
    else
      var flushed := if s.run != [] then s.chunks + [Chunk(s.start, s.last, Text.Joined(s.run))] else s.chunks;
      CutState(if at <= |lines| then flushed + [Chunk(at, at, lines[at - 1].text)] else flushed, [], s.start, s.last)
  }

  function CutFold(lines: seq<SourceLine>, n: nat): CutState
    requires n <= |lines| + 1
  {
    if n == 0 then CutState([], [], 0, 0) else CutStep(CutFold(lines, n - 1), lines, n)
  }

  /** The chunks made reach the open run, which reaches line `n`. */
  ghost predicate CutSound(lines: seq<SourceLine>, s: CutState, n: nat)
    requires n <= |lines|
  {
    if s.run == [] then Cut(lines, s.chunks, n) && (n > 0 ==> !lines[n - 1].comment)
    else s.last == n && s.start >= 1 && Cut(lines, s.chunks, s.start - 1) && Gathered(lines, s.run, s.start, n)
  }

  lemma {:induction false} Flushed(lines: seq<SourceLine>, s: CutState, n: nat)
    requires n <= |lines| && CutSound(lines, s, n) && (n < |lines| ==> !lines[n].comment)
    ensures Cut(lines, if s.run != [] then s.chunks + [Chunk(s.start, s.last, Text.Joined(s.run))] else s.chunks, n)
  {
    hide Cut, Gathered, Text.Joined, IsParagraph;
    if s.run != [] {
      RunIsParagraph(lines, s.run, s.start, n);
      CutNext(lines, s.chunks, s.start - 1, Chunk(s.start, s.last, Text.Joined(s.run)));
    }
  }

  lemma {:induction false} CutFoldSound(lines: seq<SourceLine>, n: nat)
    requires n <= |lines|
    ensures CutSound(lines, CutFold(lines, n), n)
  {
    if n > 0 {
      CutFoldSound(lines, n - 1);
      var s := CutFold(lines, n - 1);
      hide Cut, Gathered, Text.Joined, CutFold;
      if lines[n - 1].comment {
        GatherNext(lines, s.run, if s.run == [] then n else s.start, n);
      } else {
        Flushed(lines, s, n - 1);
        SingleIsParagraph(lines, n);
        CutNext(lines, if s.run != [] then s.chunks + [Chunk(s.start, s.last, Text.Joined(s.run))] else s.chunks, n - 1,
                Chunk(n, n, lines[n - 1].text));
      }
    }
  }

  lemma {:induction false} SingleIsParagraph(lines: seq<SourceLine>, n: nat)
    requires 1 <= n <= |lines| && !lines[n - 1].comment
    ensures IsParagraph(lines, Chunk(n, n, lines[n - 1].text))
  {
  }

  /** Every line is in exactly one chunk, in order, and each maximal comment run is one chunk. */
  method Paragraphs(lines: seq<SourceLine>) returns (chunks: seq<Chunk>)
    ensures Cut(lines, chunks, |lines|)
  {
    hide Text.Joined, Cut;
    chunks := [];
    var run: seq<string> := [];
    var start, last := 0, 0;
    for at := 1 to |lines| + 2
      invariant CutState(chunks, run, start, last) == CutFold(lines, at - 1)
    {
      if at <= |lines| && lines[at - 1].comment {
        if run == [] {
          start := at;
        }
        run := run + [lines[at - 1].body];
        last := at;
      } else {
        if run != [] {
          chunks := chunks + [Chunk(start, last, Text.Joined(run))];
          run := [];
        }
        if at <= |lines| {
          chunks := chunks + [Chunk(at, at, lines[at - 1].text)];
        }
      }
    }
    CutFoldSound(lines, |lines|);
    Flushed(lines, CutFold(lines, |lines|), |lines|);
  }

  lemma {:induction false} RunTextIs(lines: seq<SourceLine>, run: seq<string>, i: nat, j: nat)
    requires i <= j <= |lines| && run == Bodies(lines, i, j)
    ensures Text.Joined(run) == RunText(lines, i, j)
  {
    hide Text.Joined, Bodies;
  }

  lemma {:induction false} RunIsParagraph(lines: seq<SourceLine>, run: seq<string>, start: nat, last: nat)
    requires Gathered(lines, run, start, last)
    requires last < |lines| ==> !lines[last].comment
    ensures IsParagraph(lines, Chunk(start, last, Text.Joined(run)))
  {
    AllCommentsAt(lines, start - 1, last, start - 1);
    hide Text.Joined, Bodies, AllComments, RunText;
    RunTextIs(lines, run, start - 1, last);
  }

  lemma {:induction false} CutLast(lines: seq<SourceLine>, chunks: seq<Chunk>, upTo: nat)
    requires Cut(lines, chunks, upTo)
    ensures chunks == [] <==> upTo == 0
    ensures chunks != [] ==>
              var c := chunks[|chunks| - 1];
              c.last == upTo && c.first >= 1 && IsParagraph(lines, c) && Cut(lines, chunks[..|chunks| - 1], c.first - 1)
  {
    hide RunText, AllComments;
  }

  /** The cut is the only one: a file has one reading. */
  lemma {:induction false} ParagraphsUnique(lines: seq<SourceLine>, a: seq<Chunk>, b: seq<Chunk>, upTo: nat)
    requires Cut(lines, a, upTo) && Cut(lines, b, upTo)
    ensures a == b
    decreases |a|
  {
    hide Cut, IsParagraph;
    CutLast(lines, a, upTo);
    CutLast(lines, b, upTo);
    if a != [] {
      SameEnd(lines, a[|a| - 1], b[|b| - 1]);
      ParagraphsUnique(lines, a[..|a| - 1], b[..|b| - 1], a[|a| - 1].first - 1);
      assert a == a[..|a| - 1] + [a[|a| - 1]] && b == b[..|b| - 1] + [b[|b| - 1]];
    }
  }

  lemma {:induction false} SameEnd(lines: seq<SourceLine>, c: Chunk, d: Chunk)
    requires IsParagraph(lines, c) && IsParagraph(lines, d) && c.last == d.last
    ensures c == d
  {
    hide RunText;
    if lines[c.last - 1].comment {
      RunComments(lines, c);
      RunComments(lines, d);
    }
  }

  /** A run that ends in a comment is comments throughout, and one that begins with none has one line. */
  lemma {:induction false} RunComments(lines: seq<SourceLine>, c: Chunk)
    requires IsParagraph(lines, c) && lines[c.last - 1].comment
    ensures forall k | c.first - 1 <= k < c.last :: lines[k].comment
    ensures c.first > 1 ==> !lines[c.first - 2].comment
  {
    hide RunText;
    forall k | c.first - 1 <= k < c.last ensures lines[k].comment {
      AllCommentsAt(lines, c.first - 1, c.last, k);
    }
  }

  /** Which chunk line `line` is in: the only one whose lines hold it. */
  function ChunkOf(chunks: seq<Chunk>, line: nat): nat
    requires chunks != []
    decreases |chunks|
  {
    if |chunks| == 1 || chunks[|chunks| - 1].first <= line then |chunks| - 1 else ChunkOf(chunks[..|chunks| - 1], line)
  }

  /** Each line is in one chunk, and in one only. */
  lemma {:induction false} LineInOneChunk(lines: seq<SourceLine>, chunks: seq<Chunk>, upTo: nat, line: nat, j: nat)
    requires Cut(lines, chunks, upTo) && 1 <= line <= upTo && j < |chunks|
    ensures chunks[j].first <= line <= chunks[j].last <==> j == ChunkOf(chunks, line)
    decreases |chunks|
  {
    var n := |chunks| - 1;
    var c, rest := chunks[n], chunks[..n];
    if c.first > line {
      assert rest != [];
      if j < n {
        LineInOneChunk(lines, rest, c.first - 1, line, j);
      } else {
        ChunkOfBound(rest, line);
      }
    } else if j < n {
      EndsBelow(lines, rest, c.first - 1, j);
    }
  }

  lemma {:induction false} ChunkOfBound(chunks: seq<Chunk>, line: nat)
    requires chunks != []
    ensures ChunkOf(chunks, line) < |chunks|
    decreases |chunks|
  {
    if |chunks| > 1 { ChunkOfBound(chunks[..|chunks| - 1], line); }
  }

  lemma {:induction false} EndsBelow(lines: seq<SourceLine>, chunks: seq<Chunk>, upTo: nat, j: nat)
    requires Cut(lines, chunks, upTo) && j < |chunks|
    ensures chunks[j].last <= upTo
    decreases |chunks|
  {
    if j < |chunks| - 1 { EndsBelow(lines, chunks[..|chunks| - 1], chunks[|chunks| - 1].first - 1, j); }
  }

  // ----- prose

  /** A line of a page: whether it is a fence, and whether it is blank. */
  datatype PageLine = PageLine(text: string, fence: bool, blank: bool)

  /** Whether line `k` (zero-based) is inside a fence or opens one: an odd number of fence lines
      up to and including it. */
  predicate Fenced(lines: seq<PageLine>, k: nat)
    requires k < |lines|
    decreases k
  {
    (k > 0 && Fenced(lines, k - 1)) != lines[k].fence
  }

  /** Prose: outside every fence, not a fence line, and not blank. */
  predicate IsProse(lines: seq<PageLine>, k: nat)
    requires k < |lines|
  {
    !Fenced(lines, k) && !lines[k].fence && !lines[k].blank
  }

  /** The one-based numbers of the prose lines among the first `n`, in order. */
  function ProseLines(lines: seq<PageLine>, n: nat): (r: seq<nat>)
    requires n <= |lines|
    ensures forall k | 0 <= k < |r| :: 1 <= r[k] <= n && IsProse(lines, r[k] - 1)
  {
    if n == 0 then []
    else ProseLines(lines, n - 1) + if IsProse(lines, n - 1) then [n] else []
  }

  function Flat(rows: seq<seq<nat>>): seq<nat> {
    if rows == [] then [] else Flat(rows[..|rows| - 1]) + rows[|rows| - 1]
  }

  function At(lines: seq<PageLine>, row: seq<nat>): (r: seq<string>)
    requires forall k | 0 <= k < |row| :: 1 <= row[k] <= |lines|
    ensures |r| == |row|
  {
    if row == [] then [] else At(lines, row[..|row| - 1]) + [lines[row[|row| - 1] - 1].text]
  }

  /** The chunk holds the text of the lines in `row`, which it starts with and ends before `last`. */
  ghost predicate Holds(lines: seq<PageLine>, c: Chunk, row: seq<nat>) {
    && row != [] && (forall k | 0 <= k < |row| :: 1 <= row[k] <= |lines|)
    && c.first == row[0] && row[|row| - 1] <= c.last <= |lines|
    && c.text == Text.Joined(At(lines, row))
  }

  /** The lines of the run a fence that never closes leaves behind. */
  function Unflushed(lines: seq<PageLine>, n: nat): seq<nat>
    requires n <= |lines|
  {
    if n == 0 then []
    else if Fenced(lines, n - 1) then Unflushed(lines, n - 1)
    else if IsProse(lines, n - 1) then Unflushed(lines, n - 1) + [n]
    else []
  }

  /** Whether the first `n` lines leave the reader inside a fence. */
  predicate FencedBefore(lines: seq<PageLine>, n: nat)
    requires n <= |lines|
  {
    n > 0 && Fenced(lines, n - 1)
  }

  /** The line numbers of each chunk flushed within the first `n` lines. */
  function Rows(lines: seq<PageLine>, n: nat): seq<seq<nat>>
    requires n <= |lines|
  {
    if n == 0 then []
    else if Unflushed(lines, n) == [] && Unflushed(lines, n - 1) != [] then Rows(lines, n - 1) + [Unflushed(lines, n - 1)]
    else Rows(lines, n - 1)
  }

  datatype ProseState = ProseState(chunks: seq<Chunk>, run: seq<string>, start: nat, fenced: bool)

  function Flush(s: ProseState, at: nat): ProseState
    requires at >= 1
  {
    if s.run == [] then s else ProseState(s.chunks + [Chunk(s.start, at - 1, Text.Joined(s.run))], [], s.start, s.fenced)
  }

  function ProseStep(s: ProseState, line: PageLine, at: nat): ProseState
    requires at >= 1
  {
    var t := s.(fenced := s.fenced != line.fence);
    if t.fenced then t
    else if line.fence || line.blank then Flush(t, at)
    else t.(start := if t.run == [] then at else t.start, run := t.run + [line.text])
  }

  function ProseFold(lines: seq<PageLine>, n: nat): ProseState
    requires n <= |lines|
  {
    if n == 0 then ProseState([], [], 0, false) else ProseStep(ProseFold(lines, n - 1), lines[n - 1], n)
  }

  /** The chunks hold `rows`, and the open run the lines of `row`. */
  ghost predicate Filled(lines: seq<PageLine>, s: ProseState, rows: seq<seq<nat>>, row: seq<nat>, n: nat) {
    && |rows| == |s.chunks| && (forall k | 0 <= k < |rows| :: Holds(lines, s.chunks[k], rows[k]))
    && (forall k | 0 <= k < |row| :: 1 <= row[k] <= n && row[k] <= |lines|)
    && s.run == At(lines, row) && (row != [] ==> s.start == row[0])
  }

  lemma {:induction false} FilledFlush(lines: seq<PageLine>, s: ProseState, rows: seq<seq<nat>>, row: seq<nat>, n: nat, at: nat)
    requires Filled(lines, s, rows, row, n) && n < at <= |lines| + 1
    ensures Filled(lines, Flush(s, at), if row == [] then rows else rows + [row], [], at)
  {
    if row != [] {
      assert Holds(lines, Chunk(s.start, at - 1, Text.Joined(s.run)), row);
    }
    hide Holds, Text.Joined;
  }

  lemma {:induction false} FilledMore(lines: seq<PageLine>, s: ProseState, rows: seq<seq<nat>>, row: seq<nat>, at: nat)
    requires 1 <= at <= |lines| && Filled(lines, s, rows, row, at - 1)
    ensures Filled(lines, s.(start := if s.run == [] then at else s.start, run := s.run + [lines[at - 1].text]), rows, row + [at], at)
  {
    hide Holds;
    assert (row + [at])[..|row|] == row;
  }

  lemma {:induction false} FilledStays(lines: seq<PageLine>, s: ProseState, fenced: bool, rows: seq<seq<nat>>, row: seq<nat>, at: nat)
    requires at >= 1 && Filled(lines, s, rows, row, at - 1)
    ensures Filled(lines, s.(fenced := fenced), rows, row, at - 1) && Filled(lines, s.(fenced := fenced), rows, row, at)
  {
    hide Holds, At;
  }

  lemma {:induction false} ProseFoldFilled(lines: seq<PageLine>, n: nat)
    requires n <= |lines|
    ensures ProseFold(lines, n).fenced == FencedBefore(lines, n)
    ensures Filled(lines, ProseFold(lines, n), Rows(lines, n), Unflushed(lines, n), n)
  {
    if n > 0 {
      ProseFoldFilled(lines, n - 1);
      var s, rows, row := ProseFold(lines, n - 1), Rows(lines, n - 1), Unflushed(lines, n - 1);
      var line := lines[n - 1];
      var t := s.(fenced := s.fenced != line.fence);
      FilledStays(lines, s, t.fenced, rows, row, n);
      assert ProseFold(lines, n) == ProseStep(s, line, n);
      hide Filled, ProseFold, Flush;
      if t.fenced {
      } else if line.fence || line.blank {
        FilledFlush(lines, t, rows, row, n - 1, n);
      } else {
        FilledMore(lines, t, rows, row, n);
      }
    }
  }

  lemma {:induction false} FlatNext(rows: seq<seq<nat>>, row: seq<nat>)
    ensures Flat(rows + [row]) == Flat(rows) + row
  {
    assert (rows + [row])[..|rows|] == rows;
  }

  /** The flushed rows and the open run are the prose lines, each once and in order. */
  lemma {:induction false} RowsAreProse(lines: seq<PageLine>, n: nat)
    requires n <= |lines|
    ensures ProseLines(lines, n) == Flat(Rows(lines, n)) + Unflushed(lines, n)
  {
    if n > 0 {
      RowsAreProse(lines, n - 1);
      hide Fenced;
      var flat, row := Flat(Rows(lines, n - 1)), Unflushed(lines, n - 1);
      FlatNext(Rows(lines, n - 1), row);
      hide Flat;
      assert flat + row + [n] == flat + (row + [n]);
      assert flat + [] == flat && flat + row + [] == flat + row;
    }
  }

  /** The rows of the whole page, with the flush at its end if no fence is open there. */
  function AllRows(lines: seq<PageLine>): seq<seq<nat>> {
    var n := |lines|;
    if FencedBefore(lines, n) || Unflushed(lines, n) == [] then Rows(lines, n) else Rows(lines, n) + [Unflushed(lines, n)]
  }

  /** The chunks hold each prose line once, in order, and nothing else, but for the run that an
      unclosed fence swallows: the blank line that would flush it is then inside the fence. */
  method Prose(lines: seq<PageLine>) returns (chunks: seq<Chunk>)
    ensures |chunks| == |AllRows(lines)| && forall k | 0 <= k < |chunks| :: Holds(lines, chunks[k], AllRows(lines)[k])
    ensures ProseLines(lines, |lines|)
         == Flat(AllRows(lines)) + if FencedBefore(lines, |lines|) then Unflushed(lines, |lines|) else []
  {
    hide Text.Joined, Holds, AllRows, Rows, Unflushed, ProseLines, FencedBefore;
    chunks := [];
    var run: seq<string> := [];
    var start, fenced := 0, false;
    for at := 1 to |lines| + 1
      invariant ProseState(chunks, run, start, fenced) == ProseFold(lines, at - 1)
    {
      var line := lines[at - 1];
      var blank := line.blank;
      if line.fence {
        fenced := !fenced;
        blank := true;
      }
      if !fenced {
        if !blank {
          if run == [] {
            start := at;
          }
          run := run + [line.text];
        } else if run != [] {
          chunks := chunks + [Chunk(start, at - 1, Text.Joined(run))];
          run := [];
        }
      }
    }
    ProseEnds(lines);
    // The blank sentinel line.
    if !fenced && run != [] {
      chunks := chunks + [Chunk(start, |lines|, Text.Joined(run))];
    }
  }

  lemma {:induction false} ProseEnds(lines: seq<PageLine>)
    ensures var s := ProseFold(lines, |lines|);
            var chunks := if s.fenced then s.chunks else Flush(s, |lines| + 1).chunks;
            |chunks| == |AllRows(lines)| && forall k | 0 <= k < |chunks| :: Holds(lines, chunks[k], AllRows(lines)[k])
    ensures ProseLines(lines, |lines|)
         == Flat(AllRows(lines)) + if FencedBefore(lines, |lines|) then Unflushed(lines, |lines|) else []
  {
    var n := |lines|;
    ProseFoldFilled(lines, n);
    RowsAreProse(lines, n);
    FlatNext(Rows(lines, n), Unflushed(lines, n));
    FilledFlush(lines, ProseFold(lines, n), Rows(lines, n), Unflushed(lines, n), n, n + 1);
    hide Holds, Rows, Unflushed, ProseLines, ProseFold, Fenced, Text.Joined;
  }

  ghost predicate OpensAt(lines: seq<PageLine>, open: nat, n: nat)
    requires n <= |lines|
  {
    open < n && lines[open].fence && !FencedBefore(lines, open) && forall k | open <= k < n :: Fenced(lines, k)
  }

  /** With every fence closed nothing is lost; with one left open, what is lost is the run that
      ends directly above it, and there is one exactly if the line above it is prose. */
  lemma {:induction false} UnflushedIff(lines: seq<PageLine>, n: nat, open: nat)
    requires n <= |lines| && OpensAt(lines, open, n)
    ensures Unflushed(lines, n) == Unflushed(lines, open)
    ensures Unflushed(lines, n) != [] <==> open > 0 && IsProse(lines, open - 1)
  {
    assert Fenced(lines, n - 1);
    if open < n - 1 {
      UnflushedIff(lines, n - 1, open);
    }
  }
}
