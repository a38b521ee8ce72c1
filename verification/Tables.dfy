/** Finding the tables of a Markdown page, with one cursor shared by two loops. */
module Tables {

  /** A line, by what the scanner asks of it. */
  datatype Line = Line(text: string, fence: bool, bar: bool, separator: bool, heading: bool, build: bool, excuse: bool)

  /** A fence starts with backticks and a separator with a bar, so the three can only combine one way. */
  predicate Plausible(l: Line) { !(l.fence && l.bar) && (l.separator ==> l.bar) }

  ghost predicate Page(lines: seq<Line>) { forall k | 0 <= k < |lines| :: Plausible(lines[k]) }

  /** A table: its one-based first line and its rows, up to the zero-based end. */
  datatype Table = Table(start: nat, end: nat)

  // ----- The reference

  /** Each fence line above line `k` opens or closes one. */
  predicate Fenced(lines: seq<Line>, k: nat)
    requires k <= |lines|
  {
    k > 0 && Fenced(lines, k - 1) != lines[k - 1].fence
  }

  /** The fence lines above line `k`. */
  ghost function Fences(lines: seq<Line>, k: nat): set<nat>
    requires k <= |lines|
  {
    set j: nat | j < k && lines[j].fence
  }

  lemma {:induction false} FencesStep(lines: seq<Line>, k: nat)
    requires 0 < k <= |lines|
    ensures |Fences(lines, k)| == |Fences(lines, k - 1)| + if lines[k - 1].fence then 1 else 0
  {
    var before, last: nat := Fences(lines, k - 1), k - 1;
    assert last !in before;
    assert Fences(lines, k) == if lines[last].fence then before + {last} else before;
    hide Fences;
  }

  /** A line is in a fence just if an odd number of fence lines stands above it. */
  lemma {:induction false} FencedIff(lines: seq<Line>, k: nat)
    requires k <= |lines|
    ensures Fenced(lines, k) <==> |Fences(lines, k)| % 2 == 1
  {
    if k > 0 {
      FencedIff(lines, k - 1);
      FencesStep(lines, k);
      hide Fences;
    }
  }

  /** A bar line directly followed by a separator, outside every fence. */
  predicate Header(lines: seq<Line>, k: nat)
    requires k < |lines|
  {
    !Fenced(lines, k) && lines[k].bar && k + 1 < |lines| && lines[k + 1].separator
  }

  /** The run of bar lines above `k` has already opened a table. */
  predicate Taken(lines: seq<Line>, k: nat)
    requires k <= |lines|
    decreases k, 0
  {
    k > 0 && k < |lines| && lines[k].bar && (Starts(lines, k - 1) || Taken(lines, k - 1))
  }

  predicate Starts(lines: seq<Line>, k: nat)
    requires k < |lines|
    decreases k, 1
  {
    Header(lines, k) && !Taken(lines, k)
  }

  /** The first line from `k` on that is no bar. */
  function RunEnd(lines: seq<Line>, k: nat): (e: nat)
    requires k <= |lines|
    ensures k <= e <= |lines|
    ensures e < |lines| ==> !lines[e].bar
    decreases |lines| - k
  {
    if k < |lines| && lines[k].bar then RunEnd(lines, k + 1) else k
  }

  /** The tables that start within the first `n` lines. */
  function TablesIn(lines: seq<Line>, n: nat): seq<Table>
    requires n <= |lines|
  {
    if n == 0 then []
    else TablesIn(lines, n - 1) + if Starts(lines, n - 1) then [Table(n, RunEnd(lines, n - 1))] else []
  }

  // ----- The scanner

  lemma {:induction false} InsideRun(lines: seq<Line>, i: nat, j: nat)
    requires i < |lines| && i < j <= RunEnd(lines, i) && Starts(lines, i)
    ensures j < RunEnd(lines, i) ==> Taken(lines, j)
    ensures TablesIn(lines, j) == TablesIn(lines, i) + [Table(i + 1, RunEnd(lines, i))]
    ensures Fenced(lines, j) == Fenced(lines, i) || !Page(lines)
    decreases j - i
  {
    RunEndBar(lines, i, j - 1);
    if j > i + 1 { InsideRun(lines, i, j - 1); }
    if j < RunEnd(lines, i) { RunEndBar(lines, i, j); }
  }

  lemma {:induction false} RunEndBar(lines: seq<Line>, i: nat, k: nat)
    requires i <= k < |lines| && k < RunEnd(lines, i)
    ensures lines[k].bar
    decreases k - i
  {
    if i < k { RunEndBar(lines, i + 1, k); }
  }

  method FindTables(lines: seq<Line>) returns (found: seq<Table>)
    requires Page(lines)
    ensures found == TablesIn(lines, |lines|)
  {
    found := [];
    var fenced, i := false, 0;
    while i < |lines|
      invariant i <= |lines| && fenced == Fenced(lines, i) && !Taken(lines, i)
      invariant found == TablesIn(lines, i)
    {
      assert Plausible(lines[i]);
      if lines[i].fence {
        fenced := !fenced;
        i := i + 1;
        continue;
      }
      if !fenced && lines[i].bar && i + 1 < |lines| && lines[i + 1].separator {
        var start := i + 1;
        while i < |lines| && lines[i].bar
          invariant start - 1 <= i <= |lines| && RunEnd(lines, i) == RunEnd(lines, start - 1)
        {
          i := i + 1;
        }
        InsideRun(lines, start - 1, i);
        found := found + [Table(start, i)];
        continue;
      }
      i := i + 1;
    }
  }

  // ----- What the list is

  /** A table starts at the first header of its run of bar lines, so a run gives at most one. */
  lemma {:induction false} TakenIff(lines: seq<Line>, k: nat, first: nat)
    requires first <= k < |lines| && (first == 0 || !lines[first - 1].bar)
    requires forall j | first <= j <= k :: lines[j].bar
    ensures Taken(lines, k) <==> exists j | first <= j < k :: Header(lines, j)
  {
    hide Header;
    if k > first {
      TakenIff(lines, k - 1, first);
    } else if k > 0 {
      NotBarNotTaken(lines, k - 1);
    }
  }

  lemma {:induction false} NotBarNotTaken(lines: seq<Line>, k: nat)
    requires k < |lines| && !lines[k].bar
    ensures !Taken(lines, k) && !Starts(lines, k)
  {
  }

  lemma {:induction false} FirstHeaderOfRun(lines: seq<Line>, k: nat, first: nat)
    requires first <= k < |lines| && (first == 0 || !lines[first - 1].bar)
    requires forall j | first <= j <= k :: lines[j].bar
    ensures Starts(lines, k) <==> Header(lines, k) && forall j | first <= j < k :: !Header(lines, j)
  {
    TakenIff(lines, k, first);
  }

  lemma {:induction false} NoneUntil(lines: seq<Line>, i: nat, j: nat)
    requires i < |lines| && Starts(lines, i) && i < j < RunEnd(lines, i)
    ensures !Starts(lines, j)
  {
    InsideRun(lines, i, j);
  }

  lemma {:induction false} TableAt(lines: seq<Line>, n: nat, a: nat)
    requires n <= |lines| && a < |TablesIn(lines, n)|
    ensures var t := TablesIn(lines, n)[a];
            1 <= t.start <= n && Starts(lines, t.start - 1) && t.end == RunEnd(lines, t.start - 1)
  {
    if n > 0 && a < |TablesIn(lines, n - 1)| { TableAt(lines, n - 1, a); }
  }

  /** The tables are in order and apart: each ends before the next one starts. */
  lemma {:induction false} TablesOrdered(lines: seq<Line>, n: nat, a: nat, b: nat)
    requires n <= |lines| && a < b < |TablesIn(lines, n)|
    ensures TablesIn(lines, n)[a].end <= TablesIn(lines, n)[b].start - 1
  {
    var ts := TablesIn(lines, n - 1);
    TableAt(lines, n, a);
    if b < |ts| {
      TablesOrdered(lines, n - 1, a, b);
    } else {
      TableAt(lines, n - 1, a);
      var t := ts[a];
      if n - 1 < t.end { NoneUntil(lines, t.start - 1, n - 1); }
    }
  }

  // ----- Above a table

  /** `stamped`, looking up from line `n` (zero-based, exclusive). */
  function Stamped(lines: seq<Line>, n: nat): bool
    requires n <= |lines|
  {
    n > 0 && !lines[n - 1].heading && (lines[n - 1].build || Stamped(lines, n - 1))
  }

  method FindStamp(lines: seq<Line>, start: nat) returns (r: bool)
    requires 1 <= start <= |lines|
    ensures r == Stamped(lines, start - 1)
  {
    var i := start - 1;
    while i > 0
      invariant 0 <= i < start
      invariant Stamped(lines, start - 1) == Stamped(lines, i)
    {
      i := i - 1;
      if lines[i].heading { return false; }
      if lines[i].build { return true; }
    }
    return false;
  }

  /** A stamp counts from the nearest heading down. */
  lemma {:induction false} StampedIff(lines: seq<Line>, n: nat)
    requires n <= |lines|
    ensures Stamped(lines, n) <==> exists k | 0 <= k < n :: lines[k].build && forall j | k <= j < n :: !lines[j].heading
  {
    if n > 0 {
      StampedIff(lines, n - 1);
      if Stamped(lines, n - 1) && !lines[n - 1].heading {
        var k :| 0 <= k < n - 1 && lines[k].build && forall j | k <= j < n - 1 :: !lines[j].heading;
        assert lines[k].build;
      }
    }
  }

  const EXCUSE_REACH: nat := 3

  predicate Excused(lines: seq<Line>, start: nat)
    requires 1 <= start <= |lines|
  {
    exists k | 0 <= k < start - 1 && start - 1 - EXCUSE_REACH <= k :: lines[k].excuse
  }

  /** The line that many above the table's first is there and is an excuse. */
  predicate ExcuseAt(lines: seq<Line>, start: nat, above: nat)
    requires 1 <= start <= |lines|
  {
    above < start && lines[start - 1 - above].excuse
  }

  /** An excuse reaches from three lines above the table, and not from its own first line. */
  lemma {:induction false} ExcusedIff(lines: seq<Line>, start: nat)
    requires 1 <= start <= |lines|
    ensures Excused(lines, start) <==> ExcuseAt(lines, start, 1) || ExcuseAt(lines, start, 2) || ExcuseAt(lines, start, 3)
  {
    if Excused(lines, start) {
      var k :| 0 <= k < start - 1 && start - 1 - EXCUSE_REACH <= k && lines[k].excuse;
      assert ExcuseAt(lines, start, start - 1 - k);
    }
  }
}
