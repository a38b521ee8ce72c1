/** Markers that excuse a passage, over what each chunk of a file shows. */
module Excuses {
  import opened Options

  /** One chunk: whether it carries the marker, is nothing but the marker, what of it is live,
      and whether that states a figure. */
  datatype Seen = Seen(marked: bool, alone: bool, live: Option<string>, claim: bool)

  datatype Event =
    | Undeserved(k: nat)               // chunk `k` carries a marker that excuses nothing
    | Judged(k: nat, current: string)  // the live text of chunk `k` was checked

  /** The chunk directly above is a standalone marker. */
  predicate Excused(ss: seq<Seen>, k: nat)
    requires k <= |ss|
  {
    k > 0 && ss[k - 1].alone
  }

  /** A marker excuses nothing when the passage it reaches states no figure. */
  predicate ExcusesNothing(ss: seq<Seen>, k: nat)
    requires k < |ss|
  {
    if ss[k].alone then k + 1 == |ss| || ss[k + 1].marked || !ss[k + 1].claim
    else ss[k].marked && !ss[k].claim
  }

  predicate IsJudged(ss: seq<Seen>, k: nat)
    requires k < |ss|
  {
    ss[k].live.Some? && !ss[k].marked && !Excused(ss, k)
  }

  function Above(ss: seq<Seen>, k: nat): seq<Event>
    requires k <= |ss|
  {
    if Excused(ss, k) && ExcusesNothing(ss, k - 1) then [Undeserved(k - 1)] else []
  }

  function Here(ss: seq<Seen>, k: nat): seq<Event>
    requires k < |ss|
  {
    if !ss[k].alone && ExcusesNothing(ss, k) then [Undeserved(k)]
    else if IsJudged(ss, k) then [Judged(k, ss[k].live.value)]
    else []
  }

  /** The report, chunk by chunk: a standalone marker is settled by the chunk below it. */
  function Log(ss: seq<Seen>, n: nat): seq<Event>
    requires n <= |ss|
  {
    if n == 0 then [] else Log(ss, n - 1) + Above(ss, n - 1) + Here(ss, n - 1)
  }

  function Report(ss: seq<Seen>): seq<Event> { Log(ss, |ss|) + Above(ss, |ss|) }

  lemma {:induction false} CountThree(a: seq<Event>, b: seq<Event>, c: seq<Event>, e: Event)
    ensures multiset(a + b + c)[e] == multiset(a)[e] + multiset(b)[e] + multiset(c)[e]
  {
    assert multiset(a + b + c) == multiset(a) + multiset(b) + multiset(c);
  }

  lemma {:induction false} AboveCount(ss: seq<Seen>, n: nat, e: Event)
    requires n <= |ss|
    ensures multiset(Above(ss, n))[e] == if n > 0 && ss[n - 1].alone && ExcusesNothing(ss, n - 1) && e == Undeserved(n - 1) then 1 else 0
  {
  }

  lemma {:induction false} HereCount(ss: seq<Seen>, n: nat, e: Event)
    requires n < |ss|
    ensures multiset(Here(ss, n))[e]
         == if (!ss[n].alone && ExcusesNothing(ss, n) && e == Undeserved(n))
               || (IsJudged(ss, n) && e == Judged(n, ss[n].live.value)) then 1 else 0
  {
  }

  /** How often `e` is in the log, added up chunk by chunk. */
  function Tally(ss: seq<Seen>, n: nat, e: Event): nat
    requires n <= |ss|
  {
    if n == 0 then 0 else Tally(ss, n - 1, e) + multiset(Above(ss, n - 1))[e] + multiset(Here(ss, n - 1))[e]
  }

  lemma {:induction false} LogTally(ss: seq<Seen>, n: nat, e: Event)
    requires n <= |ss|
    ensures multiset(Log(ss, n))[e] == Tally(ss, n, e)
  {
    hide Above, Here;
    if n > 0 {
      LogTally(ss, n - 1, e);
      CountThree(Log(ss, n - 1), Above(ss, n - 1), Here(ss, n - 1), e);
    }
  }

  lemma {:induction false} UndeservedTally(ss: seq<Seen>, n: nat, k: nat)
    requires k < |ss| && n <= |ss|
    ensures Tally(ss, n, Undeserved(k))
         == if ExcusesNothing(ss, k) && (if ss[k].alone then k + 1 < n else k < n) then 1 else 0
  {
    hide ExcusesNothing, IsJudged, Above, Here;
    if n > 0 {
      UndeservedTally(ss, n - 1, k);
      AboveCount(ss, n - 1, Undeserved(k));
      HereCount(ss, n - 1, Undeserved(k));
    }
  }

  lemma {:induction false} JudgedTally(ss: seq<Seen>, n: nat, k: nat, t: string)
    requires k < |ss| && n <= |ss|
    ensures Tally(ss, n, Judged(k, t)) == if k < n && IsJudged(ss, k) && ss[k].live == Some(t) then 1 else 0
  {
    hide ExcusesNothing, Excused, Above, Here;
    if n > 0 {
      JudgedTally(ss, n - 1, k, t);
      AboveCount(ss, n - 1, Judged(k, t));
      HereCount(ss, n - 1, Judged(k, t));
    }
  }

  lemma {:induction false} ReportTally(ss: seq<Seen>, e: Event)
    ensures multiset(Report(ss))[e] == Tally(ss, |ss|, e) + multiset(Above(ss, |ss|))[e]
  {
    hide Above, Here, Log;
    LogTally(ss, |ss|, e);
    CountThree(Log(ss, |ss|), Above(ss, |ss|), [], e);
    assert Report(ss) + [] == Report(ss);
  }

  /** What a chunk adds, by which branch of the loop reads it. */
  function Added(s: Seen, excused: bool, n: nat): seq<Event>
    requires excused ==> n > 0
    requires s.claim ==> s.live.Some?
  {
    if s.marked then
      (if excused then [Undeserved(n - 1)] else []) + if s.alone || s.claim then [] else [Undeserved(n)]
    else if excused then (if s.claim then [] else [Undeserved(n - 1)])
    else if s.live.Some? then [Judged(n, s.live.value)]
    else []
  }

  lemma {:induction false} LogNext(ss: seq<Seen>, n: nat)
    requires n < |ss|
    requires (ss[n].alone ==> ss[n].marked) && (ss[n].claim ==> ss[n].live.Some?)
    ensures Log(ss, n + 1) == Log(ss, n) + Added(ss[n], Excused(ss, n), n)
  {
    var l, a, h := Log(ss, n), Above(ss, n), Here(ss, n);
    assert Log(ss, n + 1) == l + a + h;
    hide Log;
    assert l + a + h == l + (a + h);
    assert a + h == Added(ss[n], Excused(ss, n), n);
  }

  /** Every marker is reported once if the passage it reaches has nothing to excuse, and never
      otherwise: a standalone one reaches the next chunk and no further, and one with another
      marker or nothing at all after it is reported. */
  lemma {:induction false} UndeservedOnceIff(ss: seq<Seen>, k: nat)
    requires k < |ss|
    ensures multiset(Report(ss))[Undeserved(k)] == if ExcusesNothing(ss, k) then 1 else 0
  {
    hide Above, Here, Tally, Report, ExcusesNothing;
    ReportTally(ss, Undeserved(k));
    UndeservedTally(ss, |ss|, k);
    AboveCount(ss, |ss|, Undeserved(k));
  }

  /** A chunk's live text is checked exactly once unless the chunk carries a marker, directly
      follows a standalone one, or has nothing live in it. */
  lemma {:induction false} JudgedOnceIff(ss: seq<Seen>, k: nat, t: string)
    requires k < |ss|
    ensures multiset(Report(ss))[Judged(k, t)]
         == if ss[k].live == Some(t) && !ss[k].marked && (k > 0 ==> !ss[k - 1].alone) then 1 else 0
  {
    hide Above, Here, Tally, Report;
    ReportTally(ss, Judged(k, t));
    JudgedTally(ss, |ss|, k, t);
    AboveCount(ss, |ss|, Judged(k, t));
  }
}
