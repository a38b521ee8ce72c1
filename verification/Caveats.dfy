/** The caveat tracker: which rows are read, which are left, and how they are counted. */
module Caveats {
  import opened Options

  type Key = string

  /** A `checked` date: absent, a day, or text that is no date. */
  datatype Stamp = NoStamp | Dated(day: int) | Unreadable(text: string)

  /** The six verdicts, and whatever else a row may say. */
  datatype Verdict = Open | Closed | Narrowed | Deliberate | Moment | Untriaged | Unknown(text: string)

  datatype Row = Row(verdict: Verdict, checked: Stamp, draw: string)

  type Status = map<Key, Row>

  predicate IsBucket(status: Status, k: Key) { k in status && status[k].verdict.Deliberate? }

  predicate IsRead(status: Status, k: Key) { IsBucket(status, k) && !status[k].checked.NoStamp? }

  /** What a listing selects. */
  datatype Pick =
    | Bucket                       // every deliberate row
    | Frame                        // the ones nobody has read
    | Read                         // the ones somebody has
    | Unchecked(cutoff: Option<int>)  // not read, or not since the cutoff

  predicate Picked(status: Status, k: Key, p: Pick) {
    IsBucket(status, k)
    && match p
       case Bucket => true
       case Frame => status[k].checked.NoStamp?
       case Read => !status[k].checked.NoStamp?
       case Unchecked(cutoff) =>
         match status[k].checked
         case NoStamp => true
         case Dated(day) => cutoff.Some? && day < cutoff.value
         case Unreadable(_) => cutoff.Some?
  }

  /** The rows of the first `n` caveats that `p` selects, in the order the ledger gives them. */
  function Select(found: seq<Key>, status: Status, n: nat, p: Pick): seq<Key>
    requires n <= |found|
  {
    if n == 0 then []
    else Select(found, status, n - 1, p) + if Picked(status, found[n - 1], p) then [found[n - 1]] else []
  }

  function All(found: seq<Key>, status: Status, p: Pick): seq<Key> { Select(found, status, |found|, p) }

  /** `frame`. */
  method FrameOf(found: seq<Key>, status: Status) returns (out: seq<Key>)
    ensures out == All(found, status, Frame)
  {
    out := [];
    for i := 0 to |found|
      invariant out == Select(found, status, i, Frame)
    {
      var k := found[i];
      if k in status && status[k].verdict.Deliberate? && status[k].checked.NoStamp? {
        out := out + [k];
      }
    }
  }

  /** `unchecked`, with its cutoff already worked out from the days. */
  method UncheckedOf(found: seq<Key>, status: Status, cutoff: Option<int>) returns (out: seq<Key>)
    ensures out == All(found, status, Unchecked(cutoff))
  {
    out := [];
    for i := 0 to |found|
      invariant out == Select(found, status, i, Unchecked(cutoff))
    {
      var k := found[i];
      if k !in status || !status[k].verdict.Deliberate? { continue; }
      var stamp := status[k].checked;
      if !stamp.NoStamp? {
        if cutoff.None? { continue; }
        if stamp.Dated? && stamp.day >= cutoff.value { continue; }
      }
      out := out + [k];
    }
  }

  lemma {:induction false} SelectMember(found: seq<Key>, status: Status, n: nat, p: Pick, k: Key)
    requires n <= |found|
    ensures k in Select(found, status, n, p) <==> k in found[..n] && Picked(status, k, p)
  {
    if n > 0 {
      SelectMember(found, status, n - 1, p, k);
      assert found[..n] == found[..n - 1] + [found[n - 1]];
    }
  }

  /** The two listings are one: nobody has read exactly the rows a pass draws from. */
  lemma {:induction false} UncheckedIsFrame(found: seq<Key>, status: Status, n: nat)
    requires n <= |found|
    ensures Select(found, status, n, Unchecked(None)) == Select(found, status, n, Frame)
  {
    if n > 0 { UncheckedIsFrame(found, status, n - 1); }
  }

  /** Of the bucket a cutoff leaves out just the rows that give a day, and one no earlier than it. */
  lemma {:induction false} UncheckedIff(found: seq<Key>, status: Status, cutoff: int, k: Key)
    ensures k in All(found, status, Unchecked(Some(cutoff))) <==>
            k in All(found, status, Bucket) && k in status && !(status[k].checked.Dated? && status[k].checked.day >= cutoff)
    ensures k in All(found, status, Frame) <==> k in found && k in status && status[k].verdict == Deliberate && status[k].checked == NoStamp
  {
    SelectMember(found, status, |found|, Unchecked(Some(cutoff)), k);
    SelectMember(found, status, |found|, Bucket, k);
    SelectMember(found, status, |found|, Frame, k);
    assert found[..|found|] == found;
    hide Select;
  }

  /** A shorter memory lists more: an earlier cutoff lists part of what a later one does, and
      every cutoff lists at least what nobody has ever read. */
  lemma {:induction false} UncheckedMonotone(found: seq<Key>, status: Status, early: int, late: int, k: Key)
    requires early <= late
    ensures k in All(found, status, Unchecked(None)) ==> k in All(found, status, Unchecked(Some(early)))
    ensures k in All(found, status, Unchecked(Some(early))) ==> k in All(found, status, Unchecked(Some(late)))
  {
    hide Select;
    SelectMember(found, status, |found|, Unchecked(None), k);
    SelectMember(found, status, |found|, Unchecked(Some(early)), k);
    SelectMember(found, status, |found|, Unchecked(Some(late)), k);
  }

  /** Frame and read rows partition the bucket, whatever the rows say. */
  lemma {:induction false} PartitionCount(found: seq<Key>, status: Status, n: nat)
    requires n <= |found|
    ensures |Select(found, status, n, Bucket)| == |Select(found, status, n, Frame)| + |Select(found, status, n, Read)|
  {
    if n > 0 { PartitionCount(found, status, n - 1); }
  }

  // ----- report

  /** An unknown verdict, or none, counts as untriaged. */
  function Effective(status: Status, k: Key): (v: Verdict)
    ensures !v.Unknown?
  {
    if k in status && !status[k].verdict.Unknown? then status[k].verdict else Untriaged
  }

  datatype Counts = Counts(open: nat, closed: nat, narrowed: nat, deliberate: nat, moment: nat, untriaged: nat) {
    function Total(): nat { open + closed + narrowed + deliberate + moment + untriaged }

    function Of(v: Verdict): nat
      requires !v.Unknown?
    {
      match v
      case Open => open
      case Closed => closed
      case Narrowed => narrowed
      case Deliberate => deliberate
      case Moment => moment
      case Untriaged => untriaged
    }
  }

  function Add(c: Counts, v: Verdict): Counts
    requires !v.Unknown?
  {
    match v
    case Open => c.(open := c.open + 1)
    case Closed => c.(closed := c.closed + 1)
    case Narrowed => c.(narrowed := c.narrowed + 1)
    case Deliberate => c.(deliberate := c.deliberate + 1)
    case Moment => c.(moment := c.moment + 1)
    case Untriaged => c.(untriaged := c.untriaged + 1)
  }

  lemma {:induction false} AddCounts(c: Counts, v: Verdict)
    requires !v.Unknown?
    ensures Add(c, v).Total() == c.Total() + 1
    ensures forall w: Verdict | !w.Unknown? :: Add(c, v).Of(w) == c.Of(w) + if v == w then 1 else 0
  {
  }

  /** The ledger gives the caveat this verdict; one of no known verdict is untriaged. */
  predicate Says(status: Status, k: Key, v: Verdict) {
    if k in status && status[k].verdict in {Open, Closed, Narrowed, Deliberate, Moment} then status[k].verdict == v else v == Untriaged
  }

  /** The places among the first `n` caveats that have the verdict. */
  ghost function Places(found: seq<Key>, status: Status, n: nat, v: Verdict): set<nat>
    requires n <= |found|
  {
    set i: nat | i < n && Says(status, found[i], v)
  }

  lemma {:induction false} PlacesStep(found: seq<Key>, status: Status, n: nat, v: Verdict)
    requires 0 < n <= |found|
    ensures |Places(found, status, n, v)| == |Places(found, status, n - 1, v)| + if Says(status, found[n - 1], v) then 1 else 0
  {
    hide Says;
    var before, after := Places(found, status, n - 1, v), Places(found, status, n, v);
    var last: nat := n - 1;
    assert last !in before;
    assert after == if Says(status, found[last], v) then before + {last} else before;
    hide Places;
  }

  function Tally(found: seq<Key>, status: Status, n: nat): Counts
    requires n <= |found|
  {
    if n == 0 then Counts(0, 0, 0, 0, 0, 0) else Add(Tally(found, status, n - 1), Effective(status, found[n - 1]))
  }

  lemma {:induction false} TallyCounts(found: seq<Key>, status: Status, n: nat)
    requires n <= |found|
    ensures Tally(found, status, n).Total() == n
    ensures forall v: Verdict | !v.Unknown? :: Tally(found, status, n).Of(v) == |Places(found, status, n, v)|
  {
    if n > 0 {
      TallyCounts(found, status, n - 1);
      var v := Effective(status, found[n - 1]);
      AddCounts(Tally(found, status, n - 1), v);
      forall w: Verdict | !w.Unknown?
        ensures Tally(found, status, n).Of(w) == |Places(found, status, n, w)|
      {
        PlacesStep(found, status, n, w);
        assert Says(status, found[n - 1], w) <==> v == w;
        hide Places, Effective, Says;
      }
      hide Add, Places;
    }
  }

  /** The deliberate caveats are the bucket. */
  lemma {:induction false} DeliberatePlaces(found: seq<Key>, status: Status, n: nat)
    requires n <= |found|
    ensures |Places(found, status, n, Deliberate)| == |Select(found, status, n, Bucket)|
  {
    if n > 0 {
      DeliberatePlaces(found, status, n - 1);
      PlacesStep(found, status, n, Deliberate);
      hide Places;
    }
  }

  /** Each count is the number of caveats that have its verdict; they cover every caveat once, and the
      deliberate ones are the bucket. */
  method Report(found: seq<Key>, status: Status) returns (counts: Counts)
    ensures counts.Total() == |found|
    ensures counts.open == |Places(found, status, |found|, Open)|
    ensures counts.closed == |Places(found, status, |found|, Closed)|
    ensures counts.narrowed == |Places(found, status, |found|, Narrowed)|
    ensures counts.deliberate == |Places(found, status, |found|, Deliberate)| == |All(found, status, Bucket)|
    ensures counts.moment == |Places(found, status, |found|, Moment)|
    ensures counts.untriaged == |Places(found, status, |found|, Untriaged)|
  {
    hide Add, Select, Effective;
    counts := Counts(0, 0, 0, 0, 0, 0);
    for i := 0 to |found|
      invariant counts == Tally(found, status, i)
    {
      counts := Add(counts, Effective(status, found[i]));
    }
    TallyCounts(found, status, |found|);
    DeliberatePlaces(found, status, |found|);
    hide Tally, Places;
    assert forall v: Verdict | !v.Unknown? :: counts.Of(v) == |Places(found, status, |found|, v)|;
    assert counts.Of(Open) == counts.open && counts.Of(Closed) == counts.closed && counts.Of(Narrowed) == counts.narrowed;
    assert counts.Of(Deliberate) == counts.deliberate && counts.Of(Moment) == counts.moment && counts.Of(Untriaged) == counts.untriaged;
  }

  /** The summary line's figure, "deliberate less unchecked", is the number of read rows. */
  lemma {:induction false} ReadFigure(found: seq<Key>, status: Status)
    ensures |All(found, status, Bucket)| - |All(found, status, Unchecked(None))| == |All(found, status, Read)|
  {
    UncheckedIsFrame(found, status, |found|);
    PartitionCount(found, status, |found|);
  }
}
