/** The draw protocol: a pass draws from the rows nobody has read, and stamps what it reads. */
module Draws {
  import opened Caveats

  /** A recorded draw. `frame` is the size of the frame the indices point into. */
  datatype Record = Record(drawn: string, seed: int, frame: nat, indices: seq<nat>, keys: seq<Key>)

  /** `random.Random(seed).sample(range(n), count)`. */
  type Sampler = (int, nat, nat) -> seq<nat>

  /** Without replacement. */
  predicate IsSample(indices: seq<nat>, n: nat, count: nat) {
    |indices| == count && (forall i | 0 <= i < count :: indices[i] < n)
    && forall i, j | 0 <= i < j < count :: indices[i] != indices[j]
  }

  ghost predicate Samples(sample: Sampler) {
    forall seed: int, n: nat, count: nat :: count <= n ==> IsSample(sample(seed, n, count), n, count)
  }

  function Digits(n: nat): string {
    (if n < 10 then [] else Digits(n / 10)) + [('0' as int + n % 10) as char]
  }

  function IntText(n: int): string { if n < 0 then "-" + Digits(-n) else Digits(n) }

  /** The file a draw is recorded in, without its suffix: what a stamp names. */
  function Stem(drawn: string, seed: int): (r: string)
    ensures r != ""
  {
    drawn + "-" + IntText(seed)
  }

  datatype State = State(status: Status, records: map<string, Record>)

  function Chosen(frame: seq<Key>, indices: seq<nat>): (keys: seq<Key>)
    requires forall i | 0 <= i < |indices| :: indices[i] < |frame|
    ensures |keys| == |indices|
    ensures forall i | 0 <= i < |indices| :: keys[i] == frame[indices[i]]
  {
    if indices == [] then [] else Chosen(frame, indices[..|indices| - 1]) + [frame[indices[|indices| - 1]]]
  }

  /** The record lists, in the order of its indices, the rows they stand for in the frame. */
  ghost predicate Names(frame: seq<Key>, r: Record) {
    && r.frame == |frame| && |r.keys| == |r.indices| && (forall i | 0 <= i < |r.indices| :: r.indices[i] < |frame|)
    && forall i | 0 <= i < |r.indices| :: r.keys[i] == frame[r.indices[i]]
  }

  /** The tracker as it is used: `--draw` writes a record, a reader stamps a row. */
  class Tracker {
    const found: seq<Key>
    var status: Status
    var records: map<string, Record>

    constructor (found: seq<Key>, status: Status)
      ensures this.found == found && this.status == status && records == map[]
    {
      this.found := found;
      this.status := status;
      this.records := map[];
    }

    ghost function Now(): State
      reads this
    {
      State(status, records)
    }

    /** Refused when the frame is too small or the seed is taken that day; else one record more. */
    method Draw(count: nat, seed: int, today: string, sample: Sampler) returns (ok: bool)
      requires Samples(sample)
      modifies this`records
      ensures ok <==> count <= |All(found, status, Frame)| && Stem(today, seed) !in old(records)
      ensures ok ==> DrawStep(found, sample, old(Now()), Now(), count, seed, today)
      ensures ok ==> Stem(today, seed) in records
                     && Names(All(found, status, Frame), records[Stem(today, seed)]) && |records[Stem(today, seed)].keys| == count
      ensures !ok ==> Now() == old(Now())
    {
      var frame := FrameOf(found, status);
      if count > |frame| || Stem(today, seed) in records {
        return false;
      }
      var indices := sample(seed, |frame|, count);
      assert IsSample(indices, |frame|, count);
      records := records[Stem(today, seed) := Record(today, seed, |frame|, indices, Chosen(frame, indices))];
      return true;
    }

    /** A row is stamped with the draw that named it. */
    method StampRow(k: Key, name: string, stamp: Stamp)
      requires CanStamp(Now(), k, name) && !stamp.NoStamp?
      modifies this`status
      ensures StampStep(old(Now()), Now(), k, name, stamp)
    {
      status := status[k := status[k].(checked := stamp, draw := name)];
    }
  }

  // ----- The protocol as a relation between states

  ghost predicate DrawStep(found: seq<Key>, sample: Sampler, s: State, t: State, count: nat, seed: int, today: string)
    requires Samples(sample)
  {
    var frame := All(found, s.status, Frame);
    count <= |frame| && Stem(today, seed) !in s.records
    && var indices := sample(seed, |frame|, count);
    IsSample(indices, |frame|, count)
    && t == State(s.status, s.records[Stem(today, seed) := Record(today, seed, |frame|, indices, Chosen(frame, indices))])
  }

  ghost predicate CanStamp(s: State, k: Key, name: string) {
    name in s.records && k in s.records[name].keys && IsBucket(s.status, k)
  }

  ghost predicate StampStep(s: State, t: State, k: Key, name: string, stamp: Stamp) {
    CanStamp(s, k, name) && !stamp.NoStamp?
    && t == State(s.status[k := s.status[k].(checked := stamp, draw := name)], s.records)
  }

  ghost predicate Next(found: seq<Key>, sample: Sampler, s: State, t: State)
    requires Samples(sample)
  {
    (exists count: nat, seed: int, today: string :: DrawStep(found, sample, s, t, count, seed, today))
    || (exists k: Key, name: string, stamp: Stamp :: StampStep(s, t, k, name, stamp))
  }

  /** `t` is reached from `s` in `n` steps. */
  ghost predicate Reaches(found: seq<Key>, sample: Sampler, s: State, t: State, n: nat)
    requires Samples(sample)
    decreases n
  {
    if n == 0 then s == t
    else exists m: State :: Reaches(found, sample, s, m, n - 1) && Next(found, sample, m, t)
  }

  // ----- What every run keeps

  /** Verdicts stand, what is read stays read, records stay as written, and no record made
      since lists a row that was read by then. */
  ghost predicate Later(s: State, t: State) {
    && (forall k :: IsBucket(s.status, k) <==> IsBucket(t.status, k))
    && (forall k | IsRead(s.status, k) :: IsRead(t.status, k))
    && (forall name | name in s.records :: name in t.records && t.records[name] == s.records[name])
    && (forall name, k | name in t.records && name !in s.records && IsRead(s.status, k) :: k !in t.records[name].keys)
  }

  lemma {:induction false} DrawIsLater(found: seq<Key>, sample: Sampler, s: State, t: State, count: nat, seed: int, today: string)
    requires Samples(sample) && DrawStep(found, sample, s, t, count, seed, today)
    ensures Later(s, t)
  {
    var frame := All(found, s.status, Frame);
    var name := Stem(today, seed);
    forall k | IsRead(s.status, k) ensures k !in t.records[name].keys {
      SelectMember(found, s.status, |found|, Frame, k);
    }
    hide Stem, Select;
  }

  lemma {:induction false} NextIsLater(found: seq<Key>, sample: Sampler, s: State, t: State)
    requires Samples(sample) && Next(found, sample, s, t)
    ensures Later(s, t)
  {
    if count: nat, seed: int, today: string :| DrawStep(found, sample, s, t, count, seed, today) {
      DrawIsLater(found, sample, s, t, count, seed, today);
    }
  }

  lemma {:induction false} LaterSelf(s: State)
    ensures Later(s, s)
  {
  }

  lemma {:induction false} LaterTransitive(s: State, m: State, t: State)
    requires Later(s, m) && Later(m, t)
    ensures Later(s, t)
  {
  }

  lemma {:induction false} RunIsLater(found: seq<Key>, sample: Sampler, s: State, t: State, n: nat)
    requires Samples(sample) && Reaches(found, sample, s, t, n)
    ensures Later(s, t)
    decreases n
  {
    hide Later, Next, Samples;
    if n == 0 {
      LaterSelf(s);
    } else {
      var m: State :| Reaches(found, sample, s, m, n - 1) && Next(found, sample, m, t);
      RunIsLater(found, sample, s, m, n - 1);
      NextIsLater(found, sample, m, t);
      LaterTransitive(s, m, t);
    }
  }

  lemma {:induction false} SameBucket(found: seq<Key>, s: State, t: State, n: nat)
    requires n <= |found| && Later(s, t)
    ensures Select(found, s.status, n, Bucket) == Select(found, t.status, n, Bucket)
  {
    hide Later;
    if n > 0 {
      SameBucket(found, s, t, n - 1);
      LaterAt(s, t, found[n - 1]);
    }
  }

  lemma {:induction false} LaterAt(s: State, t: State, k: Key)
    requires Later(s, t)
    ensures IsBucket(s.status, k) <==> IsBucket(t.status, k)
    ensures IsRead(s.status, k) ==> IsRead(t.status, k)
  {
  }

  /** Passes pool. Over any run: the bucket is the same list, the frame and the rows read make it
      up between them, no row returns to the frame, and a row read by some moment is in no
      record drawn after it. */
  lemma {:induction false} PassesPool(found: seq<Key>, sample: Sampler, s: State, t: State, n: nat, k: Key, name: string)
    requires Samples(sample) && Reaches(found, sample, s, t, n)
    ensures All(found, s.status, Bucket) == All(found, t.status, Bucket)
    ensures |All(found, t.status, Bucket)| == |All(found, t.status, Frame)| + |All(found, t.status, Read)|
    ensures k in All(found, t.status, Bucket) <==> (k in All(found, t.status, Frame)) != (k in All(found, t.status, Read))
    ensures k in All(found, t.status, Frame) ==> k in All(found, s.status, Frame)
    ensures IsRead(s.status, k) && name in t.records && name !in s.records ==> k !in t.records[name].keys
  {
    RunIsLater(found, sample, s, t, n);
    SameBucket(found, s, t, |found|);
    PartitionCount(found, t.status, |found|);
    LaterAt(s, t, k);
    hide Later, Reaches, Select;
    SelectMember(found, t.status, |found|, Bucket, k);
    SelectMember(found, t.status, |found|, Frame, k);
    SelectMember(found, t.status, |found|, Read, k);
    SelectMember(found, s.status, |found|, Frame, k);
    LaterRecords(s, t, k, name);
    RunIsLater(found, sample, s, t, n);
  }

  lemma {:induction false} LaterRecords(s: State, t: State, k: Key, name: string)
    requires Later(s, t)
    ensures IsRead(s.status, k) && name in t.records && name !in s.records ==> k !in t.records[name].keys
  {
  }

  // ----- What every reachable state satisfies

  /** A record names its own file, repeats its sample, and lists what that picks of some frame of the
      caveats found. */
  ghost predicate SoundRecord(found: seq<Key>, sample: Sampler, name: string, r: Record) {
    && name == Stem(r.drawn, r.seed)
    && |r.indices| <= r.frame && sample(r.seed, r.frame, |r.indices|) == r.indices
    && exists status: Status :: Names(All(found, status, Frame), r)
  }

  ghost predicate SoundStamp(s: State, k: Key) {
    IsRead(s.status, k) ==>
      s.status[k].draw != "" && s.status[k].draw in s.records && k in s.records[s.status[k].draw].keys
  }

  ghost predicate Invariant(found: seq<Key>, sample: Sampler, s: State) {
    && (forall name | name in s.records :: SoundRecord(found, sample, name, s.records[name]))
    && (forall k :: SoundStamp(s, k))
  }

  lemma {:induction false} DrawKeepsInvariant(found: seq<Key>, sample: Sampler, s: State, t: State, count: nat, seed: int, today: string)
    requires Samples(sample) && Invariant(found, sample, s) && DrawStep(found, sample, s, t, count, seed, today)
    ensures Invariant(found, sample, t)
  {
    var frame := All(found, s.status, Frame);
    var name := Stem(today, seed);
    var r := t.records[name];
    assert Names(All(found, s.status, Frame), r);
    assert SoundRecord(found, sample, name, r);
    hide Stem, Chosen, Select, SoundRecord, Names;
    forall k ensures SoundStamp(t, k) {
      assert SoundStamp(s, k);
    }
  }

  lemma {:induction false} StampKeepsInvariant(found: seq<Key>, sample: Sampler, s: State, t: State, k: Key, name: string, stamp: Stamp)
    requires Invariant(found, sample, s) && StampStep(s, t, k, name, stamp)
    ensures Invariant(found, sample, t)
  {
    assert name == Stem(s.records[name].drawn, s.records[name].seed);
    hide SoundRecord;
    forall j ensures SoundStamp(t, j) {
      assert SoundStamp(s, j);
    }
  }

  lemma {:induction false} NextKeepsInvariant(found: seq<Key>, sample: Sampler, s: State, t: State)
    requires Samples(sample) && Invariant(found, sample, s) && Next(found, sample, s, t)
    ensures Invariant(found, sample, t)
  {
    hide Invariant, DrawStep, StampStep;
    if count: nat, seed: int, today: string :| DrawStep(found, sample, s, t, count, seed, today) {
      DrawKeepsInvariant(found, sample, s, t, count, seed, today);
    } else {
      var k: Key, name: string, stamp: Stamp :| StampStep(s, t, k, name, stamp);
      StampKeepsInvariant(found, sample, s, t, k, name, stamp);
    }
  }

  /** Nothing drawn and nothing read. */
  ghost predicate Untouched(s: State) { s.records == map[] && forall k :: !IsRead(s.status, k) }

  lemma {:induction false} UntouchedInvariant(found: seq<Key>, sample: Sampler, s: State)
    requires Untouched(s)
    ensures Invariant(found, sample, s)
  {
    assert forall k :: SoundStamp(s, k);
  }

  /** From an untouched tracker, every run keeps the invariant. */
  lemma {:induction false} ReachableInvariant(found: seq<Key>, sample: Sampler, s: State, t: State, n: nat)
    requires Samples(sample) && Untouched(s) && Reaches(found, sample, s, t, n)
    ensures Invariant(found, sample, t)
    decreases n
  {
    hide Invariant, Next, Samples, Untouched;
    if n == 0 {
      UntouchedInvariant(found, sample, s);
    } else {
      var m: State :| Reaches(found, sample, s, m, n - 1) && Next(found, sample, m, t);
      ReachableInvariant(found, sample, s, m, n - 1);
      NextKeepsInvariant(found, sample, m, t);
    }
  }

  // ----- What a record says

  /** The record was drawn from the frame as it was in some state of the run, before it was there. */
  ghost predicate DrawnIn(found: seq<Key>, s: State, name: string, r: Record) {
    name !in s.records && Names(All(found, s.status, Frame), r)
  }

  /** In every run: each record lists, index by index, rows of the frame as it stood when it was drawn. */
  lemma {:induction false} DrawnFromFrame(found: seq<Key>, sample: Sampler, s: State, t: State, n: nat, name: string) returns (m: State, k: nat)
    requires Samples(sample) && Untouched(s) && Reaches(found, sample, s, t, n) && name in t.records
    ensures k < n && Reaches(found, sample, s, m, k) && DrawnIn(found, m, name, t.records[name])
    decreases n
  {
    hide Reaches, Samples, DrawnIn, Untouched, Next, Later;
    RunStarts(found, sample, s, t, n, name);
    var u := StepBefore(found, sample, s, t, n);
    if name in u.records {
      m, k := DrawnFromFrame(found, sample, s, u, n - 1, name);
      NextIsLater(found, sample, u, t);
      RecordStands(u, t, name);
    } else {
      m, k := u, n - 1;
      NewIsDrawn(found, sample, u, t, name);
    }
  }

  lemma {:induction false} StepBefore(found: seq<Key>, sample: Sampler, s: State, t: State, n: nat) returns (u: State)
    requires Samples(sample) && Reaches(found, sample, s, t, n) && n > 0
    ensures Reaches(found, sample, s, u, n - 1) && Next(found, sample, u, t)
  {
    hide Samples, Next;
    u :| Reaches(found, sample, s, u, n - 1) && Next(found, sample, u, t);
  }

  lemma {:induction false} RunStarts(found: seq<Key>, sample: Sampler, s: State, t: State, n: nat, name: string)
    requires Samples(sample) && Untouched(s) && Reaches(found, sample, s, t, n) && name in t.records
    ensures n > 0
  {
    hide Samples, Next;
  }

  lemma {:induction false} RecordStands(s: State, t: State, name: string)
    requires Later(s, t) && name in s.records
    ensures name in t.records && t.records[name] == s.records[name]
  {
  }

  lemma {:induction false} NewIsDrawn(found: seq<Key>, sample: Sampler, s: State, t: State, name: string)
    requires Samples(sample) && Next(found, sample, s, t) && name in t.records && name !in s.records
    ensures DrawnIn(found, s, name, t.records[name])
  {
    hide Samples, Names, Stem, DrawStep;
    if count: nat, seed: int, today: string :| DrawStep(found, sample, s, t, count, seed, today) {
      DrawNames(found, sample, s, t, count, seed, today);
    }
  }

  lemma {:induction false} DrawNames(found: seq<Key>, sample: Sampler, s: State, t: State, count: nat, seed: int, today: string)
    requires Samples(sample) && DrawStep(found, sample, s, t, count, seed, today)
    ensures Stem(today, seed) in t.records && Names(All(found, s.status, Frame), t.records[Stem(today, seed)])
    ensures forall name | name != Stem(today, seed) && name in t.records :: name in s.records
  {
    hide Stem, Select;
  }

  ghost predicate Distinct(keys: seq<Key>) { forall i, j | 0 <= i < j < |keys| :: keys[i] != keys[j] }

  lemma {:induction false} SelectDistinct(found: seq<Key>, status: Status, n: nat, p: Pick)
    requires n <= |found| && Distinct(found)
    ensures Distinct(Select(found, status, n, p))
  {
    if n > 0 {
      SelectDistinct(found, status, n - 1, p);
      SelectMember(found, status, n - 1, p, found[n - 1]);
      hide Picked;
    }
  }

  lemma {:induction false} NamesFound(found: seq<Key>, sample: Sampler, name: string, r: Record)
    requires SoundRecord(found, sample, name, r)
    ensures forall k | k in r.keys :: k in found
  {
    var status: Status :| Names(All(found, status, Frame), r);
    hide Select;
    forall k | k in r.keys ensures k in found { SelectMember(found, status, |found|, Frame, k); }
  }

  /** So no record of a run lists a row twice, where no caveat is found twice. */
  lemma {:induction false} KeysDistinct(found: seq<Key>, sample: Sampler, s: State, t: State, n: nat, name: string)
    requires Samples(sample) && Untouched(s) && Reaches(found, sample, s, t, n) && name in t.records && Distinct(found)
    ensures Distinct(t.records[name].keys) && forall k | k in t.records[name].keys :: k in found
  {
    ReachableInvariant(found, sample, s, t, n);
    var r := t.records[name];
    assert SoundRecord(found, sample, name, r);
    var status: Status :| Names(All(found, status, Frame), r);
    SelectDistinct(found, status, |found|, Frame);
    assert IsSample(sample(r.seed, r.frame, |r.indices|), r.frame, |r.indices|);
    NamesFound(found, sample, name, r);
    var frame := All(found, status, Frame);
    hide Select, Reaches, Untouched, Samples;
    forall i: nat, j: nat | i < j < |r.keys| ensures r.keys[i] != r.keys[j] {
      assert frame[r.indices[i]] != frame[r.indices[j]];
    }
  }

  /** A row that is stamped is read from then on, under the draw and the date given; its verdict and
      every other row stand; and the frame is what it was without it. */
  lemma {:induction false} StampReads(found: seq<Key>, s: State, t: State, k: Key, name: string, stamp: Stamp)
    requires StampStep(s, t, k, name, stamp)
    ensures IsRead(t.status, k) && t.status[k].checked == stamp && t.status[k].draw == name && t.records == s.records
    ensures t.status.Keys == s.status.Keys && forall j | j in s.status && j != k :: t.status[j] == s.status[j]
    ensures forall j :: j in All(found, t.status, Frame) <==> j in All(found, s.status, Frame) && j != k
  {
    hide Select;
    forall j ensures j in All(found, t.status, Frame) <==> j in All(found, s.status, Frame) && j != k {
      SelectMember(found, t.status, |found|, Frame, j);
      SelectMember(found, s.status, |found|, Frame, j);
    }
  }
}
