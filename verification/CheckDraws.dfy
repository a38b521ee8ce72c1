/** The checker that reads the draw records and the stamps back. */
module CheckDraws {
  import opened Options
  import opened Caveats
  import opened Draws

  /** A `drawn` field: absent, null, or whatever text it is or is printed as. */
  datatype Drawn = Absent | NullDate | On(text: string)

  /** A `seed` field: absent or null, an integer, a boolean, which Python counts as one, or anything
      else by what it is printed as. */
  datatype Seed = NoSeed | Whole(value: int) | Flag(flag: bool) | Printed(text: string)

  /** A record as parsed: another field that is absent or of another type is `None` or empty. */
  datatype Draft = Draft(drawn: Drawn, seed: Seed, frame: Option<int>,
                         indices: seq<int>, keys: seq<Key>, recovered: string)

  /** A file of the directory, by its stem. */
  datatype Entry = Unparsed(stem: string) | Parsed(stem: string, draft: Draft)

  datatype Problem =
    | BadJson(stem: string) | WrongName(stem: string) | LateRecovery(stem: string) | NoEvidence(stem: string)
    | NoIntegers(stem: string) | NotReproduced(stem: string) | KeyCount(stem: string)
    | NoDraw(k: Key) | MissingDraw(k: Key) | NotDrawn(k: Key)
    | Gone(stem: string, k: Key) | NoRecords | NoStamps

  const RECOVERY_CLOSED: string := "2026-09-30"

  /** Python's `a > b` on strings. */
  predicate Greater(a: string, b: string) {
    a != [] && (b == [] || a[0] > b[0] || (a[0] == b[0] && Greater(a[1..], b[1..])))
  }

  /** At the first place where they differ the greater has the greater letter, or goes on alone. */
  lemma {:induction false} GreaterIff(a: string, b: string)
    ensures Greater(a, b) <==> exists i: nat :: i < |a| && i <= |b| && a[..i] == b[..i] && (i == |b| || a[i] > b[i])
  {
    if Greater(a, b) {
      if b != [] && a[0] == b[0] {
        GreaterIff(a[1..], b[1..]);
        var i: nat :| i < |a[1..]| && i <= |b[1..]| && a[1..][..i] == b[1..][..i] && (i == |b[1..]| || a[1..][i] > b[1..][i]);
        assert a[..i + 1] == [a[0]] + a[1..][..i] && b[..i + 1] == [b[0]] + b[1..][..i];
      } else {
        assert a[..0] == b[..0];
      }
    }
    if i: nat :| i < |a| && i <= |b| && a[..i] == b[..i] && (i == |b| || a[i] > b[i]) {
      if i > 0 {
        GreaterIff(a[1..], b[1..]);
        assert a[0] == a[..i][0] && b[0] == b[..i][0];
        assert a[1..][..i - 1] == a[..i][1..] && b[1..][..i - 1] == b[..i][1..];
        var j: nat := i - 1;
        assert j < |a[1..]| && j <= |b[1..]| && a[1..][..j] == b[1..][..j];
      }
    }
  }

  function SeedText(s: Seed): string {
    match s
    case NoSeed => "None"
    case Whole(value) => IntText(value)
    case Flag(flag) => if flag then "True" else "False"
    case Printed(text) => text
  }

  /** What passes `isinstance(seed, int)`, and which integer it seeds as. */
  function SeedInt(s: Seed): Option<int> {
    match s
    case Whole(value) => Some(value)
    case Flag(flag) => Some(if flag then 1 else 0)
    case _ => None
  }

  function DraftStem(d: Draft): string {
    (if d.drawn.On? then d.drawn.text else "None") + "-" + SeedText(d.seed)
  }

  /** How much `range(frame)` holds. */
  function Room(frame: int): nat { if frame < 0 then 0 else frame }

  /** `sample` is asked for more than the range holds, which raises. */
  predicate Oversized(d: Draft) {
    d.recovered == "" && d.frame.Some? && SeedInt(d.seed).Some? && |d.indices| > Room(d.frame.value)
  }

  /** `str(record.get("drawn", ""))`: null becomes a word, which is later than any date. */
  function DateText(d: Drawn): string {
    match d
    case Absent => ""
    case NullDate => "None"
    case On(text) => text
  }

  predicate LateDate(d: Draft) { Greater(DateText(d.drawn), RECOVERY_CLOSED) }

  /** A boolean seeds as one or zero, and is printed as a word. */
  lemma {:induction false} FlagSeeds(d: Draft, flag: bool, sample: Sampler, files: set<string>)
    requires d.seed == Flag(flag)
    ensures var e := d.(seed := Whole(if flag then 1 else 0)); SoundDraft(d, DraftStem(d), sample, files) <==> SoundDraft(e, DraftStem(e), sample, files)
    ensures DraftStem(d) == (if d.drawn.On? then d.drawn.text else "None") + "-" + if flag then "True" else "False"
  {
    hide DraftStem, Greater;
    assert DraftStem(d) == (if d.drawn.On? then d.drawn.text else "None") + "-" + SeedText(Flag(flag)) by { StemOf(d); }
  }

  lemma {:induction false} StemOf(d: Draft)
    ensures DraftStem(d) == (if d.drawn.On? then d.drawn.text else "None") + "-" + SeedText(d.seed)
  {
  }

  /** The record reproduces, or is a recovery in time with its evidence there. */
  predicate SoundDraft(d: Draft, stem: string, sample: Sampler, files: set<string>) {
    stem == DraftStem(d)
    && if d.recovered != "" then !LateDate(d) && d.recovered in files
       else d.frame.Some? && SeedInt(d.seed).Some? && |d.indices| <= Room(d.frame.value)
            && sample(SeedInt(d.seed).value, Room(d.frame.value), |d.indices|) == d.indices && |d.keys| == |d.indices|
  }

  predicate SoundEntry(e: Entry, sample: Sampler, files: set<string>) {
    e.Parsed? && SoundDraft(e.draft, e.stem, sample, files)
  }

  function When(b: bool, p: Problem): seq<Problem> { if b then [p] else [] }

  /** What the first loop says of one file. */
  function EntryProblems(e: Entry, sample: Sampler, files: set<string>): seq<Problem>
    requires e.Parsed? ==> !Oversized(e.draft)
  {
    if e.Unparsed? then [BadJson(e.stem)]
    else
      var d := e.draft;
      When(e.stem != DraftStem(d), WrongName(e.stem))
      + if d.recovered != "" then When(LateDate(d), LateRecovery(e.stem)) + When(d.recovered !in files, NoEvidence(e.stem))
        else if d.frame.None? || SeedInt(d.seed).None? then [NoIntegers(e.stem)]
        else When(sample(SeedInt(d.seed).value, Room(d.frame.value), |d.indices|) != d.indices, NotReproduced(e.stem))
             + When(|d.keys| != |d.indices|, KeyCount(e.stem))
  }

  lemma {:induction false} EntrySoundIff(e: Entry, sample: Sampler, files: set<string>)
    requires e.Parsed? ==> !Oversized(e.draft)
    ensures EntryProblems(e, sample, files) == [] <==> SoundEntry(e, sample, files)
  {
    hide DraftStem, LateDate;
  }

  /** The first file whose sample raises, or the number of files. */
  function FirstRaise(entries: seq<Entry>, n: nat): (r: nat)
    requires n <= |entries|
    ensures r <= n
    ensures forall i | 0 <= i < r :: entries[i].Parsed? ==> !Oversized(entries[i].draft)
  {
    if n == 0 then 0
    else if FirstRaise(entries, n - 1) < n - 1 then FirstRaise(entries, n - 1)
    else if entries[n - 1].Parsed? && Oversized(entries[n - 1].draft) then n - 1
    else n
  }

  ghost predicate EntriesSound(entries: seq<Entry>, n: nat, sample: Sampler, files: set<string>)
    requires n <= |entries|
  {
    n == 0 || (EntriesSound(entries, n - 1, sample, files) && SoundEntry(entries[n - 1], sample, files))
  }

  /** `records`, by stem; a later file of the same stem would win. */
  function RecordsOf(entries: seq<Entry>, n: nat): map<string, Draft>
    requires n <= |entries|
  {
    if n == 0 then map[]
    else if entries[n - 1].Parsed? then RecordsOf(entries, n - 1)[entries[n - 1].stem := entries[n - 1].draft]
    else RecordsOf(entries, n - 1)
  }

  /** A stamp with a record behind it that lists the row. */
  predicate StampSound(records: map<string, Draft>, status: Status, k: Key) {
    IsRead(status, k) ==>
      status[k].draw != "" && status[k].draw in records && k in records[status[k].draw].keys
  }

  function StampProblems(records: map<string, Draft>, status: Status, k: Key): seq<Problem>
    requires k in status
  {
    if !IsRead(status, k) then []
    else if status[k].draw == "" then [NoDraw(k)]
    else if status[k].draw !in records then [MissingDraw(k)]
    else When(k !in records[status[k].draw].keys, NotDrawn(k))
  }

  ghost predicate StampsSound(records: map<string, Draft>, status: Status, order: seq<Key>, n: nat)
    requires n <= |order|
  {
    n == 0 || (StampsSound(records, status, order, n - 1) && StampSound(records, status, order[n - 1]))
  }

  predicate AnyStamp(status: Status, order: seq<Key>, n: nat)
    requires n <= |order|
  {
    n > 0 && (AnyStamp(status, order, n - 1) || IsRead(status, order[n - 1]))
  }

  ghost predicate KeysLive(keys: seq<Key>, n: nat, live: set<Key>)
    requires n <= |keys|
  {
    n == 0 || (KeysLive(keys, n - 1, live) && keys[n - 1] in live)
  }

  ghost predicate AllLive(entries: seq<Entry>, n: nat, live: set<Key>)
    requires n <= |entries|
  {
    n == 0 || (AllLive(entries, n - 1, live)
               && (entries[n - 1].Parsed? ==> KeysLive(entries[n - 1].draft.keys, |entries[n - 1].draft.keys|, live)))
  }

  method CheckRecords(entries: seq<Entry>, sample: Sampler, files: set<string>)
    returns (raised: bool, found: seq<Problem>, records: map<string, Draft>)
    ensures raised <==> FirstRaise(entries, |entries|) < |entries|
    ensures !raised ==> records == RecordsOf(entries, |entries|) && (found == [] <==> EntriesSound(entries, |entries|, sample, files))
  {
    found, records := [], map[];
    for i := 0 to |entries|
      invariant FirstRaise(entries, i) == i
      invariant records == RecordsOf(entries, i)
      invariant found == [] <==> EntriesSound(entries, i, sample, files)
    {
      hide SoundEntry, EntryProblems, Oversized, FirstRaise;
      RaiseStep(entries, i);
      var e := entries[i];
      if e.Parsed? {
        records := records[e.stem := e.draft];
        if Oversized(e.draft) {
          RaiseStays(entries, i, |entries|);
          return true, found, records;
        }
      }
      EntrySoundIff(e, sample, files);
      found := found + EntryProblems(e, sample, files);
    }
    return false, found, records;
  }

  lemma {:induction false} RaiseStep(entries: seq<Entry>, i: nat)
    requires i < |entries| && FirstRaise(entries, i) == i
    ensures FirstRaise(entries, i + 1) == if entries[i].Parsed? && Oversized(entries[i].draft) then i else i + 1
  {
    hide Oversized;
  }

  lemma {:induction false} RaiseStays(entries: seq<Entry>, i: nat, n: nat)
    requires i < n <= |entries| && FirstRaise(entries, i) == i && entries[i].Parsed? && Oversized(entries[i].draft)
    ensures FirstRaise(entries, n) == i
  {
    if i + 1 < n { RaiseStays(entries, i, n - 1); }
  }

  method CheckStamps(records: map<string, Draft>, status: Status, order: seq<Key>) returns (found: seq<Problem>, stamped: bool)
    requires forall k | k in order :: k in status
    ensures found == [] <==> StampsSound(records, status, order, |order|)
    ensures stamped == AnyStamp(status, order, |order|)
  {
    found, stamped := [], false;
    for i := 0 to |order|
      invariant found == [] <==> StampsSound(records, status, order, i)
      invariant stamped == AnyStamp(status, order, i)
    {
      found := found + StampProblems(records, status, order[i]);
      stamped := stamped || IsRead(status, order[i]);
    }
  }

  method CheckLive(entries: seq<Entry>, live: set<Key>) returns (found: seq<Problem>)
    ensures found == [] <==> AllLive(entries, |entries|, live)
  {
    found := [];
    for i := 0 to |entries|
      invariant found == [] <==> AllLive(entries, i, live)
    {
      if entries[i].Parsed? {
        var keys, stem := entries[i].draft.keys, entries[i].stem;
        ghost var before := found;
        for j := 0 to |keys|
          invariant found == [] <==> before == [] && KeysLive(keys, j, live)
        {
          if keys[j] !in live {
            found := found + [Gone(stem, keys[j])];
          }
        }
      }
    }
  }

  /** Everything a clean run says. */
  ghost predicate Clean(entries: seq<Entry>, status: Status, order: seq<Key>, found: seq<Key>, sample: Sampler, files: set<string>) {
    && FirstRaise(entries, |entries|) == |entries|
    && EntriesSound(entries, |entries|, sample, files)
    && StampsSound(RecordsOf(entries, |entries|), status, order, |order|)
    && AllLive(entries, |entries|, set k | k in found)
    && RecordsOf(entries, |entries|) != map[]
    && AnyStamp(status, order, |order|)
  }

  /** `problems`: it raises, reports, or reports nothing, and reports nothing exactly when clean. */
  method Problems(entries: seq<Entry>, status: Status, order: seq<Key>, caveats: seq<Key>, sample: Sampler, files: set<string>)
    returns (raised: bool, found: seq<Problem>)
    requires forall k | k in order :: k in status
    ensures raised <==> FirstRaise(entries, |entries|) < |entries|
    ensures !raised ==> (found == [] <==> Clean(entries, status, order, caveats, sample, files))
  {
    hide FirstRaise, EntriesSound, RecordsOf, StampsSound, AllLive, AnyStamp;
    var records;
    raised, found, records := CheckRecords(entries, sample, files);
    if raised { return; }
    var more, stamped := CheckStamps(records, status, order);
    var gone := CheckLive(entries, set k | k in caveats);
    found := found + more + gone;
    if records == map[] { found := found + [NoRecords]; }
    if !stamped { found := found + [NoStamps]; }
  }

  // ----- What a clean run means

  lemma {:induction false} EntrySoundAt(entries: seq<Entry>, n: nat, sample: Sampler, files: set<string>, name: string)
    requires n <= |entries| && EntriesSound(entries, n, sample, files) && name in RecordsOf(entries, n)
    ensures SoundDraft(RecordsOf(entries, n)[name], name, sample, files)
  {
    hide SoundDraft;
    if name != entries[n - 1].stem { EntrySoundAt(entries, n - 1, sample, files, name); }
  }

  lemma {:induction false} StampSoundAt(records: map<string, Draft>, status: Status, order: seq<Key>, n: nat, i: nat)
    requires i < n <= |order| && StampsSound(records, status, order, n)
    ensures StampSound(records, status, order[i])
  {
    hide StampSound;
    if i < n - 1 { StampSoundAt(records, status, order, n - 1, i); }
  }

  /** A clean run means that every read row names a record that lists it, and that the record
      reproduces from its seed and frame or is a recovery in time. */
  lemma {:induction false} CleanMeans(entries: seq<Entry>, status: Status, order: seq<Key>, found: seq<Key>, sample: Sampler, files: set<string>, k: Key)
    requires Clean(entries, status, order, found, sample, files) && k in order && IsRead(status, k)
    ensures var records, name := RecordsOf(entries, |entries|), status[k].draw;
            && name != "" && name in records && k in records[name].keys && SoundDraft(records[name], name, sample, files)
            && var d := records[name];
               if d.recovered == "" then
                 d.frame.Some? && SeedInt(d.seed).Some? && sample(SeedInt(d.seed).value, Room(d.frame.value), |d.indices|) == d.indices && |d.keys| == |d.indices|
               else d.recovered in files && !Greater(DateText(d.drawn), "2026-09-30")
  {
    hide EntriesSound, StampsSound, RecordsOf, AllLive, FirstRaise;
    var i :| 0 <= i < |order| && order[i] == k;
    StampSoundAt(RecordsOf(entries, |entries|), status, order, |order|, i);
    EntrySoundAt(entries, |entries|, sample, files, status[k].draw);
  }

  // ----- Every reachable state is clean

  function AsDraft(r: Record): Draft {
    Draft(On(r.drawn), Whole(r.seed), Some(r.frame), r.indices, r.keys, "")
  }

  /** The directory holds one file a record and no other. */
  ghost predicate Stores(entries: seq<Entry>, records: map<string, Record>) {
    && (forall i | 0 <= i < |entries| :: EntryOf(entries[i], records))
    && (forall name | name in records :: exists i :: 0 <= i < |entries| && entries[i].stem == name)
  }

  lemma {:induction false} DraftSound(found: seq<Key>, sample: Sampler, name: string, r: Record, files: set<string>)
    requires SoundRecord(found, sample, name, r)
    ensures SoundDraft(AsDraft(r), name, sample, files) && !Oversized(AsDraft(r))
    ensures KeysLive(r.keys, |r.keys|, set k | k in found)
  {
    NamesFound(found, sample, name, r);
    hide KeysLive, IntText, Select;
    KeysLiveAll(r.keys, |r.keys|, set k | k in found);
  }

  lemma {:induction false} KeysLiveAll(keys: seq<Key>, n: nat, live: set<Key>)
    requires n <= |keys| && forall k | k in keys :: k in live
    ensures KeysLive(keys, n, live)
  {
    if n > 0 { KeysLiveAll(keys, n - 1, live); }
  }

  ghost predicate EntryOf(e: Entry, records: map<string, Record>) {
    e.Parsed? && e.stem in records && e.draft == AsDraft(records[e.stem])
  }

  lemma {:induction false} InvariantRecord(found: seq<Key>, sample: Sampler, s: State, name: string)
    requires Invariant(found, sample, s) && name in s.records
    ensures SoundRecord(found, sample, name, s.records[name])
  {
  }

  lemma {:induction false} EntryClean(e: Entry, s: State, found: seq<Key>, sample: Sampler, files: set<string>)
    requires EntryOf(e, s.records) && Invariant(found, sample, s)
    ensures SoundEntry(e, sample, files) && !Oversized(e.draft) && KeysLive(e.draft.keys, |e.draft.keys|, set k | k in found)
  {
    InvariantRecord(found, sample, s, e.stem);
    DraftSound(found, sample, e.stem, s.records[e.stem], files);
    hide SoundDraft, Oversized, KeysLive, SoundRecord, Invariant;
  }

  lemma {:induction false} EntriesClean(entries: seq<Entry>, n: nat, s: State, found: seq<Key>, sample: Sampler, files: set<string>)
    requires n <= |entries| && Stores(entries, s.records) && Invariant(found, sample, s)
    ensures FirstRaise(entries, n) == n && EntriesSound(entries, n, sample, files) && AllLive(entries, n, set k | k in found)
  {
    hide Invariant, SoundEntry, KeysLive, Oversized, EntryOf;
    if n > 0 {
      EntriesClean(entries, n - 1, s, found, sample, files);
      EntryClean(entries[n - 1], s, found, sample, files);
    }
  }

  lemma {:induction false} RecordsStored(entries: seq<Entry>, n: nat, s: State)
    requires n <= |entries| && Stores(entries, s.records)
    ensures forall name | name in RecordsOf(entries, n) :: name in s.records && RecordsOf(entries, n)[name] == AsDraft(s.records[name])
    ensures forall i | 0 <= i < n :: entries[i].stem in RecordsOf(entries, n)
  {
    hide AsDraft;
    if n > 0 {
      RecordsStored(entries, n - 1, s);
      assert EntryOf(entries[n - 1], s.records);
    }
  }

  lemma {:induction false} StampsClean(entries: seq<Entry>, s: State, found: seq<Key>, sample: Sampler, records: map<string, Draft>, order: seq<Key>, n: nat)
    requires n <= |order| && Invariant(found, sample, s)
    requires forall name | name in s.records :: name in records && records[name] == AsDraft(s.records[name])
    ensures StampsSound(records, s.status, order, n)
  {
    if n > 0 {
      StampsClean(entries, s, found, sample, records, order, n - 1);
      assert SoundStamp(s, order[n - 1]);
    }
  }

  /** A directory that stores the records of a state reached by draws and stamps, read beside
      that state's rows, is clean as soon as there is a record and a stamp. */
  lemma {:induction false} ReachableIsClean(found: seq<Key>, sample: Sampler, s: State, t: State, n: nat,
                         entries: seq<Entry>, order: seq<Key>, files: set<string>)
    requires Samples(sample) && Untouched(s) && Reaches(found, sample, s, t, n)
    requires Stores(entries, t.records) && t.records != map[] && AnyStamp(t.status, order, |order|)
    ensures Clean(entries, t.status, order, found, sample, files)
  {
    ReachableInvariant(found, sample, s, t, n);
    EntriesClean(entries, |entries|, t, found, sample, files);
    RecordsStored(entries, |entries|, t);
    hide Invariant, EntriesSound, AllLive, FirstRaise, RecordsOf, Reaches, Samples, Untouched;
    var records := RecordsOf(entries, |entries|);
    forall name | name in t.records ensures name in records && records[name] == AsDraft(t.records[name]) {
      var i :| 0 <= i < |entries| && entries[i].stem == name;
    }
    StampsClean(entries, t, found, sample, records, order, |order|);
    var name :| name in t.records;
    assert name in records;
  }
}
