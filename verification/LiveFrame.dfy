/** The live frame: every narrowed caveat has one roster row of its own, and every row one caveat. */
module LiveFrame {
  import opened Text

  datatype Verdict = Open | Narrowed | Settled

  datatype Caveat = Caveat(entry: string, key: string, verdict: Verdict)

  /** A key of STILL_NARROWED. */
  datatype Slot = Slot(entry: string, prefix: string)

  /** The roster row is about this caveat: same entry, and the two texts agree to the end of the
      shorter. */
  predicate About(v: Caveat, s: Slot) {
    s.entry == v.entry && if |s.prefix| <= |v.key| then s.prefix <= v.key else v.key <= s.prefix
  }

  /** Letter by letter, as far as both go. */
  lemma {:induction false} AboutIff(v: Caveat, s: Slot)
    ensures About(v, s) <==> s.entry == v.entry && forall i | 0 <= i < |v.key| && i < |s.prefix| :: v.key[i] == s.prefix[i]
  {
  }

  // ----- Both ends of the relation

  /** Where `hits` finds `v`, among the first `n` roster rows. */
  function Hits(roster: seq<Slot>, n: nat, v: Caveat): seq<nat>
    requires n <= |roster|
  {
    if n == 0 then []
    else Hits(roster, n - 1, v) + if About(v, roster[n - 1]) then [n - 1] else []
  }

  /** The caveats a roster row covers, among the first `n`. */
  function Covered(narrowed: seq<Caveat>, n: nat, s: Slot): seq<nat>
    requires n <= |narrowed|
  {
    if n == 0 then []
    else Covered(narrowed, n - 1, s) + if About(narrowed[n - 1], s) then [n - 1] else []
  }

  lemma {:induction false} HitsMember(roster: seq<Slot>, n: nat, v: Caveat, j: nat)
    requires n <= |roster|
    ensures j in Hits(roster, n, v) <==> j < n && About(v, roster[j])
  {
    hide About;
    if n > 0 { HitsMember(roster, n - 1, v, j); }
  }

  lemma {:induction false} CoveredMember(narrowed: seq<Caveat>, n: nat, s: Slot, i: nat)
    requires n <= |narrowed|
    ensures i in Covered(narrowed, n, s) <==> i < n && About(narrowed[i], s)
  {
    hide About;
    if n > 0 { CoveredMember(narrowed, n - 1, s, i); }
  }

  /** The caveat is about the `j`th roster row and no other. */
  ghost predicate SoleSlot(roster: seq<Slot>, n: nat, v: Caveat, j: nat)
    requires n <= |roster|
  {
    j < n && forall k | 0 <= k < n :: About(v, roster[k]) <==> k == j
  }

  ghost predicate SoleCaveat(narrowed: seq<Caveat>, n: nat, s: Slot, i: nat)
    requires n <= |narrowed|
  {
    i < n && forall k | 0 <= k < n :: About(narrowed[k], s) <==> k == i
  }

  lemma {:induction false} HitsNone(roster: seq<Slot>, n: nat, v: Caveat)
    requires n <= |roster|
    ensures Hits(roster, n, v) == [] <==> forall k | 0 <= k < n :: !About(v, roster[k])
  {
    hide About;
    if n > 0 { HitsNone(roster, n - 1, v); }
  }

  lemma {:induction false} CoveredNone(narrowed: seq<Caveat>, n: nat, s: Slot)
    requires n <= |narrowed|
    ensures Covered(narrowed, n, s) == [] <==> forall k | 0 <= k < n :: !About(narrowed[k], s)
  {
    hide About;
    if n > 0 { CoveredNone(narrowed, n - 1, s); }
  }

  lemma {:induction false} LastAlone(a: seq<nat>, x: nat, j: nat)
    ensures a + [x] == [j] <==> a == [] && x == j
  {
    if a == [] {
      assert a + [x] == [x] && [x][0] == x && [j][0] == j;
    } else {
      assert |a + [x]| > 1;
    }
  }

  lemma {:induction false} HitsSole(roster: seq<Slot>, n: nat, v: Caveat, j: nat)
    requires n <= |roster|
    ensures Hits(roster, n, v) == [j] <==> SoleSlot(roster, n, v, j)
  {
    hide About;
    if n > 0 && About(v, roster[n - 1]) {
      HitsNone(roster, n - 1, v);
      LastAlone(Hits(roster, n - 1, v), n - 1, j);
    } else if n > 0 {
      HitsSole(roster, n - 1, v, j);
    }
  }

  lemma {:induction false} CoveredSole(narrowed: seq<Caveat>, n: nat, s: Slot, i: nat)
    requires n <= |narrowed|
    ensures Covered(narrowed, n, s) == [i] <==> SoleCaveat(narrowed, n, s, i)
  {
    hide About;
    if n > 0 && About(narrowed[n - 1], s) {
      CoveredNone(narrowed, n - 1, s);
      LastAlone(Covered(narrowed, n - 1, s), n - 1, i);
    } else if n > 0 {
      CoveredSole(narrowed, n - 1, s, i);
    }
  }

  ghost predicate OneSlotEach(narrowed: seq<Caveat>, roster: seq<Slot>) {
    forall i | 0 <= i < |narrowed| :: |Hits(roster, |roster|, narrowed[i])| == 1
  }

  ghost predicate OneCaveatEach(narrowed: seq<Caveat>, roster: seq<Slot>) {
    forall j | 0 <= j < |roster| :: |Covered(narrowed, |narrowed|, roster[j])| == 1
  }

  // ----- The bijection

  ghost predicate Distinct<T>(f: seq<T>) { forall a, b | 0 <= a < b < |f| :: f[a] != f[b] }

  /** `f` is a bijection from caveats to roster rows, and `About` holds along it and nowhere else. */
  ghost predicate Pairing(narrowed: seq<Caveat>, roster: seq<Slot>, f: seq<nat>) {
    && |f| == |narrowed| == |roster|
    && Distinct(f)
    && (forall i | 0 <= i < |f| :: f[i] < |roster|)
    && forall i, j | 0 <= i < |f| && 0 <= j < |roster| :: About(narrowed[i], roster[j]) <==> f[i] == j
  }

  function Numbers(n: nat): (r: set<nat>)
    ensures |r| == n && forall k: nat :: k in r <==> k < n
  {
    if n == 0 then {} else Numbers(n - 1) + {n - 1}
  }

  function Values(f: seq<nat>): (r: set<nat>)
    ensures forall k :: k in r <==> k in f
    ensures Distinct(f) ==> |r| == |f|
  {
    if f == [] then {} else
      assert f == f[..|f| - 1] + [f[|f| - 1]];
      Values(f[..|f| - 1]) + {f[|f| - 1]}
  }

  /** Each caveat's only roster row. */
  ghost function Slots(narrowed: seq<Caveat>, n: nat, roster: seq<Slot>): (f: seq<nat>)
    requires n <= |narrowed| && OneSlotEach(narrowed, roster)
    ensures |f| == n
  {
    if n == 0 then []
    else Slots(narrowed, n - 1, roster) + [Hits(roster, |roster|, narrowed[n - 1])[0]]
  }

  lemma {:induction false} SlotsSole(narrowed: seq<Caveat>, n: nat, roster: seq<Slot>, i: nat)
    requires i < n <= |narrowed| && OneSlotEach(narrowed, roster)
    ensures SoleSlot(roster, |roster|, narrowed[i], Slots(narrowed, n, roster)[i])
  {
    if i < n - 1 {
      hide OneSlotEach;
      SlotsSole(narrowed, n - 1, roster, i);
    } else {
      var h := Hits(roster, |roster|, narrowed[i]);
      HitsSole(roster, |roster|, narrowed[i], h[0]);
      assert h == [h[0]];
    }
  }

  lemma {:induction false} OneCaveatSole(narrowed: seq<Caveat>, roster: seq<Slot>, j: nat) returns (i: nat)
    requires OneCaveatEach(narrowed, roster) && j < |roster|
    ensures SoleCaveat(narrowed, |narrowed|, roster[j], i)
  {
    var c := Covered(narrowed, |narrowed|, roster[j]);
    i := c[0];
    CoveredSole(narrowed, |narrowed|, roster[j], i);
    assert c == [i];
  }

  lemma {:induction false} OneEachIsPairing(narrowed: seq<Caveat>, roster: seq<Slot>)
    requires OneSlotEach(narrowed, roster) && OneCaveatEach(narrowed, roster)
    ensures Pairing(narrowed, roster, Slots(narrowed, |narrowed|, roster))
  {
    hide About, Slots, OneCaveatEach, OneSlotEach;
    var f := Slots(narrowed, |narrowed|, roster);
    forall i: nat | i < |f| ensures SoleSlot(roster, |roster|, narrowed[i], f[i]) {
      SlotsSole(narrowed, |narrowed|, roster, i);
    }
    forall a, b | 0 <= a < b < |f| ensures f[a] != f[b] {
      if f[a] == f[b] { var i := OneCaveatSole(narrowed, roster, f[a]); }
    }
    forall j: nat | j < |roster| ensures j in f {
      var i := OneCaveatSole(narrowed, roster, j);
      assert About(narrowed[i], roster[j]);
      assert f[i] == j;
    }
    ValuesFull(f, |roster|);
  }

  lemma {:induction false} ValuesFull(f: seq<nat>, n: nat)
    requires Distinct(f) && (forall i | 0 <= i < |f| :: f[i] < n) && forall j: nat | j < n :: j in f
    ensures |f| == n
  {
    assert Values(f) == Numbers(n);
  }

  lemma {:induction false} PairingIsOneEach(narrowed: seq<Caveat>, roster: seq<Slot>, f: seq<nat>)
    requires Pairing(narrowed, roster, f)
    ensures OneSlotEach(narrowed, roster) && OneCaveatEach(narrowed, roster)
  {
    hide About, Hits, Covered;
    forall i: nat | i < |narrowed| ensures |Hits(roster, |roster|, narrowed[i])| == 1 {
      HitsSole(roster, |roster|, narrowed[i], f[i]);
    }
    OntoFull(f, |roster|);
    forall j: nat | j < |roster| ensures |Covered(narrowed, |narrowed|, roster[j])| == 1 {
      assert j in f;
      var i: nat :| i < |f| && f[i] == j;
      CoveredSole(narrowed, |narrowed|, roster[j], i);
    }
  }

  /** Distinct values below `n`, `n` of them, are all the values below `n`. */
  lemma {:induction false} OntoFull(f: seq<nat>, n: nat)
    requires Distinct(f) && |f| == n && forall i | 0 <= i < n :: f[i] < n
    ensures forall j: nat | j < n :: j in f
  {
    assert Values(f) <= Numbers(n);
    SubsetFull(Values(f), Numbers(n));
    assert forall j: nat | j < n :: j in Numbers(n);
  }

  lemma {:induction false} SubsetFull(a: set<nat>, b: set<nat>)
    requires a <= b && |a| == |b|
    ensures a == b
  {
    assert b == a + (b - a);
    assert |b| == |a| + |b - a|;
  }

  /** Exactly one from each end is a bijection, and the counts agree. */
  lemma {:induction false} OneEachIffPairing(narrowed: seq<Caveat>, roster: seq<Slot>)
    ensures OneSlotEach(narrowed, roster) && OneCaveatEach(narrowed, roster)
            <==> exists f :: Pairing(narrowed, roster, f)
  {
    if OneSlotEach(narrowed, roster) && OneCaveatEach(narrowed, roster) {
      OneEachIsPairing(narrowed, roster);
    }
    if f :| Pairing(narrowed, roster, f) { PairingIsOneEach(narrowed, roster, f); }
  }

  // ----- The run

  datatype Problem =
    | StillOpen(i: nat)
    | Unlisted(i: nat)
    | ManySlots(i: nat)
    | NoLongerNarrowed(j: nat)
    | ManyCaveats(j: nat)
    | NoReason(j: nat)

  /** The narrowed rows, in order. */
  function NarrowedOf(verdicts: seq<Caveat>, n: nat): seq<Caveat>
    requires n <= |verdicts|
  {
    if n == 0 then []
    else NarrowedOf(verdicts, n - 1) + if verdicts[n - 1].verdict.Narrowed? then [verdicts[n - 1]] else []
  }

  /** What a problem reported about one of the first `n` caveats says is wrong. */
  ghost predicate WrongCaveat(narrowed: seq<Caveat>, n: nat, roster: seq<Slot>, p: Problem)
    requires n <= |narrowed|
  {
    match p
    case Unlisted(i) => i < n && |Hits(roster, |roster|, narrowed[i])| == 0
    case ManySlots(i) => i < n && |Hits(roster, |roster|, narrowed[i])| > 1
    case _ => false
  }

  ghost predicate WrongSlot(narrowed: seq<Caveat>, roster: seq<Slot>, n: nat, p: Problem)
    requires n <= |roster|
  {
    match p
    case NoLongerNarrowed(j) => j < n && |Covered(narrowed, |narrowed|, roster[j])| == 0
    case ManyCaveats(j) => j < n && |Covered(narrowed, |narrowed|, roster[j])| > 1
    case _ => false
  }

  /** What each problem that can be reported says is wrong. */
  ghost predicate Wrong(verdicts: seq<Caveat>, roster: seq<Slot>, reasons: seq<string>, p: Problem)
    requires |reasons| == |roster|
  {
    var narrowed := NarrowedOf(verdicts, |verdicts|);
    match p
    case StillOpen(i) => i < |verdicts| && verdicts[i].verdict.Open?
    case NoReason(j) => j < |roster| && Blank(reasons[j])
    case _ => WrongCaveat(narrowed, |narrowed|, roster, p) || WrongSlot(narrowed, roster, |roster|, p)
  }

  /** `hits` for one row, each of its slots given the row. */
  method CoverWith(covers0: seq<seq<nat>>, narrowed: seq<Caveat>, i: nat, roster: seq<Slot>)
    returns (hits: seq<nat>, covers: seq<seq<nat>>)
    requires i < |narrowed| && |covers0| == |roster|
    requires forall j | 0 <= j < |roster| :: covers0[j] == Covered(narrowed, i, roster[j])
    ensures hits == Hits(roster, |roster|, narrowed[i])
    ensures |covers| == |roster|
    ensures forall j | 0 <= j < |roster| :: covers[j] == Covered(narrowed, i + 1, roster[j])
  {
    hide About;
    hits, covers := [], covers0;
    for j := 0 to |roster|
      invariant hits == Hits(roster, j, narrowed[i])
      invariant |covers| == |roster|
      invariant forall k | 0 <= k < j :: covers[k] == Covered(narrowed, i + 1, roster[k])
      invariant forall k | j <= k < |roster| :: covers[k] == Covered(narrowed, i, roster[k])
    {
      if About(narrowed[i], roster[j]) {
        hits := hits + [j];
        covers := covers[j := covers[j] + [i]];
      }
    }
  }

  /** The whole check reports just what is wrong, from either end. */
  method CheckFrame(verdicts: seq<Caveat>, roster: seq<Slot>, reasons: seq<string>) returns (problems: seq<Problem>)
    requires |reasons| == |roster|
    ensures forall p :: p in problems <==> Wrong(verdicts, roster, reasons, p)
    ensures problems == [] <==> Clean(verdicts, roster, reasons)
  {
    problems := [];
    for i := 0 to |verdicts|
      invariant forall p :: p in problems <==> p.StillOpen? && p.i < i && verdicts[p.i].verdict.Open?
    {
      if verdicts[i].verdict.Open? { problems := problems + [StillOpen(i)]; }
    }
    hide Covered, Hits, Blank;
    var narrowed := [];
    for i := 0 to |verdicts|
      invariant narrowed == NarrowedOf(verdicts, i)
    {
      if verdicts[i].verdict.Narrowed? { narrowed := narrowed + [verdicts[i]]; }
    }
    var fromCaveats, covers := FromCaveats(narrowed, roster);
    var fromSlots := FromSlots(narrowed, roster, covers);
    problems := problems + fromCaveats + fromSlots;
    ghost var before := problems;
    for j := 0 to |roster|
      invariant forall p :: p in problems <==> p in before || (p.NoReason? && p.j < j && Blank(reasons[p.j]))
    {
      if Blank(reasons[j]) { problems := problems + [NoReason(j)]; }
    }
    if problems != [] { assert problems[0] in problems; }
  }

  method FromCaveats(narrowed: seq<Caveat>, roster: seq<Slot>) returns (problems: seq<Problem>, covers: seq<seq<nat>>)
    ensures |covers| == |roster|
    ensures forall j | 0 <= j < |roster| :: covers[j] == Covered(narrowed, |narrowed|, roster[j])
    ensures forall p :: p in problems <==> WrongCaveat(narrowed, |narrowed|, roster, p)
  {
    problems, covers := [], seq(|roster|, _ => []);
    for i := 0 to |narrowed|
      invariant |covers| == |roster|
      invariant forall j | 0 <= j < |roster| :: covers[j] == Covered(narrowed, i, roster[j])
      invariant forall p :: p in problems <==> WrongCaveat(narrowed, i, roster, p)
    {
      hide Hits, Covered;
      var hits;
      hits, covers := CoverWith(covers, narrowed, i, roster);
      if hits == [] { problems := problems + [Unlisted(i)]; }
      else if |hits| > 1 { problems := problems + [ManySlots(i)]; }
    }
  }

  method FromSlots(narrowed: seq<Caveat>, roster: seq<Slot>, covers: seq<seq<nat>>) returns (problems: seq<Problem>)
    requires |covers| == |roster|
    requires forall j | 0 <= j < |roster| :: covers[j] == Covered(narrowed, |narrowed|, roster[j])
    ensures forall p :: p in problems <==> WrongSlot(narrowed, roster, |roster|, p)
  {
    hide Covered;
    problems := [];
    for j := 0 to |roster|
      invariant forall p :: p in problems <==> WrongSlot(narrowed, roster, j, p)
    {
      if covers[j] == [] { problems := problems + [NoLongerNarrowed(j)]; }
      else if |covers[j]| > 1 { problems := problems + [ManyCaveats(j)]; }
    }
  }

  /** Nothing to report, from either end and in all. */
  ghost predicate CaveatsClean(narrowed: seq<Caveat>, roster: seq<Slot>) {
    forall p :: !WrongCaveat(narrowed, |narrowed|, roster, p)
  }

  ghost predicate SlotsClean(narrowed: seq<Caveat>, roster: seq<Slot>) {
    forall p :: !WrongSlot(narrowed, roster, |roster|, p)
  }

  ghost predicate Clean(verdicts: seq<Caveat>, roster: seq<Slot>, reasons: seq<string>)
    requires |reasons| == |roster|
  {
    forall p :: !Wrong(verdicts, roster, reasons, p)
  }

  predicate NoneOpen(verdicts: seq<Caveat>) { forall i | 0 <= i < |verdicts| :: !verdicts[i].verdict.Open? }

  predicate AllReasoned(reasons: seq<string>) { forall j | 0 <= j < |reasons| :: !Blank(reasons[j]) }

  lemma {:induction false} CaveatsRight(narrowed: seq<Caveat>, roster: seq<Slot>)
    ensures CaveatsClean(narrowed, roster) <==> OneSlotEach(narrowed, roster)
  {
    hide Hits;
    if CaveatsClean(narrowed, roster) {
      forall i: nat | i < |narrowed| ensures |Hits(roster, |roster|, narrowed[i])| == 1 {
        assert !WrongCaveat(narrowed, |narrowed|, roster, Unlisted(i));
        assert !WrongCaveat(narrowed, |narrowed|, roster, ManySlots(i));
      }
    }
  }

  lemma {:induction false} SlotsRight(narrowed: seq<Caveat>, roster: seq<Slot>)
    ensures SlotsClean(narrowed, roster) <==> OneCaveatEach(narrowed, roster)
  {
    hide Covered;
    if SlotsClean(narrowed, roster) {
      forall j: nat | j < |roster| ensures |Covered(narrowed, |narrowed|, roster[j])| == 1 {
        assert !WrongSlot(narrowed, roster, |roster|, NoLongerNarrowed(j));
        assert !WrongSlot(narrowed, roster, |roster|, ManyCaveats(j));
      }
    }
  }

  lemma {:induction false} CleanToParts(verdicts: seq<Caveat>, roster: seq<Slot>, reasons: seq<string>)
    requires |reasons| == |roster| && Clean(verdicts, roster, reasons)
    ensures NoneOpen(verdicts) && AllReasoned(reasons)
    ensures var narrowed := NarrowedOf(verdicts, |verdicts|);
            CaveatsClean(narrowed, roster) && SlotsClean(narrowed, roster)
  {
    hide Blank, Hits, Covered, NarrowedOf;
    var narrowed := NarrowedOf(verdicts, |verdicts|);
    forall i: nat | i < |verdicts| ensures !verdicts[i].verdict.Open? {
      assert !Wrong(verdicts, roster, reasons, StillOpen(i));
    }
    forall j: nat | j < |reasons| ensures !Blank(reasons[j]) {
      assert !Wrong(verdicts, roster, reasons, NoReason(j));
    }
    forall p ensures !WrongCaveat(narrowed, |narrowed|, roster, p) && !WrongSlot(narrowed, roster, |roster|, p) {
      assert !Wrong(verdicts, roster, reasons, p);
    }
  }

  lemma {:induction false} PartsToClean(verdicts: seq<Caveat>, roster: seq<Slot>, reasons: seq<string>)
    requires |reasons| == |roster| && NoneOpen(verdicts) && AllReasoned(reasons)
    requires var narrowed := NarrowedOf(verdicts, |verdicts|);
             CaveatsClean(narrowed, roster) && SlotsClean(narrowed, roster)
    ensures Clean(verdicts, roster, reasons)
  {
    hide Blank, NarrowedOf, WrongCaveat, WrongSlot;
  }

  /** Nothing is wrong exactly when no caveat is open, every roster row has a reason, and the
      roster pairs off with the narrowed caveats, one to one. */
  lemma {:induction false} CleanIff(verdicts: seq<Caveat>, roster: seq<Slot>, reasons: seq<string>)
    requires |reasons| == |roster|
    ensures Clean(verdicts, roster, reasons) <==>
            && NoneOpen(verdicts) && AllReasoned(reasons)
            && exists f :: Pairing(NarrowedOf(verdicts, |verdicts|), roster, f)
  {
    var narrowed := NarrowedOf(verdicts, |verdicts|);
    hide *;
    OneEachIffPairing(narrowed, roster);
    CaveatsRight(narrowed, roster);
    SlotsRight(narrowed, roster);
    if Clean(verdicts, roster, reasons) {
      CleanToParts(verdicts, roster, reasons);
    } else if NoneOpen(verdicts) && AllReasoned(reasons) && CaveatsClean(narrowed, roster) && SlotsClean(narrowed, roster) {
      PartsToClean(verdicts, roster, reasons);
    }
  }

  /** One roster prefix that is short enough for two caveats, or one caveat written twice, is
      reported whatever the rest of the roster holds. */
  lemma {:induction false} SharedReasonReported(verdicts: seq<Caveat>, roster: seq<Slot>, reasons: seq<string>, a: nat, b: nat, j: nat)
    requires |reasons| == |roster|
    requires a < b < |NarrowedOf(verdicts, |verdicts|)| && j < |roster|
    requires About(NarrowedOf(verdicts, |verdicts|)[a], roster[j]) && About(NarrowedOf(verdicts, |verdicts|)[b], roster[j])
    ensures Wrong(verdicts, roster, reasons, ManyCaveats(j))
  {
    var narrowed := NarrowedOf(verdicts, |verdicts|);
    CoveredMember(narrowed, |narrowed|, roster[j], a);
    CoveredMember(narrowed, |narrowed|, roster[j], b);
  }
}
