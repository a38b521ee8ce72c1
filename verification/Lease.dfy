/** Electing a writer: many clients, one object in a store that can only compare and set, and what
    each node believes of itself while its requests are in flight. */
module Lease {
  import opened Options

  const U64_MAX: nat := 0xFFFF_FFFF_FFFF_FFFF

  /** `u64::saturating_add(1)`. */
  function Next(generation: nat): nat { if generation < U64_MAX then generation + 1 else U64_MAX }

  datatype Term = Term(generation: nat, holder: nat, expires: int)

  /** The lease object, and the version a conditional write must name. */
  datatype Object = Object(term: Term, version: nat)

  /** Where the node's campaign or renewal is. It has been decided on, and then, under the lock of the
      lease, sent to the store. */
  datatype Op =
    | Idle
    | Campaigning
    | Creating(term: Term)
    | Taking(term: Term, read: Object, now: int)
    | Renewal
    | Renewing(term: Term, over: Object)

  /** What the lease answered, until the node publishes it. */
  datatype Verdict = NoVerdict | Confirmed(term: Term) | Declined | LostIt

  datatype Standing = Follower | Leader(term: Term) | SteppedDown

  /** `releasing`: a step-down is published and its release waits for the lock. */
  datatype Node = Node(held: Option<Object>, op: Op, verdict: Verdict, standing: Standing, releasing: bool)

  const FRESH: Node := Node(None, Idle, NoVerdict, Follower, false)

  /** An acquisition that landed: by whom, under which generation, over what and when. */
  datatype Win = Win(client: nat, generation: nat, over: Option<Object>, now: int)

  /** `writes` counts the writes that landed, so it is a version no object has had. */
  datatype System = System(stored: Option<Object>, writes: nat, nodes: map<nat, Node>, log: seq<Win>)

  const START: System := System(None, 0, map[], [])

  function At(s: System, c: nat): Node { if c in s.nodes then s.nodes[c] else FRESH }

  function Put(s: System, c: nat, n: Node): System { s.(nodes := s.nodes[c := n]) }

  /** What becomes of a write: it is refused or lands and the client hears which; it lands and the
      client hears an error; or it never arrives. */
  datatype Fate = Heard | Unheard | Dropped

  datatype Action =
    | Campaign(c: nat)
    | Read(c: nat, now: int, length: nat, arrives: bool)
    | Renew(c: nat)
    | SendRenewal(c: nat, now: int, length: nat)
    | Land(c: nat, fate: Fate)
    | Publish(c: nat)
    | StepDown(c: nat)
    | Release(c: nat, now: int, fate: Fate)

  function Store(s: System, t: Term): System { s.(stored := Some(Object(t, s.writes)), writes := s.writes + 1) }

  predicate Locked(n: Node) { n.op.Creating? || n.op.Taking? || n.op.Renewing? }

  predicate Free(n: Node) { n.op.Idle? && n.verdict.NoVerdict? }

  /** The version is the one stored. */
  predicate Matches(s: System, o: Object) { s.stored.Some? && s.stored.value.version == o.version }

  // ----- The steps

  /** `campaign`: unless it has stepped down, the node asks the lease. */
  function CampaignStep(s: System, c: nat): System {
    var n := At(s, c);
    if !Free(n) || n.standing.SteppedDown? then s else Put(s, c, n.(op := Campaigning))
  }

  /** `acquire`, with the lock: the clock, then the object. */
  function ReadStep(s: System, c: nat, now: int, length: nat, arrives: bool): System {
    var n := At(s, c);
    if !n.op.Campaigning? then s
    else if !arrives then Put(s, c, n.(op := Idle, verdict := Declined))
    else match s.stored
         case None => Put(s, c, n.(op := Creating(Term(1, c, now + length))))
         case Some(o) =>
           if o.term.holder != c && o.term.expires > now then Put(s, c, n.(held := None, op := Idle, verdict := Declined))
           else Put(s, c, n.(op := Taking(Term(Next(o.term.generation), c, now + length), o, now)))
  }

  /** `Leadership::renew`: a leader asks the lease. */
  function RenewStep(s: System, c: nat): System {
    var n := At(s, c);
    if !Free(n) || !n.standing.Leader? then s else Put(s, c, n.(op := Renewal))
  }

  /** `Lease::renew`, with the lock: the version held, or nothing to renew. */
  function SendStep(s: System, c: nat, now: int, length: nat): System {
    var n := At(s, c);
    if !n.op.Renewal? then s
    else match n.held
         case None => Put(s, c, n.(op := Idle, verdict := LostIt))
         case Some(h) => Put(s, c, n.(op := Renewing(Term(h.term.generation, c, now + length), h)))
  }

  /** The conditional write is answered and the lock let go. */
  function LandStep(s: System, c: nat, fate: Fate): System {
    var n := At(s, c);
    match n.op
    case Creating(t) =>
      if fate.Dropped? || s.stored.Some? then Put(s, c, n.(op := Idle, verdict := Declined))
      else Landed(s, c, t, fate, Win(c, t.generation, None, 0))
    case Taking(t, read, now) =>
      if fate.Dropped? then Put(s, c, n.(op := Idle, verdict := Declined))
      else if !Matches(s, read) then
        Put(s, c, n.(held := if fate.Heard? then None else n.held, op := Idle, verdict := Declined))
      else Landed(s, c, t, fate, Win(c, t.generation, Some(read), now))
    case Renewing(t, over) =>
      if fate.Dropped? then Put(s, c, n.(op := Idle))
      else if !Matches(s, over) then
        if fate.Heard? then Put(s, c, n.(held := None, op := Idle, verdict := LostIt)) else Put(s, c, n.(op := Idle))
      else if fate.Heard? then Put(Store(s, t), c, n.(held := Some(Object(t, s.writes)), op := Idle, verdict := Confirmed(t)))
      else Put(Store(s, t), c, n.(op := Idle))
    case _ => s
  }

  function Landed(s: System, c: nat, t: Term, fate: Fate, win: Win): System {
    var n := At(s, c);
    Put(Store(s, t).(log := s.log + [win]), c,
        if fate.Heard? then n.(held := Some(Object(t, s.writes)), op := Idle, verdict := Confirmed(t))
        else n.(op := Idle, verdict := Declined))
  }

  /** `send_replace`: the answer becomes the standing, whatever the standing has become meanwhile.
      Only a lost lease goes through `step_down`, which looks first. */
  function PublishStep(s: System, c: nat): System {
    var n := At(s, c);
    match n.verdict
    case NoVerdict => s
    case Confirmed(t) => Put(s, c, n.(verdict := NoVerdict, standing := Leader(t)))
    case Declined => Put(s, c, n.(verdict := NoVerdict, standing := Follower))
    case LostIt =>
      Put(s, c, if n.standing.SteppedDown? then n.(verdict := NoVerdict)
                else n.(verdict := NoVerdict, standing := SteppedDown, releasing := true))
  }

  /** `step_down`, at any moment: published first, the release left for later. */
  function StepDownStep(s: System, c: nat): System {
    var n := At(s, c);
    if n.standing.SteppedDown? then s else Put(s, c, n.(standing := SteppedDown, releasing := true))
  }

  /** `release`, once it has the lock: the term is expired in place if it is still the one held. */
  function ReleaseStep(s: System, c: nat, now: int, fate: Fate): System {
    var n := At(s, c);
    if !n.releasing || Locked(n) then s
    else
      var s' := Put(s, c, n.(held := None, releasing := false));
      if n.held.None? || fate.Dropped? || !Matches(s, n.held.value) then s'
      else Store(s', Term(n.held.value.term.generation, c, now))
  }

  function Apply(s: System, a: Action): System {
    match a
    case Campaign(c) => CampaignStep(s, c)
    case Read(c, now, length, arrives) => ReadStep(s, c, now, length, arrives)
    case Renew(c) => RenewStep(s, c)
    case SendRenewal(c, now, length) => SendStep(s, c, now, length)
    case Land(c, fate) => LandStep(s, c, fate)
    case Publish(c) => PublishStep(s, c)
    case StepDown(c) => StepDownStep(s, c)
    case Release(c, now, fate) => ReleaseStep(s, c, now, fate)
  }

  /** The first `n` of the actions, from `s`. */
  function After(s: System, actions: seq<Action>, n: nat): System
    requires n <= |actions|
  {
    if n == 0 then s else Apply(After(s, actions, n - 1), actions[n - 1])
  }

  function Run(actions: seq<Action>): System { After(START, actions, |actions|) }

  // ----- What every step keeps

  /** An object somebody remembers: the stored one, if the version is the stored one's. */
  predicate Known(s: System, o: Object) {
    o.version < s.writes && s.stored.Some? && (o.version == s.stored.value.version ==> o == s.stored.value)
  }

  predicate Won(s: System, c: nat, generation: nat) {
    exists k | 0 <= k < |s.log| :: s.log[k].client == c && s.log[k].generation == generation
  }

  predicate Owns(s: System, c: nat, o: Object) { Known(s, o) && o.term.holder == c && Won(s, c, o.term.generation) }

  predicate OpOk(s: System, c: nat, op: Op) {
    match op
    case Creating(t) => t.generation == 1 && t.holder == c
    case Taking(t, read, now) =>
      Known(s, read) && t.generation == Next(read.term.generation) && t.holder == c
      && (read.term.holder == c || read.term.expires <= now)
    case Renewing(t, over) => Owns(s, c, over) && t.generation == over.term.generation && t.holder == c
    case _ => true
  }

  predicate NodeOk(s: System, c: nat) {
    var n := At(s, c);
    && (n.held.Some? ==> Owns(s, c, n.held.value))
    && (n.standing.Leader? ==> Won(s, c, n.standing.term.generation))
    && (n.verdict.Confirmed? ==> Won(s, c, n.verdict.term.generation))
    && OpOk(s, c, n.op)
  }

  /** The log: each generation is the next of the one before, the last is the stored one. */
  ghost predicate LogOk(s: System) {
    && (s.stored.Some? <==> s.log != [])
    && (s.stored.Some? ==>
          var o, last := s.stored.value, s.log[|s.log| - 1];
          o.version < s.writes && last.generation == o.term.generation && last.client == o.term.holder)
    && (s.log != [] ==> s.log[0].generation == 1)
    && (forall k | 0 < k < |s.log| :: s.log[k].generation == Next(s.log[k - 1].generation))
    && (forall k | 0 <= k < |s.log| :: WinOk(s.log[k]))
  }

  /** Nobody takes a term that is another's and still runs by the taker's own clock. */
  predicate WinOk(w: Win) { w.over.Some? ==> w.over.value.term.holder == w.client || w.over.value.term.expires <= w.now }

  ghost predicate Inv(s: System) { LogOk(s) && forall c: nat :: NodeOk(s, c) }

  /** Only `c` moved, and if anything was written it is new. */
  ghost predicate Moved(s: System, s': System, c: nat) {
    && (forall d: nat | d != c :: At(s', d) == At(s, d))
    && |s.log| <= |s'.log| && s'.log[..|s.log|] == s.log
    && (|| (s'.stored == s.stored && s'.writes == s.writes)
        || (s'.writes == s.writes + 1 && s'.stored.Some? && s'.stored.value.version == s.writes))
  }

  lemma {:induction false} WonKept(s: System, s': System, c: nat, generation: nat)
    requires Won(s, c, generation) && |s.log| <= |s'.log| && s'.log[..|s.log|] == s.log
    ensures Won(s', c, generation)
  {
    var k: nat :| k < |s.log| && s.log[k].client == c && s.log[k].generation == generation;
    assert s'.log[k] == s'.log[..|s.log|][k];
  }

  lemma {:induction false} OwnsKept(s: System, s': System, c: nat, d: nat, o: Object)
    requires Owns(s, d, o) && Moved(s, s', c)
    ensures Owns(s', d, o)
  {
    WonKept(s, s', d, o.term.generation);
  }

  lemma {:induction false} OpKept(s: System, s': System, c: nat, d: nat, op: Op)
    requires OpOk(s, d, op) && Moved(s, s', c)
    ensures OpOk(s', d, op)
  {
    if op.Renewing? { OwnsKept(s, s', c, d, op.over); }
  }

  /** A node that did not move is as it was. */
  lemma {:induction false} NodeKept(s: System, s': System, c: nat, d: nat)
    requires NodeOk(s, d) && d != c && Moved(s, s', c)
    ensures NodeOk(s', d)
  {
    var n := At(s, d);
    assert At(s', d) == n;
    if n.held.Some? { OwnsKept(s, s', c, d, n.held.value); }
    if n.standing.Leader? { WonKept(s, s', d, n.standing.term.generation); }
    if n.verdict.Confirmed? { WonKept(s, s', d, n.verdict.term.generation); }
    OpKept(s, s', c, d, n.op);
    hide Won, Owns, OpOk, Moved;
  }

  lemma {:induction false} InvKept(s: System, s': System, c: nat)
    requires Inv(s) && Moved(s, s', c) && LogOk(s') && NodeOk(s', c)
    ensures Inv(s')
  {
    hide NodeOk, Moved, LogOk;
    forall d: nat ensures NodeOk(s', d) {
      assert NodeOk(s, d);
      if d != c { NodeKept(s, s', c, d); }
    }
  }

  /** A step that writes nothing: the log and the store are as they were. */
  lemma {:induction false} QuietKeeps(s: System, s': System, c: nat)
    requires Inv(s) && s'.stored == s.stored && s'.writes == s.writes && s'.log == s.log
    requires forall d: nat | d != c :: At(s', d) == At(s, d)
    requires NodeOk(s', c)
    ensures Inv(s')
  {
    hide NodeOk;
    assert Moved(s, s', c);
    assert LogOk(s');
    hide LogOk;
    InvKept(s, s', c);
  }

  /** A write over one's own term changes neither its holder nor its generation. */
  lemma {:induction false} OwnWriteKeepsLog(s: System, s': System, t: Term)
    requires LogOk(s) && s.stored.Some? && s'.log == s.log && s'.writes == s.writes + 1 && s'.stored == Some(Object(t, s.writes))
    requires t.generation == s.stored.value.term.generation && t.holder == s.stored.value.term.holder
    ensures LogOk(s')
  {
  }

  lemma {:induction false} WinKeepsLog(s: System, s': System, t: Term, w: Win)
    requires LogOk(s) && s'.log == s.log + [w] && s'.writes == s.writes + 1 && s'.stored == Some(Object(t, s.writes))
    requires w.client == t.holder && w.generation == t.generation && WinOk(w)
    requires if s.log == [] then t.generation == 1 else t.generation == Next(s.stored.value.term.generation)
    ensures LogOk(s')
  {
    hide WinOk;
  }

  /** The node that wrote: what it held and believed is as it was, and the new term is its own. */
  lemma {:induction false} WriterOk(s: System, s': System, c: nat, t: Term, n: Node)
    requires NodeOk(s, c) && Moved(s, s', c) && At(s', c) == n && Won(s', c, t.generation) && t.holder == c
    requires s'.stored == Some(Object(t, s.writes)) && s'.writes == s.writes + 1
    requires n.held == At(s, c).held || n.held.None? || n.held == s'.stored
    requires n.standing == At(s, c).standing && (n.verdict == At(s, c).verdict || n.verdict == Confirmed(t) || n.verdict.Declined?)
    requires n.op.Idle? || n.op == At(s, c).op
    ensures NodeOk(s', c)
  {
    var m := At(s, c);
    if m.held.Some? { OwnsKept(s, s', c, c, m.held.value); }
    if m.standing.Leader? { WonKept(s, s', c, m.standing.term.generation); }
    if m.verdict.Confirmed? { WonKept(s, s', c, m.verdict.term.generation); }
    OpKept(s, s', c, c, m.op);
    hide Won, Moved, OpOk;
  }

  lemma {:induction false} LandedKeeps(s: System, c: nat, t: Term, fate: Fate, w: Win)
    requires Inv(s) && t.holder == c && w.client == c && w.generation == t.generation && WinOk(w)
    requires if s.log == [] then t.generation == 1 else t.generation == Next(s.stored.value.term.generation)
    ensures Inv(Landed(s, c, t, fate, w))
  {
    var s' := Landed(s, c, t, fate, w);
    assert NodeOk(s, c);
    assert Moved(s, s', c);
    WinKeepsLog(s, s', t, w);
    hide LogOk;
    assert s'.log[|s.log|] == w;
    assert Won(s', c, t.generation);
    hide Won, Moved, NodeOk;
    WriterOk(s, s', c, t, At(s', c));
    InvKept(s, s', c);
  }

  /** A renewal or a release that lands. */
  lemma {:induction false} OwnWriteKeeps(s: System, c: nat, t: Term, o: Object, n: Node, s': System)
    requires Inv(s) && Owns(s, c, o) && Matches(s, o) && t.generation == o.term.generation && t.holder == c
    requires s' == Put(Store(s, t), c, n)
    requires n.held == At(s, c).held || n.held.None? || n.held == Some(Object(t, s.writes))
    requires n.standing == At(s, c).standing && (n.verdict == At(s, c).verdict || n.verdict == Confirmed(t))
    requires n.op.Idle? || n.op == At(s, c).op
    ensures Inv(s')
  {
    assert NodeOk(s, c);
    OwnWriteKeepsLog(s, s', t);
    assert Moved(s, s', c);
    hide LogOk, NodeOk;
    WonKept(s, s', c, t.generation);
    hide Won, Moved;
    WriterOk(s, s', c, t, n);
    InvKept(s, s', c);
  }

  lemma {:induction false} ReadKeeps(s: System, c: nat, now: int, length: nat, arrives: bool)
    requires Inv(s)
    ensures Inv(ReadStep(s, c, now, length, arrives))
  {
    assert NodeOk(s, c) && LogOk(s);
    hide Won;
    QuietKeeps(s, ReadStep(s, c, now, length, arrives), c);
  }

  lemma {:induction false} PublishKeeps(s: System, c: nat)
    requires Inv(s)
    ensures Inv(PublishStep(s, c))
  {
    assert NodeOk(s, c);
    var s', n := PublishStep(s, c), At(s, c);
    assert s'.stored == s.stored && s'.writes == s.writes && s'.log == s.log;
    assert At(s', c).held == n.held && At(s', c).op == n.op;
    hide Won, Known, LogOk;
    QuietKeeps(s, s', c);
  }

  lemma {:induction false} QuietStepsKeep(s: System, a: Action)
    requires Inv(s) && (a.Campaign? || a.Renew? || a.SendRenewal? || a.StepDown?)
    ensures Inv(Apply(s, a))
  {
    assert NodeOk(s, a.c);
    hide Won, Known;
    QuietKeeps(s, Apply(s, a), a.c);
  }

  lemma {:induction false} LandKeeps(s: System, c: nat, fate: Fate)
    requires Inv(s)
    ensures Inv(LandStep(s, c, fate))
  {
    var s', n := LandStep(s, c, fate), At(s, c);
    assert NodeOk(s, c) && LogOk(s);
    if s'.writes == s.writes {
      hide Won, Known;
      QuietKeeps(s, s', c);
    } else if n.op.Renewing? {
      OwnWriteKeeps(s, c, n.op.term, n.op.over, At(s', c), s');
    } else {
      var w := if n.op.Creating? then Win(c, n.op.term.generation, None, 0)
               else Win(c, n.op.term.generation, Some(n.op.read), n.op.now);
      LandedKeeps(s, c, n.op.term, fate, w);
    }
  }

  lemma {:induction false} ReleaseKeeps(s: System, c: nat, now: int, fate: Fate)
    requires Inv(s)
    ensures Inv(ReleaseStep(s, c, now, fate))
  {
    var s', n := ReleaseStep(s, c, now, fate), At(s, c);
    assert NodeOk(s, c);
    if s'.writes == s.writes {
      hide Won, Known;
      QuietKeeps(s, s', c);
    } else {
      OwnWriteKeeps(s, c, Term(n.held.value.term.generation, c, now), n.held.value, At(s', c), s');
    }
  }

  lemma {:induction false} StepKeeps(s: System, a: Action)
    requires Inv(s)
    ensures Inv(Apply(s, a))
  {
    match a
    case Read(c, now, length, arrives) => ReadKeeps(s, c, now, length, arrives);
    case Land(c, fate) => LandKeeps(s, c, fate);
    case Release(c, now, fate) => ReleaseKeeps(s, c, now, fate);
    case Publish(c) => PublishKeeps(s, c);
    case _ => QuietStepsKeep(s, a);
  }

  /** What every step of every client keeps, from any state that has it. */
  lemma {:induction false} InvAfter(s: System, actions: seq<Action>, n: nat)
    requires n <= |actions| && Inv(s)
    ensures Inv(After(s, actions, n))
  {
    hide Inv, Apply;
    if n > 0 {
      InvAfter(s, actions, n - 1);
      StepKeeps(After(s, actions, n - 1), actions[n - 1]);
    }
  }

  lemma {:induction false} Reachable(actions: seq<Action>)
    ensures Inv(Run(actions))
  {
    assert Inv(START);
    InvAfter(START, actions, |actions|);
  }

  // ----- Generations

  lemma {:induction false} BoundedGenerations(s: System, i: nat)
    requires LogOk(s) && i < |s.log|
    ensures 1 <= s.log[i].generation <= U64_MAX
  {
    if i > 0 {
      assert s.log[i].generation == Next(s.log[i - 1].generation);
      BoundedGenerations(s, i - 1);
    }
  }

  lemma {:induction false} GenerationsRise(s: System, i: nat, j: nat)
    requires LogOk(s) && i < j < |s.log|
    ensures s.log[i].generation <= s.log[j].generation
    ensures s.log[i].generation == s.log[j].generation <==> s.log[i].generation == U64_MAX
    decreases j - i
  {
    assert s.log[j].generation == Next(s.log[j - 1].generation);
    if i < j - 1 { GenerationsRise(s, i, j - 1); }
    BoundedGenerations(s, i);
    BoundedGenerations(s, j - 1);
  }

  /** In every run: a later acquisition has the higher generation exactly while the counter is
      not at its end, so that until then no generation is used twice. */
  lemma {:induction false} GenerationsOrderTerms(actions: seq<Action>, i: nat, j: nat)
    requires i < j < |Run(actions).log|
    ensures var log := Run(actions).log;
            log[i].generation < log[j].generation <==> log[i].generation < U64_MAX
  {
    hide Run, LogOk, NodeOk;
    var s := Run(actions);
    Reachable(actions);
    GenerationsRise(s, i, j);
    BoundedGenerations(s, i);
  }

  lemma {:induction false} LeadersApart(s: System, c: nat, d: nat)
    requires c != d && LogOk(s) && NodeOk(s, c) && NodeOk(s, d)
    requires At(s, c).standing.Leader? && At(s, d).standing.Leader?
    ensures At(s, c).standing.term.generation != At(s, d).standing.term.generation || At(s, c).standing.term.generation == U64_MAX
  {
    var g, h := At(s, c).standing.term.generation, At(s, d).standing.term.generation;
    var i: nat :| i < |s.log| && s.log[i].client == c && s.log[i].generation == g;
    var j: nat :| j < |s.log| && s.log[j].client == d && s.log[j].generation == h;
    hide LogOk, NodeOk;
    if i < j { GenerationsRise(s, i, j); } else { GenerationsRise(s, j, i); }
  }

  /** In every run: two nodes that both take themselves for the leader can be told apart, until the
      counter is at its end. */
  lemma {:induction false} LeadersAreOrdered(actions: seq<Action>, c: nat, d: nat)
    requires c != d
    requires var s := Run(actions); At(s, c).standing.Leader? && At(s, d).standing.Leader?
    ensures var s := Run(actions);
            At(s, c).standing.term.generation != At(s, d).standing.term.generation || At(s, c).standing.term.generation == U64_MAX
  {
    hide Run, LogOk, NodeOk, At;
    var s := Run(actions);
    Reachable(actions);
    LeadersApart(s, c, d);
  }

  // ----- Writes

  /** What a write that lands is: by an acquisition, the next generation, over a term that was
      read as it still is and is the client's own or by its clock has run out; by a renewal or a
      release, the same generation over the client's own term. */
  ghost predicate FairWrite(s: System, a: Action, s': System) {
    && s'.stored.Some? && s'.stored.value.term.holder == a.c
    && (s.stored.Some? ==> s'.stored.value.version > s.stored.value.version)
    && if a.Land? && !At(s, a.c).op.Renewing? then
         if s.stored.None? then s'.stored.value.term.generation == 1
         else
           var o, op := s.stored.value, At(s, a.c).op;
           && s'.stored.value.term.generation == Next(o.term.generation)
           && op.Taking? && op.read == o && (o.term.holder == a.c || o.term.expires <= op.now)
       else
         && s.stored.Some? && s.stored.value.term.holder == a.c
         && s'.stored.value.term.generation == s.stored.value.term.generation
  }

  lemma {:induction false} WritesAreFair(s: System, a: Action)
    requires LogOk(s) && NodeOk(s, a.c) && Apply(s, a).writes > s.writes
    ensures FairWrite(s, a, Apply(s, a))
  {
    hide Won;
  }

  /** In every run: of the clients that read one version at most one writes over it, and nobody
      writes over another's term while that runs. */
  lemma {:induction false} ContestedOnce(actions: seq<Action>, a: Action)
    requires var s := Run(actions); Apply(s, a).writes > s.writes
    ensures var s := Run(actions); FairWrite(s, a, Apply(s, a))
  {
    hide Run, LogOk, NodeOk, Apply, FairWrite;
    var s := Run(actions);
    Reachable(actions);
    WritesAreFair(s, a);
  }

  // ----- Stepping down

  /** Something of the node's is in flight that can yet publish another standing: a campaign, whatever
      comes of it; a renewal whose write would still land; or an answer that is not published. */
  predicate InFlight(s: System, c: nat) {
    var n := At(s, c);
    || n.op.Campaigning? || n.op.Creating? || n.op.Taking?
    || (n.op.Renewal? && n.held.Some? && Matches(s, n.held.value))
    || (n.op.Renewing? && Matches(s, n.op.over))
    || n.verdict.Confirmed? || n.verdict.Declined?
  }

  predicate Down(s: System, c: nat) { At(s, c).standing.SteppedDown? }

  /** However the run goes on, the node stays down. */
  ghost predicate Final(s: System, c: nat) {
    forall more: seq<Action> :: Down(After(s, more, |more|), c)
  }

  /** With nothing in flight a step of any client leaves the node down with nothing in flight, and the
      only write of its own is its release. */
  lemma {:induction false} StepStaysDown(s: System, a: Action, c: nat)
    requires NodeOk(s, c) && LogOk(s) && Down(s, c) && !InFlight(s, c)
    ensures Down(Apply(s, a), c) && !InFlight(Apply(s, a), c)
    ensures a.c == c && Apply(s, a).writes > s.writes ==> a.Release?
  {
    hide Won;
    if a.c == c { OwnStepStaysDown(s, a); } else { OtherStepStaysDown(s, a, c); }
  }

  lemma {:induction false} OwnStepStaysDown(s: System, a: Action)
    requires NodeOk(s, a.c) && LogOk(s) && Down(s, a.c) && !InFlight(s, a.c)
    ensures Down(Apply(s, a), a.c) && !InFlight(Apply(s, a), a.c)
    ensures Apply(s, a).writes > s.writes ==> a.Release?
  {
    hide Won;
  }

  /** A version that was passed over never comes back. */
  lemma {:induction false} OtherStepStaysDown(s: System, a: Action, c: nat)
    requires NodeOk(s, c) && LogOk(s) && Down(s, c) && !InFlight(s, c) && a.c != c
    ensures Down(Apply(s, a), c) && !InFlight(Apply(s, a), c)
  {
    var s' := Apply(s, a);
    OthersUntouched(s, a, c);
    var n := At(s, c);
    if n.held.Some? { assert Known(s, n.held.value); }
    if n.op.Renewing? { assert Known(s, n.op.over); }
    hide Won, Apply, LogOk;
  }

  lemma {:induction false} OthersUntouched(s: System, a: Action, c: nat)
    requires a.c != c
    ensures At(Apply(s, a), c) == At(s, c)
    ensures var s' := Apply(s, a); s'.stored == s.stored || (s'.stored.Some? && s'.stored.value.version == s.writes)
  {
  }

  lemma {:induction false} StaysDown(s: System, more: seq<Action>, n: nat, c: nat)
    requires n <= |more| && Inv(s) && Down(s, c) && !InFlight(s, c)
    ensures Down(After(s, more, n), c) && !InFlight(After(s, more, n), c)
  {
    if n > 0 {
      StaysDown(s, more, n - 1, c);
      InvAfter(s, more, n - 1);
      hide Apply, NodeOk, LogOk, InFlight;
      StepStaysDown(After(s, more, n - 1), more[n - 1], c);
    }
  }

  lemma {:induction false} AfterTwo(s: System, a: Action, b: Action)
    ensures After(s, [a, b], 2) == Apply(Apply(s, a), b)
  {
    assert After(s, [a, b], 1) == Apply(After(s, [a, b], 0), a);
    hide Apply;
  }

  lemma {:induction false} AfterThree(s: System, a: Action, b: Action, d: Action)
    ensures After(s, [a, b, d], 3) == Apply(Apply(Apply(s, a), b), d)
  {
    assert After(s, [a, b, d], 1) == Apply(After(s, [a, b, d], 0), a);
    assert After(s, [a, b, d], 2) == Apply(After(s, [a, b, d], 1), b);
    hide Apply;
  }

  /** What is in flight can bring the node back up. */
  lemma {:induction false} FlightUndoes(s: System, c: nat) returns (more: seq<Action>)
    requires Down(s, c) && InFlight(s, c)
    ensures !Down(After(s, more, |more|), c)
  {
    var n := At(s, c);
    if n.verdict.Confirmed? || n.verdict.Declined? {
      more := [Publish(c)];
      assert After(s, more, 1) == Apply(After(s, more, 0), Publish(c));
    } else if n.op.Campaigning? {
      more := [Read(c, 0, 0, false), Publish(c)];
      AfterTwo(s, Read(c, 0, 0, false), Publish(c));
    } else if n.op.Renewal? {
      more := [SendRenewal(c, 0, 0), Land(c, Heard), Publish(c)];
      AfterThree(s, SendRenewal(c, 0, 0), Land(c, Heard), Publish(c));
    } else {
      var fate := if n.op.Renewing? then Heard else Dropped;
      more := [Land(c, fate), Publish(c)];
      AfterTwo(s, Land(c, fate), Publish(c));
    }
    hide After;
  }

  /** In every run: a step-down is final exactly when nothing of the node's is in flight. A campaign
      under way undoes it even when it is lost; a renewal under way when it lands. */
  lemma {:induction false} SteppedDownIsFinalIff(actions: seq<Action>, c: nat)
    requires Down(Run(actions), c)
    ensures Final(Run(actions), c) <==> !InFlight(Run(actions), c)
  {
    var s := Run(actions);
    Reachable(actions);
    hide Run, Inv, Down, InFlight;
    if InFlight(s, c) {
      var more := FlightUndoes(s, c);
    } else {
      forall more: seq<Action> ensures Down(After(s, more, |more|), c) { StaysDown(s, more, |more|, c); }
    }
  }

  // ----- Runs

  lemma {:induction false} RunNone()
    ensures Run([]) == START
  {
  }

  lemma {:induction false} AfterPrefix(s: System, a: seq<Action>, b: seq<Action>, n: nat)
    requires n <= |a|
    ensures After(s, a + b, n) == After(s, a, n)
  {
    hide Apply;
    if n > 0 { AfterPrefix(s, a, b, n - 1); }
  }

  lemma {:induction false} AfterFour(before: seq<Action>, a: Action, b: Action, c: Action, d: Action)
    ensures Run(before + [a, b, c, d]) == Apply(Apply(Apply(Apply(Run(before), a), b), c), d)
  {
    hide Apply;
    var all, n := before + [a, b, c, d], |before|;
    AfterPrefix(START, before, [a, b, c, d], n);
    assert After(START, all, n + 1) == Apply(After(START, all, n), a);
    assert After(START, all, n + 2) == Apply(After(START, all, n + 1), b);
    assert After(START, all, n + 3) == Apply(After(START, all, n + 2), c);
    assert After(START, all, n + 4) == Apply(After(START, all, n + 3), d);
  }

  /** Campaign, read, write, publish. */
  function Elect(s: System, c: nat, now: int): System {
    Apply(Apply(Apply(Apply(s, Campaign(c)), Read(c, now, 15, true)), Land(c, Heard)), Publish(c))
  }

  /** A fresh node that finds no lease, or one that has run out, comes to lead. */
  lemma {:induction false} Elected(s: System, c: nat, now: int)
    requires At(s, c) == FRESH && (s.stored.Some? ==> s.stored.value.term.expires <= now)
    ensures var t := Term(if s.stored.Some? then Next(s.stored.value.term.generation) else 1, c, now + 15);
            var s' := Elect(s, c, now);
            && s'.stored == Some(Object(t, s.writes)) && s'.writes == s.writes + 1
            && At(s', c) == Node(s'.stored, Idle, NoVerdict, Leader(t), false)
            && forall d: nat | d != c :: At(s', d) == At(s, d)
  {
    var s1 := CampaignStep(s, c);
    var s2 := ReadStep(s1, c, now, 15, true);
    assert s2.stored == s.stored && s2.writes == s.writes && (At(s2, c).op.Creating? || At(s2, c).op.Taking?);
    var s3 := LandStep(s2, c, Heard);
    assert At(s3, c).verdict.Confirmed?;
  }

  /** A leader is fenced while its renewal is on the way. The renewal lands, the release expires the
      term, and then the answer makes the node a leader again, of a lease it no longer holds. */
  lemma {:induction false} FencedLeaderComesBack()
    ensures var leads := Run([Campaign(1), Read(1, 0, 15, true), Land(1, Heard), Publish(1)]);
            var down := After(leads, [Renew(1), SendRenewal(1, 5, 15), StepDown(1)], 3);
            var back := After(down, [Land(1, Heard), Release(1, 6, Heard), Publish(1)], 3);
            && At(leads, 1).standing.Leader? && Down(down, 1) && InFlight(down, 1)
            && At(back, 1).standing.Leader? && At(back, 1).held.None? && back.stored.Some? && back.stored.value.term.expires == 6
  {
    var leads := FirstLeader();
    AfterThree(leads, Renew(1), SendRenewal(1, 5, 15), StepDown(1));
    Fenced(leads);
    var down := After(leads, [Renew(1), SendRenewal(1, 5, 15), StepDown(1)], 3);
    AfterThree(down, Land(1, Heard), Release(1, 6, Heard), Publish(1));
    Unfenced(down);
    hide Run, After, Apply, At, InFlight;
  }

  lemma {:induction false} FirstLeader() returns (leads: System)
    ensures leads == Run([Campaign(1), Read(1, 0, 15, true), Land(1, Heard), Publish(1)]) == Elect(START, 1, 0)
    ensures leads.stored == Some(Object(Term(1, 1, 15), 0)) && leads.writes == 1
    ensures At(leads, 1) == Node(leads.stored, Idle, NoVerdict, Leader(Term(1, 1, 15)), false)
    ensures forall d: nat | d != 1 :: At(leads, d) == FRESH
  {
    RunNone();
    AfterFour([], Campaign(1), Read(1, 0, 15, true), Land(1, Heard), Publish(1));
    assert [] + [Campaign(1), Read(1, 0, 15, true), Land(1, Heard), Publish(1)] == [Campaign(1), Read(1, 0, 15, true), Land(1, Heard), Publish(1)];
    hide Run, Apply;
    Elected(START, 1, 0);
    leads := Elect(START, 1, 0);
  }

  lemma {:induction false} Fenced(leads: System)
    requires leads.stored == Some(Object(Term(1, 1, 15), 0)) && leads.writes == 1
    requires At(leads, 1) == Node(leads.stored, Idle, NoVerdict, Leader(Term(1, 1, 15)), false)
    ensures var down := Apply(Apply(Apply(leads, Renew(1)), SendRenewal(1, 5, 15)), StepDown(1));
            && down.stored == leads.stored && down.writes == 1 && Down(down, 1) && InFlight(down, 1)
            && At(down, 1) == Node(leads.stored, Renewing(Term(1, 1, 20), leads.stored.value), NoVerdict, SteppedDown, true)
  {
    assert At(RenewStep(leads, 1), 1) == Node(leads.stored, Renewal, NoVerdict, Leader(Term(1, 1, 15)), false);
  }

  lemma {:induction false} Unfenced(down: System)
    requires down.stored == Some(Object(Term(1, 1, 15), 0)) && down.writes == 1
    requires At(down, 1) == Node(down.stored, Renewing(Term(1, 1, 20), down.stored.value), NoVerdict, SteppedDown, true)
    ensures var back := Apply(Apply(Apply(down, Land(1, Heard)), Release(1, 6, Heard)), Publish(1));
            At(back, 1).standing.Leader? && At(back, 1).held.None? && back.stored.Some? && back.stored.value.term.expires == 6
  {
    var landed := LandStep(down, 1, Heard);
    assert landed.stored == Some(Object(Term(1, 1, 20), 1));
    assert At(landed, 1) == Node(landed.stored, Idle, Confirmed(Term(1, 1, 20)), SteppedDown, true);
  }

  // ----- What the lease does not promise

  /** Mutual exclusion: the second clock need only run ahead. */
  lemma {:induction false} TwoLeadersPossible()
    ensures var s := Run([Campaign(1), Read(1, 0, 15, true), Land(1, Heard), Publish(1)]
                         + [Campaign(2), Read(2, 15, 15, true), Land(2, Heard), Publish(2)]);
            At(s, 1).standing.Leader? && At(s, 2).standing.Leader?
  {
    var first := [Campaign(1), Read(1, 0, 15, true), Land(1, Heard), Publish(1)];
    var leads := FirstLeader();
    AfterFour(first, Campaign(2), Read(2, 15, 15, true), Land(2, Heard), Publish(2));
    hide Run, Apply;
    Elected(leads, 2, 15);
  }

  /** A client that takes its own lease again and again, and never hears that it has. */
  lemma {:induction false} Retaken(n: nat) returns (actions: seq<Action>)
    requires 1 <= n <= U64_MAX + 1
    ensures var s := Run(actions);
            && At(s, 1) == FRESH && s.stored.Some? && s.stored.value.term.holder == 1
            && s.stored.value.term.generation == (if n <= U64_MAX then n else U64_MAX)
            && |s.log| == n && s.log[n - 1].generation == s.stored.value.term.generation
            && (n > 1 ==> s.log[n - 2].generation == n - 1)
    decreases n
  {
    var before: seq<Action> := [];
    if n > 1 { before := Retaken(n - 1); }
    var round := [Campaign(1), Read(1, 0, 0, true), Land(1, Unheard), Publish(1)];
    actions := before + round;
    AfterFour(before, Campaign(1), Read(1, 0, 0, true), Land(1, Unheard), Publish(1));
    hide Run, After;
    var s := Run(before);
    if n == 1 { assert s == START by { RunNone(); } }
    OneRound(s);
  }

  lemma {:induction false} OneRound(s: System)
    requires At(s, 1) == FRESH && (s.stored.Some? ==> s.stored.value.term.holder == 1)
    ensures var s' := Apply(Apply(Apply(Apply(s, Campaign(1)), Read(1, 0, 0, true)), Land(1, Unheard)), Publish(1));
            && At(s', 1) == FRESH && s'.stored.Some? && s'.stored.value.term.holder == 1
            && s'.stored.value.term.generation == (if s.stored.None? then 1 else Next(s.stored.value.term.generation))
            && |s'.log| == |s.log| + 1 && s'.log[..|s.log|] == s.log
            && s'.log[|s.log|].generation == s'.stored.value.term.generation
  {
    var s1 := CampaignStep(s, 1);
    var s2 := ReadStep(s1, 1, 0, 0, true);
    assert s2.stored == s.stored && s2.log == s.log && s2.writes == s.writes;
    var s3 := LandStep(s2, 1, Unheard);
    assert At(s3, 1) == FRESH.(verdict := Declined) && s3.stored.Some?;
  }

  /** A run in which two acquisitions share the last generation. */
  lemma {:induction false} SaturatedRepeats() returns (actions: seq<Action>)
    ensures var log := Run(actions).log;
            |log| > U64_MAX && log[U64_MAX - 1].generation == log[U64_MAX].generation == U64_MAX
  {
    actions := Retaken(U64_MAX + 1);
  }
}
