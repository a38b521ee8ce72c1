/** What a node does with the answers it gets: who leads after a campaign, a renewal, a release. */
module LeaseAnswers {
  import opened Options
  import opened Lease

  // ----- From the answer to the standing

  /** A node with an answer to publish has nothing else under way. */
  predicate Answered(n: Node) { !n.verdict.NoVerdict? ==> n.op.Idle? }

  lemma {:induction false} AnsweredStep(s: System, a: Action, c: nat)
    requires Answered(At(s, c))
    ensures Answered(At(Apply(s, a), c))
  {
    if a.c != c { OthersUntouched(s, a, c); }
  }

  lemma {:induction false} AnsweredAfter(s: System, actions: seq<Action>, n: nat, c: nat)
    requires n <= |actions| && Answered(At(s, c))
    ensures Answered(At(After(s, actions, n), c))
  {
    hide Apply, Answered, At;
    if n > 0 {
      AnsweredAfter(s, actions, n - 1, c);
      AnsweredStep(After(s, actions, n - 1), actions[n - 1], c);
    }
  }

  /** An answer waits until it is published: whatever the node or others do meanwhile. */
  lemma {:induction false} AnswerWaits(s: System, a: Action, c: nat)
    requires Answered(At(s, c)) && !At(s, c).verdict.NoVerdict? && a != Publish(c)
    ensures At(Apply(s, a), c).verdict == At(s, c).verdict
    ensures At(s, c).held.None? ==> At(Apply(s, a), c).held.None?
    ensures Down(s, c) ==> Down(Apply(s, a), c)
  {
    if a.c != c { OthersUntouched(s, a, c); }
  }

  lemma {:induction false} AnswerWaitsAfter(s: System, more: seq<Action>, n: nat, c: nat)
    requires n <= |more| && Publish(c) !in more && Answered(At(s, c)) && !At(s, c).verdict.NoVerdict?
    ensures At(After(s, more, n), c).verdict == At(s, c).verdict && Answered(At(After(s, more, n), c))
    ensures At(s, c).held.None? ==> At(After(s, more, n), c).held.None?
  {
    hide Apply, Answered, At, Down;
    if n > 0 {
      AnswerWaitsAfter(s, more, n - 1, c);
      AnswerWaits(After(s, more, n - 1), more[n - 1], c);
      AnsweredStep(After(s, more, n - 1), more[n - 1], c);
    }
  }

  /** The standing an answer makes. */
  ghost predicate Becomes(before: Node, after: Node) {
    && after.verdict.NoVerdict? && after.held == before.held && after.op == before.op
    && match before.verdict
       case NoVerdict => after == before
       case Confirmed(t) => after.standing == Leader(t) && after.releasing == before.releasing
       case Declined => after.standing == Follower && after.releasing == before.releasing
       case LostIt => after.standing.SteppedDown? && (before.standing.SteppedDown? || after.releasing)
  }

  /** Publishing writes nothing and touches no other node; a lost lease leaves no leader standing, with
      its release to come. */
  lemma {:induction false} PublishAnswers(s: System, c: nat)
    ensures var s' := Apply(s, Publish(c));
            && s'.stored == s.stored && s'.writes == s.writes && s'.log == s.log
            && Becomes(At(s, c), At(s', c)) && forall d: nat | d != c :: At(s', d) == At(s, d)
  {
  }

  /** In every run: an answer, whatever happens before it is published, makes the standing it should. */
  lemma {:induction false} AnswerPublished(actions: seq<Action>, more: seq<Action>, c: nat)
    requires Publish(c) !in more && !At(Run(actions), c).verdict.NoVerdict?
    ensures var s := Run(actions);
            var s' := Apply(After(s, more, |more|), Publish(c));
            match At(s, c).verdict
            case Confirmed(t) => At(s', c).standing == Leader(t)
            case Declined => At(s', c).standing == Follower
            case LostIt => Down(s', c)
  {
    var s := Run(actions);
    AnsweredAfter(START, actions, |actions|, c);
    AnswerWaitsAfter(s, more, |more|, c);
    PublishAnswers(After(s, more, |more|), c);
    hide Apply, Run, After;
  }

  // ----- What the store answers

  /** The write lands. */
  predicate Lands(s: System, c: nat, fate: Fate) {
    !fate.Dropped?
    && match At(s, c).op
       case Creating(_) => s.stored.None?
       case Taking(_, read, _) => Matches(s, read)
       case Renewing(_, over) => Matches(s, over)
       case _ => false
  }

  /** A write that lands puts its term in the store, and one that does not changes nothing there. The
      client is told, if it hears: it holds what it wrote, or nothing. One that does not hear keeps what
      it held; a campaign then counts as lost and a renewal as neither. */
  lemma {:induction false} LandAnswers(s: System, c: nat, fate: Fate)
    requires Locked(At(s, c)) && At(s, c).verdict.NoVerdict?
    ensures var s', n := Apply(s, Land(c, fate)), At(s, c);
            var n' := At(s', c);
            && n'.op.Idle? && n'.standing == n.standing && n'.releasing == n.releasing
            && (if Lands(s, c, fate) then s'.stored == Some(Object(n.op.term, s.writes)) && s'.writes == s.writes + 1
                else s'.stored == s.stored && s'.writes == s.writes)
            && (if fate.Heard? && Lands(s, c, fate) then n'.held == s'.stored && n'.verdict == Confirmed(n.op.term)
                else if n.op.Renewing? && fate.Heard? then n'.held.None? && n'.verdict.LostIt?
                else if n.op.Renewing? then n'.held == n.held && n'.verdict.NoVerdict?
                else n'.verdict.Declined? && n'.held == if n.op.Taking? && fate.Heard? then None else n.held)
  {
  }

  /** In every run: a leader whose renewal is refused, and who hears it, has stepped down once that is
      published, holding nothing, whatever happens between. */
  lemma {:induction false} LostRenewalEndsLead(actions: seq<Action>, more: seq<Action>, c: nat)
    requires var s := Run(actions); At(s, c).op.Renewing? && !Lands(s, c, Heard)
    requires Publish(c) !in more
    ensures var s' := Apply(After(Apply(Run(actions), Land(c, Heard)), more, |more|), Publish(c));
            Down(s', c) && At(s', c).held.None?
  {
    var s := Run(actions);
    AnsweredAfter(START, actions, |actions|, c);
    LandAnswers(s, c, Heard);
    var lost := Apply(s, Land(c, Heard));
    hide Apply, Run, After, Lands;
    AnswerWaitsAfter(lost, more, |more|, c);
    PublishAnswers(After(lost, more, |more|), c);
  }

  /** So has one that holds nothing to renew. */
  lemma {:induction false} NothingHeldEndsLead(actions: seq<Action>, more: seq<Action>, c: nat, now: int, length: nat)
    requires var s := Run(actions); At(s, c).op.Renewal? && At(s, c).held.None?
    requires Publish(c) !in more
    ensures var s' := Apply(After(Apply(Run(actions), SendRenewal(c, now, length)), more, |more|), Publish(c));
            Down(s', c) && At(s', c).held.None?
  {
    var s := Run(actions);
    var lost := Apply(s, SendRenewal(c, now, length));
    assert At(lost, c) == At(s, c).(op := Idle, verdict := LostIt);
    hide Apply, Run, After;
    AnswerWaitsAfter(lost, more, |more|, c);
    PublishAnswers(After(lost, more, |more|), c);
  }

  /** A renewal that fails on the way leaves the leader leading, on the term it held. */
  lemma {:induction false} FailedRenewalKeepsLead(s: System, c: nat, fate: Fate)
    requires At(s, c).op.Renewing? && At(s, c).verdict.NoVerdict? && !fate.Heard?
    ensures var s' := Apply(Apply(s, Land(c, fate)), Publish(c));
            At(s', c).standing == At(s, c).standing && At(s', c).held == At(s, c).held
  {
    LandAnswers(s, c, fate);
    PublishAnswers(Apply(s, Land(c, fate)), c);
    hide Apply, Lands;
  }

  // ----- Giving it up

  /** Stepping down takes the standing away at once, and leaves the release to come. */
  lemma {:induction false} StepDownStops(s: System, c: nat)
    ensures var s' := Apply(s, StepDown(c));
            && Down(s', c) && (Down(s, c) || At(s', c).releasing)
            && s'.stored == s.stored && At(s', c).held == At(s, c).held && At(s', c).op == At(s, c).op && At(s', c).verdict == At(s, c).verdict
  {
  }

  /** A release that lands lets any node take the lease at once, by a clock that is not behind: it
      leads under the next generation. */
  lemma {:induction false} ReleaseHandsOver(actions: seq<Action>, c: nat, d: nat, now: int, later: int, fate: Fate)
    requires var s := Run(actions);
             At(s, c).releasing && !Locked(At(s, c)) && At(s, c).held.Some? && Matches(s, At(s, c).held.value) && !fate.Dropped?
    requires c != d && now <= later && At(Run(actions), d) == FRESH
    ensures var s, s' := Run(actions), Elect(Apply(Run(actions), Release(c, now, fate)), d, later);
            && At(s', d).standing == Leader(Term(Next(s.stored.value.term.generation), d, later + 15))
            && At(s', c).held.None? && !At(s', c).releasing
  {
    var s := Run(actions);
    Reachable(actions);
    assert NodeOk(s, c) by { hide NodeOk; }
    OthersUntouched(s, Release(c, now, fate), d);
    var released := Apply(s, Release(c, now, fate));
    assert released.stored == Some(Object(Term(s.stored.value.term.generation, c, now), s.writes));
    assert At(released, c).held.None? && !At(released, c).releasing;
    hide Run, Apply, NodeOk, LogOk;
    Elected(released, d, later);
  }

  /** Until then a term that runs is respected: a campaign against it writes nothing, and follows. */
  lemma {:induction false} RunningTermStands(s: System, d: nat, now: int, length: nat)
    requires Free(At(s, d)) && !Down(s, d) && s.stored.Some? && s.stored.value.term.holder != d && now < s.stored.value.term.expires
    ensures var s' := Apply(Apply(Apply(s, Campaign(d)), Read(d, now, length, true)), Publish(d));
            && s'.stored == s.stored && s'.log == s.log && s'.writes == s.writes
            && At(s', d).standing == Follower && At(s', d).held.None?
  {
    var asked := Apply(s, Campaign(d));
    assert At(asked, d).op.Campaigning? && asked.stored == s.stored;
    var read := Apply(asked, Read(d, now, length, true));
    assert At(read, d).verdict.Declined?;
  }
}
