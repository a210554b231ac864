/**
 What the second-factor routes promise, over every run: a code is only judged against its own
 reservation, a reservation is given back exactly when an error stopped the judgement, the codes
 judged wrong stay within the budget, and an elevation is backed by one challenge of its own.
 */
module SecondFactorTheorems {
  import opened Common
  import opened Counters
  import opened Journal
  import opened SecondFactor
  import opened SecondFactorRuns

  // ---------------------------------------------------------------- one reservation per judgement

  lemma WhereEffectsStand(r: Request, p: nat)
    requires Fits(r) && p < |r.trace|
    ensures r.trace[p].Compared? ==> p == 1 && r.trace[0].Granted?
    ensures r.trace[p].Consumed? ==> p == 3 && ElevationTrace(r, r.trace[..4], 4)
    ensures r.trace[p].Elevated? ==> p == 4 && ElevationTrace(r, r.trace[..5], 5)
    ensures r.trace[p].GaveBack? ==> p == |r.trace| - 1 && GivenBack(r.trace) && r.pc == Done(500)
  {
    var t := r.trace;
    if t[|t| - 1] == GaveBack {
      assert t[..|t| - 1][..1] == t[..1];
    }
  }

  /**
   In every interleaving, a comparison of a code is preceded by a reservation granted to the same
   request on the same operator, and that request compares no other code.
   */
  lemma EveryComparisonHasItsReservation(steps: seq<Step>, i: nat)
    requires var log := Run(INITIAL, steps).log; i < |log| && log[i].ByRequest? && log[i].event.Compared?
    ensures var log := Run(INITIAL, steps).log;
            && (exists j :: 0 <= j < i && log[j].ByRequest? && log[j].id == log[i].id
                            && log[j].subject == log[i].subject && log[j].event.Granted?)
            && (forall k | 0 <= k < |log| && k != i && log[k].ByRequest? && log[k].id == log[i].id ::
                  !log[k].event.Compared?)
  {
    EveryRunKeepsTheInvariant(steps);
    var s := Run(INITIAL, steps);
    var log, id := s.log, s.log[i].id;
    assert log[i] in log;
    LoggedIsProjected(log, i);
    WhereEffectsStand(s.requests[id], |Project(log[..i], id)|);
    ProjectedIsLogged(log[..i], id, 0);
    var j :| 0 <= j < i && log[..i][j].ByRequest? && log[..i][j].id == id
             && log[..i][j].event == Project(log[..i], id)[0];
    assert log[j] in log;
    forall k | 0 <= k < |log| && k != i && log[k].ByRequest? && log[k].id == id ensures !log[k].event.Compared? {
      LoggedIsProjected(log, k);
      WhereEffectsStand(s.requests[id], |Project(log[..k], id)|);
      if k < i { PositionsAreDistinct(log, k, i); } else { PositionsAreDistinct(log, i, k); }
    }
  }

  // ---------------------------------------------------------------- what is given back

  /** A statement of the judgement sends the request to the give-back exactly when it fails. */
  lemma AFailedJudgementGivesBack(db: Db, r: Request, answer: Answer, now: int)
    requires (r.pc.ReadChallenge? && r.route.Verify?) || r.pc.Compare? || r.pc.Spend?
    ensures Advance(db, r, answer, now, 0, {}).request.pc.GiveBack? <==> answer.Fault?
  {
  }

  lemma EarlyFailuresKeepTheReservation(db: Db, r: Request, answer: Answer, now: int)
    requires r.pc.Admit? || r.pc.ReadState? || r.pc.ReadFactors? || r.pc.Reserving?
    ensures !Advance(db, r, answer, now, 0, {}).request.pc.GiveBack?
  {
  }

  lemma LateFailuresKeepTheReservation(db: Db, r: Request, answer: Answer, now: int)
    requires r.pc.GiveBack? || r.pc.ConsumeChallenge? || r.pc.Elevate? || r.pc.Succeed? || r.pc.Done?
    ensures !Advance(db, r, answer, now, 0, {}).request.pc.GiveBack?
  {
  }

  /** No other statement does, before the reservation or after the judgement. */
  lemma OtherFailuresKeepTheReservation(db: Db, r: Request, answer: Answer, now: int, secret: nat, codes: set<nat>)
    requires !r.pc.ReadChallenge? && !r.pc.Compare? && !r.pc.Spend?
    ensures !Advance(db, r, answer, now, secret, codes).request.pc.GiveBack?
  {
    if r.pc.Admit? || r.pc.ReadState? || r.pc.ReadFactors? || r.pc.Reserving? {
      EarlyFailuresKeepTheReservation(db, r, answer, now);
    } else if !r.pc.Write? {
      LateFailuresKeepTheReservation(db, r, answer, now);
    }
  }

  lemma GivingBackIsTheLastEffect(r: Request)
    requires Fits(r) && GaveBack in r.trace
    ensures r.pc == Done(500) && GivenBack(r.trace)
    ensures forall p | 0 <= p < |r.trace| - 1 :: r.trace[p] != GaveBack
    ensures forall e <- r.trace :: e != Compared(false) && !e.Consumed? && !e.Elevated? && !e.Cleared? && !e.Wrote?
  {
    var p :| 0 <= p < |r.trace| && r.trace[p] == GaveBack;
    WhereEffectsStand(r, p);
    var before := r.trace[..|r.trace| - 1];
    assert forall q | 0 <= q < |before| :: r.trace[q] == before[q];
  }

  /**
   In every run, a finished request has given its reservation back only if it ended in an error
   before its judgement was known: never after a code compared wrong, never with an answer to the
   client other than the error, at most once, and as its last effect.
   */
  lemma WhatIsGivenBackWasNotJudged(steps: seq<Step>, id: nat)
    requires var s := Run(INITIAL, steps); id in s.requests && GaveBack in s.requests[id].trace
    ensures var r := Run(INITIAL, steps).requests[id];
            && r.pc == Done(500) && GivenBack(r.trace)
            && (forall p | 0 <= p < |r.trace| - 1 :: r.trace[p] != GaveBack)
            && (forall e <- r.trace :: e != Compared(false) && !e.Consumed? && !e.Elevated? && !e.Cleared? && !e.Wrote?)
  {
    EveryRunKeepsTheInvariant(steps);
    GivingBackIsTheLastEffect(Run(INITIAL, steps).requests[id]);
  }

  /** Conversely every refusal, saturation, dead challenge and success keeps the reservation. */
  lemma EveryAnswerKeepsItsReservation(steps: seq<Step>, id: nat)
    requires var s := Run(INITIAL, steps);
             id in s.requests && s.requests[id].pc.Done? && s.requests[id].pc.status != 500
    ensures GaveBack !in Run(INITIAL, steps).requests[id].trace
  {
    if GaveBack in Run(INITIAL, steps).requests[id].trace {
      WhatIsGivenBackWasNotJudged(steps, id);
    }
  }

  // ---------------------------------------------------------------- the budget

  lemma {:induction false} WhatWasNotKeptWasReleased(ops: seq<Op>, id: nat)
    requires id in CurrentEpoch(ops).granted && id !in CurrentEpoch(ops).kept
    ensures Release(id) in ops
  {
    var before, op := ops[..|ops| - 1], ops[|ops| - 1];
    if op != Release(id) {
      WhatWasNotKeptWasReleased(before, id);
    }
  }

  /** The request was answered that its code is wrong, or had been used already. */
  predicate AnsweredWrong(r: Request) {
    WrongTrace(r.trace) && r.pc == Done(r.RefusalStatus())
  }

  lemma AReleaseIsAGiveBack(s: State, operator: nat, id: nat)
    requires JournalIsTheInterleaving(s) && Release(id) in AttemptsOf(s.log, operator)
    ensures id in s.requests && GaveBack in s.requests[id].trace
  {
    var ops := AttemptsOf(s.log, operator);
    var k :| 0 <= k < |ops| && ops[k] == Release(id);
    OpsComeFromEntries(s.log, operator, CounterOp, k);
    var j :| 0 <= j < |s.log| && EntryOp(s.log[j], operator, CounterOp) == Some(ops[k]);
    assert s.log[j] in s.log;
    LoggedIsProjected(s.log, j);
  }

  lemma WhatIsNotGivenBackIsKept(s: State, operator: nat, id: nat)
    requires RequestsFit(s) && JournalIsTheInterleaving(s)
    requires id in s.requests && s.requests[id].pc != Done(500)
    requires id in CurrentEpoch(AttemptsOf(s.log, operator)).granted
    ensures id in CurrentEpoch(AttemptsOf(s.log, operator)).kept
  {
    var ops := AttemptsOf(s.log, operator);
    if id !in CurrentEpoch(ops).kept {
      WhatWasNotKeptWasReleased(ops, id);
      AReleaseIsAGiveBack(s, operator, id);
      GivingBackIsTheLastEffect(s.requests[id]);
    }
  }

  /** The requests of the current epoch of an operator that were answered "wrong code". */
  ghost function WrongIn(s: State, operator: nat): set<nat> {
    set id | id in CurrentEpoch(AttemptsOf(s.log, operator)).granted && id in s.requests
        && AnsweredWrong(s.requests[id])
  }

  lemma WrongCodesAreKept(s: State, operator: nat)
    requires RequestsFit(s) && JournalIsTheInterleaving(s)
    ensures WrongIn(s, operator) <= CurrentEpoch(AttemptsOf(s.log, operator)).kept
  {
    forall id <- WrongIn(s, operator) ensures id in CurrentEpoch(AttemptsOf(s.log, operator)).kept {
      WhatIsNotGivenBackIsKept(s, operator, id);
    }
  }

  /**
   Every interleaving, every operator, every moment, since the last clear or forget. What is granted
   and not given back is what the row counts, up to ties, give-backs of older epochs and give-backs
   that found no count. So the codes answered wrong outnumber the threshold exactly when ties and
   older give-backs outnumber the rest: the give-backs that found no count, the room the row has left,
   and the reservations kept by requests that were not answered "wrong code". Without tie and without
   older give-back they never do.
   */
  lemma WrongCodesStayInBudget(steps: seq<Step>, operator: nat)
    ensures var s := Run(INITIAL, steps);
            var row, epoch := RowOf(s.db.attempts, operator), CurrentEpoch(AttemptsOf(s.log, operator));
            var room, others := MAX_FAILURES - CountOf(row), epoch.kept - WrongIn(s, operator);
            && room >= 0
            && WrongIn(s, operator) <= epoch.kept
            && |epoch.granted| - epoch.released == CountOf(row) + epoch.ties - epoch.lost
            && |epoch.kept| == CountOf(row) + epoch.ties + epoch.stale - epoch.lost
            && (|WrongIn(s, operator)| > MAX_FAILURES <==> epoch.ties + epoch.stale > epoch.lost + room + |others|)
            && (epoch.ties == 0 && epoch.stale == 0 ==> |WrongIn(s, operator)| <= CountOf(row) == |epoch.kept|)
  {
    EveryRunKeepsTheInvariant(steps);
    var s := Run(INITIAL, steps);
    var ops := AttemptsOf(s.log, operator);
    assert RowOf(s.db.attempts, operator) == Replay(Absent, ops);
    assert DistinctReservations(ops);
    EpochBudget(ops);
    WrongCodesAreKept(s, operator);
    TwoPartsAreTheWhole(WrongIn(s, operator), CurrentEpoch(ops).kept);
  }

  lemma TwoPartsAreTheWhole(a: set<nat>, b: set<nat>)
    requires a <= b
    ensures |a| + |b - a| == |b|
  {
    assert a + (b - a) == b;
  }

  // ---------------------------------------------------------------- elevations

  /** The request has consumed a challenge of its operator. */
  predicate HasConsumed(entry: Entry<Event>, id: nat, operator: nat, challenge: nat) {
    && entry.ByRequest? && entry.id == id && entry.subject == operator
    && entry.event.Consumed? && entry.event.challenge == challenge
  }

  lemma AnElevationConsumed(s: State, i: nat) returns (k: nat)
    requires Invariant(s) && i < |s.log| && s.log[i].ByRequest? && s.log[i].event.Elevated?
    ensures var r := s.requests[s.log[i].id];
            && r.route.Verify? && s.log[i].event.session == r.session && s.log[i].subject == r.operator
            && k < i && HasConsumed(s.log[k], s.log[i].id, r.operator, r.route.challenge)
  {
    var log, id := s.log, s.log[i].id;
    assert log[i] in log;
    var r := s.requests[id];
    LoggedIsProjected(log, i);
    WhereEffectsStand(r, |Project(log[..i], id)|);
    assert Project(log[..i], id)[3] == r.trace[..5][3];
    ProjectedIsLogged(log[..i], id, 3);
    k :| 0 <= k < i && log[..i][k].ByRequest? && log[..i][k].id == id
         && log[..i][k].event == r.trace[3];
    assert log[k] in log;
  }

  /** The request has spent the proof it was judged by. */
  predicate HasSpent(entry: Entry<Event>, id: nat, operator: nat) {
    entry.ByRequest? && entry.id == id && entry.subject == operator && entry.event.Spent? && entry.event.ok
  }

  lemma AConsumptionSpent(s: State, k: nat) returns (j: nat)
    requires Invariant(s) && k < |s.log| && s.log[k].ByRequest? && s.log[k].event.Consumed?
    ensures j < k && HasSpent(s.log[j], s.log[k].id, s.log[k].subject)
  {
    var log, id := s.log, s.log[k].id;
    assert log[k] in log;
    var r := s.requests[id];
    LoggedIsProjected(log, k);
    WhereEffectsStand(r, |Project(log[..k], id)|);
    assert Project(log[..k], id)[2] == r.trace[..4][2];
    ProjectedIsLogged(log[..k], id, 2);
    j :| 0 <= j < k && log[..k][j].ByRequest? && log[..k][j].id == id && log[..k][j].event.Spent?
         && log[..k][j].event.ok;
    assert log[j] in log;
  }

  /**
   In every interleaving, a session is only elevated by a request whose own code was spent and which
   had then consumed its own challenge, a challenge of the operator of that session, before its deadline.
   */
  lemma EveryElevationIsBacked(steps: seq<Step>, i: nat)
    requires var log := Run(INITIAL, steps).log; i < |log| && log[i].ByRequest? && log[i].event.Elevated?
    ensures var s := Run(INITIAL, steps);
            && s.log[i].id in s.requests
            && var r := s.requests[s.log[i].id];
            && r.route.Verify? && s.log[i].event.session == r.session
            && (exists j, k :: 0 <= j < k < i
                               && HasSpent(s.log[j], s.log[i].id, r.operator)
                               && HasConsumed(s.log[k], s.log[i].id, r.operator, r.route.challenge)
                               && r.route.challenge in s.db.challenges
                               && s.log[k].event.at < s.db.challenges[r.route.challenge].expires)
            && r.session in s.db.sessions && r.route.challenge in s.db.challenges
            && s.db.sessions[r.session].operator == s.db.challenges[r.route.challenge].operator == r.operator
  {
    EveryRunKeepsTheInvariant(steps);
    var s := Run(INITIAL, steps);
    assert s.log[i] in s.log;
    var k := AnElevationConsumed(s, i);
    assert s.log[k] in s.log;
    var j := AConsumptionSpent(s, k);
    assert s.requests[s.log[i].id].trace != [] by { LoggedIsProjected(s.log, i); }
  }

  lemma ASuccessConsumedItsChallenge(s: State, id: nat) returns (k: nat)
    requires Invariant(s) && id in s.requests && s.requests[id].route.Verify?
    requires s.requests[id].pc == Done(204)
    ensures k < |s.log| && HasConsumed(s.log[k], id, s.requests[id].operator, s.requests[id].route.challenge)
  {
    var r := s.requests[id];
    assert ElevationTrace(r, r.trace, 6);
    ProjectedIsLogged(s.log, id, 3);
    k :| 0 <= k < |s.log| && s.log[k].ByRequest? && s.log[k].id == id && s.log[k].event == r.trace[3];
    assert s.log[k] in s.log;
  }

  lemma ConsumersOfOneChallenge(s: State, i: nat, j: nat)
    requires ConsumptionsAreUnique(s) && i < |s.log| && j < |s.log|
    requires s.log[i].ByRequest? && s.log[j].ByRequest? && s.log[i].event.Consumed? && s.log[j].event.Consumed?
    requires s.log[i].event.challenge == s.log[j].event.challenge
    ensures i == j
  {
  }

  /** However many requests present one challenge, at most one is answered 204. */
  lemma OneSuccessPerChallenge(steps: seq<Step>, a: nat, b: nat)
    requires var s := Run(INITIAL, steps);
             && a in s.requests && b in s.requests
             && s.requests[a].route.Verify? && s.requests[b].route.Verify?
             && s.requests[a].route.challenge == s.requests[b].route.challenge
             && s.requests[a].pc == Done(204) && s.requests[b].pc == Done(204)
    ensures a == b
  {
    EveryRunKeepsTheInvariant(steps);
    var s := Run(INITIAL, steps);
    var i := ASuccessConsumedItsChallenge(s, a);
    var j := ASuccessConsumedItsChallenge(s, b);
    ConsumersOfOneChallenge(s, i, j);
  }

  /** Two elevations come from two requests that consumed two different challenges. */
  lemma ElevationsMapInjectivelyToChallenges(steps: seq<Step>, i: nat, j: nat)
    requires var log := Run(INITIAL, steps).log;
             && i < j < |log| && log[i].ByRequest? && log[j].ByRequest? && log[i].event.Elevated?
             && log[j].event.Elevated?
    ensures var s := Run(INITIAL, steps);
            && s.log[i].id != s.log[j].id && s.log[i].id in s.requests && s.log[j].id in s.requests
            && s.requests[s.log[i].id].route.Verify? && s.requests[s.log[j].id].route.Verify?
            && s.requests[s.log[i].id].route.challenge != s.requests[s.log[j].id].route.challenge
  {
    EveryRunKeepsTheInvariant(steps);
    var s := Run(INITIAL, steps);
    var log := s.log;
    EveryElevationIsBacked(steps, i);
    EveryElevationIsBacked(steps, j);
    var a, b := log[i].id, log[j].id;
    if a == b {
      PositionsAreDistinct(log, i, j);
      LoggedIsProjected(log, i);
      LoggedIsProjected(log, j);
      WhereEffectsStand(s.requests[a], |Project(log[..i], a)|);
      WhereEffectsStand(s.requests[a], |Project(log[..j], a)|);
    } else {
      var k := AnElevationConsumed(s, i);
      var l := AnElevationConsumed(s, j);
      if log[k].event.challenge == log[l].event.challenge {
        ConsumersOfOneChallenge(s, k, l);
      }
    }
  }
}
