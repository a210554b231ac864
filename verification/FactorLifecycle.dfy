/**
 The life of an account's factors under enrolment and confirmation: what the write guards, what a
 request run on its own keeps, and where the guard of the write stops under interleaving.
 */
module FactorLifecycle {
  import opened Common
  import opened SecondFactor
  import opened SecondFactorRuns

  predicate GuardedIn(db: Db, operator: nat) {
    operator in db.accounts && db.accounts[operator].Guarded()
  }

  // ---------------------------------------------------------------- one write

  /** Spending a proof, of whatever kind, never takes the last held factor away. */
  lemma SpendingKeepsTheGuard(db: Db, operator: nat, proof: Proof, accepted: bool, other: nat)
    requires GuardedIn(db, other)
    ensures GuardedIn(SpendOn(db, operator, proof, accepted).0, other)
  {
  }

  /**
   An enrolment's write leaves a guarded account guarded exactly when it waits beside the factor in
   place, or a passkey stands, or the write was not allowed to replace.
   */
  lemma AWriteKeepsTheGuardIff(db: Db, operator: nat, replace: bool, pending: bool, secret: nat, codes: set<nat>)
    requires GuardedIn(db, operator)
    ensures GuardedIn(WriteOn(db, operator, replace, pending, secret, codes).0, operator)
       <==> pending || db.accounts[operator].passkeys > 0 || !replace
  {
  }

  // ---------------------------------------------------------------- the steps that touch no factor

  predicate TouchesFactors(pc: Pc) { pc.ReadState? || pc.ReadFactors? || pc.Spend? || pc.Write? }

  predicate Onward(route: Route, from: Pc, to: Pc) {
    || to == from || to.Done? || to.GiveBack?
    || (from.Admit? && to.ReadState?)
    || (from.Reserving? && (to.ReadChallenge? || to.Compare?))
    || (from.ReadChallenge? && route.Verify? && to.Compare?)
    || (from.Compare? && to.Spend?)
    || (from.ConsumeChallenge? && to.Elevate?)
    || (from.Elevate? && to.Succeed?)
  }

  /** The move leaves every account, and what the request has read of its own, as they were. */
  predicate Plain(db: Db, r: Request, m: Move) {
    && m.db.accounts == db.accounts
    && m.request == r.(pc := m.request.pc, failures := m.request.failures)
    && Onward(r.route, r.pc, m.request.pc)
    && (m.event.Some? ==> !m.event.value.Wrote?)
  }

  lemma EnteringIsPlain(db: Db, r: Request, answer: Answer, now: int)
    requires r.pc.Admit? || r.pc.Reserving?
    ensures Plain(db, r, Advance(db, r, answer, now, 0, {}))
  {
  }

  lemma JudgingIsPlain(db: Db, r: Request, answer: Answer, now: int)
    requires r.pc.ReadChallenge? || r.pc.Compare?
    ensures Plain(db, r, Advance(db, r, answer, now, 0, {}))
  {
  }

  lemma ClosingIsPlain(db: Db, r: Request, answer: Answer, now: int)
    requires r.pc.ConsumeChallenge? || r.pc.Elevate?
    ensures Plain(db, r, Advance(db, r, answer, now, 0, {}))
  {
  }

  lemma FinishingIsPlain(db: Db, r: Request, answer: Answer, now: int)
    requires r.pc.GiveBack? || r.pc.Succeed? || r.pc.Done?
    ensures Plain(db, r, Advance(db, r, answer, now, 0, {}))
  {
  }

  lemma OtherStepsArePlain(db: Db, r: Request, answer: Answer, now: int, secret: nat, codes: set<nat>)
    requires !TouchesFactors(r.pc)
    ensures Plain(db, r, Advance(db, r, answer, now, secret, codes))
  {
    if r.pc.Admit? || r.pc.Reserving? {
      EnteringIsPlain(db, r, answer, now);
    } else if r.pc.ReadChallenge? || r.pc.Compare? {
      JudgingIsPlain(db, r, answer, now);
    } else if r.pc.ConsumeChallenge? || r.pc.Elevate? {
      ClosingIsPlain(db, r, answer, now);
    } else {
      FinishingIsPlain(db, r, answer, now);
    }
  }

  // ---------------------------------------------------------------- one request at a time

  /** A request alone with a guarded account: what it has read is so, and it will only write beside. */
  predicate AloneFits(db: Db, r: Request) {
    && GuardedIn(db, r.operator)
    && var account := db.accounts[r.operator];
    match r.pc
    case ReadFactors => r.enrolled == account.Enrolled() && r.proven == account.Proven()
    case Reserving => r.route.Enroll? ==> r.WritesPending()
    case Compare => r.route.Enroll? ==> r.WritesPending()
    case Spend(_) => r.route.Enroll? ==> r.WritesPending()
    case Write(_, pending) => pending
    case _ => true
  }

  /** The move leaves the guard standing, and a secret it writes waits beside the factor in place. */
  predicate GuardedMove(r: Request, m: Move) {
    && AloneFits(m.db, m.request) && m.request.operator == r.operator && m.request.trace == r.trace
    && (m.event.Some? && m.event.value.Wrote? ==> m.event.value.pending)
  }

  lemma ReadingAlone(db: Db, r: Request, answer: Answer)
    requires AloneFits(db, r) && (r.pc.ReadState? || r.pc.ReadFactors?)
    ensures GuardedMove(r, if r.pc.ReadState? then DoReadState(db, r, answer) else DoReadFactors(db, r, answer))
  {
  }

  /** Where spending leads, and what it leaves of the request and of the rows. */
  lemma SpendingLeadsOn(db: Db, r: Request, answer: Answer)
    requires r.pc.Spend?
    ensures var m := DoSpend(db, r, answer);
            var spent := SpendOn(db, r.operator, r.pc.proof, answer.Answered? && answer.accepted);
            && (m.db == db || m.db == spent.0)
            && m.request == r.(pc := m.request.pc)
            && (m.event.Some? ==> m.event.value.Spent?)
            && var pc := m.request.pc;
               || pc == r.pc || pc.Done? || pc.GiveBack?
               || (r.route.Verify? && pc.ConsumeChallenge?) || (r.route.Confirm? && pc.Succeed?)
               || (r.route.Enroll? && pc == Write(true, r.WritesPending()))
  {
  }

  lemma SpendingAlone(db: Db, r: Request, answer: Answer)
    requires AloneFits(db, r) && r.pc.Spend?
    ensures GuardedMove(r, DoSpend(db, r, answer))
  {
    SpendingLeadsOn(db, r, answer);
    SpendingKeepsTheGuard(db, r.operator, r.pc.proof, answer.Answered? && answer.accepted, r.operator);
  }

  lemma WritingAlone(db: Db, r: Request, answer: Answer, secret: nat, codes: set<nat>)
    requires AloneFits(db, r) && r.pc.Write?
    ensures GuardedMove(r, DoWrite(db, r, answer, secret, codes))
  {
  }

  lemma PlainAlone(db: Db, r: Request, m: Move)
    requires AloneFits(db, r) && Plain(db, r, m) && !TouchesFactors(r.pc)
    ensures GuardedMove(r, m)
  {
  }

  lemma AStepAlone(db: Db, r: Request, answer: Answer, now: int, secret: nat, codes: set<nat>)
    requires AloneFits(db, r)
    ensures GuardedMove(r, Advance(db, r, answer, now, secret, codes))
  {
    match r.pc
    case ReadState => ReadingAlone(db, r, answer);
    case ReadFactors => ReadingAlone(db, r, answer);
    case Spend(_) => SpendingAlone(db, r, answer);
    case Write(_, _) => WritingAlone(db, r, answer, secret, codes);
    case _ =>
      OtherStepsArePlain(db, r, answer, now, secret, codes);
      PlainAlone(db, r, Advance(db, r, answer, now, secret, codes));
  }

  /** The steps of a single request, with nothing between them. */
  predicate Alone(steps: seq<Step>, id: nat) {
    forall step <- steps :: step.Act? && step.id == id
  }

  /** A request that has only arrived: it has read and done nothing. */
  predicate JustArrived(r: Request) {
    r.trace == [] && (r.pc.Admit? || r.pc.ReadState? || (r.pc.Reserving? && !r.route.Enroll?))
  }

  predicate StillGuarded(s: State, id: nat, operator: nat) {
    && id in s.requests && s.requests[id].operator == operator
    && AloneFits(s.db, s.requests[id])
    && forall e <- s.requests[id].trace | e.Wrote? :: e.pending
  }

  lemma OneStepAloneKeepsTheGuard(s: State, step: Step, operator: nat)
    requires step.Act? && StillGuarded(s, step.id, operator)
    ensures StillGuarded(Apply(s, step), step.id, operator)
  {
    var r := s.requests[step.id];
    AStepAlone(s.db, r, step.answer, step.now, step.secret, step.codes);
  }

  /**
   Request at a time, from any state and for any faults of its statements: no step of an enrolment,
   a confirmation or a verification leaves a guarded account without a held factor, and every secret
   such a request writes is written pending. So a secret in place is only overwritten directly when
   it was never proven and no passkey stands.
   */
  lemma {:induction false} ARequestAloneKeepsTheGuard(s: State, id: nat, steps: seq<Step>)
    requires id in s.requests && JustArrived(s.requests[id]) && Alone(steps, id)
    requires GuardedIn(s.db, s.requests[id].operator)
    ensures StillGuarded(Run(s, steps), id, s.requests[id].operator)
  {
    if steps != [] {
      var before, step := steps[..|steps| - 1], steps[|steps| - 1];
      ARequestAloneKeepsTheGuard(s, id, before);
      OneStepAloneKeepsTheGuard(Run(s, before), step, s.requests[id].operator);
    }
  }

  // ---------------------------------------------------------------- any interleaving

  /** The effects of a code judged right, and nothing else. */
  predicate ProofShown(t: seq<Event>) {
    |t| == 3 && t[0].Granted? && t[1] == Compared(true) && t[2].Spent? && t[2].ok
  }

  /**
   What a write rests on: a proof where the request has read a secret that was proven or stands beside a
   passkey, nothing where it has read neither, and an elevation where it has read a passkey alone.
   */
  predicate Earned(r: Request, t: seq<Event>) {
    if r.enrolled && (r.proven || r.passkeys > 0) then ProofShown(t)
    else t == [] && (!r.enrolled && r.passkeys > 0 ==> r.elevated)
  }

  predicate HasWritten(t: seq<Event>) { t != [] && t[|t| - 1].Wrote? }

  /** Where a request stands, in terms of what it has read. */
  predicate ReadFits(r: Request) {
    match r.pc
    case Reserving => r.route.Enroll? ==> r.enrolled && (r.proven || r.passkeys > 0)
    case Compare => r.route.Enroll? ==> r.enrolled && (r.proven || r.passkeys > 0)
    case Spend(_) => r.route.Enroll? ==> r.enrolled && (r.proven || r.passkeys > 0)
    case Write(replace, pending) => replace == r.enrolled && pending == r.WritesPending() && Earned(r, r.trace)
    case Done(_) =>
      HasWritten(r.trace) ==>
        Earned(r, r.trace[..|r.trace| - 1]) && r.trace[|r.trace| - 1].pending == r.WritesPending()
    case _ => true
  }

  lemma AWriteEndsItsRequest(r: Request)
    requires Fits(r) && !r.pc.Done?
    ensures !HasWritten(r.trace)
  {
  }

  lemma AStepKeepsWhatWasRead(db: Db, r: Request, answer: Answer, now: int, secret: nat, codes: set<nat>)
    requires Fits(r) && ReadFits(r)
    ensures ReadFits(Moved(r, Advance(db, r, answer, now, secret, codes)))
  {
    match r.pc
    case ReadState => ReadingKeepsWhatWasRead(db, r, answer);
    case ReadFactors => ReadingKeepsWhatWasRead(db, r, answer);
    case Spend(_) => SpendingKeepsWhatWasRead(db, r, answer);
    case Write(_, _) => WritingKeepsWhatWasRead(db, r, answer, secret, codes);
    case Done(_) =>
    case _ =>
      AWriteEndsItsRequest(r);
      OtherStepsArePlain(db, r, answer, now, secret, codes);
      PlainKeepsWhatWasRead(db, r, Advance(db, r, answer, now, secret, codes));
  }

  lemma PlainKeepsWhatWasRead(db: Db, r: Request, m: Move)
    requires !HasWritten(r.trace) && ReadFits(r) && Plain(db, r, m) && !TouchesFactors(r.pc) && !r.pc.Done?
    ensures ReadFits(Moved(r, m))
  {
  }

  lemma ReadingKeepsWhatWasRead(db: Db, r: Request, answer: Answer)
    requires Fits(r) && ReadFits(r) && (r.pc.ReadState? || r.pc.ReadFactors?)
    ensures ReadFits(Moved(r, if r.pc.ReadState? then DoReadState(db, r, answer) else DoReadFactors(db, r, answer)))
  {
  }

  lemma SpendingKeepsWhatWasRead(db: Db, r: Request, answer: Answer)
    requires Fits(r) && ReadFits(r) && r.pc.Spend?
    ensures ReadFits(Moved(r, DoSpend(db, r, answer)))
  {
    SpendingLeadsOn(db, r, answer);
    SpendingIsTold(db, r, answer);
    AWriteEndsItsRequest(r);
  }

  /** What a spending tells when it sends the request on to its write. */
  lemma SpendingIsTold(db: Db, r: Request, answer: Answer)
    requires r.pc.Spend?
    ensures var m := DoSpend(db, r, answer); m.request.pc.Write? ==> m.event == Some(Spent(r.pc.proof, true))
  {
  }

  lemma WritingKeepsWhatWasRead(db: Db, r: Request, answer: Answer, secret: nat, codes: set<nat>)
    requires Fits(r) && ReadFits(r) && r.pc.Write?
    ensures ReadFits(Moved(r, DoWrite(db, r, answer, secret, codes)))
  {
    WritingEnds(db, r, answer, secret, codes);
    AWriteEndsItsRequest(r);
    var m := DoWrite(db, r, answer, secret, codes);
    if m.event.Some? {
      assert (r.trace + [m.event.value])[..|r.trace|] == r.trace;
    }
  }

  lemma {:induction false} WhatWasReadFits(steps: seq<Step>, id: nat)
    requires id in Run(INITIAL, steps).requests
    ensures ReadFits(Run(INITIAL, steps).requests[id])
  {
    var before, step := steps[..|steps| - 1], steps[|steps| - 1];
    var s := Run(INITIAL, before);
    if id in s.requests {
      WhatWasReadFits(before, id);
      if step.Act? && step.id == id {
        EveryRunKeepsTheInvariant(before);
        AStepKeepsWhatWasRead(s.db, s.requests[id], step.answer, step.now, step.secret, step.codes);
      }
    }
  }

  lemma WhereAWriteStands(r: Request, k: nat)
    requires Fits(r) && k < |r.trace| && r.trace[k].Wrote?
    ensures r.pc.Done? && k == |r.trace| - 1
  {
  }

  lemma WhatAWriteRestsOn(r: Request)
    requires ReadFits(r) && Fits(r) && (r.pc.Write? || HasWritten(r.trace))
    ensures r.enrolled && (r.proven || r.passkeys > 0) <==> |r.trace| >= 3
    ensures |r.trace| >= 3 ==>
              r.trace[0].Granted? && r.trace[1] == Compared(true) && r.trace[2].Spent? && r.trace[2].ok
    ensures !r.enrolled && r.passkeys > 0 ==> r.elevated
  {
    if !r.pc.Write? {
      WhereAWriteStands(r, |r.trace| - 1);
      assert ProofShown(r.trace[..|r.trace| - 1]) ==> r.trace[0] == r.trace[..|r.trace| - 1][0];
    }
  }

  /**
   In every interleaving, a request about to write replaces exactly what it has read as enrolled, and its
   write is pending exactly when it has read a proven secret or a passkey. And when it is about to write or
   has written: if it had read a secret that was proven, or that stands beside a passkey, a code of its own
   was reserved, compared right and spent before; if it had read a passkey and no secret, it was elevated;
   and otherwise it has presented nothing.
   */
  lemma EveryWriteRestsOnItsReading(steps: seq<Step>, id: nat)
    requires id in Run(INITIAL, steps).requests
    ensures var r := Run(INITIAL, steps).requests[id];
            && (r.pc.Write? ==>
                  (r.pc.replace <==> r.enrolled) && (r.pc.pending <==> (r.enrolled && r.proven) || r.passkeys > 0))
            && (r.pc.Write? || (exists e <- r.trace :: e.Wrote?) ==>
                  && (r.enrolled && (r.proven || r.passkeys > 0) <==> |r.trace| >= 3)
                  && (|r.trace| >= 3 ==>
                        && r.trace[0].Granted? && r.trace[1] == Compared(true)
                        && r.trace[2].Spent? && r.trace[2].ok)
                  && (!r.enrolled && r.passkeys > 0 ==> r.elevated))
            && (forall e <- r.trace | e.Wrote? ::
                  (e.pending <==> (r.enrolled && r.proven) || r.passkeys > 0) && e == r.trace[|r.trace| - 1])
  {
    EveryRunKeepsTheInvariant(steps);
    WhatWasReadFits(steps, id);
    var r := Run(INITIAL, steps).requests[id];
    assert Fits(r);
    WhatAWriteTells(r);
    if r.pc.Write? || HasWritten(r.trace) {
      WhatAWriteRestsOn(r);
    }
  }

  lemma WhatAWriteTells(r: Request)
    requires ReadFits(r) && Fits(r)
    ensures (exists e <- r.trace :: e.Wrote?) ==> HasWritten(r.trace)
    ensures forall e <- r.trace | e.Wrote? ::
              (e.pending <==> (r.enrolled && r.proven) || r.passkeys > 0) && e == r.trace[|r.trace| - 1]
  {
    forall k | 0 <= k < |r.trace| && r.trace[k].Wrote? ensures r.pc.Done? && k == |r.trace| - 1 {
      WhereAWriteStands(r, k);
    }
  }

  /** The write that takes the last held factor away. */
  predicate Overwrites(s: State, step: Step, operator: nat) {
    && step.Act? && step.id in s.requests && step.answer != Fault(false)
    && var r := s.requests[step.id];
    && r.operator == operator && r.pc == Write(true, false)
    && operator in s.db.accounts && s.db.accounts[operator].passkeys == 0
  }

  /**
   In every interleaving, a step of a request takes the last held factor of an account away exactly
   when it is a direct replacing write on an account that no passkey guards; and the request then
   decided on a reading in which the secret was not proven yet - the proof landed in between.
   */
  lemma TheGuardIsLostIff(steps: seq<Step>, step: Step, operator: nat)
    requires step.Act? && GuardedIn(Run(INITIAL, steps).db, operator)
    ensures var s := Run(INITIAL, steps);
            && (!GuardedIn(Apply(s, step).db, operator) <==> Overwrites(s, step, operator))
            && (Overwrites(s, step, operator) ==>
                  var r := s.requests[step.id];
                  r.enrolled && !r.proven && r.passkeys == 0 && s.db.accounts[operator].Proven())
  {
    var s := Run(INITIAL, steps);
    if step.id in s.requests {
      var r := s.requests[step.id];
      EveryWriteRestsOnItsReading(steps, step.id);
      if r.pc.Spend? {
        SpendingKeepsTheGuard(s.db, r.operator, r.pc.proof, step.answer.Answered? && step.answer.accepted, operator);
      } else if !TouchesFactors(r.pc) {
        OtherStepsArePlain(s.db, r, step.answer, step.now, step.secret, step.codes);
      }
    }
  }
}
