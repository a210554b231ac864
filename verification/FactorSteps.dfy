/**
 When one step of a second-factor request takes effect, from any state whatever and so in the middle of any
 interleaving: in the columns of the rows as the step finds them.
 */
module FactorSteps {
  import opened Common
  import Counters
  import opened Journal
  import opened SecondFactor
  import opened SecondFactorRuns

  // ---------------------------------------------------------------- what a move keeps

  /**
   The move leaves what the request arrived with; only a consumption touches a challenge, only an elevation a
   session.
   */
  predicate Kept(db: Db, r: Request, m: Move) {
    && m.request.route == r.route && m.request.session == r.session
    && m.request.operator == r.operator && m.request.elevated == r.elevated
    && (r.pc.ConsumeChallenge? || m.db.challenges == db.challenges)
    && (r.pc.Elevate? || m.db.sessions == db.sessions)
  }

  lemma ReadingKeeps(db: Db, r: Request, answer: Answer, now: int)
    requires r.pc.Admit? || r.pc.ReadState? || r.pc.ReadFactors?
    ensures Kept(db, r, Advance(db, r, answer, now, 0, {}))
  {
  }

  lemma JudgingKeeps(db: Db, r: Request, answer: Answer, now: int)
    requires r.pc.Reserving? || r.pc.ReadChallenge? || r.pc.Compare?
    ensures Kept(db, r, Advance(db, r, answer, now, 0, {}))
  {
  }

  lemma ConsumingKeeps(db: Db, r: Request, answer: Answer, now: int)
    requires r.pc.ConsumeChallenge?
    ensures Kept(db, r, Advance(db, r, answer, now, 0, {}))
  {
  }

  lemma ElevatingKeeps(db: Db, r: Request, answer: Answer)
    requires r.pc.Elevate?
    ensures Kept(db, r, DoElevate(db, r, answer))
  {
    ElevatingEnds(db, r, answer);
  }

  lemma EndingKeeps(db: Db, r: Request, answer: Answer, now: int)
    requires r.pc.GiveBack? || r.pc.Succeed? || r.pc.Done?
    ensures Kept(db, r, Advance(db, r, answer, now, 0, {}))
  {
  }

  lemma SpendingKeeps(db: Db, r: Request, answer: Answer)
    requires r.pc.Spend?
    ensures Kept(db, r, DoSpend(db, r, answer))
  {
    SpendingTouchesAccountsOnly(db, r.operator, r.pc.proof, answer.Answered? && answer.accepted);
  }

  lemma WritingKeeps(db: Db, r: Request, answer: Answer, secret: nat, codes: set<nat>)
    requires r.pc.Write?
    ensures Kept(db, r, DoWrite(db, r, answer, secret, codes))
  {
    WritingEnds(db, r, answer, secret, codes);
    WritingTouchesAccountsOnly(db, r.operator, r.pc.replace, r.pc.pending, secret, codes);
  }

  lemma EveryMoveKeeps(db: Db, r: Request, answer: Answer, now: int, secret: nat, codes: set<nat>)
    ensures Kept(db, r, Advance(db, r, answer, now, secret, codes))
  {
    if r.pc.Write? {
      WritingKeeps(db, r, answer, secret, codes);
    } else if r.pc.Spend? {
      SpendingKeeps(db, r, answer);
    } else {
      OnlyWritesDraw(db, r, answer, now, secret, codes);
      if r.pc.Admit? || r.pc.ReadState? || r.pc.ReadFactors? {
        ReadingKeeps(db, r, answer, now);
      } else if r.pc.Reserving? || r.pc.ReadChallenge? || r.pc.Compare? {
        JudgingKeeps(db, r, answer, now);
      } else if r.pc.ConsumeChallenge? {
        ConsumingKeeps(db, r, answer, now);
      } else if r.pc.Elevate? {
        ElevatingKeeps(db, r, answer);
      } else {
        EndingKeeps(db, r, answer, now);
      }
    }
  }

  /** A request keeps the route, the session, the operator and the elevation it arrived with. */
  lemma WhatArrivedStays(s: State, step: Step, id: nat)
    requires id in s.requests
    ensures id in Apply(s, step).requests
    ensures var was, now := s.requests[id], Apply(s, step).requests[id];
            && now.route == was.route && now.session == was.session && now.operator == was.operator
            && now.elevated == was.elevated
  {
    if step.Act? && step.id == id {
      EveryMoveKeeps(s.db, s.requests[id], step.answer, step.now, step.secret, step.codes);
    }
  }

  // ---------------------------------------------------------------- statements that fail

  /** What a failed statement does to its request, and to the rows: nothing, or what it does when it answers. */
  predicate Fails(db: Db, r: Request, applied: bool, failed: Move, answered: Move) {
    && failed.request == r.(pc := if r.pc.ReadChallenge? || r.pc.Compare? || r.pc.Spend? then GiveBack else Done(500))
    && failed.db == (if applied then answered.db else db)
    && (!applied ==> failed.event.None?)
    && (applied && !r.pc.Reserving? ==> failed.event == answered.event)
    && (applied && r.pc.Reserving? ==> failed.event.Some? && failed.event.value.Unanswered?)
  }

  lemma AFailedReadingEnds(db: Db, r: Request, applied: bool, now: int)
    requires r.pc.Admit? || r.pc.ReadState? || r.pc.ReadFactors? || r.pc.ReadChallenge?
    requires r.pc.ReadChallenge? ==> r.route.Verify?
    ensures Fails(db, r, applied, Advance(db, r, Fault(applied), now, 0, {}),
                  Advance(db, r, Answered(false), now, 0, {}))
  {
  }

  lemma AFailedReservationEnds(db: Db, r: Request, applied: bool, now: int)
    requires r.pc.Reserving?
    ensures Fails(db, r, applied, Advance(db, r, Fault(applied), now, 0, {}),
                  Advance(db, r, Answered(false), now, 0, {}))
  {
  }

  lemma AFailedSpendingEnds(db: Db, r: Request, applied: bool, now: int)
    requires r.pc.Spend?
    ensures Fails(db, r, applied, Advance(db, r, Fault(applied), now, 0, {}),
                  Advance(db, r, Answered(false), now, 0, {}))
  {
  }

  lemma AFailedSuccessEnds(db: Db, r: Request, applied: bool, now: int)
    requires r.pc.ConsumeChallenge? || r.pc.Elevate? || r.pc.Succeed? || r.pc.GiveBack?
    requires r.pc.ConsumeChallenge? ==> r.route.Verify?
    ensures Fails(db, r, applied, Advance(db, r, Fault(applied), now, 0, {}),
                  Advance(db, r, Answered(false), now, 0, {}))
  {
  }

  lemma AFailedWriteEnds(db: Db, r: Request, applied: bool, secret: nat, codes: set<nat>)
    requires r.pc.Write?
    ensures Fails(db, r, applied, DoWrite(db, r, Fault(applied), secret, codes),
                  DoWrite(db, r, Answered(false), secret, codes))
  {
  }

  /**
   Wherever a statement fails, its effect is there whole or not at all, as the answer that was lost would have
   it; the request gives its reservation back if it was being judged, and ends with the error otherwise.
   */
  lemma AFailedStatementEnds(db: Db, r: Request, applied: bool, now: int, secret: nat, codes: set<nat>)
    requires !r.pc.Done? && !r.pc.Compare?
    requires r.pc.ReadChallenge? || r.pc.ConsumeChallenge? ==> r.route.Verify?
    ensures Fails(db, r, applied, Advance(db, r, Fault(applied), now, secret, codes),
                  Advance(db, r, Answered(false), now, secret, codes))
  {
    if r.pc.Write? {
      AFailedWriteEnds(db, r, applied, secret, codes);
    } else {
      OnlyWritesDraw(db, r, Fault(applied), now, secret, codes);
      OnlyWritesDraw(db, r, Answered(false), now, secret, codes);
      if r.pc.Reserving? {
        AFailedReservationEnds(db, r, applied, now);
      } else if r.pc.Spend? {
        AFailedSpendingEnds(db, r, applied, now);
      } else if r.pc.Admit? || r.pc.ReadState? || r.pc.ReadFactors? || r.pc.ReadChallenge? {
        AFailedReadingEnds(db, r, applied, now);
      } else {
        AFailedSuccessEnds(db, r, applied, now);
      }
    }
  }

  // ---------------------------------------------------------------- what is read

  /**
   A session that is read lets a request of its operator in: it stands alive, its account exists and is
   active. An enrolment that shows an assertion, and a confirmation without elevation, are refused all the
   same. Whether the session was elevated is what the request remembers.
   */
  lemma ARequestArrivesIff(db: Db, route: Route, session: nat)
    ensures var r := Arriving(db, route, session);
            && (!r.pc.Done? <==>
                && session in db.sessions && db.sessions[session].alive
                && db.sessions[session].operator in db.accounts && db.accounts[db.sessions[session].operator].active
                && route != Enroll(Some(Webauthn))
                && (route == Confirm ==> db.sessions[session].elevated))
            && (!r.pc.Done? ==>
                  && r.operator == db.sessions[session].operator && r.elevated == db.sessions[session].elevated
                  && r.pc == (if route.Verify? then Reserving else if route.Enroll? then Admit else ReadState))
  {
  }

  /** A state that is read lets the request go on iff its account is there and active, and a secret waits. */
  lemma AStateLetsGoOnIff(db: Db, r: Request, accepted: bool, now: int)
    requires r.pc.ReadState?
    ensures var m := Advance(db, r, Answered(accepted), now, 0, {});
            var found := r.operator in db.accounts && db.accounts[r.operator].active;
            && m.db == db && m.event.None?
            && (m.request.pc == Done(401) <==> !found)
            && (m.request.pc == Done(409) <==>
                  found && r.route.Confirm? && db.accounts[r.operator].pending.None?)
            && (m.request.pc == Reserving <==>
                  found && r.route.Confirm? && db.accounts[r.operator].pending.Some?)
            && (m.request.pc == ReadFactors <==> found && !r.route.Confirm?)
            && (m.request.pc == ReadFactors ==>
                  && m.request.enrolled == db.accounts[r.operator].secret.Some?
                  && m.request.proven == db.accounts[r.operator].lastStep.Some?)
  {
  }

  /**
   Where the factors lead an enrolment: to a direct write where it has read none, or a secret never proven
   without a passkey; to a pending one where it has read a passkey alone and was elevated; to the judgement of
   its proof where a factor is held; and to a refusal otherwise.
   */
  lemma TheFactorsDecide(db: Db, r: Request, accepted: bool, now: int)
    requires r.pc.ReadFactors? && r.operator in db.accounts
    ensures var m := Advance(db, r, Answered(accepted), now, 0, {});
            var passkeys := db.accounts[r.operator].passkeys;
            var held := r.enrolled && (r.proven || passkeys > 0);
            && m.db == db && m.event.None? && m.request.passkeys == passkeys
            && m.request.enrolled == r.enrolled && m.request.proven == r.proven
            && (m.request.pc == Write(false, false) <==> !r.enrolled && passkeys == 0)
            && (m.request.pc == Write(true, false) <==> r.enrolled && !r.proven && passkeys == 0)
            && (m.request.pc == Write(false, true) <==> !r.enrolled && passkeys > 0 && r.elevated)
            && (m.request.pc == Reserving <==> held && r.route.Enroll? && r.route.proof.Some?)
            && (m.request.pc == Done(409) <==>
                  || (!r.enrolled && passkeys > 0 && !r.elevated)
                  || (held && !(r.route.Enroll? && r.route.proof.Some?)))
  {
  }

  /**
   A challenge that is read leads to the comparison iff it exists, was not consumed, is in time and belongs
   to the operator of the request; to 401 otherwise.
   */
  lemma AChallengeLetsCompareIff(db: Db, r: Request, accepted: bool, now: int)
    requires r.pc.ReadChallenge? && r.route.Verify?
    ensures var m, challenge := Advance(db, r, Answered(accepted), now, 0, {}), r.route.challenge;
            && m.db == db && m.event.None? && m.request == r.(pc := m.request.pc)
            && (m.request.pc == Compare <==>
                && challenge in db.challenges && !db.challenges[challenge].consumed
                && now < db.challenges[challenge].expires && db.challenges[challenge].operator == r.operator)
            && (m.request.pc != Compare ==> m.request.pc == Done(401))
  {
  }

  /** A comparison finds a proof iff the rows hold it as it compares, under the means the route presents. */
  lemma AProofIsFoundIff(db: Db, r: Request, proof: Proof, now: int)
    requires r.pc.Compare?
    ensures var m := Advance(db, r, Match(proof), now, 0, {});
            var active := r.operator in db.accounts && db.accounts[r.operator].active;
            var recovery := (r.route.Verify? && r.route.means.Recovery?)
                         || (r.route.Enroll? && r.route.proof == Some(Recovery));
            && m.db == db
            && (m.event == Some(Compared(true)) <==> m.request.pc == Spend(proof))
            && (m.request.pc == Spend(proof) <==>
                if r.route.Confirm? then
                  proof.PendingSecret? && active && db.accounts[r.operator].pending == Some(proof.secret)
                else if r.route.Verify? && r.route.means.Webauthn? then proof.Assertion?
                else if recovery then
                  proof.RecoveryCode? && r.operator in db.accounts && proof.code in db.accounts[r.operator].codes
                else proof.TotpStep? && active && db.accounts[r.operator].secret == Some(proof.shown))
  {
  }

  // ---------------------------------------------------------------- what is written

  /** A proof is spent iff the row still lets it, and takes this from the account and nothing from another. */
  lemma AProofIsSpentIff(db: Db, r: Request, accepted: bool, now: int)
    requires r.pc.Spend?
    ensures var m, proof := Advance(db, r, Answered(accepted), now, 0, {}), r.pc.proof;
            && m.event == Some(Spent(proof, m.event.value.ok))
            && (m.event.value.ok <==>
                if proof.Assertion? then accepted
                else r.operator in db.accounts && var account := db.accounts[r.operator];
                  match proof
                  case TotpStep(_, step) => account.lastStep.None? || account.lastStep.value < step
                  case RecoveryCode(code) => code in account.codes
                  case PendingSecret(secret, _) => account.pending == Some(secret)
                  case Assertion => false)
            && (if m.event.value.ok then
                  && (r.route.Verify? ==> m.request.pc == ConsumeChallenge)
                  && (r.route.Confirm? ==> m.request.pc == Succeed)
                  && (r.route.Enroll? ==> m.request.pc == Write(true, (r.enrolled && r.proven) || r.passkeys > 0))
                else
                  && m.db == db && m.request.pc.Done?
                  && (r.failures >= 5 ==> m.request.pc.status == 429)
                  && (r.failures < 5 && r.route.Verify? ==> m.request.pc.status == 401)
                  && (r.failures < 5 && r.route.Enroll? ==> m.request.pc.status == 409)
                  && (r.failures < 5 && r.route.Confirm? ==> m.request.pc.status == 400))
  {
  }

  /** What a proof that is spent leaves. */
  lemma WhatASpendingLeaves(db: Db, r: Request, accepted: bool, now: int)
    requires r.pc.Spend? && r.operator in db.accounts
    requires Advance(db, r, Answered(accepted), now, 0, {}).event == Some(Spent(r.pc.proof, true))
    ensures var m, account := Advance(db, r, Answered(accepted), now, 0, {}), db.accounts[r.operator];
            m.db == db.(accounts := db.accounts[r.operator :=
              match r.pc.proof
              case TotpStep(_, step) => account.(lastStep := Some(step))
              case RecoveryCode(code) => account.(codes := account.codes - {code})
              case PendingSecret(secret, step) =>
                Account(account.active, Some(secret), Some(step), None, account.pendingCodes, {}, account.passkeys)
              case Assertion => account])
  {
    assert db.accounts[r.operator := db.accounts[r.operator]] == db.accounts;
  }

  /**
   A write lands iff its guard holds when it lands: a pending one on an account with a secret or a passkey, a
   direct one where it may replace or no secret is in place. It then leaves the account so.
   */
  lemma AWriteLandsIff(db: Db, r: Request, answer: Answer, now: int, secret: nat, codes: set<nat>)
    requires r.pc.Write? && answer != Fault(false)
    ensures var m := Advance(db, r, answer, now, secret, codes);
            && (m.event == Some(Wrote(r.pc.pending)) <==>
                && r.operator in db.accounts
                && if r.pc.pending
                     then db.accounts[r.operator].secret.Some? || db.accounts[r.operator].passkeys > 0
                   else r.pc.replace || db.accounts[r.operator].secret.None?)
            && (m.event.None? ==> m.db == db)
            && (m.event.Some? ==>
                  && r.operator in db.accounts && m.event == Some(Wrote(r.pc.pending))
                  && var account := db.accounts[r.operator];
                  m.db == db.(accounts := db.accounts[r.operator :=
                    if r.pc.pending then account.(pending := Some(secret), pendingCodes := codes)
                    else Account(account.active, Some(secret), None, None, codes, {}, account.passkeys)]))
  {
  }

  /** What a step that may consume a challenge finds. */
  predicate Consumes(s: State, step: Step, challenge: nat) {
    && step.Act? && step.id in s.requests && step.answer != Fault(false)
    && s.requests[step.id].pc.ConsumeChallenge?
    && s.requests[step.id].route.Verify? && s.requests[step.id].route.challenge == challenge
    && challenge in s.db.challenges && !s.db.challenges[challenge].consumed
    && step.now < s.db.challenges[challenge].expires
  }

  /**
   Only the consumption of a request that presents it consumes a challenge, and it does exactly when the
   statement reaches the row unconsumed and in time; it is journalled with its stamp.
   */
  lemma AChallengeIsConsumedIff(s: State, step: Step, challenge: nat)
    requires challenge in s.db.challenges
    ensures challenge in Apply(s, step).db.challenges
    ensures var was, now := s.db.challenges[challenge], Apply(s, step).db.challenges[challenge];
            && now == was.(consumed := now.consumed)
            && (now.consumed <==> was.consumed || Consumes(s, step, challenge))
    ensures Consumes(s, step, challenge) ==>
              Apply(s, step).log ==
              s.log + [ByRequest(step.id, s.requests[step.id].operator, Consumed(challenge, step.now))]
  {
    if step.Act? && step.id in s.requests {
      var r := s.requests[step.id];
      EveryMoveKeeps(s.db, r, step.answer, step.now, step.secret, step.codes);
    }
  }

  /** What a step that may elevate a session finds. */
  predicate Elevates(s: State, step: Step, session: nat) {
    && step.Act? && step.id in s.requests && step.answer != Fault(false)
    && s.requests[step.id].pc.Elevate? && s.requests[step.id].session == session
    && session in s.db.sessions && s.db.sessions[session].alive
    && var operator := s.db.sessions[session].operator;
       operator in s.db.accounts && s.db.accounts[operator].active
  }

  /** Only the elevation of a request of the session elevates it, while it is alive and its account active. */
  lemma ASessionIsElevatedIff(s: State, step: Step, session: nat)
    requires session in s.db.sessions
    ensures session in Apply(s, step).db.sessions
    ensures var was, now := s.db.sessions[session], Apply(s, step).db.sessions[session];
            && now.operator == was.operator
            && (now.elevated <==> was.elevated || Elevates(s, step, session))
  {
    if step.Act? && step.id in s.requests {
      var r := s.requests[step.id];
      EveryMoveKeeps(s.db, r, step.answer, step.now, step.secret, step.codes);
    }
  }

  // ---------------------------------------------------------------- what happens outside the requests

  /** The step resets an account that exists. */
  predicate Resets(s: State, step: Step, operator: nat) {
    step == ResetAccount(operator) && operator in s.db.accounts
  }

  /** A step that is not of a request, in the columns of the accounts, ... */
  lemma WhatElseHappensToAccounts(s: State, step: Step, operator: nat)
    requires !step.Act?
    ensures var accounts := Apply(s, step).db.accounts;
            && (operator in accounts <==> operator in s.db.accounts || step == CreateAccount(operator))
            && (operator in accounts && operator !in s.db.accounts ==>
                  accounts[operator] == Account(true, None, None, None, {}, {}, 0))
  {
  }

  lemma WhatElseHappensToAnAccount(s: State, step: Step, operator: nat)
    requires !step.Act? && operator in s.db.accounts && operator in Apply(s, step).db.accounts
    ensures Apply(s, step).db.accounts[operator] == AccountAfter(s.db.accounts[operator], step, operator)
  {
  }

  /** An account after the environment has touched it. */
  function AccountAfter(was: Account, step: Step, operator: nat): Account {
    match step
    case SetActive(id, active) => if id == operator then was.(active := active) else was
    case SetPasskeys(id, passkeys) => if id == operator then was.(passkeys := passkeys) else was
    case ResetAccount(id) => if id == operator then Account(was.active, None, None, None, {}, {}, 0) else was
    case _ => was
  }

  /** ... of the counters, ... */
  lemma WhatElseHappensToCounters(s: State, step: Step, operator: nat)
    requires !step.Act?
    ensures var after := Apply(s, step).db;
            && after.enrolments == s.db.enrolments
            && RowOf(after.attempts, operator) ==
                 (if Resets(s, step, operator) then Counters.Absent else RowOf(s.db.attempts, operator))
  {
  }

  /** ... of the sessions, ... */
  lemma WhatElseHappensToSessions(s: State, step: Step, id: nat)
    requires !step.Act?
    ensures var sessions := Apply(s, step).db.sessions;
            && (id in sessions <==> id in s.db.sessions || (step.OpenSession? && step.session == id))
            && (id in sessions && id !in s.db.sessions ==>
                  step.OpenSession? && sessions[id] == Session(step.operator, true, false))
  {
  }

  lemma WhatElseHappensToASession(s: State, step: Step, id: nat)
    requires !step.Act? && id in s.db.sessions && id in Apply(s, step).db.sessions
    ensures var was, now := s.db.sessions[id], Apply(s, step).db.sessions[id];
            && now.operator == was.operator && now.elevated == was.elevated
            && (now.alive <==> was.alive && step != CloseSession(id) && !Resets(s, step, was.operator))
  {
  }

  /** ... of the challenges, ... */
  lemma WhatElseHappensToChallenges(s: State, step: Step, id: nat)
    requires !step.Act?
    ensures var challenges := Apply(s, step).db.challenges;
            && (id in challenges <==> id in s.db.challenges || (step.IssueChallenge? && step.challenge == id))
            && (id in challenges && id !in s.db.challenges ==>
                  step.IssueChallenge? && challenges[id] == Challenge(step.operator, step.expires, false))
            && (id in s.db.challenges ==> challenges[id] == s.db.challenges[id])
  {
  }

  /** ... and in those of the requests. */
  lemma WhatElseHappensToRequests(s: State, step: Step)
    requires !step.Act?
    ensures Apply(s, step).requests ==
              if step.Arrive? && step.id !in s.requests
                then s.requests[step.id := Arriving(s.db, step.route, step.session)] else s.requests
    ensures Apply(s, step).log ==
              if step.ResetAccount? && step.operator in s.db.accounts then s.log + [ByReset(step.operator)] else s.log
  {
  }
}
