/**
 Nothing is spent twice: in every interleaving the time steps spent on one secret strictly increase,
 and a recovery code of one set is spent at most once.
 */
module FactorReplay {
  import opened Common
  import opened Journal
  import opened SecondFactor

  /** The entry replaces the secret in place and its codes: another enrolment, a confirmation, a reset. */
  predicate Replaces(entry: Entry<Event>) {
    match entry
    case ByReset(_) => true
    case ByRequest(_, _, event) =>
      (event.Wrote? && !event.pending) || (event.Spent? && event.ok && event.proof.PendingSecret?)
  }

  predicate Spends(entry: Entry<Event>) {
    entry.ByRequest? && entry.event.Spent? && entry.event.ok
  }

  /** What was spent on an operator's factor since it was put in place, the confirming code included. */
  function SpentSince(log: seq<Entry<Event>>, operator: nat): (spent: set<Proof>) {
    if log == [] then {} else
      var entry, before := log[|log| - 1], SpentSince(log[..|log| - 1], operator);
      if entry.subject != operator then before
      else (if Replaces(entry) then {} else before) + if Spends(entry) then {entry.event.proof} else {}
  }

  lemma OneMoreSpent(log: seq<Entry<Event>>, entry: Entry<Event>, operator: nat)
    ensures SpentSince(log + [entry], operator) ==
            if entry.subject != operator then SpentSince(log, operator)
            else (if Replaces(entry) then {} else SpentSince(log, operator))
                 + if Spends(entry) then {entry.event.proof} else {}
  {
    assert (log + [entry])[..|log|] == log;
  }

  /** The time step a proof uses up, if it is one of an authenticator. */
  function StepOf(proof: Proof): Option<int> {
    match proof
    case TotpStep(_, step) => Some(step)
    case PendingSecret(_, step) => Some(step)
    case _ => None
  }

  /** The rows refuse the proof from now on. */
  predicate UsedUp(db: Db, operator: nat, proof: Proof) {
    proof != Assertion ==>
      && operator in db.accounts
      && var account := db.accounts[operator];
      && (StepOf(proof).Some? ==> account.lastStep.Some? && StepOf(proof).value <= account.lastStep.value)
      && (proof.RecoveryCode? ==> proof.code !in account.codes)
  }

  ghost predicate SpentIsUsedUp(s: State, operator: nat) {
    forall proof <- SpentSince(s.log, operator) :: UsedUp(s.db, operator, proof)
  }

  /** A proof that the rows can still accept after what was spent before it. */
  predicate IsNew(spent: set<Proof>, proof: Proof) {
    && (proof.TotpStep? ==> forall other <- spent | StepOf(other).Some? :: StepOf(other).value < proof.step)
    && (proof.RecoveryCode? ==> proof !in spent)
  }

  ghost predicate NothingIsReplayed(log: seq<Entry<Event>>) {
    forall k | 0 <= k < |log| && Spends(log[k]) :: IsNew(SpentSince(log[..k], log[k].subject), log[k].event.proof)
  }

  ghost predicate Unreplayed(s: State) {
    (forall operator :: SpentIsUsedUp(s, operator)) && NothingIsReplayed(s.log)
  }

  // ---------------------------------------------------------------- one move

  /** The factor an operator holds stays, but for what can only be used up further. */
  predicate NoNewLife(before: Db, after: Db, operator: nat) {
    operator in before.accounts ==>
      && operator in after.accounts
      && var was, now := before.accounts[operator], after.accounts[operator];
      && now.codes <= was.codes
      && (was.lastStep.Some? ==> now.lastStep.Some? && was.lastStep.value <= now.lastStep.value)
  }

  /** The rows accept the proof. */
  predicate Acceptable(db: Db, operator: nat, proof: Proof) {
    proof != Assertion ==>
      && operator in db.accounts
      && var account := db.accounts[operator];
      && (proof.TotpStep? ==> account.lastStep.None? || account.lastStep.value < proof.step)
      && (proof.RecoveryCode? ==> proof.code in account.codes)
  }

  lemma WhatIsAcceptableIsNew(db: Db, operator: nat, spent: set<Proof>, proof: Proof)
    requires Acceptable(db, operator, proof) && forall other <- spent :: UsedUp(db, operator, other)
    ensures IsNew(spent, proof)
  {
  }

  /** What a move does to the factors: unless its effect replaces one, it only uses up. */
  ghost predicate UsesUp(db: Db, r: Request, m: Move) {
    && m.request.operator == r.operator
    && (forall operator ::
          (operator == r.operator && m.event.Some? && Replaces(ByRequest(0, r.operator, m.event.value)))
          || NoNewLife(db, m.db, operator))
    && (m.event.Some? && m.event.value.Spent? && m.event.value.ok ==>
          Acceptable(db, r.operator, m.event.value.proof) && UsedUp(m.db, r.operator, m.event.value.proof))
  }

  /** An accepted proof was acceptable and is used up; only a pending secret brings a new factor. */
  lemma TheStoreUsesUp(db: Db, operator: nat, proof: Proof, accepted: bool)
    ensures var (after, ok) := SpendOn(db, operator, proof, accepted);
            && (ok ==> Acceptable(db, operator, proof) && UsedUp(after, operator, proof))
            && (forall other :: (other == operator && ok && proof.PendingSecret?) || NoNewLife(db, after, other))
  {
  }

  lemma SpendingUsesUp(db: Db, r: Request, answer: Answer)
    requires r.pc.Spend?
    ensures UsesUp(db, r, DoSpend(db, r, answer))
  {
    TheStoreUsesUp(db, r.operator, r.pc.proof, answer.Answered? && answer.accepted);
  }

  lemma WritingUsesUp(db: Db, r: Request, answer: Answer, secret: nat, codes: set<nat>)
    requires r.pc.Write?
    ensures UsesUp(db, r, DoWrite(db, r, answer, secret, codes))
  {
  }

  /** The move touches no account, and only a comparison sends a request to spend. */
  predicate LeavesFactors(db: Db, r: Request, m: Move) {
    && m.request.operator == r.operator && m.db.accounts == db.accounts
    && (m.event.Some? ==> !m.event.value.Spent? && !m.event.value.Wrote?)
    && (m.request.pc.Spend? ==> r.pc.Compare?)
  }

  lemma ReadingLeavesFactors(db: Db, r: Request, answer: Answer, now: int)
    requires r.pc.Admit? || r.pc.ReadState? || r.pc.ReadFactors?
    ensures LeavesFactors(db, r, Advance(db, r, answer, now, 0, {}))
  {
  }

  lemma JudgingLeavesFactors(db: Db, r: Request, answer: Answer, now: int)
    requires r.pc.Reserving? || r.pc.ReadChallenge? || r.pc.Compare?
    ensures LeavesFactors(db, r, Advance(db, r, answer, now, 0, {}))
  {
  }

  lemma ElevatingLeavesFactors(db: Db, r: Request, answer: Answer, now: int)
    requires r.pc.ConsumeChallenge? || r.pc.Elevate?
    ensures LeavesFactors(db, r, Advance(db, r, answer, now, 0, {}))
  {
  }

  lemma EndingLeavesFactors(db: Db, r: Request, answer: Answer, now: int)
    requires r.pc.GiveBack? || r.pc.Succeed? || r.pc.Done?
    ensures LeavesFactors(db, r, Advance(db, r, answer, now, 0, {}))
  {
  }

  /** No statement but a spending or a write touches a factor. */
  lemma OthersLeaveFactors(db: Db, r: Request, answer: Answer, now: int)
    requires !r.pc.Spend? && !r.pc.Write?
    ensures LeavesFactors(db, r, Advance(db, r, answer, now, 0, {}))
  {
    if r.pc.Admit? || r.pc.ReadState? || r.pc.ReadFactors? {
      ReadingLeavesFactors(db, r, answer, now);
    } else if r.pc.Reserving? || r.pc.ReadChallenge? || r.pc.Compare? {
      JudgingLeavesFactors(db, r, answer, now);
    } else if r.pc.ConsumeChallenge? || r.pc.Elevate? {
      ElevatingLeavesFactors(db, r, answer, now);
    } else {
      EndingLeavesFactors(db, r, answer, now);
    }
  }

  lemma LeavingUsesUp(db: Db, r: Request, m: Move)
    requires LeavesFactors(db, r, m)
    ensures UsesUp(db, r, m)
  {
  }

  lemma EveryMoveUsesUp(db: Db, r: Request, answer: Answer, now: int, secret: nat, codes: set<nat>)
    ensures UsesUp(db, r, Advance(db, r, answer, now, secret, codes))
  {
    match r.pc
    case Spend(_) => SpendingUsesUp(db, r, answer);
    case Write(_, _) => WritingUsesUp(db, r, answer, secret, codes);
    case _ =>
      OthersLeaveFactors(db, r, answer, now);
      LeavingUsesUp(db, r, Advance(db, r, answer, now, secret, codes));
  }

  // ---------------------------------------------------------------- every run

  lemma WhatIsUsedUpStaysSo(before: Db, after: Db, operator: nat, proof: Proof)
    requires UsedUp(before, operator, proof) && NoNewLife(before, after, operator)
    ensures UsedUp(after, operator, proof)
  {
  }

  lemma AnEntryKeepsThemUnreplayed(s: State, after: State, entry: Entry<Event>)
    requires Unreplayed(s) && after.log == s.log + [entry]
    requires forall operator :: (operator == entry.subject && Replaces(entry)) || NoNewLife(s.db, after.db, operator)
    requires Spends(entry) ==>
               Acceptable(s.db, entry.subject, entry.event.proof) && UsedUp(after.db, entry.subject, entry.event.proof)
    ensures Unreplayed(after)
  {
    forall operator ensures SpentIsUsedUp(after, operator) {
      OneMoreSpent(s.log, entry, operator);
      forall proof <- SpentSince(after.log, operator) ensures UsedUp(after.db, operator, proof) {
        if proof in SpentSince(s.log, operator) && !(operator == entry.subject && Replaces(entry)) {
          assert SpentIsUsedUp(s, operator);
          WhatIsUsedUpStaysSo(s.db, after.db, operator, proof);
        }
      }
    }
    TheEntryIsNew(s, entry);
  }

  lemma TheEntryIsNew(s: State, entry: Entry<Event>)
    requires Unreplayed(s)
    requires Spends(entry) ==> Acceptable(s.db, entry.subject, entry.event.proof)
    ensures NothingIsReplayed(s.log + [entry])
  {
    var log := s.log + [entry];
    forall k | 0 <= k < |log| && Spends(log[k])
      ensures IsNew(SpentSince(log[..k], log[k].subject), log[k].event.proof)
    {
      if k < |s.log| {
        assert log[..k] == s.log[..k] && log[k] == s.log[k];
      } else {
        assert log[..k] == s.log && SpentIsUsedUp(s, entry.subject);
        WhatIsAcceptableIsNew(s.db, entry.subject, SpentSince(s.log, entry.subject), entry.event.proof);
      }
    }
  }

  lemma NoEntryKeepsThemUnreplayed(s: State, after: State)
    requires Unreplayed(s) && after.log == s.log && forall operator :: NoNewLife(s.db, after.db, operator)
    ensures Unreplayed(after)
  {
    forall operator ensures SpentIsUsedUp(after, operator) {
      assert SpentIsUsedUp(s, operator) && NoNewLife(s.db, after.db, operator);
    }
  }

  lemma AStepReplaysNothing(s: State, step: Step)
    requires Unreplayed(s)
    ensures Unreplayed(Apply(s, step))
  {
    var after := Apply(s, step);
    if step.Act? && step.id in s.requests {
      ActReplaysNothing(s, step);
    } else if step.ResetAccount? && step.operator in s.db.accounts {
      assert forall operator :: operator == step.operator || NoNewLife(s.db, after.db, operator);
      AnEntryKeepsThemUnreplayed(s, after, ByReset(step.operator));
    } else {
      assert forall operator :: NoNewLife(s.db, after.db, operator);
      NoEntryKeepsThemUnreplayed(s, after);
    }
  }

  lemma ActReplaysNothing(s: State, step: Step)
    requires Unreplayed(s) && step.Act? && step.id in s.requests
    ensures Unreplayed(Apply(s, step))
  {
    var r, after := s.requests[step.id], Apply(s, step);
    var m := Advance(s.db, r, step.answer, step.now, step.secret, step.codes);
    EveryMoveUsesUp(s.db, r, step.answer, step.now, step.secret, step.codes);
    if m.event.Some? {
      var entry := ByRequest(step.id, r.operator, m.event.value);
      assert Replaces(entry) == Replaces(ByRequest(0, r.operator, m.event.value));
      AnEntryKeepsThemUnreplayed(s, after, entry);
    } else {
      NoEntryKeepsThemUnreplayed(s, after);
    }
  }

  lemma {:induction false} NoRunReplays(steps: seq<Step>)
    ensures Unreplayed(Run(INITIAL, steps))
  {
    if steps != [] {
      NoRunReplays(steps[..|steps| - 1]);
      AStepReplaysNothing(Run(INITIAL, steps[..|steps| - 1]), steps[|steps| - 1]);
    }
  }

  // ---------------------------------------------------------------- two uses of one factor

  /** Nothing replaces the factor of an operator in the entries after `i` and before `j`. */
  predicate SameFactor(log: seq<Entry<Event>>, i: nat, j: nat, operator: nat)
    requires j <= |log|
  {
    forall k | i < k < j && log[k].subject == operator :: !Replaces(log[k])
  }

  lemma {:induction false} ASpentProofIsRemembered(log: seq<Entry<Event>>, i: nat, j: nat)
    requires i < j <= |log| && Spends(log[i]) && SameFactor(log, i, j, log[i].subject)
    ensures log[i].event.proof in SpentSince(log[..j], log[i].subject)
  {
    assert log[..j][..j - 1] == log[..j - 1];
    if i < j - 1 {
      ASpentProofIsRemembered(log, i, j - 1);
    }
  }

  /**
   In every interleaving of any number of requests, with any answer lost: of two time steps spent on
   one secret the later one is strictly greater, the step that confirmed the secret included.
   */
  lemma StepsIncrease(steps: seq<Step>, i: nat, j: nat)
    requires var log := Run(INITIAL, steps).log;
             && i < j < |log| && log[i].subject == log[j].subject && Spends(log[i]) && Spends(log[j])
             && StepOf(log[i].event.proof).Some? && log[j].event.proof.TotpStep?
             && SameFactor(log, i, j, log[i].subject)
    ensures var log := Run(INITIAL, steps).log; StepOf(log[i].event.proof).value < log[j].event.proof.step
  {
    NoRunReplays(steps);
    ASpentProofIsRemembered(Run(INITIAL, steps).log, i, j);
  }

  /** A recovery code is spent at most once while its set is in place. */
  lemma ACodeIsSpentOnce(steps: seq<Step>, i: nat, j: nat)
    requires var log := Run(INITIAL, steps).log;
             && i < j < |log| && log[i].subject == log[j].subject && Spends(log[i]) && Spends(log[j])
             && log[i].event.proof.RecoveryCode? && SameFactor(log, i, j, log[i].subject)
    ensures var log := Run(INITIAL, steps).log; log[i].event.proof != log[j].event.proof
  {
    NoRunReplays(steps);
    ASpentProofIsRemembered(Run(INITIAL, steps).log, i, j);
  }
}
