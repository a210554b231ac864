/**
 Which code proves a secret: a secret in place becomes proven by a code of its own, except where a
 direct write has replaced the secret between the comparison of a code and its spending.
 */
module FactorProvenance {
  import opened Common
  import opened Journal
  import opened SecondFactor
  import opened SecondFactorRuns
  import opened SecondFactorWitnesses
  import opened FactorReplay

  predicate ProvenIn(db: Db, operator: nat) {
    operator in db.accounts && db.accounts[operator].Enrolled() && db.accounts[operator].Proven()
  }

  /** The step makes the secret of an operator a proven one. */
  predicate BecomesProven(s: State, step: Step, operator: nat) {
    !ProvenIn(s.db, operator) && ProvenIn(Apply(s, step).db, operator)
  }

  /** What the step spends is a code of the secret that is then in place. */
  predicate ShowsWhatItProves(s: State, step: Step, operator: nat) {
    && operator in Apply(s, step).db.accounts
    && step.Act? && step.id in s.requests && s.requests[step.id].pc.Spend?
    && var secret := Apply(s, step).db.accounts[operator].secret;
       match s.requests[step.id].pc.proof
       case TotpStep(shown, _) => secret == Some(shown)
       case PendingSecret(shown, _) => secret == Some(shown)
       case _ => false
  }

  /** The spending of a time step reaches the store. */
  predicate SpendsAStep(s: State, step: Step, operator: nat) {
    && step.Act? && step.id in s.requests && (step.answer.Answered? || step.answer == Fault(true))
    && var r := s.requests[step.id];
    r.operator == operator && r.pc.Spend? && r.pc.proof.TotpStep?
  }

  /** ... and finds another secret in place than the one its code was compared with, never proven. */
  predicate SpendsOnAnother(s: State, step: Step, operator: nat) {
    && SpendsAStep(s, step, operator)
    && operator in s.db.accounts
    && var account := s.db.accounts[operator];
    && account.Enrolled() && !account.Proven() && account.secret != Some(s.requests[step.id].pc.proof.shown)
  }

  // ---------------------------------------------------------------- one step

  /** Which spending makes a secret proven, and of which secret. */
  lemma SpendingProves(db: Db, operator: nat, proof: Proof, accepted: bool, other: nat)
    ensures var (after, ok) := SpendOn(db, operator, proof, accepted);
            !ProvenIn(db, other) && ProvenIn(after, other) <==>
              && other == operator && ok && other in db.accounts && !ProvenIn(db, other)
              && (proof.PendingSecret? || (proof.TotpStep? && db.accounts[other].Enrolled()))
    ensures var (after, ok) := SpendOn(db, operator, proof, accepted);
            && (ok && proof.PendingSecret? ==>
                  operator in after.accounts && after.accounts[operator].secret == Some(proof.secret))
            && (proof.TotpStep? && other in db.accounts ==>
                  other in after.accounts && after.accounts[other].secret == db.accounts[other].secret)
            && (proof.TotpStep? && other == operator && other in db.accounts && !db.accounts[other].Proven() ==> ok)
  {
  }

  lemma WritingProvesNothing(db: Db, operator: nat, replace: bool, pending: bool, secret: nat, codes: set<nat>,
                             other: nat)
    requires ProvenIn(WriteOn(db, operator, replace, pending, secret, codes).0, other)
    ensures ProvenIn(db, other)
  {
  }

  /** Only a spending that reaches the store makes a secret proven. */
  lemma OnlySpendingProves(db: Db, r: Request, answer: Answer, now: int, secret: nat, codes: set<nat>, operator: nat)
    requires !r.pc.Spend? && ProvenIn(Advance(db, r, answer, now, secret, codes).db, operator)
    ensures ProvenIn(db, operator)
  {
    if r.pc.Write? {
      if ProvenIn(WriteOn(db, r.operator, r.pc.replace, r.pc.pending, secret, codes).0, operator) {
        WritingProvesNothing(db, r.operator, r.pc.replace, r.pc.pending, secret, codes, operator);
      }
    } else {
      OthersLeaveFactors(db, r, answer, now);
    }
  }

  /** The rows after a spending, whatever becomes of its answer. */
  lemma SpendingReachesTheStore(db: Db, r: Request, answer: Answer)
    requires r.pc.Spend?
    ensures var spent := SpendOn(db, r.operator, r.pc.proof, answer.Answered? && answer.accepted).0;
            DoSpend(db, r, answer).db == if answer.Answered? || answer == Fault(true) then spent else db
  {
  }

  /**
   From any state, whoever else is running: a step makes a secret proven without a code of it exactly
   when it spends a time step, compared with another secret, on one that was never proven.
   */
  lemma AnUnshownSecretIsProvenIff(s: State, step: Step, operator: nat)
    ensures BecomesProven(s, step, operator) && !ShowsWhatItProves(s, step, operator) <==>
            SpendsOnAnother(s, step, operator)
  {
    if step.Act? && step.id in s.requests {
      var r := s.requests[step.id];
      if r.pc.Spend? {
        SpendingReachesTheStore(s.db, r, step.answer);
        SpendingProves(s.db, r.operator, r.pc.proof, step.answer.Answered? && step.answer.accepted, operator);
      } else if BecomesProven(s, step, operator) {
        OnlySpendingProves(s.db, r, step.answer, step.now, step.secret, step.codes, operator);
      }
    }
  }

  // ---------------------------------------------------------------- where such a step comes from

  predicate DirectWrite(entry: Entry<Event>, operator: nat) {
    entry.ByRequest? && entry.subject == operator && entry.event.Wrote? && !entry.event.pending
  }

  /** Where the secret of an operator was last put in place or taken away. */
  function LastChange(log: seq<Entry<Event>>, operator: nat): (k: int)
    ensures -1 <= k < |log|
    ensures k >= 0 ==> log[k].subject == operator && Replaces(log[k])
  {
    if log == [] then -1
    else if log[|log| - 1].subject == operator && Replaces(log[|log| - 1]) then |log| - 1
    else LastChange(log[..|log| - 1], operator)
  }

  lemma OneMoreChange(log: seq<Entry<Event>>, entry: Entry<Event>, operator: nat)
    ensures LastChange(log + [entry], operator) ==
            if entry.subject == operator && Replaces(entry) then |log| else LastChange(log, operator)
  {
    assert (log + [entry])[..|log|] == log;
  }

  /** A secret in place that was never proven was put there by a direct write, and nothing changed since. */
  predicate UnprovenIsWritten(s: State, operator: nat) {
    operator in s.db.accounts && s.db.accounts[operator].Enrolled() && !s.db.accounts[operator].Proven() ==>
      LastChange(s.log, operator) >= 0 && DirectWrite(s.log[LastChange(s.log, operator)], operator)
  }

  /** The request has compared a right code before entry `n`. */
  predicate ComparedBefore(log: seq<Entry<Event>>, id: nat, n: int) {
    exists i :: 0 <= i < |log| && i < n && log[i].ByRequest? && log[i].id == id && log[i].event == Compared(true)
  }

  /** A time step about to be spent is of the secret in place, unless that changed after the comparison. */
  predicate ShownOrChanged(s: State, id: nat) {
    id in s.requests && s.requests[id].pc.Spend? && s.requests[id].pc.proof.TotpStep? ==>
      var r := s.requests[id];
      && r.operator in s.db.accounts
      && (|| s.db.accounts[r.operator].secret == Some(r.pc.proof.shown)
          || ComparedBefore(s.log, id, LastChange(s.log, r.operator)))
  }

  ghost predicate SecretsHaveOrigins(s: State) {
    && (forall operator :: UnprovenIsWritten(s, operator))
    && (forall id :: ShownOrChanged(s, id))
  }

  /** Only an entry that replaces it changes a secret or makes it unproven again. */
  predicate SecretStays(before: Db, after: Db, operator: nat) {
    && (operator in before.accounts ==>
          && operator in after.accounts
          && after.accounts[operator].secret == before.accounts[operator].secret
          && (before.accounts[operator].Proven() ==> after.accounts[operator].Proven()))
    && (operator in after.accounts && operator !in before.accounts ==> after.accounts[operator] == EMPTY_ACCOUNT)
  }

  predicate Changes(event: Option<Event>) {
    event.Some? && Replaces(ByRequest(0, 0, event.value))
  }

  /** What one move does to the secrets. */
  ghost predicate KeepsSecrets(db: Db, r: Request, m: Move) {
    && m.request.operator == r.operator
    && (forall operator :: (operator == r.operator && Changes(m.event)) || SecretStays(db, m.db, operator))
    && (Changes(m.event) && r.operator in m.db.accounts && !m.db.accounts[r.operator].Proven() ==>
          m.event.value.Wrote? && !m.event.value.pending)
    && (Changes(m.event) ==> r.operator in m.db.accounts)
    && (m.request.pc.Spend? && m.request.pc.proof.TotpStep? ==>
          || (m.event.None? && m.request.pc == r.pc && m.db == db)
          || (m.event == Some(Compared(true)) && r.operator in m.db.accounts
              && m.db.accounts[r.operator].secret == Some(m.request.pc.proof.shown)))
  }

  lemma TheStoreKeepsSecrets(db: Db, operator: nat, proof: Proof, accepted: bool, other: nat)
    ensures var (after, ok) := SpendOn(db, operator, proof, accepted);
            && ((other == operator && ok && proof.PendingSecret?) || SecretStays(db, after, other))
            && (ok && proof.PendingSecret? ==> operator in after.accounts && after.accounts[operator].Proven())
  {
  }

  lemma SpendingKeepsSecrets(db: Db, r: Request, answer: Answer)
    requires r.pc.Spend?
    ensures KeepsSecrets(db, r, DoSpend(db, r, answer))
  {
    var m, accepted := DoSpend(db, r, answer), answer.Answered? && answer.accepted;
    SpendingReachesTheStore(db, r, answer);
    forall operator ensures (operator == r.operator && Changes(m.event)) || SecretStays(db, m.db, operator) {
      TheStoreKeepsSecrets(db, r.operator, r.pc.proof, accepted, operator);
    }
    TheStoreKeepsSecrets(db, r.operator, r.pc.proof, accepted, r.operator);
  }

  lemma WritingKeepsSecrets(db: Db, r: Request, answer: Answer, secret: nat, codes: set<nat>)
    requires r.pc.Write?
    ensures KeepsSecrets(db, r, DoWrite(db, r, answer, secret, codes))
  {
    WritingEnds(db, r, answer, secret, codes);
  }

  lemma ComparingKeepsSecrets(db: Db, r: Request, answer: Answer)
    requires r.pc.Compare?
    ensures KeepsSecrets(db, r, DoCompare(db, r, answer))
  {
  }

  lemma LeavingKeepsSecrets(db: Db, r: Request, m: Move)
    requires LeavesFactors(db, r, m) && !r.pc.Compare?
    ensures KeepsSecrets(db, r, m)
  {
  }

  lemma EveryMoveKeepsSecrets(db: Db, r: Request, answer: Answer, now: int, secret: nat, codes: set<nat>)
    ensures KeepsSecrets(db, r, Advance(db, r, answer, now, secret, codes))
  {
    if r.pc.Spend? {
      SpendingKeepsSecrets(db, r, answer);
    } else if r.pc.Write? {
      WritingKeepsSecrets(db, r, answer, secret, codes);
    } else if r.pc.Compare? {
      ComparingKeepsSecrets(db, r, answer);
    } else {
      OthersLeaveFactors(db, r, answer, now);
      LeavingKeepsSecrets(db, r, Advance(db, r, answer, now, secret, codes));
    }
  }

  // ---------------------------------------------------------------- every run

  lemma OneMoreEntryStays(log: seq<Entry<Event>>, entry: Entry<Event>, id: nat, n: int, more: int)
    requires ComparedBefore(log, id, n) && n <= more
    ensures ComparedBefore(log + [entry], id, more)
  {
    var i :| 0 <= i < |log| && i < n && log[i].ByRequest? && log[i].id == id && log[i].event == Compared(true);
    assert (log + [entry])[i] == log[i];
  }

  /** A request about to spend has compared a right code. */
  lemma ASpenderHasCompared(s: State, id: nat)
    requires RequestsFit(s) && JournalIsTheInterleaving(s) && id in s.requests && s.requests[id].pc.Spend?
    ensures ComparedBefore(s.log, id, |s.log|)
  {
    assert Fits(s.requests[id]) && Project(s.log, id) == s.requests[id].trace;
    ProjectedIsLogged(s.log, id, 1);
  }

  /** The accounts after an entry: those of its operator may change if it replaces, others do not. */
  ghost predicate EntryKeepsSecrets(s: State, after: State, entry: Entry<Event>) {
    && after.log == s.log + [entry]
    && (forall operator :: (operator == entry.subject && Replaces(entry)) || SecretStays(s.db, after.db, operator))
    && (Replaces(entry) && entry.subject in after.db.accounts ==>
          var account := after.db.accounts[entry.subject];
          account.Enrolled() && !account.Proven() ==> DirectWrite(entry, entry.subject))
    && (Replaces(entry) && entry.subject in s.db.accounts ==> entry.subject in after.db.accounts)
  }

  lemma AnEntryKeepsTheUnproven(s: State, after: State, entry: Entry<Event>, operator: nat)
    requires UnprovenIsWritten(s, operator) && EntryKeepsSecrets(s, after, entry)
    ensures UnprovenIsWritten(after, operator)
  {
    OneMoreChange(s.log, entry, operator);
    assert (operator == entry.subject && Replaces(entry)) || SecretStays(s.db, after.db, operator);
    assert after.log[|s.log|] == entry;
    if !(operator == entry.subject && Replaces(entry)) && LastChange(s.log, operator) >= 0 {
      assert after.log[LastChange(s.log, operator)] == s.log[LastChange(s.log, operator)];
    }
  }

  /** A request that was about to spend, and still is, while another entry is logged. */
  lemma AnEntryKeepsTheShown(s: State, after: State, entry: Entry<Event>, id: nat)
    requires ShownOrChanged(s, id) && EntryKeepsSecrets(s, after, entry)
    requires RequestsFit(s) && JournalIsTheInterleaving(s)
    requires id in s.requests && id in after.requests && after.requests[id] == s.requests[id]
    ensures ShownOrChanged(after, id)
  {
    var r := s.requests[id];
    if r.pc.Spend? && r.pc.proof.TotpStep? {
      OneMoreChange(s.log, entry, r.operator);
      assert (r.operator == entry.subject && Replaces(entry)) || SecretStays(s.db, after.db, r.operator);
      if r.operator == entry.subject && Replaces(entry) {
        ASpenderHasCompared(s, id);
        OneMoreEntryStays(s.log, entry, id, |s.log|, |s.log|);
      } else if ComparedBefore(s.log, id, LastChange(s.log, r.operator)) {
        OneMoreEntryStays(s.log, entry, id, LastChange(s.log, r.operator), LastChange(s.log, r.operator));
      }
    }
  }

  lemma ActKeepsOrigins(s: State, step: Step)
    requires Invariant(s) && SecretsHaveOrigins(s) && step.Act? && step.id in s.requests
    ensures SecretsHaveOrigins(Apply(s, step))
  {
    var r, after := s.requests[step.id], Apply(s, step);
    var m := Advance(s.db, r, step.answer, step.now, step.secret, step.codes);
    EveryMoveKeepsSecrets(s.db, r, step.answer, step.now, step.secret, step.codes);
    if m.event.Some? {
      AnEffectKeepsOrigins(s, step.id, m, after);
    } else {
      NoEffectKeepsOrigins(s, step.id, m, after);
    }
  }

  lemma AnEffectKeepsOrigins(s: State, id: nat, m: Move, after: State)
    requires Invariant(s) && SecretsHaveOrigins(s) && id in s.requests && m.event.Some?
    requires KeepsSecrets(s.db, s.requests[id], m) && after == Recorded(s, id, m)
    ensures SecretsHaveOrigins(after)
  {
    var r, entry := s.requests[id], ByRequest(id, s.requests[id].operator, m.event.value);
    assert Replaces(entry) == Changes(m.event);
    assert EntryKeepsSecrets(s, after, entry);
    forall operator ensures UnprovenIsWritten(after, operator) {
      AnEntryKeepsTheUnproven(s, after, entry, operator);
    }
    forall other ensures ShownOrChanged(after, other) {
      if other in s.requests && other != id {
        AnEntryKeepsTheShown(s, after, entry, other);
      }
    }
  }

  lemma NoEffectKeepsOrigins(s: State, id: nat, m: Move, after: State)
    requires SecretsHaveOrigins(s) && id in s.requests && m.event.None?
    requires KeepsSecrets(s.db, s.requests[id], m) && after == Recorded(s, id, m)
    ensures SecretsHaveOrigins(after)
  {
    forall operator ensures UnprovenIsWritten(after, operator) {
      assert UnprovenIsWritten(s, operator) && SecretStays(s.db, after.db, operator);
    }
    forall other ensures ShownOrChanged(after, other) {
      assert ShownOrChanged(s, other);
      if other in s.requests {
        assert SecretStays(s.db, after.db, s.requests[other].operator);
      }
    }
  }

  lemma AnotherStepKeepsOrigins(s: State, step: Step)
    requires SecretsHaveOrigins(s) && !step.Act? && !step.ResetAccount?
    ensures SecretsHaveOrigins(Apply(s, step))
  {
    var after := Apply(s, step);
    forall operator ensures UnprovenIsWritten(after, operator) {
      assert UnprovenIsWritten(s, operator) && SecretStays(s.db, after.db, operator);
    }
    forall other ensures ShownOrChanged(after, other) {
      assert ShownOrChanged(s, other);
      if other in s.requests {
        assert SecretStays(s.db, after.db, s.requests[other].operator);
      }
    }
  }

  lemma AResetKeepsOrigins(s: State, operator: nat)
    requires Invariant(s) && SecretsHaveOrigins(s) && operator in s.db.accounts
    ensures SecretsHaveOrigins(Apply(s, ResetAccount(operator)))
  {
    var after, entry := Apply(s, ResetAccount(operator)), ByReset(operator);
    assert EntryKeepsSecrets(s, after, entry);
    forall other ensures UnprovenIsWritten(after, other) {
      AnEntryKeepsTheUnproven(s, after, entry, other);
    }
    forall other ensures ShownOrChanged(after, other) {
      if other in s.requests {
        AnEntryKeepsTheShown(s, after, entry, other);
      }
    }
  }

  lemma {:induction false} SecretsHaveOriginsInEveryRun(steps: seq<Step>)
    ensures SecretsHaveOrigins(Run(INITIAL, steps))
  {
    if steps != [] {
      var before, step := steps[..|steps| - 1], steps[|steps| - 1];
      var s := Run(INITIAL, before);
      SecretsHaveOriginsInEveryRun(before);
      EveryRunKeepsTheInvariant(before);
      if step.ResetAccount? {
        if step.operator in s.db.accounts { AResetKeepsOrigins(s, step.operator); }
      } else if step.Act? {
        if step.id in s.requests { ActKeepsOrigins(s, step); }
      } else {
        AnotherStepKeepsOrigins(s, step);
      }
    }
  }

  /**
   In every interleaving: when a step makes a secret proven without a code of it, a direct write has put
   that secret in place after the request had compared its code with another one.
   */
  lemma AnUnshownSecretWasWrittenMeanwhile(steps: seq<Step>, step: Step, operator: nat)
    requires var s := Run(INITIAL, steps); BecomesProven(s, step, operator) && !ShowsWhatItProves(s, step, operator)
    ensures var s := Run(INITIAL, steps);
            && SpendsOnAnother(s, step, operator)
            && exists i, k :: 0 <= i < k < |s.log| && DirectWrite(s.log[k], operator)
                              && s.log[i].ByRequest? && s.log[i].id == step.id && s.log[i].event == Compared(true)
  {
    var s := Run(INITIAL, steps);
    SecretsHaveOriginsInEveryRun(steps);
    AnUnshownSecretIsProvenIff(s, step, operator);
    assert UnprovenIsWritten(s, operator) && ShownOrChanged(s, step.id);
    var k := LastChange(s.log, operator);
    assert ComparedBefore(s.log, step.id, k);
    var i :| 0 <= i < |s.log| && i < k && s.log[i].ByRequest? && s.log[i].id == step.id
             && s.log[i].event == Compared(true);
  }

  /**
   The run exists: a code is compared with the secret in place, an enrolment that had read the same
   unproven secret writes another one over it, and the code then proves the other one.
   */
  lemma AnUnshownSecretCanBeProven() returns (s: State, step: Step)
    ensures Reachable(s) && BecomesProven(s, step, 1) && !ShowsWhatItProves(s, step, 1)
  {
    s := AnEnrolledAccount();
    s := EnrolmentReachesItsWrite(s, 5);
    s := VerificationMatches(s, 6);
    s := Onwards(s, Act(5, Answered(true), 0, 8, {}));
    step := Act(6, Answered(true), 0, 0, {});
    AnUnshownSecretIsProvenIff(s, step, 1);
  }
}
