/** Concrete runs of the second-factor routes that show where a property stops. */
module SecondFactorWitnesses {
  import opened Common
  import opened Counters
  import opened Journal
  import opened SecondFactor
  import opened SecondFactorRuns
  import opened FactorLifecycle

  ghost predicate Reachable(s: State) {
    exists steps :: Run(INITIAL, steps) == s
  }

  lemma Onwards(s: State, step: Step) returns (next: State)
    requires Reachable(s)
    ensures next == Apply(s, step) && Reachable(next)
  {
    var steps :| Run(INITIAL, steps) == s;
    assert (steps + [step])[..|steps|] == steps;
    next := Apply(s, step);
    assert Run(INITIAL, steps + [step]) == next;
  }

  function Works(id: nat): Step { Act(id, Answered(true), 0, 7, {}) }

  /** Three statements of an enrolment that presents no proof: it is about to write. */
  lemma EnrolmentReachesItsWrite(s: State, id: nat) returns (after: State)
    requires Reachable(s) && id !in s.requests
    requires s.db.sessions == map[2 := Session(1, true, false)] && 1 in s.db.accounts
    requires var a := s.db.accounts[1]; a.active && !a.Proven() && a.passkeys == 0
    requires Admits(RowOf(s.db.enrolments, 1), 0)
    ensures Reachable(after) && id in after.requests && after.requests.Keys == s.requests.Keys + {id}
    ensures after.requests[id].operator == 1 && after.requests[id].pc == Write(s.db.accounts[1].Enrolled(), false)
    ensures after.db == s.db.(enrolments := s.db.enrolments[1 := ReservedRow(RowOf(s.db.enrolments, 1), 0)])
    ensures after.log == s.log
  {
    after := Onwards(s, Arrive(id, Enroll(None), 2));
    after := Onwards(after, Works(id));
    after := Onwards(after, Works(id));
    assert after.requests[id].pc == ReadFactors;
    after := Onwards(after, Works(id));
  }

  lemma AnAccountAndItsSession() returns (s: State)
    ensures Reachable(s) && s.requests == map[] && s.db.accounts == map[1 := EMPTY_ACCOUNT]
    ensures s.db.sessions == map[2 := Session(1, true, false)] && s.db.challenges == map[4 := Challenge(1, 100, false)]
    ensures s.db.attempts == map[] && s.db.enrolments == map[] && s.log == []
  {
    assert Run(INITIAL, []) == INITIAL;
    s := Onwards(INITIAL, CreateAccount(1));
    s := Onwards(s, OpenSession(2, 1));
    s := Onwards(s, IssueChallenge(4, 1, 100));
  }

  /** A verification takes its reservation. */
  lemma VerificationReserves(s: State, id: nat) returns (after: State)
    requires Reachable(s) && id !in s.requests
    requires s.db.sessions == map[2 := Session(1, true, false)] && 1 in s.db.accounts && s.db.accounts[1].active
    requires s.db.attempts == map[]
    ensures Reachable(after) && after.requests.Keys == s.requests.Keys + {id}
    ensures forall other | other in s.requests :: after.requests[other] == s.requests[other]
    ensures after.db == s.db.(attempts := map[1 := Row(1, 0)])
    ensures after.requests[id] == Request(Verify(4, Totp), 2, 1, false, ReadChallenge, 0, false, false, 0, [Granted(0)])
  {
    after := Onwards(s, Arrive(id, Verify(4, Totp), 2));
    after := Onwards(after, Works(id));
  }

  /** Two statements of a verification whose code is right: it is about to spend the step. */
  lemma VerificationMatches(s: State, id: nat) returns (after: State)
    requires Reachable(s) && id !in s.requests
    requires s.db.sessions == map[2 := Session(1, true, false)] && 1 in s.db.accounts
    requires var a := s.db.accounts[1]; a.active && a.secret == Some(7)
    requires s.db.challenges == map[4 := Challenge(1, 100, false)] && s.db.attempts == map[]
    ensures Reachable(after) && after.requests.Keys == s.requests.Keys + {id}
    ensures forall other | other in s.requests :: after.requests[other] == s.requests[other]
    ensures after.db.accounts == s.db.accounts
    ensures var r := after.requests[id];
            r.operator == 1 && r.pc == Spend(TotpStep(7, 9)) && r.trace == [Granted(0), Compared(true)]
    ensures after.requests[id].route == Verify(4, Totp)
  {
    after := VerificationReserves(s, id);
    after := Onwards(after, Works(id));
    assert after.requests[id].pc == Compare;
    after := Onwards(after, Act(id, Match(TotpStep(7, 9)), 0, 0, {}));
  }

  /** ... and spends it. */
  lemma VerificationSpends(s: State, id: nat) returns (after: State)
    requires Reachable(s) && id !in s.requests
    requires s.db.sessions == map[2 := Session(1, true, false)] && 1 in s.db.accounts
    requires var a := s.db.accounts[1]; a.active && a.secret == Some(7) && !a.Proven()
    requires s.db.challenges == map[4 := Challenge(1, 100, false)] && s.db.attempts == map[]
    ensures Reachable(after) && after.requests.Keys == s.requests.Keys + {id}
    ensures forall other | other in s.requests :: after.requests[other] == s.requests[other]
    ensures after.db.accounts == s.db.accounts[1 := s.db.accounts[1].(lastStep := Some(9))]
  {
    after := VerificationMatches(s, id);
    after := Onwards(after, Works(id));
  }

  /** An account whose authenticator is enrolled and not proven yet. */
  lemma AnEnrolledAccount() returns (s: State)
    ensures Reachable(s) && s.requests.Keys == {3}
    ensures s.db.accounts == map[1 := Account(true, Some(7), None, None, {}, {}, 0)] && s.db.attempts == map[]
    ensures s.db.sessions == map[2 := Session(1, true, false)] && s.db.challenges == map[4 := Challenge(1, 100, false)]
    ensures s.db.enrolments == map[1 := Row(1, 0)] && AttemptsOf(s.log, 1) == []
  {
    s := AnAccountAndItsSession();
    s := EnrolmentReachesItsWrite(s, 3);
    var log := s.log;
    s := Onwards(s, Works(3));
    AppendCounts(log, ByRequest(3, 1, Wrote(false)), 1, CounterOp);
  }

  /**
   The interleaving is reachable: an enrolment that has read a secret nobody had proven yet writes
   over it after a concurrent verification has proven it, and the account is left unguarded.
   */
  lemma TheGuardCanBeLost() returns (s: State, step: Step)
    ensures Reachable(s) && step.Act? && GuardedIn(s.db, 1) && !GuardedIn(Apply(s, step).db, 1)
  {
    s := AnEnrolledAccount();
    s := EnrolmentReachesItsWrite(s, 5);
    s := VerificationSpends(s, 6);
    step := Works(5);
  }

  /**
   "Unjudged" is not literal: a verification whose code was compared right, but whose spending failed
   to answer, gives its reservation back.
   */
  lemma ARightCodeCanBeGivenBack() returns (s: State, id: nat)
    ensures Reachable(s) && id in s.requests
    ensures s.requests[id].trace == [Granted(0), Compared(true), GaveBack]
  {
    s := AnEnrolledAccount();
    id := 6;
    s := VerificationMatches(s, id);
    s := Onwards(s, Act(id, Fault(false), 0, 0, {}));
    s := Onwards(s, Works(id));
  }
}
