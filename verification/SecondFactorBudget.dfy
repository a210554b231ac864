/**
 Runs of the second factor in which six codes of one window are answered wrong: by a reservation
 stamped like the one that closed the row, and by a give-back that a clear has overtaken.
 */
module SecondFactorBudget {
  import opened Common
  import opened Counters
  import opened Journal
  import opened SecondFactor
  import opened SecondFactorRuns
  import opened SecondFactorTheorems
  import opened SecondFactorWitnesses

  const LIVE: Challenge := Challenge(1, 100, false)

  /** Operator 1 has a session and can present codes against challenge 4. */
  predicate Open(db: Db) {
    && Elevatable(db, 2) && db.sessions[2].operator == 1
    && 4 in db.challenges && db.challenges[4] == LIVE
  }

  /** ... and the journal holds these attempts of theirs. */
  ghost predicate Ready(s: State, ops: seq<Op>) {
    Reachable(s) && Open(s.db) && AttemptsOf(s.log, 1) == ops
  }

  /** Nothing happens to the other requests. */
  predicate OthersStay(s: State, after: State, id: nat) {
    && after.requests.Keys == s.requests.Keys + {id}
    && forall other | other in s.requests && other != id :: after.requests[other] == s.requests[other]
  }

  lemma TheRowReplays(s: State)
    requires Reachable(s)
    ensures RowOf(s.db.attempts, 1) == Replay(Absent, AttemptsOf(s.log, 1))
  {
    var steps :| Run(INITIAL, steps) == s;
    EveryRunKeepsTheInvariant(steps);
  }

  /** A verification arrives. */
  lemma Arrives(s: State, id: nat, challenge: nat)
    requires Open(s.db) && id !in s.requests
    ensures var after := Apply(s, Arrive(id, Verify(challenge, Totp), 2));
            && OthersStay(s, after, id) && after.db == s.db && after.log == s.log
            && after.requests[id] ==
                 Request(Verify(challenge, Totp), 2, 1, s.db.sessions[2].elevated, Reserving, 0, false, false, 0, [])
  {
  }

  /** ... and has its reservation. */
  lemma Reserves(s: State, id: nat, now: int)
    requires Open(s.db) && id in s.requests
    requires var r := s.requests[id]; r.pc == Reserving && r.operator == 1 && r.trace == [] && r.route.Verify?
    requires Admits(RowOf(s.db.attempts, 1), now)
    ensures var after := Apply(s, Act(id, Answered(true), now, 0, {}));
            && OthersStay(s, after, id) && after.log == s.log + [ByRequest(id, 1, Granted(now))]
            && after.db == s.db.(attempts := after.db.attempts)
            && after.requests[id] == s.requests[id].(pc := ReadChallenge, trace := [Granted(now)],
                                                     failures := after.requests[id].failures)
  {
  }

  /** ... so that the journal has one more attempt. */
  lemma IsLetIn(s: State, ops: seq<Op>, id: nat, challenge: nat, now: int) returns (after: State)
    requires Ready(s, ops) && id !in s.requests && Admits(Replay(Absent, ops), now)
    ensures Ready(after, ops + [Reserve(id, now)]) && OthersStay(s, after, id)
    ensures after.db.accounts == s.db.accounts && after.db.challenges == s.db.challenges
    ensures var r := after.requests[id];
            && r.route == Verify(challenge, Totp) && r.operator == 1 && r.session == 2
            && r.pc == ReadChallenge && r.trace == [Granted(now)]
  {
    TheRowReplays(s);
    Arrives(s, id, challenge);
    after := Onwards(s, Arrive(id, Verify(challenge, Totp), 2));
    Reserves(after, id, now);
    after := Onwards(after, Act(id, Answered(true), now, 0, {}));
    AppendCounts(s.log, ByRequest(id, 1, Granted(now)), 1, CounterOp);
  }

  /** One step of a request, and the attempt it adds if it adds one. */
  lemma Acts(s: State, id: nat, answer: Answer, now: int, m: Move) returns (after: State)
    requires Reachable(s) && id in s.requests && s.requests[id].operator == 1
    requires m == Advance(s.db, s.requests[id], answer, now, 0, {})
    ensures Reachable(after) && OthersStay(s, after, id) && after.db == m.db && after.requests[id].pc == m.request.pc
    ensures m.request.operator == 1 && m.request.route == s.requests[id].route
            && m.request.session == s.requests[id].session ==>
              after.requests[id].operator == 1 && after.requests[id].route == s.requests[id].route
              && after.requests[id].session == s.requests[id].session
    ensures var op := if m.event.Some? then CounterOp(id, m.event.value) else None;
            AttemptsOf(after.log, 1) == if op.Some? then AttemptsOf(s.log, 1) + [op.value] else AttemptsOf(s.log, 1)
  {
    after := Onwards(s, Act(id, answer, now, 0, {}));
    if m.event.Some? {
      AppendCounts(s.log, ByRequest(id, 1, m.event.value), 1, CounterOp);
    }
  }

  /** Its code is compared wrong. */
  lemma Misses(s: State, id: nat, now: int) returns (after: State)
    requires Reachable(s) && Open(s.db) && id in s.requests && now < LIVE.expires
    requires var r := s.requests[id];
             r.route == Verify(4, Totp) && r.operator == 1 && r.pc == ReadChallenge && |r.trace| == 1
                 && r.trace[0].Granted?
    ensures Ready(after, AttemptsOf(s.log, 1)) && OthersStay(s, after, id) && AnsweredWrong(after.requests[id])
  {
    after := Onwards(s, Act(id, Answered(true), now, 0, {}));
    assert after.log == s.log && after.db == s.db && after.requests[id] == s.requests[id].(pc := Compare);
    after := Onwards(after, Act(id, Mismatch, now, 0, {}));
    AppendCounts(s.log, ByRequest(id, 1, Compared(false)), 1, CounterOp);
  }

  /** A verification is answered that its code is wrong. */
  lemma AWrongCode(s: State, ops: seq<Op>, id: nat, now: int) returns (after: State)
    requires Ready(s, ops) && id !in s.requests && Admits(Replay(Absent, ops), now) && now < LIVE.expires
    ensures Ready(after, ops + [Reserve(id, now)]) && OthersStay(s, after, id) && AnsweredWrong(after.requests[id])
  {
    after := IsLetIn(s, ops, id, 4, now);
    after := Misses(after, id, now);
  }

  ghost predicate AllWrong(s: State, ids: set<nat>) {
    forall id <- ids :: id in s.requests && AnsweredWrong(s.requests[id])
  }

  /** The requests that were there stand as they were, and the others have a number under the bound. */
  predicate Extends(s: State, after: State, bound: nat) {
    && (forall id <- after.requests :: id < bound)
    && (forall id <- s.requests :: id in after.requests && after.requests[id] == s.requests[id])
  }

  lemma OneMoreRequest(s: State, earlier: State, after: State, id: nat)
    requires Extends(s, earlier, id) && OthersStay(earlier, after, id)
    ensures id !in earlier.requests && Extends(s, after, id + 1)
  {
  }

  /** A burst of wrong codes, after whatever left no row behind. */
  ghost predicate AfterBurst(s: State, after: State, before: seq<Op>, n: nat) {
    Ready(after, before + Burst(n)) && AllWrong(after, BurstIds(n)) && Extends(s, after, FIRST_ID + n)
  }

  lemma OneMoreIsWrong(s: State, after: State, ids: set<nat>, id: nat)
    requires AllWrong(s, ids) && id !in s.requests && OthersStay(s, after, id) && AnsweredWrong(after.requests[id])
    ensures AllWrong(after, ids + {id})
  {
  }

  lemma ABurstGrows(before: seq<Op>, n: nat)
    ensures before + Burst(n + 1) == (before + Burst(n)) + [Reserve(FIRST_ID + n, 2 + n)]
    ensures BurstIds(n + 1) == BurstIds(n) + {FIRST_ID + n}
  {
  }

  lemma OneMoreWrongCode(s: State, earlier: State, ops: seq<Op>, ids: set<nat>, id: nat, now: int)
    returns (after: State)
    requires Ready(earlier, ops) && AllWrong(earlier, ids) && Extends(s, earlier, id)
    requires Admits(Replay(Absent, ops), now) && now < LIVE.expires
    ensures Ready(after, ops + [Reserve(id, now)]) && AllWrong(after, ids + {id}) && Extends(s, after, id + 1)
  {
    assert id !in earlier.requests;
    after := AWrongCode(earlier, ops, id, now);
    OneMoreIsWrong(earlier, after, ids, id);
    OneMoreRequest(s, earlier, after, id);
  }

  lemma {:induction false} AWrongBurst(s: State, before: seq<Op>, n: nat) returns (after: State)
    requires Ready(s, before) && Settled(before) && n <= MAX_FAILURES
    requires forall id <- s.requests :: id < FIRST_ID
    ensures AfterBurst(s, after, before, n)
  {
    if n == 0 {
      after := s;
      assert before + Burst(n) == before;
    } else {
      var earlier := AWrongBurst(s, before, n - 1);
      ABurstIsAdmitted(before, n - 1);
      ABurstGrows(before, n - 1);
      after := OneMoreWrongCode(s, earlier, before + Burst(n - 1), BurstIds(n - 1), FIRST_ID + n - 1, 1 + n);
    }
  }

  /** With these attempts and these verdicts, the wrong codes of the current epoch are these. */
  lemma WhatIsKeptIsWrong(s: State, ids: set<nat>)
    requires Reachable(s) && AllWrong(s, ids)
    requires CurrentEpoch(AttemptsOf(s.log, 1)).kept == ids
    ensures WrongIn(s, 1) == ids
  {
    var steps :| Run(INITIAL, steps) == s;
    EveryRunKeepsTheInvariant(steps);
    assert DistinctReservations(AttemptsOf(s.log, 1));
    EveryEpochBalances(AttemptsOf(s.log, 1));
    WrongCodesAreKept(s, 1);
    assert ids <= WrongIn(s, 1);
  }

  /** One more code, which the row still lets in, and what is then kept was all answered wrong. */
  lemma ALastWrongCode(s: State, ops: seq<Op>, ids: set<nat>, id: nat, now: int, all: seq<Op>) returns (after: State)
    requires Ready(s, ops) && AllWrong(s, ids) && id !in s.requests && now < LIVE.expires
    requires Admits(Replay(Absent, ops), now) && all == ops + [Reserve(id, now)]
    requires CurrentEpoch(all).kept == ids + {id}
    ensures Reachable(after) && AttemptsOf(after.log, 1) == all && WrongIn(after, 1) == CurrentEpoch(all).kept
  {
    after := AWrongCode(s, ops, id, now);
    OneMoreIsWrong(s, after, ids, id);
    WhatIsKeptIsWrong(after, ids + {id});
  }

  /** A row in which every code so far was wrong. */
  lemma WrongFromTheStart(n: nat) returns (s: State)
    requires n <= MAX_FAILURES
    ensures Ready(s, Burst(n)) && AllWrong(s, BurstIds(n)) && FIRST_ID + n !in s.requests
  {
    s := AnEnrolledAccount();
    s := AWrongBurst(s, [], n);
    assert [] + Burst(n) == Burst(n);
  }

  /** The tie is reachable: five wrong codes, and a sixth judged on a reservation stamped like the fifth. */
  lemma SixWrongCodesByATie() returns (s: State)
    ensures Reachable(s) && AttemptsOf(s.log, 1) == TIED && |WrongIn(s, 1)| == MAX_FAILURES + 1
  {
    s := WrongFromTheStart(5);
    ATieGrantsASixth();
    s := ALastWrongCode(s, Burst(5), BurstIds(5), 17, 6, TIED);
  }

  // ---------------------------------------------------------------- a give-back after a clear

  /** A request let in against challenge 5. */
  predicate LetIn(s: State, id: nat, pc: Pc) {
    id in s.requests && var r := s.requests[id];
    r.route == Verify(5, Totp) && r.operator == 1 && r.session == 2 && r.pc == pc
  }

  predicate TwoChallenges(db: Db) {
    Open(db) && 5 in db.challenges && db.challenges[5] == LIVE
  }

  /** Its code is judged right. */
  lemma IsJudgedRight(s: State, id: nat) returns (after: State)
    requires Reachable(s) && TwoChallenges(s.db) && LetIn(s, id, ReadChallenge)
    requires 1 in s.db.accounts && s.db.accounts[1].secret == Some(7)
    ensures Reachable(after) && AttemptsOf(after.log, 1) == AttemptsOf(s.log, 1) && after.db == s.db
    ensures OthersStay(s, after, id) && LetIn(after, id, Spend(TotpStep(7, 9)))
  {
    after := Acts(s, id, Answered(true), 1, DoReadChallenge(s.db, s.requests[id], Answered(true), 1));
    after := Acts(after, id, Match(TotpStep(7, 9)), 1, DoCompare(after.db, after.requests[id], Match(TotpStep(7, 9))));
  }

  /** Its time step is spent. */
  lemma IsSpent(s: State, id: nat) returns (after: State)
    requires Reachable(s) && TwoChallenges(s.db) && LetIn(s, id, Spend(TotpStep(7, 9)))
    requires 1 in s.db.accounts && s.db.accounts[1].active && s.db.accounts[1].lastStep.None?
    ensures Reachable(after) && AttemptsOf(after.log, 1) == AttemptsOf(s.log, 1) && TwoChallenges(after.db)
    ensures OthersStay(s, after, id) && LetIn(after, id, ConsumeChallenge)
  {
    after := Acts(s, id, Answered(true), 1, DoSpend(s.db, s.requests[id], Answered(true)));
  }

  /** It consumes its challenge. */
  lemma Consumes(s: State, id: nat) returns (after: State)
    requires Reachable(s) && TwoChallenges(s.db) && LetIn(s, id, ConsumeChallenge)
    ensures Reachable(after) && AttemptsOf(after.log, 1) == AttemptsOf(s.log, 1) && Open(after.db)
    ensures OthersStay(s, after, id) && LetIn(after, id, Elevate)
  {
    after := Acts(s, id, Answered(true), 1, DoConsumeChallenge(s.db, s.requests[id], Answered(true), 1));
  }

  /** ... elevates its session. */
  lemma IsElevated(s: State, id: nat) returns (after: State)
    requires Reachable(s) && Open(s.db) && LetIn(s, id, Elevate)
    ensures Reachable(after) && AttemptsOf(after.log, 1) == AttemptsOf(s.log, 1) && Open(after.db)
    ensures OthersStay(s, after, id) && LetIn(after, id, Succeed)
  {
    after := Acts(s, id, Answered(true), 1, DoElevate(s.db, s.requests[id], Answered(true)));
  }

  /** ... and clears the attempts. */
  lemma Clears(s: State, id: nat) returns (after: State)
    requires Reachable(s) && Open(s.db) && LetIn(s, id, Succeed)
    ensures Ready(after, AttemptsOf(s.log, 1) + [Clear]) && OthersStay(s, after, id)
  {
    after := Acts(s, id, Answered(true), 1, DoSucceed(s.db, s.requests[id], Answered(true)));
  }

  /** A whole success. */
  lemma Succeeds(s: State, id: nat) returns (after: State)
    requires Reachable(s) && Fresh(s.db) && LetIn(s, id, ReadChallenge)
    ensures Ready(after, AttemptsOf(s.log, 1) + [Clear]) && OthersStay(s, after, id)
  {
    after := IsJudgedRight(s, id);
    after := IsSpent(after, id);
    after := Consumes(after, id);
    after := IsElevated(after, id);
    after := Clears(after, id);
  }

  lemma OneReservation()
    ensures [] + [Reserve(10, 0)] == [Reserve(10, 0)] && Admits(Replay(Absent, [Reserve(10, 0)]), 1)
    ensures [Reserve(10, 0)] + [Reserve(11, 1)] == [Reserve(10, 0), Reserve(11, 1)]
  {
    assert [Reserve(10, 0)][..0] == [];
  }

  /** The account has an authenticator whose first code was not spent yet. */
  predicate Fresh(db: Db) {
    TwoChallenges(db) && 1 in db.accounts && db.accounts[1].secret == Some(7) && db.accounts[1].lastStep.None?
  }

  /** A verification is let in against challenge 4. */
  lemma OneIsLetIn() returns (s: State)
    ensures Ready(s, [Reserve(10, 0)]) && s.requests.Keys == {3, 10} && Fresh(s.db)
    ensures s.requests[10].pc == ReadChallenge && s.requests[10].operator == 1 && s.requests[10].route.Verify?
  {
    s := AnEnrolledAccount();
    s := Onwards(s, IssueChallenge(5, 1, 100));
    s := IsLetIn(s, [], 10, 4, 0);
    OneReservation();
  }

  /** ... and another against challenge 5. */
  lemma TwoAreLetIn() returns (s: State)
    ensures Ready(s, [Reserve(10, 0), Reserve(11, 1)]) && s.requests.Keys == {3, 10, 11} && Fresh(s.db)
    ensures s.requests[10].pc == ReadChallenge && s.requests[10].operator == 1 && s.requests[10].route.Verify?
    ensures LetIn(s, 11, ReadChallenge)
  {
    s := OneIsLetIn();
    OneReservation();
    s := IsLetIn(s, [Reserve(10, 0)], 11, 5, 1);
  }

  /** The state in which number 10 waits for its judgement and number 11 has cleared the row. */
  lemma AClearMeanwhile() returns (s: State)
    ensures Ready(s, CLEARED_MEANWHILE) && s.requests.Keys == {3, 10, 11}
    ensures s.requests[10].pc == ReadChallenge && s.requests[10].operator == 1 && s.requests[10].route.Verify?
  {
    s := TwoAreLetIn();
    s := Succeeds(s, 11);
    assert CLEARED_MEANWHILE == [Reserve(10, 0), Reserve(11, 1)] + [Clear];
  }

  /** A statement of its judgement fails, and it gives its reservation back. */
  lemma FailsAndGivesBack(s: State, id: nat) returns (after: State)
    requires Reachable(s) && Open(s.db) && id in s.requests
    requires var r := s.requests[id]; r.pc == ReadChallenge && r.route.Verify? && r.operator == 1
    ensures Ready(after, AttemptsOf(s.log, 1) + [Release(id)]) && OthersStay(s, after, id)
  {
    after := Acts(s, id, Fault(false), 7, DoReadChallenge(s.db, s.requests[id], Fault(false), 7));
    after := Acts(after, id, Answered(true), 7, DoGiveBack(after.db, after.requests[id], Answered(true)));
  }

  /** Wrong codes are answered meanwhile, then number 10 gives back. */
  lemma ABurstThenTheGiveBack(n: nat) returns (s: State)
    requires n <= MAX_FAILURES
    ensures Ready(s, CLEARED_MEANWHILE + Burst(n) + [Release(10)])
    ensures AllWrong(s, BurstIds(n)) && FIRST_ID + n !in s.requests
  {
    s := AClearMeanwhile();
    TheClearSettles();
    s := AWrongBurst(s, CLEARED_MEANWHILE, n);
    s := FailsAndGivesBack(s, 10);
  }

  /**
   The late give-back is reachable, within seven microseconds and without a tie: one verification is
   let in, another succeeds and clears the row, five codes are answered wrong, the first verification
   fails and gives back, and a sixth code is judged and answered wrong.
   */
  lemma SixWrongCodesByALateRelease() returns (s: State)
    ensures Reachable(s) && AttemptsOf(s.log, 1) == LATE_RELEASE && |WrongIn(s, 1)| == MAX_FAILURES + 1
    ensures CurrentEpoch(AttemptsOf(s.log, 1)).ties == 0
  {
    s := ABurstThenTheGiveBack(5);
    ALateReleaseGrantsASixth();
    s := ALastWrongCode(s, CLEARED_MEANWHILE + Burst(5) + [Release(10)], BurstIds(5), 17, 7, LATE_RELEASE);
  }
}
