/**
 What the hash of a login says, over every run: a password matches exactly when an active operator holds the
 address under a readable hash of it, and the challenge that follows is theirs.
 */
module LoginVerdicts {
  import opened Common
  import Counters
  import opened Journal
  import opened Login
  import opened LoginRuns

  predicate Told(c: Config, r: Request, e: Event) {
    e.Hashed? ==> (e.matches <==> Holds(c, r.email, r.password))
  }

  /** The operator a login has found is the one of its address; what its hash said is so. */
  predicate Truthful(c: Config, r: Request) {
    && (r.operator.Some? ==> r.email in c.operators && r.operator.value == c.operators[r.email])
    && (r.pc.Waiting? || r.pc.Hashing? ==> (r.operator.Some? <==> r.email in c.operators))
    && forall e <- r.trace :: Told(c, r, e)
  }

  /** The move keeps what was presented, and tells what is so. */
  predicate TellsTheTruth(c: Config, r: Request, m: Move) {
    && m.request.email == r.email && m.request.password == r.password && m.request.trace == r.trace
    && (m.request.operator.Some? ==>
          m.request.email in c.operators && m.request.operator.value == c.operators[m.request.email])
    && (m.request.pc.Waiting? || m.request.pc.Hashing? ==>
          (m.request.operator.Some? <==> m.request.email in c.operators))
    && (m.event.Some? ==> Told(c, r, m.event.value))
  }

  lemma AHashTellsTheTruth(c: Config, db: Db, r: Request)
    requires Truthful(c, r) && r.pc.Hashing?
    ensures TellsTheTruth(c, r, DoHash(c, db, r))
  {
  }

  lemma OthersTellTheTruth(c: Config, db: Db, r: Request, answer: Answer, now: int, challenge: nat)
    requires Truthful(c, r) && !r.pc.Hashing?
    ensures TellsTheTruth(c, r, Advance(c, db, r, answer, now, challenge))
  {
  }

  lemma AMoveIsTruthful(c: Config, db: Db, r: Request, answer: Answer, now: int, challenge: nat)
    requires Truthful(c, r)
    ensures Truthful(c, Moved(r, Advance(c, db, r, answer, now, challenge)))
  {
    if r.pc.Hashing? {
      AHashTellsTheTruth(c, db, r);
    } else {
      OthersTellTheTruth(c, db, r, answer, now, challenge);
    }
    TheTruthIsKept(c, r, Advance(c, db, r, answer, now, challenge));
  }

  lemma TheTruthIsKept(c: Config, r: Request, m: Move)
    requires Truthful(c, r) && TellsTheTruth(c, r, m)
    ensures Truthful(c, Moved(r, m))
  {
    if m.event.Some? {
      forall e <- r.trace + [m.event.value] ensures Told(c, m.request, e) {
        assert e in r.trace || e == m.event.value;
      }
    }
  }

  /** The challenge a login has issued stands in the store, for the operator it has found. */
  predicate Stored(db: Db, r: Request, e: Event) {
    e.Issued? ==>
      && r.operator.Some? && e.challenge in db.challenges && db.challenges[e.challenge] == r.operator.value.id
  }

  predicate Issues(db: Db, r: Request) { forall e <- r.trace :: Stored(db, r, e) }

  /** Nothing rewrites a challenge. */
  ghost predicate ChallengesStay(before: Db, after: Db) {
    forall ch <- before.challenges :: ch in after.challenges && after.challenges[ch] == before.challenges[ch]
  }

  /** The move rewrites no challenge, and stores the one it tells; what is told stays as long as the operator does. */
  ghost predicate Stores(db: Db, r: Request, m: Move) {
    && ChallengesStay(db, m.db) && m.request.trace == r.trace
    && (m.event.Some? ==> Stored(m.db, m.request, m.event.value))
    && (m.request.operator == r.operator || r.pc.Lookup?)
  }

  lemma AnIssueIsStored(db: Db, r: Request, answer: Answer, challenge: nat)
    requires r.pc.Issue?
    ensures Stores(db, r, DoIssue(db, r, answer, challenge))
  {
  }

  lemma OthersStoreNothing(c: Config, db: Db, r: Request, answer: Answer, now: int, challenge: nat)
    requires !r.pc.Issue?
    ensures Stores(db, r, Advance(c, db, r, answer, now, challenge))
  {
  }

  lemma WhatIsToldIsStored(db: Db, r: Request, m: Move)
    requires Fits(r) && Issues(db, r) && Stores(db, r, m)
    ensures Issues(m.db, Moved(r, m))
  {
    forall e <- Moved(r, m).trace ensures Stored(m.db, m.request, e) {
      assert e in r.trace || m.event == Some(e);
    }
  }

  lemma AMoveIssues(c: Config, db: Db, r: Request, answer: Answer, now: int, challenge: nat)
    requires Fits(r) && Issues(db, r)
    ensures var m := Advance(c, db, r, answer, now, challenge);
            Issues(m.db, Moved(r, m)) && ChallengesStay(db, m.db)
  {
    if r.pc.Issue? {
      AnIssueIsStored(db, r, answer, challenge);
    } else {
      OthersStoreNothing(c, db, r, answer, now, challenge);
    }
    WhatIsToldIsStored(db, r, Advance(c, db, r, answer, now, challenge));
  }

  ghost predicate Truth(c: Config, s: State) {
    forall id <- s.requests :: Truthful(c, s.requests[id]) && Issues(s.db, s.requests[id])
  }

  lemma IssuesStay(before: Db, after: Db, r: Request)
    requires Issues(before, r) && ChallengesStay(before, after)
    ensures Issues(after, r)
  {
    forall e <- r.trace ensures Stored(after, r, e) {
      assert Stored(before, r, e);
    }
  }

  lemma ActKeepsTheTruth(c: Config, s: State, step: Step)
    requires Truth(c, s) && RequestsFit(s) && step.Act? && step.id in s.requests
    ensures Truth(c, Apply(c, s, step))
  {
    var r, after := s.requests[step.id], Apply(c, s, step);
    AMoveIsTruthful(c, s.db, r, step.answer, step.now, step.challenge);
    AMoveIssues(c, s.db, r, step.answer, step.now, step.challenge);
    forall id <- after.requests | id != step.id
      ensures Truthful(c, after.requests[id]) && Issues(after.db, after.requests[id])
    {
      IssuesStay(s.db, after.db, s.requests[id]);
    }
  }

  lemma OthersKeepTheTruth(c: Config, s: State, step: Step)
    requires Truth(c, s) && !step.Act?
    ensures Truth(c, Apply(c, s, step))
  {
    var after := Apply(c, s, step);
    assert after.db.challenges == s.db.challenges;
    forall id <- after.requests ensures Truthful(c, after.requests[id]) && Issues(after.db, after.requests[id]) {
      if id in s.requests {
        IssuesStay(s.db, after.db, s.requests[id]);
      }
    }
  }

  lemma {:induction false} EveryRunIsTruthful(c: Config, steps: seq<Step>)
    ensures Truth(c, Run(c, steps))
  {
    if steps != [] {
      var before, step := steps[..|steps| - 1], steps[|steps| - 1];
      var s := Run(c, before);
      EveryRunIsTruthful(c, before);
      EveryRunKeepsTheInvariant(c, before);
      if step.Act? {
        if step.id in s.requests { ActKeepsTheTruth(c, s, step); }
      } else {
        OthersKeepTheTruth(c, s, step);
      }
    }
  }

  /**
   In every interleaving, the hash of a login matches exactly when somebody holds its address, that operator is
   active, their hash is readable and the password presented is the one that produced it.
   */
  lemma AHashMatchesIff(c: Config, steps: seq<Step>, i: nat)
    requires var log := Run(c, steps).log; i < |log| && log[i].ByRequest? && log[i].event.Hashed?
    ensures var s := Run(c, steps);
            && s.log[i].id in s.requests
            && var r := s.requests[s.log[i].id];
            && (s.log[i].event.matches <==>
                && r.email in c.operators && c.operators[r.email].active
                && c.operators[r.email].hash in c.secrets
                && c.secrets[c.operators[r.email].hash] == r.password)
  {
    EveryRunKeepsTheInvariant(c, steps);
    EveryRunIsTruthful(c, steps);
    var s := Run(c, steps);
    assert s.log[i] in s.log;
    var r := s.requests[s.log[i].id];
    LoggedIsProjected(s.log, i);
    assert s.log[i].event in r.trace;
    assert Told(c, r, s.log[i].event);
  }

  /** In every interleaving, whoever is challenged is that operator, and the store holds the challenge for them. */
  lemma AChallengeIsTheHolders(c: Config, steps: seq<Step>, id: nat)
    requires var s := Run(c, steps);
             id in s.requests && s.requests[id].pc.Done? && s.requests[id].pc.verdict.Challenged?
    ensures var s := Run(c, steps);
            var r := s.requests[id];
            && r.email in c.operators && c.operators[r.email].active
            && c.operators[r.email].hash in c.secrets && c.secrets[c.operators[r.email].hash] == r.password
            && r.pc.verdict.operator == c.operators[r.email].id
            && r.pc.verdict.challenge in s.db.challenges
            && s.db.challenges[r.pc.verdict.challenge] == c.operators[r.email].id
  {
    EveryRunKeepsTheInvariant(c, steps);
    EveryRunIsTruthful(c, steps);
    var r := Run(c, steps).requests[id];
    assert Fits(r) && Issues(Run(c, steps).db, r);
    assert Told(c, r, r.trace[1]) && Stored(Run(c, steps).db, r, r.trace[3]);
  }

  // ---------------------------------------------------------------- statements that fail

  /**
   Wherever a statement fails, its effect is there whole or not at all, as the answer that was lost would have
   it, and the login ends with the error.
   */
  lemma AFailedStatementEnds(c: Config, db: Db, r: Request, applied: bool, now: int, challenge: nat)
    requires !r.pc.Waiting? && !r.pc.Hashing? && !r.pc.Done?
    ensures var failed := Advance(c, db, r, Fault(applied), now, challenge);
            var answered := Advance(c, db, r, Answered, now, challenge);
            && failed.request == r.(pc := Done(Failed))
            && failed.db == (if applied then answered.db else db)
            && (!applied ==> failed.event.None?)
            && (applied && !r.pc.Reserving? ==> failed.event == answered.event)
            && (applied && r.pc.Reserving? ==> failed.event == Some(Unanswered(now)))
  {
  }

  /** Who waits takes a slot if one is free, waits on if none is, and is turned away at its deadline without one. */
  lemma AWaitEnds(c: Config, db: Db, r: Request, now: int, challenge: nat)
    requires r.pc.Waiting?
    ensures Advance(c, db, r, Cancelled, now, challenge) == Move(db, r.(pc := Done(Overloaded)), None)
    ensures Advance(c, db, r, Answered, now, challenge) ==
              if db.slots < 10 then Move(db.(slots := db.slots + 1), r.(pc := Hashing), None) else Move(db, r, None)
  {
  }

  /** A step that is not of a login: one arrives, another caller takes or gives a slot, a lock is lifted. */
  lemma WhatElseHappens(c: Config, s: State, step: Step, email: nat)
    requires !step.Act?
    ensures var after := Apply(c, s, step);
            && after.db.sources == s.db.sources && after.db.challenges == s.db.challenges
            && RowOf(after.db.emails, email) ==
                 (if step == ResetEmail(email) then Counters.Absent else RowOf(s.db.emails, email))
            && after.log == (if step.ResetEmail? then s.log + [ByReset(step.email)] else s.log)
            && after.requests ==
                 (if step.Arrive? && step.id !in s.requests
                    then s.requests[step.id := Request(step.email, step.source, step.password, ReadSource, 0, None, [])]
                  else s.requests)
            && after.db.slots - after.db.others == s.db.slots - s.db.others
            && (step.OtherTakes? && s.db.slots < 10 ==> after.db.slots == s.db.slots + 1)
            && (step.OtherFrees? && s.db.slots > 0 && s.db.others > 0 ==> after.db.slots == s.db.slots - 1)
  {
  }
}
