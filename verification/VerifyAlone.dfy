/**
 What one verification of a second factor answers and leaves when no statement fails and nobody else runs,
 from its arrival: for every session, challenge, means, verdict and row.
 */
module VerifyAlone {
  import opened Common
  import opened CounterRows
  import opened Counters
  import opened SecondFactor
  import opened FactorAlone

  // ---------------------------------------------------------------- the reference

  /** The challenge can be answered in this session: it exists, unconsumed, in time, and is the operator's. */
  predicate Answerable(db: Db, challenge: nat, operator: nat, now: int) {
    && challenge in db.challenges && !db.challenges[challenge].consumed
    && now < db.challenges[challenge].expires && db.challenges[challenge].operator == operator
  }

  /** The session elevated, the challenge consumed, no attempt left. */
  function Opened(db: Db, operator: nat, session: nat, challenge: nat): Db
    requires session in db.sessions && challenge in db.challenges
  {
    db.(challenges := db.challenges[challenge := db.challenges[challenge].(consumed := true)],
        sessions := db.sessions[session := db.sessions[session].(elevated := true)],
        attempts := db.attempts[operator := Absent])
  }

  /** Once the proof is spent: the challenge must still be in time. */
  function AfterTheProof(db: Db, operator: nat, session: nat, challenge: nat, now: int): End
    requires session in db.sessions && challenge in db.challenges
  {
    if now < db.challenges[challenge].expires then End(Done(204), Opened(db, operator, session, challenge))
    else End(Done(401), db)
  }

  /** Once the attempt is counted and the challenge read. */
  function Judged(db: Db, operator: nat, session: nat, challenge: nat, means: Method, c: Course): End
    requires session in db.sessions && challenge in db.challenges && operator in db.accounts
    requires operator in db.attempts && db.attempts[operator].Row?
  {
    var account := db.accounts[operator];
    var refused := End(Done(if db.attempts[operator].failures >= 5 then 429 else 401), db);
    match c.verdict
    case Mismatch => refused
    case Match(proof) =>
      if !Held(account, means, proof) then End(Compare, db)
      else if !Unused(account, means, proof, c.accepted) then refused
      else
        AfterTheProof(db.(accounts := db.accounts[operator := Using(account, means, proof)]),
                      operator, session, challenge, c.consumed)
    case Overloaded => if means.Recovery? then End(Done(503), db) else End(Compare, db)
    case Fault(_) =>
      End(Done(500), db.(attempts := db.attempts[operator := OneLessOn(db.attempts[operator])]))
    case Answered(_) => End(Compare, db)
  }

  /** A whole verification. A verdict that the rows do not allow is none: the comparison is still to be made. */
  function Verification(db: Db, session: nat, challenge: nat, means: Method, c: Course): End {
    if !Alive(db, session) then End(Done(401), db)
    else
      var operator := db.sessions[session].operator;
      var row := RowOf(db.attempts, operator);
      if Refuses(row, c.reserved) then End(Done(429), db)
      else
        var counted := db.(attempts := db.attempts[operator := LetInTo(row, c.reserved)]);
        if !Answerable(db, challenge, operator, c.read) then End(Done(401), counted)
        else Judged(counted, operator, session, challenge, means, c)
  }

  // ---------------------------------------------------------------- from the last statement to the first

  lemma FromTheElevation(db: Db, r: Request, c: Course, n: nat)
    requires n >= 2 && r.pc.Elevate? && Alive(db, r.session)
    ensures Play(db, r, c, n) ==
              End(Done(204), db.(sessions := db.sessions[r.session := db.sessions[r.session].(elevated := true)],
                                 attempts := db.attempts[r.operator := Absent]))
  {
    OneTurn(db, r, c, n);
    var m := Turn(db, r, c);
    TheLastTurn(m.db, m.request, c, n - 1);
  }

  lemma FromTheConsumption(db: Db, r: Request, c: Course, n: nat)
    requires n >= 3 && r.pc.ConsumeChallenge? && r.route.Verify? && Alive(db, r.session)
    requires r.route.challenge in db.challenges && !db.challenges[r.route.challenge].consumed
    ensures Play(db, r, c, n) == AfterTheProof(db, r.operator, r.session, r.route.challenge, c.consumed)
  {
    var m := Turn(db, r, c);
    if c.consumed < db.challenges[r.route.challenge].expires {
      OneTurn(db, r, c, n);
      FromTheElevation(m.db, m.request, c, n - 1);
    } else {
      TheLastTurn(db, r, c, n);
    }
  }

  /** A request let in: what it holds is what the rows say. */
  predicate LetIn(db: Db, r: Request) {
    && r.route.Verify? && Alive(db, r.session) && db.sessions[r.session].operator == r.operator
    && r.operator in db.attempts && db.attempts[r.operator].Row?
    && (r.failures >= 5 <==> db.attempts[r.operator].failures >= 5)
  }

  lemma FromTheSpending(db: Db, r: Request, c: Course, n: nat)
    requires n >= 4 && r.pc.Spend? && LetIn(db, r) && c.verdict == Match(r.pc.proof)
    requires r.route.challenge in db.challenges && !db.challenges[r.route.challenge].consumed
    requires Held(db.accounts[r.operator], r.route.means, r.pc.proof)
    ensures Play(db, r, c, n) == Judged(db, r.operator, r.session, r.route.challenge, r.route.means, c)
  {
    var m := Turn(db, r, c);
    if Unused(db.accounts[r.operator], r.route.means, r.pc.proof, c.accepted) {
      OneTurn(db, r, c, n);
      TheProofIsUsed(db, r, c);
      FromTheConsumption(m.db, m.request, c, n - 1);
    } else {
      TheLastTurn(db, r, c, n);
    }
  }

  lemma TheProofIsUsed(db: Db, r: Request, c: Course)
    requires r.pc.Spend? && LetIn(db, r)
    requires Held(db.accounts[r.operator], r.route.means, r.pc.proof)
    requires Unused(db.accounts[r.operator], r.route.means, r.pc.proof, c.accepted)
    ensures var m := Turn(db, r, c);
            && m.db == db.(accounts := db.accounts[r.operator :=
                                         Using(db.accounts[r.operator], r.route.means, r.pc.proof)])
            && m.request == r.(pc := ConsumeChallenge)
  {
    var account := db.accounts[r.operator];
    assert db.accounts[r.operator := account] == db.accounts;
  }

  lemma FromTheComparison(db: Db, r: Request, c: Course, n: nat)
    requires n >= 5 && r.pc.Compare? && LetIn(db, r)
    requires r.route.challenge in db.challenges && !db.challenges[r.route.challenge].consumed
    ensures Play(db, r, c, n) == Judged(db, r.operator, r.session, r.route.challenge, r.route.means, c)
  {
    match c.verdict
    case Match(proof) =>
      if Held(db.accounts[r.operator], r.route.means, proof) {
        OneTurn(db, r, c, n);
        FromTheSpending(db, r.(pc := Spend(proof)), c, n - 1);
      } else {
        NoVerdict(db, r, c, n);
      }
    case Mismatch => TheLastTurn(db, r, c, n);
    case Fault(_) =>
      TheOthersInNumbers(db.attempts[r.operator], 0);
      OneTurn(db, r, c, n);
      TheLastTurn(db, r.(pc := GiveBack), c, n - 1);
    case Overloaded => if r.route.means.Recovery? { TheLastTurn(db, r, c, n); } else { NoVerdict(db, r, c, n); }
    case Answered(_) => NoVerdict(db, r, c, n);
  }

  lemma FromTheChallenge(db: Db, r: Request, c: Course, n: nat)
    requires n >= 6 && r.pc.ReadChallenge? && LetIn(db, r)
    ensures Play(db, r, c, n) ==
              if Answerable(db, r.route.challenge, r.operator, c.read)
                then Judged(db, r.operator, r.session, r.route.challenge, r.route.means, c)
              else End(Done(401), db)
  {
    if Answerable(db, r.route.challenge, r.operator, c.read) {
      OneTurn(db, r, c, n);
      FromTheComparison(db, r.(pc := Compare), c, n - 1);
    } else {
      TheLastTurn(db, r, c, n);
    }
  }

  lemma FromTheReservation(db: Db, r: Request, c: Course, n: nat)
    requires n >= 7 && r.pc.Reserving? && r.route.Verify?
    requires Alive(db, r.session) && db.sessions[r.session].operator == r.operator
    ensures Play(db, r, c, n) == Verification(db, r.session, r.route.challenge, r.route.means, c)
  {
    var row := RowOf(db.attempts, r.operator);
    AReservationInNumbers(row, c.reserved);
    if Refuses(row, c.reserved) {
      TheLastTurn(db, r, c, n);
      assert db.attempts[r.operator := row] == db.attempts;
    } else {
      OneTurn(db, r, c, n);
      var m := Turn(db, r, c);
      FromTheChallenge(m.db, m.request, c, n - 1);
    }
  }

  /**
   For every session, challenge, means, verdict and content of the rows: seven statements on, a verification
   that arrives has the answer of the reference and leaves its rows.
   */
  lemma AVerificationAlone(db: Db, session: nat, challenge: nat, means: Method, c: Course)
    ensures Play(db, Arriving(db, Verify(challenge, means), session), c, 7) ==
            Verification(db, session, challenge, means, c)
  {
    var r := Arriving(db, Verify(challenge, means), session);
    if Alive(db, session) {
      FromTheReservation(db, r, c, 7);
    } else {
      Stays(db, r, c, 7);
    }
  }

  // ---------------------------------------------------------------- when it succeeds, and what it leaves

  /**
   The session is alive and its account active, no five attempts of the last quarter of an hour stand in the
   way, the challenge exists, was not consumed, is in time when it is read and when it is consumed and belongs
   to the operator of the session, and the code was compared right with what the account holds under the means
   presented and was not used before.
   */
  predicate Elevates(db: Db, session: nat, challenge: nat, means: Method, c: Course) {
    && session in db.sessions && db.sessions[session].alive
    && var operator := db.sessions[session].operator;
    && operator in db.accounts && db.accounts[operator].active
    && (operator in db.attempts && db.attempts[operator].Row? && db.attempts[operator].failures >= 5 ==>
          c.reserved >= db.attempts[operator].last + 900_000_000 || c.reserved == db.attempts[operator].last)
    && challenge in db.challenges && !db.challenges[challenge].consumed
    && db.challenges[challenge].operator == operator
    && c.read < db.challenges[challenge].expires && c.consumed < db.challenges[challenge].expires
    && c.verdict.Match?
    && var account, proof := db.accounts[operator], c.verdict.proof;
    match means
    case Totp =>
      && proof.TotpStep? && account.secret == Some(proof.shown)
      && (account.lastStep.Some? ==> account.lastStep.value < proof.step)
    case Recovery => proof.RecoveryCode? && proof.code in account.codes
    case Webauthn => proof.Assertion? && c.accepted
  }

  /** The proof used, the challenge consumed, the session elevated, no attempt counted, every other row as it was. */
  predicate LeftElevated(db: Db, session: nat, challenge: nat, means: Method, c: Course, after: Db) {
    && session in db.sessions && challenge in db.challenges && c.verdict.Match?
    && var operator := db.sessions[session].operator;
    && operator in db.accounts
    && var account, proof := db.accounts[operator], c.verdict.proof;
    && (means.Totp? ==> proof.TotpStep?) && (means.Recovery? ==> proof.RecoveryCode?)
    && after == Db(
         db.accounts[operator := match means
           case Totp => account.(lastStep := Some(proof.step))
           case Recovery => account.(codes := account.codes - {proof.code})
           case Webauthn => account],
         db.attempts[operator := Absent],
         db.enrolments,
         db.challenges[challenge := Challenge(operator, db.challenges[challenge].expires, true)],
         db.sessions[session := Session(operator, true, true)])
  }

  lemma TheReferenceElevatesIff(db: Db, session: nat, challenge: nat, means: Method, c: Course)
    ensures Verification(db, session, challenge, means, c).pc == Done(204) <==>
            Elevates(db, session, challenge, means, c)
  {
  }

  lemma WhatTheReferenceLeaves(db: Db, session: nat, challenge: nat, means: Method, c: Course)
    requires Elevates(db, session, challenge, means, c)
    ensures LeftElevated(db, session, challenge, means, c, Verification(db, session, challenge, means, c).db)
  {
    var operator := db.sessions[session].operator;
    var counted := db.attempts[operator := LetInTo(RowOf(db.attempts, operator), c.reserved)];
    assert counted[operator := Absent] == db.attempts[operator := Absent];
  }

  /**
   Undisturbed, a verification is answered 204 exactly when the rows and the verdict allow it, and then
   leaves what they say.
   */
  lemma AVerificationElevatesIff(db: Db, session: nat, challenge: nat, means: Method, c: Course)
    ensures var end := Play(db, Arriving(db, Verify(challenge, means), session), c, 7);
            && (end.pc == Done(204) <==> Elevates(db, session, challenge, means, c))
            && (end.pc == Done(204) ==> LeftElevated(db, session, challenge, means, c, end.db))
  {
    AVerificationAlone(db, session, challenge, means, c);
    TheReferenceElevatesIff(db, session, challenge, means, c);
    if Elevates(db, session, challenge, means, c) {
      WhatTheReferenceLeaves(db, session, challenge, means, c);
    }
  }

  lemma TheReferenceRefuses(db: Db, session: nat, challenge: nat, means: Method, c: Course)
    requires Alive(db, session) && c.verdict == Mismatch
    requires var operator := db.sessions[session].operator;
             && !Refuses(RowOf(db.attempts, operator), c.reserved)
             && Answerable(db, challenge, operator, c.read)
    ensures var operator := db.sessions[session].operator;
            var failures := if operator !in db.attempts || db.attempts[operator].Absent? then 1
                            else if db.attempts[operator].last + 900_000_000 <= c.reserved then 1
                            else if db.attempts[operator].failures < 5 then db.attempts[operator].failures + 1
                            else db.attempts[operator].failures;
            Verification(db, session, challenge, means, c) ==
            End(Done(if failures >= 5 then 429 else 401),
                db.(attempts := db.attempts[operator := Row(failures, c.reserved)]))
  {
  }

  /** A code compared wrong costs the attempt that was counted, and nothing else. */
  lemma AWrongCodeIsRefused(db: Db, session: nat, challenge: nat, means: Method, c: Course)
    requires Alive(db, session) && c.verdict == Mismatch
    requires var operator := db.sessions[session].operator;
             && !Refuses(RowOf(db.attempts, operator), c.reserved)
             && Answerable(db, challenge, operator, c.read)
    ensures var operator := db.sessions[session].operator;
            var failures := if operator !in db.attempts || db.attempts[operator].Absent? then 1
                            else if db.attempts[operator].last + 900_000_000 <= c.reserved then 1
                            else if db.attempts[operator].failures < 5 then db.attempts[operator].failures + 1
                            else db.attempts[operator].failures;
            Play(db, Arriving(db, Verify(challenge, means), session), c, 7) ==
            End(Done(if failures >= 5 then 429 else 401),
                db.(attempts := db.attempts[operator := Row(failures, c.reserved)]))
  {
    AVerificationAlone(db, session, challenge, means, c);
    TheReferenceRefuses(db, session, challenge, means, c);
  }
}
