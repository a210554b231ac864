/**
 What one enrolment of an authenticator, and one confirmation, answer and leave when no statement fails and
 nobody else runs, from their arrival: for every session, proof, verdict and row.
 */
module EnrolmentAlone {
  import opened Common
  import opened CounterRows
  import opened SecondFactor
  import opened FactorAlone

  // ---------------------------------------------------------------- the reference of the enrolment

  /** The new secret and its codes in place of whatever there was. */
  function InPlace(account: Account, c: Course): Account {
    Account(account.active, Some(c.secret), None, None, c.codes, {}, account.passkeys)
  }

  /** The new secret and its codes beside the factor in place. */
  function Beside(account: Account, c: Course): Account {
    account.(pending := Some(c.secret), pendingCodes := c.codes)
  }

  function With(db: Db, operator: nat, account: Account): Db { db.(accounts := db.accounts[operator := account]) }

  /** The replacement of a factor, once the attempt is counted. */
  function Judged(db: Db, operator: nat, means: Method, c: Course): End
    requires operator in db.accounts && operator in db.attempts && db.attempts[operator].Row?
  {
    var account := db.accounts[operator];
    var refused := End(Done(if db.attempts[operator].failures >= 5 then 429 else 409), db);
    match c.verdict
    case Mismatch => refused
    case Match(proof) =>
      if !Held(account, means, proof) then End(Compare, db)
      else if !Unused(account, means, proof, c.accepted) then refused
      else End(Done(200), With(db, operator, Beside(Using(account, means, proof), c)))
    case Overloaded => if means.Recovery? then End(Done(503), db) else End(Compare, db)
    case Fault(_) =>
      End(Done(500), db.(attempts := db.attempts[operator := OneLessOn(db.attempts[operator])]))
    case Answered(_) => End(Compare, db)
  }

  /** The replacement of a factor that somebody holds: the proof comes before anything is written. */
  function Replacement(db: Db, operator: nat, proof: Option<Method>, c: Course): End
    requires operator in db.accounts
  {
    var row := RowOf(db.attempts, operator);
    if proof.None? then End(Done(409), db)
    else if Refuses(row, c.reserved) then End(Done(429), db)
    else Judged(db.(attempts := db.attempts[operator := LetInTo(row, c.reserved)]), operator, proof.value, c)
  }

  /** Once the call is counted. */
  function Decided(db: Db, operator: nat, elevated: bool, proof: Option<Method>, c: Course): End
    requires operator in db.accounts
  {
    var account := db.accounts[operator];
    if account.passkeys == 0 && (account.secret.None? || account.lastStep.None?) then
      End(Done(200), With(db, operator, InPlace(account, c)))
    else if account.secret.None? then
      if elevated then End(Done(200), With(db, operator, Beside(account, c))) else End(Done(409), db)
    else Replacement(db, operator, proof, c)
  }

  /** A whole enrolment. */
  function Enrolment(db: Db, session: nat, proof: Option<Method>, c: Course): End {
    if proof == Some(Webauthn) then End(Done(400), db)
    else if !Alive(db, session) then End(Done(401), db)
    else
      var operator := db.sessions[session].operator;
      var row := RowOf(db.enrolments, operator);
      if Refuses(row, c.admitted) then End(Done(429), db)
      else Decided(db.(enrolments := db.enrolments[operator := LetInTo(row, c.admitted)]),
                   operator, db.sessions[session].elevated, proof, c)
  }

  // ---------------------------------------------------------------- from the last statement to the first

  /** An enrolment under way: it has read the account as it is. */
  predicate HasRead(db: Db, r: Request) {
    && r.route.Enroll? && r.operator in db.accounts && db.accounts[r.operator].active
    && r.enrolled == db.accounts[r.operator].secret.Some?
    && r.proven == db.accounts[r.operator].lastStep.Some?
    && r.passkeys == db.accounts[r.operator].passkeys
  }

  /** ... a factor that somebody holds, and its attempt is counted. */
  predicate Replacing(db: Db, r: Request) {
    && HasRead(db, r) && r.enrolled && (r.proven || r.passkeys > 0)
    && r.route.proof.Some? && r.route.proof != Some(Webauthn)
    && r.operator in db.attempts && db.attempts[r.operator].Row?
    && (r.failures >= 5 <==> db.attempts[r.operator].failures >= 5)
  }

  lemma FromTheWrite(db: Db, r: Request, c: Course, n: nat)
    requires n >= 1 && r.pc.Write? && r.operator in db.accounts
    requires var account := db.accounts[r.operator];
             if r.pc.pending then account.secret.Some? || account.passkeys > 0
             else r.pc.replace || account.secret.None?
    ensures var account := db.accounts[r.operator];
            Play(db, r, c, n) ==
            End(Done(200), With(db, r.operator, if r.pc.pending then Beside(account, c) else InPlace(account, c)))
  {
    TheLastTurn(db, r, c, n);
  }

  lemma TheProofIsUsed(db: Db, r: Request, c: Course)
    requires r.pc.Spend? && Replacing(db, r)
    requires Held(db.accounts[r.operator], r.route.proof.value, r.pc.proof)
    requires Unused(db.accounts[r.operator], r.route.proof.value, r.pc.proof, c.accepted)
    ensures var m := Turn(db, r, c);
            && m.db == With(db, r.operator, Using(db.accounts[r.operator], r.route.proof.value, r.pc.proof))
            && m.request == r.(pc := Write(true, true))
  {
  }

  lemma TheProofIsRefused(db: Db, r: Request, c: Course)
    requires r.pc.Spend? && Replacing(db, r)
    requires Held(db.accounts[r.operator], r.route.proof.value, r.pc.proof)
    requires !Unused(db.accounts[r.operator], r.route.proof.value, r.pc.proof, c.accepted)
    ensures var m := Turn(db, r, c);
            && m.db == db
            && m.request == r.(pc := Done(if db.attempts[r.operator].failures >= 5 then 429 else 409))
  {
  }

  lemma FromTheSpending(db: Db, r: Request, c: Course, n: nat)
    requires n >= 2 && r.pc.Spend? && Replacing(db, r) && c.verdict == Match(r.pc.proof)
    requires Held(db.accounts[r.operator], r.route.proof.value, r.pc.proof)
    ensures Play(db, r, c, n) == Judged(db, r.operator, r.route.proof.value, c)
  {
    var account := db.accounts[r.operator];
    if Unused(account, r.route.proof.value, r.pc.proof, c.accepted) {
      OneTurn(db, r, c, n);
      TheProofIsUsed(db, r, c);
      var m := Turn(db, r, c);
      FromTheWrite(m.db, m.request, c, n - 1);
    } else {
      TheProofIsRefused(db, r, c);
      TheLastTurn(db, r, c, n);
    }
  }

  lemma FromTheComparison(db: Db, r: Request, c: Course, n: nat)
    requires n >= 3 && r.pc.Compare? && Replacing(db, r)
    ensures Play(db, r, c, n) == Judged(db, r.operator, r.route.proof.value, c)
  {
    match c.verdict
    case Match(proof) =>
      if Held(db.accounts[r.operator], r.route.proof.value, proof) {
        OneTurn(db, r, c, n);
        FromTheSpending(db, r.(pc := Spend(proof)), c, n - 1);
      } else {
        NoVerdict(db, r, c, n);
      }
    case Mismatch => TheLastTurn(db, r, c, n);
    case Fault(_) =>
      TheOthersInNumbers(db.attempts[r.operator], 0);
      OneTurn(db, r, c, n);
      TheLastTurn(db, r.(pc := GiveBack), c, n - 1);
    case Overloaded => if r.route.proof.value.Recovery? { TheLastTurn(db, r, c, n); } else { NoVerdict(db, r, c, n); }
    case Answered(_) => NoVerdict(db, r, c, n);
  }

  lemma FromTheReservation(db: Db, r: Request, c: Course, n: nat)
    requires n >= 4 && r.pc.Reserving? && HasRead(db, r) && r.enrolled && (r.proven || r.passkeys > 0)
    requires r.route.proof.Some? && r.route.proof != Some(Webauthn)
    ensures Play(db, r, c, n) == Replacement(db, r.operator, r.route.proof, c)
  {
    var row := RowOf(db.attempts, r.operator);
    AReservationInNumbers(row, c.reserved);
    if Refuses(row, c.reserved) {
      TheLastTurn(db, r, c, n);
      assert db.attempts[r.operator := row] == db.attempts;
    } else {
      OneTurn(db, r, c, n);
      var m := Turn(db, r, c);
      FromTheComparison(m.db, m.request, c, n - 1);
    }
  }

  lemma FromTheReading(db: Db, r: Request, c: Course, n: nat)
    requires n >= 5 && r.pc.ReadFactors? && r.route.Enroll? && r.route.proof != Some(Webauthn)
    requires HasRead(db, r.(passkeys := if r.operator in db.accounts then db.accounts[r.operator].passkeys else 0))
    ensures Play(db, r, c, n) == Decided(db, r.operator, r.elevated, r.route.proof, c)
  {
    var m := Turn(db, r, c);
    if m.request.pc.Done? {
      TheLastTurn(db, r, c, n);
    } else {
      OneTurn(db, r, c, n);
      if m.request.pc.Write? {
        FromTheWrite(db, m.request, c, n - 1);
      } else {
        FromTheReservation(db, m.request, c, n - 1);
      }
    }
  }

  lemma FromTheState(db: Db, r: Request, c: Course, n: nat)
    requires n >= 6 && r.pc.ReadState? && r.route.Enroll? && r.route.proof != Some(Webauthn)
    requires r.operator in db.accounts && db.accounts[r.operator].active
    ensures Play(db, r, c, n) == Decided(db, r.operator, r.elevated, r.route.proof, c)
  {
    OneTurn(db, r, c, n);
    FromTheReading(db, Turn(db, r, c).request, c, n - 1);
  }

  /**
   For every session, proof, verdict and content of the rows: seven statements on, an enrolment that arrives
   has the answer of the reference and leaves its rows.
   */
  lemma AnEnrolmentAlone(db: Db, session: nat, proof: Option<Method>, c: Course)
    ensures Play(db, Arriving(db, Enroll(proof), session), c, 7) == Enrolment(db, session, proof, c)
  {
    var r := Arriving(db, Enroll(proof), session);
    if r.pc.Done? {
      Stays(db, r, c, 7);
    } else {
      var row := RowOf(db.enrolments, r.operator);
      AReservationInNumbers(row, c.admitted);
      if Refuses(row, c.admitted) {
        TheLastTurn(db, r, c, 7);
        assert db.enrolments[r.operator := row] == db.enrolments;
      } else {
        OneTurn(db, r, c, 7);
        var m := Turn(db, r, c);
        FromTheState(m.db, m.request, c, 6);
      }
    }
  }

  // ---------------------------------------------------------------- when it writes, and what it leaves

  /**
   The session is alive and its account active, its calls are not locked, and: nobody holds a factor of the
   account; or a passkey alone guards it and the session is elevated; or a secret is in place that was proven
   or stands beside a passkey, and a code of the account, compared right and not used before, was presented
   while its attempts were not locked.
   */
  predicate Writes(db: Db, session: nat, proof: Option<Method>, c: Course) {
    && proof != Some(Webauthn)
    && session in db.sessions && db.sessions[session].alive
    && var operator := db.sessions[session].operator;
    && operator in db.accounts && db.accounts[operator].active
    && (operator in db.enrolments && db.enrolments[operator].Row? && db.enrolments[operator].failures >= 5 ==>
          || c.admitted >= db.enrolments[operator].last + 900_000_000
          || c.admitted == db.enrolments[operator].last)
    && var account := db.accounts[operator];
    || (account.passkeys == 0 && (account.secret.None? || account.lastStep.None?))
    || (account.passkeys > 0 && account.secret.None? && db.sessions[session].elevated)
    || (&& account.secret.Some? && (account.passkeys > 0 || account.lastStep.Some?)
        && proof.Some?
        && (operator in db.attempts && db.attempts[operator].Row? && db.attempts[operator].failures >= 5 ==>
              || c.reserved >= db.attempts[operator].last + 900_000_000
              || c.reserved == db.attempts[operator].last)
        && c.verdict.Match?
        && var shown := c.verdict.proof;
           match proof.value
           case Totp =>
             && shown.TotpStep? && account.secret == Some(shown.shown)
             && (account.lastStep.Some? ==> account.lastStep.value < shown.step)
           case Recovery => shown.RecoveryCode? && shown.code in account.codes
           case Webauthn => false)
  }

  /**
   Every account as it was, unless something is written: then the new secret and codes are in place where
   nobody held a factor, and beside the factor in place otherwise, with the proof that was shown used.
   */
  predicate Left(db: Db, session: nat, proof: Option<Method>, c: Course, written: bool, after: Db) {
    var operator := if session in db.sessions then db.sessions[session].operator else 0;
    if !written then
      after == db.(attempts := after.attempts, enrolments := after.enrolments)
    else
      && operator in db.accounts
      && var account := db.accounts[operator];
      && after == db.(accounts := after.accounts, attempts := after.attempts,
                       enrolments := after.enrolments)
      && if account.passkeys == 0 && (account.secret.None? || account.lastStep.None?) then
          after.accounts == db.accounts[operator :=
            Account(true, Some(c.secret), None, None, c.codes, {}, 0)]
        else if account.secret.None? then
          after.accounts == db.accounts[operator :=
            account.(pending := Some(c.secret), pendingCodes := c.codes)]
        else
          && proof.Some? && c.verdict.Match?
          && var shown := c.verdict.proof;
          && (if proof.value.Totp? then shown.TotpStep? else shown.RecoveryCode?)
          && after.accounts == db.accounts[operator :=
               account.(pending := Some(c.secret), pendingCodes := c.codes,
                        lastStep := if proof.value.Totp? then Some(shown.step) else account.lastStep,
                        codes := if proof.value.Totp? then account.codes else account.codes - {shown.code})]
  }

  lemma TheReferenceWritesIff(db: Db, session: nat, proof: Option<Method>, c: Course)
    ensures Enrolment(db, session, proof, c).pc == Done(200) <==> Writes(db, session, proof, c)
  {
  }

  lemma WhatTheReferenceLeaves(db: Db, session: nat, proof: Option<Method>, c: Course)
    ensures var end := Enrolment(db, session, proof, c); Left(db, session, proof, c, end.pc == Done(200), end.db)
  {
  }

  /** Undisturbed, an enrolment is answered 200 exactly when the rows and the verdict allow it. */
  lemma AnEnrolmentIsWrittenIff(db: Db, session: nat, proof: Option<Method>, c: Course)
    ensures var end := Play(db, Arriving(db, Enroll(proof), session), c, 7);
            && (end.pc == Done(200) <==> Writes(db, session, proof, c))
            && Left(db, session, proof, c, end.pc == Done(200), end.db)
  {
    AnEnrolmentAlone(db, session, proof, c);
    TheReferenceWritesIff(db, session, proof, c);
    WhatTheReferenceLeaves(db, session, proof, c);
  }
}
