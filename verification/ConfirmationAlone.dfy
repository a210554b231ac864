/**
 What one confirmation of a waiting secret answers and leaves when no statement fails and nobody else runs,
 from its arrival: for every session, verdict and row.
 */
module ConfirmationAlone {
  import opened Common
  import opened CounterRows
  import opened Counters
  import opened SecondFactor
  import opened FactorAlone

  // ---------------------------------------------------------------- the reference

  /** The waiting secret and its codes put in place by the step that was shown. */
  function Confirmed(account: Account, secret: nat, step: int): Account {
    Account(account.active, Some(secret), Some(step), None, account.pendingCodes, {}, account.passkeys)
  }

  /** Once the attempt is counted. */
  function Judged(db: Db, operator: nat, c: Course): End
    requires operator in db.accounts && operator in db.attempts && db.attempts[operator].Row?
  {
    var account := db.accounts[operator];
    match c.verdict
    case Mismatch => End(Done(if db.attempts[operator].failures >= 5 then 429 else 400), db)
    case Match(proof) =>
      if proof.PendingSecret? && account.pending == Some(proof.secret) then
        End(Done(204), db.(accounts := db.accounts[operator := Confirmed(account, proof.secret, proof.pendingStep)],
                           attempts := db.attempts[operator := Absent]))
      else End(Compare, db)
    case Fault(_) =>
      End(Done(500), db.(attempts := db.attempts[operator := OneLessOn(db.attempts[operator])]))
    case _ => End(Compare, db)
  }

  /** A whole confirmation. */
  function Confirmation(db: Db, session: nat, c: Course): End {
    if !Alive(db, session) then End(Done(401), db)
    else if !db.sessions[session].elevated then End(Done(409), db)
    else
      var operator := db.sessions[session].operator;
      var row := RowOf(db.attempts, operator);
      if db.accounts[operator].pending.None? then End(Done(409), db)
      else if Refuses(row, c.reserved) then End(Done(429), db)
      else Judged(db.(attempts := db.attempts[operator := LetInTo(row, c.reserved)]), operator, c)
  }

  // ---------------------------------------------------------------- from the last statement to the first

  /** A confirmation under way. */
  predicate Confirming(db: Db, r: Request) {
    && r.route.Confirm? && r.operator in db.accounts && db.accounts[r.operator].active
    && r.operator in db.attempts && db.attempts[r.operator].Row?
    && (r.failures >= 5 <==> db.attempts[r.operator].failures >= 5)
  }

  lemma FromTheSpending(db: Db, r: Request, c: Course, n: nat)
    requires n >= 2 && r.pc.Spend? && Confirming(db, r) && c.verdict == Match(r.pc.proof)
    requires r.pc.proof.PendingSecret? && db.accounts[r.operator].pending == Some(r.pc.proof.secret)
    ensures Play(db, r, c, n) == Judged(db, r.operator, c)
  {
    OneTurn(db, r, c, n);
    var m := Turn(db, r, c);
    TheLastTurn(m.db, m.request, c, n - 1);
  }

  lemma FromTheComparison(db: Db, r: Request, c: Course, n: nat)
    requires n >= 3 && r.pc.Compare? && Confirming(db, r)
    ensures Play(db, r, c, n) == Judged(db, r.operator, c)
  {
    match c.verdict
    case Match(proof) =>
      if proof.PendingSecret? && db.accounts[r.operator].pending == Some(proof.secret) {
        OneTurn(db, r, c, n);
        FromTheSpending(db, r.(pc := Spend(proof)), c, n - 1);
      } else {
        NoVerdict(db, r, c, n);
      }
    case Mismatch => TheLastTurn(db, r, c, n);
    case Fault(_) =>
      TheOthersInNumbers(db.attempts[r.operator], 0);
      OneTurn(db, r, c, n);
      TheLastTurn(db, r.(pc := GiveBack), c, n - 1);
    case _ => NoVerdict(db, r, c, n);
  }

  lemma FromTheReservation(db: Db, r: Request, c: Course, n: nat)
    requires n >= 4 && r.pc.Reserving? && r.route.Confirm?
    requires r.operator in db.accounts && db.accounts[r.operator].active
    ensures var row := RowOf(db.attempts, r.operator);
            Play(db, r, c, n) ==
            if Refuses(row, c.reserved) then End(Done(429), db)
            else Judged(db.(attempts := db.attempts[r.operator := LetInTo(row, c.reserved)]), r.operator, c)
  {
    var row := RowOf(db.attempts, r.operator);
    AReservationInNumbers(row, c.reserved);
    if Refuses(row, c.reserved) {
      TheLastTurn(db, r, c, n);
      assert db.attempts[r.operator := row] == db.attempts;
    } else {
      OneTurn(db, r, c, n);
      var m := Turn(db, r, c);
      FromTheComparison(m.db, m.request, c, n - 1);
    }
  }

  /**
   For every session, verdict and content of the rows: five statements on, a confirmation that arrives has
   the answer of the reference and leaves its rows.
   */
  lemma AConfirmationAlone(db: Db, session: nat, c: Course)
    ensures Play(db, Arriving(db, Confirm, session), c, 5) == Confirmation(db, session, c)
  {
    var r := Arriving(db, Confirm, session);
    if r.pc.Done? {
      Stays(db, r, c, 5);
    } else if db.accounts[r.operator].pending.None? {
      TheLastTurn(db, r, c, 5);
    } else {
      OneTurn(db, r, c, 5);
      FromTheReservation(db, r.(pc := Reserving), c, 4);
    }
  }

  // ---------------------------------------------------------------- when it confirms, and what it leaves

  /**
   The session is alive and elevated and its account active, its attempts are not locked, and the code was
   compared right with the secret that waits.
   */
  predicate Confirms(db: Db, session: nat, c: Course) {
    && session in db.sessions && db.sessions[session].alive && db.sessions[session].elevated
    && var operator := db.sessions[session].operator;
    && operator in db.accounts && db.accounts[operator].active
    && (operator in db.attempts && db.attempts[operator].Row? && db.attempts[operator].failures >= 5 ==>
          c.reserved >= db.attempts[operator].last + 900_000_000 || c.reserved == db.attempts[operator].last)
    && c.verdict.Match? && c.verdict.proof.PendingSecret?
    && db.accounts[operator].pending == Some(c.verdict.proof.secret)
  }

  /**
   Every account as it was, unless it confirms: then the secret that waited is in place with its codes, proven
   by the step shown, and no attempt is counted.
   */
  predicate Left(db: Db, session: nat, c: Course, confirmed: bool, after: Db) {
    if !confirmed then after == db.(attempts := after.attempts)
    else
      && session in db.sessions && db.sessions[session].operator in db.accounts
      && c.verdict.Match? && c.verdict.proof.PendingSecret?
      && var operator, proof := db.sessions[session].operator, c.verdict.proof;
      && var account := db.accounts[operator];
      && after == db.(
           accounts := db.accounts[operator := Account(
             true, Some(proof.secret), Some(proof.pendingStep), None, account.pendingCodes, {},
             account.passkeys)],
           attempts := db.attempts[operator := Absent])
  }

  lemma TheReferenceConfirmsIff(db: Db, session: nat, c: Course)
    ensures Confirmation(db, session, c).pc == Done(204) <==> Confirms(db, session, c)
  {
  }

  lemma WhatTheReferenceLeaves(db: Db, session: nat, c: Course)
    ensures var end := Confirmation(db, session, c); Left(db, session, c, end.pc == Done(204), end.db)
  {
    if Alive(db, session) {
      var operator := db.sessions[session].operator;
      var counted := db.attempts[operator := LetInTo(RowOf(db.attempts, operator), c.reserved)];
      assert counted[operator := Absent] == db.attempts[operator := Absent];
    }
  }

  /** Undisturbed, a confirmation is answered 204 exactly when the rows and the verdict allow it. */
  lemma AConfirmationSucceedsIff(db: Db, session: nat, c: Course)
    ensures var end := Play(db, Arriving(db, Confirm, session), c, 5);
            && (end.pc == Done(204) <==> Confirms(db, session, c))
            && Left(db, session, c, end.pc == Done(204), end.db)
  {
    AConfirmationAlone(db, session, c);
    TheReferenceConfirmsIff(db, session, c);
    WhatTheReferenceLeaves(db, session, c);
  }
}
