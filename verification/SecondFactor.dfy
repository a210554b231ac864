/**
 The three routes of internal/bff/mfa.go that share one attempt counter - VerifyMfa, EnrollTotp and
 ConfirmTotp - as a state machine. Each step is one statement of internal/store (or one comparison
 on what a statement has just read, which nothing shares); the steps of any number of requests
 interleave, and so do the other writers of the same rows.
 */
module SecondFactor {
  import opened Common
  import opened Counters
  import opened Journal

  // ---------------------------------------------------------------- rows

  /** The columns of `operators` and its recovery codes that the second factor reads and writes. */
  datatype Account = Account(
    active: bool,
    secret: Option<nat>,
    lastStep: Option<int>,
    pending: Option<nat>,
    codes: set<nat>,
    pendingCodes: set<nat>,
    passkeys: nat)
  {
    predicate Enrolled() { secret.Some? }

    predicate Proven() { lastStep.Some? }

    /** Somebody holds a factor of this account: a confirmed authenticator, or a passkey. */
    predicate Guarded() { (Enrolled() && Proven()) || passkeys > 0 }
  }

  datatype Challenge = Challenge(operator: nat, expires: int, consumed: bool)

  datatype Session = Session(operator: nat, alive: bool, elevated: bool)

  datatype Db = Db(
    accounts: map<nat, Account>,
    attempts: map<nat, Row>,
    enrolments: map<nat, Row>,
    challenges: map<nat, Challenge>,
    sessions: map<nat, Session>)

  function RowOf(rows: map<nat, Row>, subject: nat): Row {
    if subject in rows then rows[subject] else Absent
  }

  predicate ActiveAccount(db: Db, operator: nat) {
    operator in db.accounts && db.accounts[operator].active
  }

  // ---------------------------------------------------------------- requests

  datatype Method = Totp | Recovery | Webauthn

  datatype Route =
    | Verify(challenge: nat, means: Method)
    | Enroll(proof: Option<Method>)
    | Confirm

  /**
   What a comparison found to spend: a time step of the secret it read, a recovery code, an assertion,
   a pending secret.
   */
  datatype Proof =
    | TotpStep(shown: nat, step: int)
    | RecoveryCode(code: nat)
    | Assertion
    | PendingSecret(secret: nat, pendingStep: int)

  datatype Pc =
    | Admit
    | ReadState
    | ReadFactors
    | Reserving
    | ReadChallenge
    | Compare
    | Spend(proof: Proof)
    | GiveBack
    | ConsumeChallenge
    | Elevate
    | Succeed
    | Write(replace: bool, pending: bool)
    | Done(status: nat)

  /** An effect on shared rows, or the verdict of a comparison. */
  datatype Event =
    | Granted(now: int)
    | Refused(now: int)
    | Unanswered(now: int)      // the reservation was written but its answer was lost
    | Compared(right: bool)
    | Spent(proof: Proof, ok: bool)
    | GaveBack
    | Consumed(challenge: nat, at: int)
    | Elevated(session: nat)
    | Cleared
    | Wrote(pending: bool)

  datatype Request = Request(
    route: Route,
    session: nat,
    operator: nat,
    elevated: bool,
    pc: Pc,
    failures: nat,
    enrolled: bool,
    proven: bool,
    passkeys: nat,
    trace: seq<Event>)
  {
    /** A confirmed factor guards the account: the new secret waits beside it. */
    predicate WritesPending() { (enrolled && proven) || passkeys > 0 }

    predicate UsesRecovery() {
      (route.Verify? && route.means.Recovery?) || (route.Enroll? && route.proof == Some(Recovery))
    }

    /** The refusal of a judged code; at the threshold it announces the lock. */
    function RefusalStatus(): nat {
      if failures >= MAX_FAILURES then 429
      else match route
        case Verify(_, _) => 401
        case Enroll(_) => 409
        case Confirm => 400
    }
  }

  /** How a statement ended, and what the comparison found. */
  datatype Answer =
    | Fault(applied: bool)      // an error, with or without the statement's effect
    | Answered(accepted: bool)  // `accepted` is only read where the verdict is not the store's own
    | Overloaded
    | Mismatch
    | Match(proof: Proof)

  datatype Move = Move(db: Db, request: Request, event: Option<Event>)

  function Quiet(db: Db, r: Request, pc: Pc): Move { Move(db, r.(pc := pc), None) }

  function Emit(db: Db, r: Request, pc: Pc, event: Event): Move { Move(db, r.(pc := pc), Some(event)) }

  // ---------------------------------------------------------------- one statement each

  function DoAdmit(db: Db, r: Request, answer: Answer, now: int): Move {
    var row := RowOf(db.enrolments, r.operator);
    var counted := db.(enrolments := db.enrolments[r.operator := ReservedRow(row, now)]);
    if answer.Fault? then Quiet(if answer.applied then counted else db, r, Done(500))
    else if ReserveLock(row, now).Locked() then Quiet(counted, r, Done(429))
    else Quiet(counted, r, ReadState)
  }

  function DoReadState(db: Db, r: Request, answer: Answer): Move {
    if answer.Fault? then Quiet(db, r, Done(500))
    else if !ActiveAccount(db, r.operator) then Quiet(db, r, Done(401))
    else
      var account := db.accounts[r.operator];
      if r.route.Confirm? then Quiet(db, r, if account.pending.None? then Done(409) else Reserving)
      else Quiet(db, r.(enrolled := account.Enrolled(), proven := account.Proven()), ReadFactors)
  }

  function DoReadFactors(db: Db, r: Request, answer: Answer): Move {
    if answer.Fault? || r.operator !in db.accounts then Quiet(db, r, Done(500))
    else
      var seen := r.(passkeys := db.accounts[r.operator].passkeys);
      if !seen.enrolled && seen.passkeys > 0 && !seen.elevated then Quiet(db, seen, Done(409))
      else if seen.enrolled && !seen.proven && seen.passkeys == 0 then
        Quiet(db, seen, Write(true, seen.WritesPending()))
      else if !seen.enrolled then Quiet(db, seen, Write(false, seen.WritesPending()))
      else if seen.route.Enroll? && seen.route.proof.Some? then Quiet(db, seen, Reserving)
      else Quiet(db, seen, Done(409))
  }

  function DoReserve(db: Db, r: Request, answer: Answer, now: int): Move {
    var row := RowOf(db.attempts, r.operator);
    var lock := ReserveLock(row, now);
    var counted := db.(attempts := db.attempts[r.operator := ReservedRow(row, now)]);
    if answer.Fault? then
      if answer.applied then Emit(counted, r, Done(500), Unanswered(now)) else Quiet(db, r, Done(500))
    else if lock.Locked() then Emit(counted, r, Done(429), Refused(now))
    else Emit(counted, r.(failures := lock.failures), if r.route.Verify? then ReadChallenge else Compare, Granted(now))
  }

  predicate LiveChallenge(db: Db, challenge: nat, now: int) {
    challenge in db.challenges && !db.challenges[challenge].consumed && now < db.challenges[challenge].expires
  }

  function DoReadChallenge(db: Db, r: Request, answer: Answer, now: int): Move
    requires r.route.Verify?
  {
    if answer.Fault? then Quiet(db, r, GiveBack)
    else if !LiveChallenge(db, r.route.challenge, now) || db.challenges[r.route.challenge].operator != r.operator
    then Quiet(db, r, Done(401))
    else Quiet(db, r, Compare)
  }

  /** The comparison can only match what the rows it read hold. */
  predicate ProofFits(db: Db, r: Request, proof: Proof) {
    match r.route
    case Confirm =>
      proof.PendingSecret? && ActiveAccount(db, r.operator) && db.accounts[r.operator].pending == Some(proof.secret)
    case Verify(_, Webauthn) => proof.Assertion?
    case Verify(_, Recovery) | Enroll(Some(Recovery)) =>
      proof.RecoveryCode? && r.operator in db.accounts && proof.code in db.accounts[r.operator].codes
    case Verify(_, Totp) | Enroll(_) =>
      proof.TotpStep? && ActiveAccount(db, r.operator) && db.accounts[r.operator].secret == Some(proof.shown)
  }

  function DoCompare(db: Db, r: Request, answer: Answer): Move {
    match answer
    case Fault(_) => Quiet(db, r, GiveBack)
    case Overloaded => if r.UsesRecovery() then Quiet(db, r, Done(503)) else Move(db, r, None)
    case Mismatch => Emit(db, r, Done(r.RefusalStatus()), Compared(false))
    case Match(proof) =>
      if ProofFits(db, r, proof) then Emit(db, r, Spend(proof), Compared(true)) else Move(db, r, None)
    case Answered(_) => Move(db, r, None)
  }

  /** The conditional write that spends a proof, and whether it affected a row. */
  function SpendOn(db: Db, operator: nat, proof: Proof, accepted: bool): (Db, bool) {
    if proof.Assertion? then (db, accepted)
    else if operator !in db.accounts then (db, false)
    else
      var account := db.accounts[operator];
      match proof
      case TotpStep(_, step) =>
        if account.lastStep.None? || account.lastStep.value < step
        then (db.(accounts := db.accounts[operator := account.(lastStep := Some(step))]), true)
        else (db, false)
      case RecoveryCode(code) =>
        if code in account.codes
        then (db.(accounts := db.accounts[operator := account.(codes := account.codes - {code})]), true)
        else (db, false)
      case PendingSecret(secret, step) =>
        if account.pending == Some(secret)
        then (db.(accounts := db.accounts[operator := account.(
          secret := account.pending, pending := None, lastStep := Some(step),
          codes := account.pendingCodes, pendingCodes := {})]), true)
        else (db, false)
  }

  function DoSpend(db: Db, r: Request, answer: Answer): Move
    requires r.pc.Spend?
  {
    var (spent, ok) := SpendOn(db, r.operator, r.pc.proof, answer.Answered? && answer.accepted);
    match answer
    case Fault(applied) => if applied then Emit(spent, r, GiveBack, Spent(r.pc.proof, ok)) else Quiet(db, r, GiveBack)
    case Answered(_) =>
      if !ok then Emit(spent, r, Done(r.RefusalStatus()), Spent(r.pc.proof, false))
      else
        var next := match r.route
          case Verify(_, _) => ConsumeChallenge
          case Enroll(_) => Write(true, r.WritesPending())
          case Confirm => Succeed;
        Emit(spent, r, next, Spent(r.pc.proof, true))
    case _ => Move(db, r, None)
  }

  function DoGiveBack(db: Db, r: Request, answer: Answer): Move {
    if answer == Fault(false) then Quiet(db, r, Done(500))
    else
      var released := db.attempts[r.operator := ReleasedRow(RowOf(db.attempts, r.operator))];
      Emit(db.(attempts := released), r, Done(500), GaveBack)
  }

  function DoConsumeChallenge(db: Db, r: Request, answer: Answer, now: int): Move
    requires r.route.Verify?
  {
    var challenge := r.route.challenge;
    if answer == Fault(false) then Quiet(db, r, Done(500))
    else if !LiveChallenge(db, challenge, now) then Quiet(db, r, Done(if answer.Fault? then 500 else 401))
    else
      var consumed := db.(challenges := db.challenges[challenge := db.challenges[challenge].(consumed := true)]);
      Emit(consumed, r, if answer.Fault? then Done(500) else Elevate, Consumed(challenge, now))
  }

  predicate Elevatable(db: Db, session: nat) {
    session in db.sessions && db.sessions[session].alive && ActiveAccount(db, db.sessions[session].operator)
  }

  function DoElevate(db: Db, r: Request, answer: Answer): Move {
    if answer == Fault(false) then Quiet(db, r, Done(500))
    else if !Elevatable(db, r.session) then Quiet(db, r, Done(if answer.Fault? then 500 else 401))
    else
      var elevated := db.(sessions := db.sessions[r.session := db.sessions[r.session].(elevated := true)]);
      Emit(elevated, r, if answer.Fault? then Done(500) else Succeed, Event.Elevated(r.session))
  }

  function DoSucceed(db: Db, r: Request, answer: Answer): Move {
    if answer == Fault(false) then Quiet(db, r, Done(500))
    else Emit(db.(attempts := db.attempts[r.operator := Absent]), r, Done(if answer.Fault? then 500 else 204), Cleared)
  }

  /** The enrolment's UPDATE, with its guard, and whether it affected a row. */
  function WriteOn(db: Db, operator: nat, replace: bool, pending: bool, secret: nat, codes: set<nat>): (Db, bool) {
    if operator !in db.accounts then (db, false)
    else
      var account := db.accounts[operator];
      if pending then
        if account.Enrolled() || account.passkeys > 0
        then (db.(accounts := db.accounts[operator := account.(pending := Some(secret), pendingCodes := codes)]), true)
        else (db, false)
      else if replace || !account.Enrolled() then
        (db.(accounts := db.accounts[operator := account.(
          secret := Some(secret), lastStep := None, pending := None, codes := codes, pendingCodes := {})]), true)
      else (db, false)
  }

  function DoWrite(db: Db, r: Request, answer: Answer, secret: nat, codes: set<nat>): Move
    requires r.pc.Write?
  {
    var (after, written) := WriteOn(db, r.operator, r.pc.replace, r.pc.pending, secret, codes);
    if answer == Fault(false) then Quiet(db, r, Done(500))
    else if !written then Quiet(db, r, Done(if answer.Fault? then 500 else 409))
    else Emit(after, r, Done(if answer.Fault? then 500 else 200), Wrote(r.pc.pending))
  }

  /** One step of one request. */
  function Advance(db: Db, r: Request, answer: Answer, now: int, secret: nat, codes: set<nat>): (m: Move) {
    match r.pc
    case Admit => DoAdmit(db, r, answer, now)
    case ReadState => DoReadState(db, r, answer)
    case ReadFactors => DoReadFactors(db, r, answer)
    case Reserving => DoReserve(db, r, answer, now)
    case ReadChallenge => if r.route.Verify? then DoReadChallenge(db, r, answer, now) else Move(db, r, None)
    case Compare => DoCompare(db, r, answer)
    case Spend(_) => DoSpend(db, r, answer)
    case GiveBack => DoGiveBack(db, r, answer)
    case ConsumeChallenge => if r.route.Verify? then DoConsumeChallenge(db, r, answer, now) else Move(db, r, None)
    case Elevate => DoElevate(db, r, answer)
    case Succeed => DoSucceed(db, r, answer)
    case Write(_, _) => DoWrite(db, r, answer, secret, codes)
    case Done(_) => Move(db, r, None)
  }

  // ---------------------------------------------------------------- the whole system

  datatype State = State(db: Db, requests: map<nat, Request>, log: seq<Entry<Event>>)

  datatype Step =
    | Act(id: nat, answer: Answer, now: int, secret: nat, codes: set<nat>)
    | Arrive(id: nat, route: Route, session: nat)
    | CreateAccount(operator: nat)
    | SetActive(operator: nat, active: bool)
    | SetPasskeys(operator: nat, passkeys: nat)
    | OpenSession(session: nat, operator: nat)
    | CloseSession(session: nat)
    | IssueChallenge(challenge: nat, operator: nat, expires: int)
    | ResetAccount(operator: nat)

  const EMPTY_ACCOUNT := Account(true, None, None, None, {}, {}, 0)

  /** The request as it reaches the handler: its session was resolved when it came in. */
  function Arriving(db: Db, route: Route, session: nat): Request {
    if route == Enroll(Some(Webauthn)) then Request(route, session, 0, false, Done(400), 0, false, false, 0, [])
    else if !Elevatable(db, session) then Request(route, session, 0, false, Done(401), 0, false, false, 0, [])
    else
      var resolved := db.sessions[session];
      var pc := match route
        case Verify(_, _) => Reserving
        case Enroll(_) => Admit
        case Confirm => if resolved.elevated then ReadState else Done(409);
      Request(route, session, resolved.operator, resolved.elevated, pc, 0, false, false, 0, [])
  }

  function Apply(s: State, step: Step): State {
    match step
    case Act(id, answer, now, secret, codes) =>
      if id !in s.requests then s else
        var r := s.requests[id];
        var m := Advance(s.db, r, answer, now, secret, codes);
        (match m.event
         case None => State(m.db, s.requests[id := m.request], s.log)
         case Some(e) =>
           State(m.db, s.requests[id := m.request.(trace := r.trace + [e])], s.log + [ByRequest(id, r.operator, e)]))
    case Arrive(id, route, session) =>
      if id in s.requests then s else s.(requests := s.requests[id := Arriving(s.db, route, session)])
    case CreateAccount(operator) =>
      if operator in s.db.accounts then s
      else s.(db := s.db.(accounts := s.db.accounts[operator := EMPTY_ACCOUNT]))
    case SetActive(operator, active) =>
      if operator !in s.db.accounts then s
      else s.(db := s.db.(accounts := s.db.accounts[operator := s.db.accounts[operator].(active := active)]))
    case SetPasskeys(operator, passkeys) =>
      if operator !in s.db.accounts then s
      else s.(db := s.db.(accounts := s.db.accounts[operator := s.db.accounts[operator].(passkeys := passkeys)]))
    case OpenSession(session, operator) =>
      if session in s.db.sessions then s
      else s.(db := s.db.(sessions := s.db.sessions[session := Session(operator, true, false)]))
    case CloseSession(session) =>
      if session !in s.db.sessions then s
      else s.(db := s.db.(sessions := s.db.sessions[session := s.db.sessions[session].(alive := false)]))
    case IssueChallenge(challenge, operator, expires) =>
      if challenge in s.db.challenges then s
      else s.(db := s.db.(challenges := s.db.challenges[challenge := Challenge(operator, expires, false)]))
    case ResetAccount(operator) =>
      if operator !in s.db.accounts then s else
        var db := s.db.(
          accounts := s.db.accounts[operator := s.db.accounts[operator].(
            secret := None, lastStep := None, pending := None, codes := {}, pendingCodes := {}, passkeys := 0)],
          attempts := s.db.attempts[operator := Absent],
          sessions := map id | id in s.db.sessions ::
            if s.db.sessions[id].operator == operator then s.db.sessions[id].(alive := false) else s.db.sessions[id]);
        State(db, s.requests, s.log + [ByReset(operator)])
  }

  const INITIAL := State(Db(map[], map[], map[], map[], map[]), map[], [])

  /** The state after a run. */
  function Run(s: State, steps: seq<Step>): State {
    if steps == [] then s else Apply(Run(s, steps[..|steps| - 1]), steps[|steps| - 1])
  }
}
