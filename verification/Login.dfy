/**
 The first factor of internal/auth/authenticator.go: Login as a program over atomic store steps, any
 number of them interleaving over the shared counters, challenges and the ten hashing slots of Hold.
 Addresses, sources, hashes and passwords are numbers; an address is already normalised, so the key
 that is counted is the key that is looked up.
 */
module Login {
  import opened Common
  import opened Counters
  import opened Journal

  const HASH_SLOTS: nat := 10

  datatype Operator = Operator(id: nat, hash: nat, active: bool)

  /** `secrets[h]` is the password that produced hash `h`; a hash outside the map is unreadable. */
  datatype Config = Config(operators: map<nat, Operator>, secrets: map<nat, nat>)

  datatype Db = Db(
    emails: map<nat, Row>,
    sources: map<nat, Row>,
    challenges: map<nat, nat>,   // challenge to the operator it was issued for
    slots: nat,                  // tokens in the channel of Hold
    others: nat)                 // callers of Hold outside this route

  datatype Verdict =
    | Failed                     // an error, served as 500
    | Overloaded
    | Locked(retryAfter: int)
    | Refused
    | Challenged(operator: nat, challenge: nat)

  datatype Pc =
    | ReadSource
    | Reserving
    | Lookup
    | Waiting
    | Hashing
    | CountSource
    | ClearEmail
    | Issue
    | Done(verdict: Verdict)

  datatype Event =
    | Granted(now: int)
    | Denied(now: int)
    | Unanswered(now: int)
    | Hashed(matches: bool)
    | SourceCounted
    | Cleared
    | Issued(challenge: nat)

  datatype Request = Request(
    email: nat,
    source: nat,
    password: nat,
    pc: Pc,
    failures: nat,
    operator: Option<Operator>,
    trace: seq<Event>)

  datatype Answer = Fault(applied: bool) | Answered | Cancelled

  datatype Move = Move(db: Db, request: Request, event: Option<Event>)

  function RowOf(rows: map<nat, Row>, subject: nat): Row {
    if subject in rows then rows[subject] else Absent
  }

  function Quiet(db: Db, r: Request, pc: Pc): Move { Move(db, r.(pc := pc), None) }

  function Emit(db: Db, r: Request, pc: Pc, event: Event): Move { Move(db, r.(pc := pc), Some(event)) }

  /** VerifyHeld: the parameters come from the hash; an unreadable one never matches. */
  predicate HashMatches(c: Config, hash: nat, password: nat) {
    hash in c.secrets && c.secrets[hash] == password
  }

  /** passwordMatches, once the slot is held: an absent operator pays the dummy hash. */
  predicate PasswordMatches(c: Config, operator: Option<Operator>, password: nat) {
    operator.Some? && HashMatches(c, operator.value.hash, password) && operator.value.active
  }

  function DoReadSource(db: Db, r: Request, answer: Answer, now: int): Move {
    var lock := ReadLock(RowOf(db.sources, r.source), now);
    if answer.Fault? then Quiet(db, r, Done(Failed))
    else if lock.Locked() then Quiet(db, r, Done(Locked(lock.remaining)))
    else Quiet(db, r, Reserving)
  }

  function DoReserve(db: Db, r: Request, answer: Answer, now: int): Move {
    var row := RowOf(db.emails, r.email);
    var lock := ReserveLock(row, now);
    var counted := db.(emails := db.emails[r.email := ReservedRow(row, now)]);
    if answer.Fault? then
      if answer.applied then Emit(counted, r, Done(Failed), Unanswered(now)) else Quiet(db, r, Done(Failed))
    else if lock.Locked() then Emit(counted, r, Done(Locked(lock.remaining)), Denied(now))
    else Emit(counted, r.(failures := lock.failures), Lookup, Granted(now))
  }

  function DoLookup(c: Config, db: Db, r: Request, answer: Answer): Move {
    if answer.Fault? then Quiet(db, r, Done(Failed))
    else
      var found := if r.email in c.operators then Some(c.operators[r.email]) else None;
      Quiet(db, r.(operator := found), Waiting)
  }

  /** Hold: a free slot or the end of the request's deadline, whichever the select takes. */
  function DoWait(db: Db, r: Request, answer: Answer): Move {
    if answer.Cancelled? then Quiet(db, r, Done(Overloaded))
    else if db.slots < HASH_SLOTS then Quiet(db.(slots := db.slots + 1), r, Hashing)
    else Move(db, r, None)
  }

  function DoHash(c: Config, db: Db, r: Request): Move {
    var matches := PasswordMatches(c, r.operator, r.password);
    Emit(db.(slots := if db.slots > 0 then db.slots - 1 else 0), r,
         if matches then ClearEmail else CountSource, Hashed(matches))
  }

  function DoCountSource(db: Db, r: Request, answer: Answer, now: int): Move {
    var counted := db.(sources := db.sources[r.source := CountedRow(RowOf(db.sources, r.source), now)]);
    if answer == Fault(false) then Quiet(db, r, Done(Failed))
    else if answer.Fault? then Emit(counted, r, Done(Failed), SourceCounted)
    else Emit(counted, r, Done(if r.failures >= MAX_FAILURES then Locked(LOCK_WINDOW) else Refused), SourceCounted)
  }

  function DoClear(db: Db, r: Request, answer: Answer): Move {
    if answer == Fault(false) then Quiet(db, r, Done(Failed))
    else Emit(db.(emails := db.emails[r.email := Absent]), r, if answer.Fault? then Done(Failed) else Issue, Cleared)
  }

  function DoIssue(db: Db, r: Request, answer: Answer, challenge: nat): Move {
    if answer == Fault(false) || challenge in db.challenges || r.operator.None? then Quiet(db, r, Done(Failed))
    else
      var issued := db.(challenges := db.challenges[challenge := r.operator.value.id]);
      Emit(issued, r, Done(if answer.Fault? then Failed else Challenged(r.operator.value.id, challenge)),
           Issued(challenge))
  }

  /** One step of one login. */
  function Advance(c: Config, db: Db, r: Request, answer: Answer, now: int, challenge: nat): Move {
    match r.pc
    case ReadSource => DoReadSource(db, r, answer, now)
    case Reserving => DoReserve(db, r, answer, now)
    case Lookup => DoLookup(c, db, r, answer)
    case Waiting => DoWait(db, r, answer)
    case Hashing => DoHash(c, db, r)
    case CountSource => DoCountSource(db, r, answer, now)
    case ClearEmail => DoClear(db, r, answer)
    case Issue => DoIssue(db, r, answer, challenge)
    case Done(_) => Move(db, r, None)
  }

  // ---------------------------------------------------------------- the whole system

  datatype State = State(db: Db, requests: map<nat, Request>, log: seq<Entry<Event>>)

  datatype Step =
    | Act(id: nat, answer: Answer, now: int, challenge: nat)
    | Arrive(id: nat, email: nat, source: nat, password: nat)
    | OtherTakes
    | OtherFrees
    | ResetEmail(email: nat)     // an access link lifts the lock of the address

  function Arriving(email: nat, source: nat, password: nat): Request {
    Request(email, source, password, ReadSource, 0, None, [])
  }

  /** The request after a move, with the effect recorded. */
  function Moved(r: Request, m: Move): Request {
    if m.event.None? then m.request else m.request.(trace := r.trace + [m.event.value])
  }

  function Recorded(s: State, id: nat, m: Move): State
    requires id in s.requests
  {
    State(m.db, s.requests[id := Moved(s.requests[id], m)],
          if m.event.Some? then s.log + [ByRequest(id, s.requests[id].email, m.event.value)] else s.log)
  }

  function Apply(c: Config, s: State, step: Step): State {
    match step
    case Act(id, answer, now, challenge) =>
      if id in s.requests then Recorded(s, id, Advance(c, s.db, s.requests[id], answer, now, challenge)) else s
    case Arrive(id, email, source, password) =>
      if id in s.requests then s else s.(requests := s.requests[id := Arriving(email, source, password)])
    case OtherTakes =>
      if s.db.slots < HASH_SLOTS then s.(db := s.db.(slots := s.db.slots + 1, others := s.db.others + 1)) else s
    case OtherFrees =>
      if s.db.others > 0 && s.db.slots > 0
      then s.(db := s.db.(slots := s.db.slots - 1, others := s.db.others - 1)) else s
    case ResetEmail(email) =>
      State(s.db.(emails := s.db.emails[email := Absent]), s.requests, s.log + [ByReset(email)])
  }

  const INITIAL := State(Db(map[], map[], map[], 0, 0), map[], [])

  function Run(c: Config, steps: seq<Step>): State {
    if steps == [] then INITIAL else Apply(c, Run(c, steps[..|steps| - 1]), steps[|steps| - 1])
  }
}
