/**
 The single-use link of internal/bff/access.go and internal/store/access_links.go: setting a password
 as a program over atomic store steps, any number of requests interleaving with the delivery of links,
 the administration of operators and the other callers of the ten hashing slots. A token stands for
 its digest; a sent link is a row keyed by it.
 */
module AccessLink {
  import opened Common
  import opened Journal

  const HASH_SLOTS: nat := 10

  datatype Hash = Hash(password: nat, salt: nat)

  datatype Link = Link(operator: nat, expires: int)

  /** The passwords that CheckPassword lets through. */
  datatype Config = Config(strong: set<nat>)

  datatype Db = Db(
    links: map<nat, Link>,
    active: set<nat>,
    passwords: map<nat, Hash>,
    slots: nat,                  // tokens in the channel of Hold
    others: nat)                 // callers of Hold outside this route

  datatype Verdict = BadRequest | WeakPassword | Gone | Overloaded | Failed | Saved

  datatype Pc = Checking | Reading | Deciding | Waiting | Hashing | Consuming | Done(verdict: Verdict)

  datatype Event =
    | ReadValid(now: int)
    | Hashed(hash: Hash)
    | Consumed(operator: nat, hash: Hash, now: int)

  /** `token` is absent when the presented value has not the form of a token. */
  datatype Request =
    Request(token: Option<nat>, sized: bool, password: nat, hash: Option<Hash>, pc: Pc, trace: seq<Event>)

  datatype Answer = Fault(applied: bool) | Answered | Cancelled

  datatype Move = Move(db: Db, request: Request, event: Option<Event>)

  function Quiet(db: Db, r: Request, pc: Pc): Move { Move(db, r.(pc := pc), None) }

  function Emit(db: Db, r: Request, pc: Pc, event: Event): Move { Move(db, r.(pc := pc), Some(event)) }

  /** The `usableLink` condition: the row is there, it has not expired, and its operator is active. */
  predicate Usable(db: Db, token: nat, now: int) {
    token in db.links && db.links[token].expires > now && db.links[token].operator in db.active
  }

  function DoCheck(db: Db, r: Request): Move {
    if !r.sized then Quiet(db, r, Done(BadRequest))
    else if r.token.None? then Quiet(db, r, Done(Gone))
    else Quiet(db, r, Reading)
  }

  function DoRead(db: Db, r: Request, answer: Answer, now: int): Move {
    if answer.Fault? then Quiet(db, r, Done(Failed))
    else if r.token.None? || !Usable(db, r.token.value, now) then Quiet(db, r, Done(Gone))
    else Emit(db, r, Deciding, ReadValid(now))
  }

  function DoDecide(c: Config, db: Db, r: Request): Move {
    Quiet(db, r, if r.password in c.strong then Waiting else Done(WeakPassword))
  }

  /** Hold: a free slot or the end of the request's deadline, whichever the select takes. */
  function DoWait(db: Db, r: Request, answer: Answer): Move {
    if answer.Cancelled? then Quiet(db, r, Done(Overloaded))
    else if db.slots < HASH_SLOTS then Quiet(db.(slots := db.slots + 1), r, Hashing)
    else Move(db, r, None)
  }

  /** The slot is given back whether the hash was produced or drawing its salt failed. */
  function DoHash(db: Db, r: Request, answer: Answer, salt: nat): Move {
    var freed := db.(slots := if db.slots > 0 then db.slots - 1 else 0);
    if answer.Fault? then Quiet(freed, r, Done(Failed))
    else
      var hash := Hash(r.password, salt);
      Emit(freed, r.(hash := Some(hash)), Consuming, Hashed(hash))
  }

  /** One transaction: the row goes, the password of its operator is set; or nothing happens. */
  function DoConsume(db: Db, r: Request, answer: Answer, now: int): Move {
    if answer == Fault(false) || r.token.None? || r.hash.None? then Quiet(db, r, Done(Failed))
    else if !Usable(db, r.token.value, now) then Quiet(db, r, Done(if answer.Fault? then Failed else Gone))
    else
      var token, hash := r.token.value, r.hash.value;
      var operator := db.links[token].operator;
      var after := db.(links := db.links - {token}, passwords := db.passwords[operator := hash]);
      Emit(after, r, Done(if answer.Fault? then Failed else Saved), Consumed(operator, hash, now))
  }

  function Advance(c: Config, db: Db, r: Request, answer: Answer, now: int, salt: nat): Move {
    match r.pc
    case Checking => DoCheck(db, r)
    case Reading => DoRead(db, r, answer, now)
    case Deciding => DoDecide(c, db, r)
    case Waiting => DoWait(db, r, answer)
    case Hashing => DoHash(db, r, answer, salt)
    case Consuming => DoConsume(db, r, answer, now)
    case Done(_) => Move(db, r, None)
  }

  // ---------------------------------------------------------------- the whole system

  datatype State = State(db: Db, issued: set<nat>, requests: map<nat, Request>, log: seq<Entry<Event>>)

  datatype Step =
    | Act(id: nat, answer: Answer, now: int, salt: nat)
    | Arrive(id: nat, presented: Option<nat>, sized: bool, password: nat)
    | Deliver(token: nat, operator: nat, expires: int)   // a fresh token, in place of the operator's own
    | Requeue(operator: nat)                             // a new request voids the link already sent
    | Enable(operator: nat)
    | Disable(operator: nat)
    | OtherTakes
    | OtherFrees

  function Arriving(token: Option<nat>, sized: bool, password: nat): Request {
    Request(token, sized, password, None, Checking, [])
  }

  function Without(links: map<nat, Link>, operator: nat): map<nat, Link> {
    map token | token in links && links[token].operator != operator :: links[token]
  }

  function Moved(r: Request, m: Move): Request {
    if m.event.None? then m.request else m.request.(trace := r.trace + [m.event.value])
  }

  /** Only a request that holds a well-formed token has effects; they are filed under that token. */
  function Recorded(s: State, id: nat, m: Move): State
    requires id in s.requests
  {
    var r := s.requests[id];
    State(m.db, s.issued, s.requests[id := Moved(r, m)],
          if m.event.Some? && r.token.Some? then s.log + [ByRequest(id, r.token.value, m.event.value)] else s.log)
  }

  function Apply(c: Config, s: State, step: Step): State {
    match step
    case Act(id, answer, now, salt) =>
      if id in s.requests then Recorded(s, id, Advance(c, s.db, s.requests[id], answer, now, salt)) else s
    case Arrive(id, presented, sized, password) =>
      if id in s.requests then s else s.(requests := s.requests[id := Arriving(presented, sized, password)])
    case Deliver(token, operator, expires) =>
      if token in s.issued then s
      else s.(issued := s.issued + {token},
              db := s.db.(links := Without(s.db.links, operator)[token := Link(operator, expires)]))
    case Requeue(operator) => s.(db := s.db.(links := Without(s.db.links, operator)))
    case Enable(operator) => s.(db := s.db.(active := s.db.active + {operator}))
    case Disable(operator) => s.(db := s.db.(active := s.db.active - {operator}))
    case OtherTakes =>
      if s.db.slots < HASH_SLOTS then s.(db := s.db.(slots := s.db.slots + 1, others := s.db.others + 1)) else s
    case OtherFrees =>
      if s.db.others > 0 && s.db.slots > 0
      then s.(db := s.db.(slots := s.db.slots - 1, others := s.db.others - 1)) else s
  }

  /** A store with operators and their passwords, before any link was sent. */
  function Initial(active: set<nat>, passwords: map<nat, Hash>): State {
    State(Db(map[], active, passwords, 0, 0), {}, map[], [])
  }

  function Run(c: Config, start: State, steps: seq<Step>): State {
    if steps == [] then start else Apply(c, Run(c, start, steps[..|steps| - 1]), steps[|steps| - 1])
  }
}
