/**
 What every run of the first factor keeps and promises: a password is only hashed against its own
 reservation, the slots are the hashes in flight, and a refusal does not depend on why it refuses.
 */
module LoginRuns {
  import opened Common
  import opened Counters
  import opened Journal
  import opened Login

  // ---------------------------------------------------------------- the life of one login

  predicate Script(t: seq<Event>, n: nat, matches: bool) {
    && n <= 2 && |t| == n
    && (n >= 1 ==> t[0].Granted?)
    && (n >= 2 ==> t[1] == Hashed(matches))
  }

  /** The effects of a login that ended. */
  predicate Outcome(r: Request, verdict: Verdict) {
    var t := r.trace;
    || (t == [] && (verdict.Failed? || verdict.Locked?))
    || (|t| == 1 && t[0].Denied? && verdict.Locked?)
    || (|t| == 1 && t[0].Unanswered? && verdict.Failed?)
    || (Script(t, 1, true) && (verdict.Failed? || verdict.Overloaded?))
    || (|t| == 2 && t[0].Granted? && t[1].Hashed? && verdict.Failed?)
    || (|t| == 3 && t[0].Granted? && t[1] == Hashed(false) && t[2] == SourceCounted
        && (verdict.Failed? || verdict == if r.failures >= MAX_FAILURES then Locked(LOCK_WINDOW) else Refused))
    || (|t| == 3 && t[0].Granted? && t[1] == Hashed(true) && t[2] == Cleared && verdict.Failed?)
    || (|t| == 4 && t[0].Granted? && t[1] == Hashed(true) && t[2] == Cleared && t[3].Issued?
        && r.operator.Some? && (verdict.Failed? || verdict == Challenged(r.operator.value.id, t[3].challenge)))
  }

  predicate Fits(r: Request) {
    var t := r.trace;
    match r.pc
    case ReadSource => t == []
    case Reserving => t == []
    case Lookup => Script(t, 1, true)
    case Waiting => Script(t, 1, true)
    case Hashing => Script(t, 1, true)
    case CountSource => Script(t, 2, false)
    case ClearEmail => Script(t, 2, true) && r.operator.Some?
    case Issue => |t| == 3 && t[0].Granted? && t[1] == Hashed(true) && t[2] == Cleared && r.operator.Some?
    case Done(verdict) => Outcome(r, verdict)
  }

  function CounterOp(id: nat, event: Event): Option<Op> {
    match event
    case Granted(now) => Some(Reserve(id, now))
    case Denied(now) => Some(Reserve(id, now))
    case Unanswered(now) => Some(Reserve(id, now))
    case Cleared => Some(Clear)
    case _ => None
  }

  /** What happened to one address's row, in journal order. */
  function AttemptsOf(log: seq<Entry<Event>>, email: nat): (ops: seq<Op>) {
    OpsOf(log, email, CounterOp)
  }

  // ---------------------------------------------------------------- the invariant

  ghost predicate RequestsFit(s: State) {
    forall id <- s.requests :: Fits(s.requests[id])
  }

  ghost predicate JournalIsTheInterleaving(s: State) {
    && (forall id <- s.requests :: Project(s.log, id) == s.requests[id].trace)
    && (forall entry <- s.log | entry.ByRequest? ::
          entry.id in s.requests && entry.subject == s.requests[entry.id].email)
  }

  ghost predicate RowsReplayTheJournal(s: State) {
    forall email :: RowOf(s.db.emails, email) == Replay(Absent, AttemptsOf(s.log, email))
  }

  /** The requests that hold a slot. */
  ghost function InFlight(s: State): set<nat> {
    set id | id in s.requests && s.requests[id].pc.Hashing?
  }

  /** The tokens in the channel are the hashes in flight. */
  ghost predicate SlotsAreTheHashes(s: State) {
    s.db.slots == |InFlight(s)| + s.db.others && s.db.slots <= HASH_SLOTS
  }

  /** A granted reservation was admitted by the row as it stood, a denied one was not. */
  ghost predicate GrantsAreAdmissions(s: State) {
    forall k | 0 <= k < |s.log| && s.log[k].ByRequest? ::
      var row := Replay(Absent, AttemptsOf(s.log[..k], s.log[k].subject));
      && (s.log[k].event.Granted? ==> Admits(row, s.log[k].event.now))
      && (s.log[k].event.Denied? ==> !Admits(row, s.log[k].event.now))
  }

  ghost predicate Invariant(s: State) {
    && RequestsFit(s)
    && JournalIsTheInterleaving(s)
    && RowsReplayTheJournal(s)
    && GrantsAreAdmissions(s)
    && SlotsAreTheHashes(s)
  }

  // ---------------------------------------------------------------- one move

  predicate Framed(db: Db, r: Request, m: Move) {
    && m.request.email == r.email && m.request.trace == r.trace
    && (var op := if m.event.Some? then CounterOp(0, m.event.value) else None;
        m.db.emails == if op.Some? then db.emails[r.email := After(RowOf(db.emails, r.email), op.value)] else db.emails)
    && (m.event.Some? && m.event.value.Granted? ==> Admits(RowOf(db.emails, r.email), m.event.value.now))
    && (m.event.Some? && m.event.value.Denied? ==> !Admits(RowOf(db.emails, r.email), m.event.value.now))
    && m.db.others == db.others
    && (r.pc.Hashing? && !m.request.pc.Hashing? ==> m.db.slots == if db.slots > 0 then db.slots - 1 else 0)
    && (!r.pc.Hashing? && m.request.pc.Hashing? ==> db.slots < HASH_SLOTS && m.db.slots == db.slots + 1)
    && (r.pc.Hashing? == m.request.pc.Hashing? ==> m.db.slots == db.slots)
  }

  lemma AMoveFits(c: Config, db: Db, r: Request, answer: Answer, now: int, challenge: nat)
    requires Fits(r)
    ensures Fits(Moved(r, Advance(c, db, r, answer, now, challenge)))
  {
  }

  lemma ReservingIsFramed(db: Db, r: Request, answer: Answer, now: int)
    requires r.pc.Reserving?
    ensures Framed(db, r, DoReserve(db, r, answer, now))
  {
  }

  lemma HashingIsFramed(c: Config, db: Db, r: Request, answer: Answer)
    requires r.pc.Waiting? || r.pc.Hashing?
    ensures Framed(db, r, Advance(c, db, r, answer, 0, 0))
  {
  }

  lemma AMoveIsFramed(c: Config, db: Db, r: Request, answer: Answer, now: int, challenge: nat)
    ensures Framed(db, r, Advance(c, db, r, answer, now, challenge))
  {
    match r.pc
    case Reserving => ReservingIsFramed(db, r, answer, now);
    case Waiting => HashingIsFramed(c, db, r, answer);
    case Hashing => HashingIsFramed(c, db, r, answer);
    case _ =>
  }

  // ---------------------------------------------------------------- every step keeps it

  lemma TheNumberDoesNotMatter(row: Row, id: nat, event: Event)
    ensures CounterOp(id, event).Some? <==> CounterOp(0, event).Some?
    ensures CounterOp(id, event).Some? ==>
              After(row, CounterOp(id, event).value) == After(row, CounterOp(0, event).value)
  {
  }

  lemma AnEntryKeepsTheRows(s: State, after: State, entry: Entry<Event>)
    requires RowsReplayTheJournal(s) && GrantsAreAdmissions(s)
    requires after.log == s.log + [entry]
    requires forall email ::
               var op := EntryOp(entry, email, CounterOp);
               RowOf(after.db.emails, email) ==
                 if op.Some? then After(RowOf(s.db.emails, email), op.value) else RowOf(s.db.emails, email)
    requires entry.ByRequest? && entry.event.Granted? ==> Admits(RowOf(s.db.emails, entry.subject), entry.event.now)
    requires entry.ByRequest? && entry.event.Denied? ==> !Admits(RowOf(s.db.emails, entry.subject), entry.event.now)
    ensures RowsReplayTheJournal(after) && GrantsAreAdmissions(after)
  {
    forall email ensures RowOf(after.db.emails, email) == Replay(Absent, AttemptsOf(after.log, email)) {
      AnEntryMovesItsRow(s.log, entry, email, CounterOp, RowOf(s.db.emails, email), RowOf(after.db.emails, email));
    }
    forall k | 0 <= k < |after.log| && after.log[k].ByRequest?
      ensures var row := Replay(Absent, AttemptsOf(after.log[..k], after.log[k].subject));
              && (after.log[k].event.Granted? ==> Admits(row, after.log[k].event.now))
              && (after.log[k].event.Denied? ==> !Admits(row, after.log[k].event.now))
    {
      if k < |s.log| {
        assert after.log[..k] == s.log[..k];
      } else {
        assert after.log[..k] == s.log;
      }
    }
  }

  lemma InFlightAfter(s: State, id: nat, r: Request)
    requires id in s.requests
    ensures var after := s.(requests := s.requests[id := r]);
            InFlight(after) == if r.pc.Hashing? then InFlight(s) + {id} else InFlight(s) - {id}
  {
  }

  lemma ActKeepsTheSlots(s: State, id: nat, m: Move)
    requires SlotsAreTheHashes(s) && id in s.requests && Framed(s.db, s.requests[id], m)
    ensures SlotsAreTheHashes(Recorded(s, id, m))
  {
    var after := Recorded(s, id, m);
    InFlightAfter(s, id, Moved(s.requests[id], m));
    assert InFlight(after) == InFlight(s.(requests := after.requests));
    if s.requests[id].pc.Hashing? {
      assert id in InFlight(s);
    }
  }

  lemma ActKeepsTheJournal(s: State, id: nat, m: Move)
    requires JournalIsTheInterleaving(s) && RowsReplayTheJournal(s) && GrantsAreAdmissions(s)
    requires id in s.requests && Framed(s.db, s.requests[id], m)
    ensures var after := Recorded(s, id, m);
            JournalIsTheInterleaving(after) && RowsReplayTheJournal(after) && GrantsAreAdmissions(after)
  {
    if m.event.Some? {
      var r, after := s.requests[id], Recorded(s, id, m);
      var entry := ByRequest(id, r.email, m.event.value);
      forall other <- after.requests ensures Project(after.log, other) == after.requests[other].trace {
        AppendProjects(s.log, entry, other);
      }
      TheNumberDoesNotMatter(RowOf(s.db.emails, r.email), id, m.event.value);
      AnEntryKeepsTheRows(s, after, entry);
    }
  }

  lemma AnArrivalKeepsTheInvariant(c: Config, s: State, id: nat, email: nat, source: nat, password: nat)
    requires Invariant(s) && id !in s.requests
    ensures Invariant(Apply(c, s, Arrive(id, email, source, password)))
  {
    var after := Apply(c, s, Arrive(id, email, source, password));
    NothingLoggedNothingProjected(s.log, id);
    InFlightAfter(s.(requests := after.requests), id, after.requests[id]);
    assert InFlight(after) == InFlight(s);
  }

  lemma AResetClears(rows: map<nat, Row>, email: nat, entry: Entry<Event>)
    requires entry == ByReset(email)
    ensures forall other ::
              var op := EntryOp(entry, other, CounterOp);
              RowOf(rows[email := Absent], other) ==
                if op.Some? then After(RowOf(rows, other), op.value) else RowOf(rows, other)
  {
  }

  lemma AResetKeepsTheInvariant(c: Config, s: State, email: nat)
    requires Invariant(s)
    ensures Invariant(Apply(c, s, ResetEmail(email)))
  {
    var after, entry: Entry<Event> := Apply(c, s, ResetEmail(email)), ByReset(email);
    forall id <- s.requests ensures Project(after.log, id) == s.requests[id].trace {
      AppendProjects(s.log, entry, id);
    }
    AResetClears(s.db.emails, email, entry);
    AnEntryKeepsTheRows(s, after, entry);
    assert InFlight(after) == InFlight(s);
  }

  lemma AStepKeepsTheInvariant(c: Config, s: State, step: Step)
    requires Invariant(s)
    ensures Invariant(Apply(c, s, step))
  {
    var after := Apply(c, s, step);
    match step
    case Act(id, answer, now, challenge) =>
      if id in s.requests {
        var m := Advance(c, s.db, s.requests[id], answer, now, challenge);
        AMoveFits(c, s.db, s.requests[id], answer, now, challenge);
        AMoveIsFramed(c, s.db, s.requests[id], answer, now, challenge);
        ActKeepsTheSlots(s, id, m);
        ActKeepsTheJournal(s, id, m);
      }
    case Arrive(id, email, source, password) =>
      if id !in s.requests { AnArrivalKeepsTheInvariant(c, s, id, email, source, password); }
    case OtherTakes => assert InFlight(after) == InFlight(s);
    case OtherFrees => assert InFlight(after) == InFlight(s);
    case ResetEmail(email) =>
      AResetKeepsTheInvariant(c, s, email);
  }

  lemma {:induction false} EveryRunKeepsTheInvariant(c: Config, steps: seq<Step>)
    ensures Invariant(Run(c, steps))
  {
    if steps == [] {
      assert InFlight(INITIAL) == {};
    } else {
      EveryRunKeepsTheInvariant(c, steps[..|steps| - 1]);
      AStepKeepsTheInvariant(c, Run(c, steps[..|steps| - 1]), steps[|steps| - 1]);
    }
  }

  // ---------------------------------------------------------------- hashing

  lemma WhereEffectsStand(r: Request, p: nat)
    requires Fits(r) && p < |r.trace| && r.trace[p].Hashed?
    ensures p == 1 && r.trace[0].Granted?
  {
  }

  /**
   In every interleaving, a password is only confronted after the reservation granted to the same
   login on the same address, and once per login: admitted attempts bound the hashes.
   */
  lemma EveryHashHasItsReservation(c: Config, steps: seq<Step>, i: nat)
    requires var log := Run(c, steps).log; i < |log| && log[i].ByRequest? && log[i].event.Hashed?
    ensures var log := Run(c, steps).log;
            && (exists j :: 0 <= j < i && log[j].ByRequest? && log[j].id == log[i].id
                            && log[j].subject == log[i].subject && log[j].event.Granted?)
            && (forall k | 0 <= k < |log| && k != i && log[k].ByRequest? && log[k].id == log[i].id ::
                  !log[k].event.Hashed?)
  {
    EveryRunKeepsTheInvariant(c, steps);
    var s := Run(c, steps);
    var log, id := s.log, s.log[i].id;
    assert log[i] in log;
    LoggedIsProjected(log, i);
    WhereEffectsStand(s.requests[id], |Project(log[..i], id)|);
    ProjectedIsLogged(log[..i], id, 0);
    var j :| 0 <= j < i && log[..i][j].ByRequest? && log[..i][j].id == id
             && log[..i][j].event == Project(log[..i], id)[0];
    assert log[j] in log;
    forall k | 0 <= k < |log| && k != i && log[k].ByRequest? && log[k].id == id ensures !log[k].event.Hashed? {
      LoggedIsProjected(log, k);
      if log[k].event.Hashed? {
        WhereEffectsStand(s.requests[id], |Project(log[..k], id)|);
        if k < i { PositionsAreDistinct(log, k, i); } else { PositionsAreDistinct(log, i, k); }
      }
    }
  }

  /** The slots in use are the hashes in flight, here and elsewhere; there are never more than ten. */
  lemma SlotsAreNeverLost(c: Config, steps: seq<Step>)
    ensures var s := Run(c, steps); s.db.slots == |InFlight(s)| + s.db.others <= HASH_SLOTS
  {
    EveryRunKeepsTheInvariant(c, steps);
  }

  // ---------------------------------------------------------------- refusals do not tell

  /** Somebody active holds the address, and the password is the one that produced their readable hash. */
  predicate Holds(c: Config, email: nat, password: nat) {
    && email in c.operators && c.operators[email].active
    && c.operators[email].hash in c.secrets && c.secrets[c.operators[email].hash] == password
  }

  /** Every login that the run lets in on this address fails. */
  predicate AllFail(c: Config, steps: seq<Step>, email: nat) {
    forall step <- steps | step.Arrive? && step.email == email :: !Holds(c, email, step.password)
  }

  predicate SameBut(a: Config, b: Config, email: nat) {
    a.secrets == b.secrets && a.operators - {email} == b.operators - {email}
  }

  /** What one login shows, and what it has read, unless its address is the one that differs. */
  predicate SameRequest(a: Request, b: Request, email: nat) {
    && b == a.(operator := b.operator)
    && (a.email != email ==> a == b)
  }

  /** A login on the address cannot turn out to match, and never gets past the hash. */
  predicate WillFail(c: Config, r: Request) {
    && !Holds(c, r.email, r.password)
    && (r.pc.Waiting? || r.pc.Hashing? ==> !PasswordMatches(c, r.operator, r.password))
    && !r.pc.ClearEmail? && !r.pc.Issue?
  }

  ghost predicate Alike(a: Config, b: Config, s: State, t: State, email: nat) {
    && s.db == t.db && s.log == t.log
    && s.requests.Keys == t.requests.Keys
    && forall id <- s.requests ::
         && SameRequest(s.requests[id], t.requests[id], email)
         && (s.requests[id].email == email ==> WillFail(a, s.requests[id]) && WillFail(b, t.requests[id]))
  }

  lemma OtherAddressesAreServedAlike(a: Config, b: Config, r: Request, email: nat, db: Db,
                                     answer: Answer, now: int, challenge: nat)
    requires SameBut(a, b, email) && r.email != email
    ensures Advance(a, db, r, answer, now, challenge) == Advance(b, db, r, answer, now, challenge)
  {
    assert r.email in a.operators <==> r.email in a.operators - {email};
    assert r.email in b.operators <==> r.email in b.operators - {email};
  }

  /** Both logins make the same move, up to the operator each has found, and both still fail. */
  predicate SameMove(a: Config, b: Config, m: Move, n: Move) {
    && m.db == n.db && m.event == n.event
    && n.request == m.request.(operator := n.request.operator)
    && WillFail(a, m.request) && WillFail(b, n.request)
  }

  lemma EnteringAlike(a: Config, b: Config, r: Request, q: Request, db: Db, answer: Answer, now: int)
    requires a.secrets == b.secrets && q == r.(operator := q.operator) && WillFail(a, r) && WillFail(b, q)
    requires r.pc.ReadSource? || r.pc.Reserving? || r.pc.Lookup?
    ensures SameMove(a, b, Advance(a, db, r, answer, now, 0), Advance(b, db, q, answer, now, 0))
  {
  }

  lemma HashingAlike(a: Config, b: Config, r: Request, q: Request, db: Db, answer: Answer, now: int, challenge: nat)
    requires a.secrets == b.secrets && q == r.(operator := q.operator) && WillFail(a, r) && WillFail(b, q)
    requires !(r.pc.ReadSource? || r.pc.Reserving? || r.pc.Lookup?)
    ensures SameMove(a, b, Advance(a, db, r, answer, now, challenge), Advance(b, db, q, answer, now, challenge))
  {
  }

  lemma AStepKeepsThemAlike(a: Config, b: Config, s: State, t: State, email: nat, step: Step)
    requires SameBut(a, b, email) && Alike(a, b, s, t, email) && step.Act?
    ensures Alike(a, b, Apply(a, s, step), Apply(b, t, step), email)
  {
    if step.id !in s.requests { return; }
    var r, q := s.requests[step.id], t.requests[step.id];
    if r.email != email {
      OtherAddressesAreServedAlike(a, b, r, email, s.db, step.answer, step.now, step.challenge);
      TheAddressStays(a, s.db, r, step.answer, step.now, step.challenge);
    } else if r.pc.ReadSource? || r.pc.Reserving? || r.pc.Lookup? {
      EnteringAlike(a, b, r, q, s.db, step.answer, step.now);
      TheAddressStays(a, s.db, r, step.answer, step.now, step.challenge);
    } else {
      HashingAlike(a, b, r, q, s.db, step.answer, step.now, step.challenge);
      TheAddressStays(a, s.db, r, step.answer, step.now, step.challenge);
    }
  }

  lemma ArrivalsKeepThemAlike(a: Config, b: Config, s: State, t: State, email: nat, step: Step)
    requires Alike(a, b, s, t, email) && !step.Act?
    requires step.Arrive? && step.email == email ==>
               !Holds(a, email, step.password) && !Holds(b, email, step.password)
    ensures Alike(a, b, Apply(a, s, step), Apply(b, t, step), email)
  {
  }

  lemma TheAddressStays(c: Config, db: Db, r: Request, answer: Answer, now: int, challenge: nat)
    ensures Advance(c, db, r, answer, now, challenge).request.email == r.email
  {
    AMoveIsFramed(c, db, r, answer, now, challenge);
  }

  lemma {:induction false} TheyStayAlike(a: Config, b: Config, steps: seq<Step>, email: nat)
    requires SameBut(a, b, email) && AllFail(a, steps, email) && AllFail(b, steps, email)
    ensures Alike(a, b, Run(a, steps), Run(b, steps), email)
  {
    if steps != [] {
      var before, step := steps[..|steps| - 1], steps[|steps| - 1];
      TheyStayAlike(a, b, before, email);
      if step.Act? {
        AStepKeepsThemAlike(a, b, Run(a, before), Run(b, before), email, step);
      } else {
        ArrivalsKeepThemAlike(a, b, Run(a, before), Run(b, before), email, step);
      }
    }
  }

  /**
   Two systems that differ only in what they know of one address - no operator in the one, say, and
   in the other one that fails every attempt - run through the same requests, the same clock, the
   same faults and the same slots: they give every login the same verdict, keep the same counters
   and journal, and take the same slots.
   */
  lemma RefusalsDoNotTell(a: Config, b: Config, steps: seq<Step>, email: nat)
    requires SameBut(a, b, email) && AllFail(a, steps, email) && AllFail(b, steps, email)
    ensures var s, t := Run(a, steps), Run(b, steps);
            && s.db == t.db && s.log == t.log && s.requests.Keys == t.requests.Keys
            && (forall id <- s.requests ::
                  s.requests[id].pc == t.requests[id].pc && s.requests[id].trace == t.requests[id].trace)
  {
    TheyStayAlike(a, b, steps, email);
  }
}
