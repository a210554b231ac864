/**
 What every run of the second-factor routes keeps: the life of one request, the journal as the
 interleaving of those lives, and the counter row as the replay of the journal.
 */
module SecondFactorRuns {
  import opened Common
  import opened Counters
  import opened Journal
  import opened SecondFactor

  // ---------------------------------------------------------------- the life of one request

  /** The first `n` effects of a request whose code is right. */
  predicate Script(t: seq<Event>, n: nat) {
    && n <= 3 && |t| >= n
    && (n >= 1 ==> t[0].Granted?)
    && (n >= 2 ==> t[1] == Compared(true))
    && (n >= 3 ==> t[2].Spent? && t[2].ok)
  }

  /** Effects after which an error sends the request to the give-back. */
  predicate Unjudged(t: seq<Event>) {
    || (|t| == 1 && Script(t, 1))
    || (|t| == 2 && Script(t, 2))
    || (|t| == 3 && Script(t, 2) && t[2].Spent?)
  }

  predicate GivenBack(t: seq<Event>) {
    t != [] && t[|t| - 1] == GaveBack && Unjudged(t[..|t| - 1])
  }

  /** A code that did not match, or that had already been spent. */
  predicate WrongTrace(t: seq<Event>) {
    || (|t| == 2 && Script(t, 1) && t[1] == Compared(false))
    || (|t| == 3 && Script(t, 2) && t[2].Spent? && !t[2].ok)
  }

  predicate ElevationTrace(r: Request, t: seq<Event>, n: nat) {
    && r.route.Verify? && 3 < n <= 6 && |t| == n && Script(t, 3)
    && t[3].Consumed? && t[3].challenge == r.route.challenge
    && (n > 4 ==> t[4] == Event.Elevated(r.session))
    && (n > 5 ==> t[5] == Cleared)
  }

  predicate Outcome(r: Request, status: nat) {
    var t := r.trace;
    || (t == [] && status != 200 && status != 204)
    || (|t| == 1 && t[0].Refused? && status == 429)
    || (|t| == 1 && t[0].Unanswered? && status == 500)
    || (|t| == 1 && Script(t, 1)
        && (status == 500 || (status == 401 && r.route.Verify?) || (status == 503 && r.UsesRecovery())))
    || (Unjudged(t) && status == 500)
    || (GivenBack(t) && status == 500)
    || (WrongTrace(t) && status == r.RefusalStatus())
    || (|t| == 3 && Script(t, 3)
        && (status == 500 || (status == 401 && r.route.Verify?) || (status == 409 && r.route.Enroll?)))
    || (ElevationTrace(r, t, 4) && (status == 500 || status == 401))
    || (ElevationTrace(r, t, 5) && status == 500)
    || (ElevationTrace(r, t, 6) && (status == 500 || status == 204))
    || (r.route.Confirm? && |t| == 4 && Script(t, 3) && t[3] == Cleared && (status == 500 || status == 204))
    || (r.route.Enroll? && |t| == 1 && t[0].Wrote? && (status == 500 || status == 200))
    || (r.route.Enroll? && |t| == 4 && Script(t, 3) && t[3].Wrote? && (status == 500 || status == 200))
  }

  /** Where a request stands determines what it has done. */
  predicate Fits(r: Request) {
    var t := r.trace;
    match r.pc
    case Admit => r.route.Enroll? && t == []
    case ReadState => !r.route.Verify? && t == []
    case ReadFactors => r.route.Enroll? && t == []
    case Reserving => t == []
    case ReadChallenge => r.route.Verify? && |t| == 1 && Script(t, 1)
    case Compare => |t| == 1 && Script(t, 1)
    case Spend(_) => |t| == 2 && Script(t, 2)
    case GiveBack => Unjudged(t)
    case ConsumeChallenge => r.route.Verify? && |t| == 3 && Script(t, 3)
    case Elevate => ElevationTrace(r, t, 4)
    case Succeed => ElevationTrace(r, t, 5) || (r.route.Confirm? && |t| == 3 && Script(t, 3))
    case Write(replace, pending) =>
      r.route.Enroll? && pending == r.WritesPending() && (t == [] || (replace && |t| == 3 && Script(t, 3)))
    case Done(status) => Outcome(r, status)
  }

  /** The request after a move, with the effect recorded. */
  function Moved(r: Request, m: Move): Request {
    if m.event.None? then m.request else m.request.(trace := r.trace + [m.event.value])
  }

  // ---------------------------------------------------------------- the journal

  function CounterOp(id: nat, event: Event): Option<Op> {
    match event
    case Granted(now) => Some(Reserve(id, now))
    case Refused(now) => Some(Reserve(id, now))
    case Unanswered(now) => Some(Reserve(id, now))
    case GaveBack => Some(Release(id))
    case Cleared => Some(Clear)
    case _ => None
  }

  /** What happened to one operator's attempt row, in journal order. */
  function AttemptsOf(log: seq<Entry<Event>>, operator: nat): (ops: seq<Op>) {
    OpsOf(log, operator, CounterOp)
  }

  // ---------------------------------------------------------------- the invariant

  ghost predicate RequestsFit(s: State) {
    forall id <- s.requests :: Fits(s.requests[id])
  }

  /** The journal is exactly the interleaving of the requests' own histories. */
  ghost predicate JournalIsTheInterleaving(s: State) {
    && (forall id <- s.requests :: Project(s.log, id) == s.requests[id].trace)
    && (forall entry <- s.log | entry.ByRequest? ::
          entry.id in s.requests && entry.subject == s.requests[entry.id].operator)
  }

  ghost predicate RowsReplayTheJournal(s: State) {
    forall operator :: RowOf(s.db.attempts, operator) == Replay(Absent, AttemptsOf(s.log, operator))
  }

  ghost predicate ReservationsAreDistinct(s: State) {
    forall operator :: DistinctReservations(AttemptsOf(s.log, operator))
  }

  /** The steps a verification only reaches with a challenge of its own operator. */
  predicate PastChallenge(r: Request) {
    r.route.Verify? && (r.pc.Compare? || r.pc.Spend? || r.pc.ConsumeChallenge? || r.pc.Elevate? || r.pc.Succeed?)
  }

  ghost predicate OwnershipHolds(s: State) {
    forall id <- s.requests ::
      var r := s.requests[id];
      && (r.trace != [] || !r.pc.Done? ==>
            r.session in s.db.sessions && s.db.sessions[r.session].operator == r.operator)
      && (PastChallenge(r) ==>
            && r.route.challenge in s.db.challenges
            && s.db.challenges[r.route.challenge].operator == r.operator)
  }

  ghost predicate ConsumptionsAreUnique(s: State) {
    && (forall entry <- s.log | entry.ByRequest? && entry.event.Consumed? ::
          && entry.event.challenge in s.db.challenges
          && s.db.challenges[entry.event.challenge].consumed
          && s.db.challenges[entry.event.challenge].operator == entry.subject
          && entry.event.at < s.db.challenges[entry.event.challenge].expires)
    && (forall i, j | 0 <= i < j < |s.log| && s.log[i].ByRequest? && s.log[j].ByRequest?
                      && s.log[i].event.Consumed? && s.log[j].event.Consumed? ::
          s.log[i].event.challenge != s.log[j].event.challenge)
  }

  ghost predicate Invariant(s: State) {
    && RequestsFit(s)
    && JournalIsTheInterleaving(s)
    && RowsReplayTheJournal(s)
    && ReservationsAreDistinct(s)
    && OwnershipHolds(s)
    && ConsumptionsAreUnique(s)
  }

  // ---------------------------------------------------------------- what one move does

  /** Nobody rewrites the owner of a session, the owner or deadline of a challenge, nor makes a consumed one live. */
  ghost predicate OwnersStay(before: Db, after: Db) {
    && (forall id <- before.sessions ::
          id in after.sessions && after.sessions[id].operator == before.sessions[id].operator)
    && (forall id <- before.challenges ::
          && id in after.challenges && after.challenges[id].operator == before.challenges[id].operator
          && after.challenges[id].expires == before.challenges[id].expires
          && (before.challenges[id].consumed ==> after.challenges[id].consumed))
  }

  /** The attempt rows after an effect: the row of its operator moves by its operation, no other does. */
  predicate Counted(before: map<nat, Row>, after: map<nat, Row>, operator: nat, event: Option<Event>) {
    var op := if event.Some? then CounterOp(0, event.value) else None;
    if op.Some? then after == before[operator := After(RowOf(before, operator), op.value)] else after == before
  }

  /** Only a request that has done nothing yet reserves; only a live challenge is consumed. */
  predicate LegalEffect(db: Db, r: Request, m: Move) {
    m.event.Some? ==>
      && (m.event.value.Granted? || m.event.value.Refused? || m.event.value.Unanswered? ==> r.trace == [])
      && (m.event.value.Consumed? ==>
            var challenge := m.event.value.challenge;
            && PastChallenge(r) && challenge == r.route.challenge
            && challenge in db.challenges && !db.challenges[challenge].consumed
            && m.event.value.at < db.challenges[challenge].expires
            && challenge in m.db.challenges && m.db.challenges[challenge].consumed)
  }

  /** A move keeps the identity of its request, counts by its own effect, and respects the owners. */
  ghost predicate Framed(db: Db, r: Request, m: Move) {
    && m.request.session == r.session && m.request.operator == r.operator && m.request.route == r.route
    && m.request.trace == r.trace
    && Counted(db.attempts, m.db.attempts, r.operator, m.event)
    && LegalEffect(db, r, m)
    && OwnersStay(db, m.db)
    && (PastChallenge(m.request) && !PastChallenge(r) ==>
          r.route.challenge in db.challenges && db.challenges[r.route.challenge].operator == r.operator)
  }

  lemma ReadingFits(db: Db, r: Request, answer: Answer, now: int)
    requires Fits(r) && (r.pc.Admit? || r.pc.ReadState? || r.pc.ReadFactors? || r.pc.ReadChallenge?)
    ensures Fits(Moved(r, Advance(db, r, answer, now, 0, {})))
  {
  }

  lemma AdmittingIsFramed(db: Db, r: Request, answer: Answer, now: int)
    requires r.pc.Admit?
    ensures Framed(db, r, DoAdmit(db, r, answer, now))
  {
  }

  lemma ReadingIsFramed(db: Db, r: Request, answer: Answer)
    requires r.pc.ReadState?
    ensures Framed(db, r, DoReadState(db, r, answer))
  {
  }

  lemma ReadingFactorsIsFramed(db: Db, r: Request, answer: Answer)
    requires r.pc.ReadFactors?
    ensures Framed(db, r, DoReadFactors(db, r, answer))
  {
  }

  lemma ChallengingIsFramed(db: Db, r: Request, answer: Answer, now: int)
    requires r.pc.ReadChallenge? && r.route.Verify?
    ensures Framed(db, r, DoReadChallenge(db, r, answer, now))
  {
  }

  lemma ReservingFits(db: Db, r: Request, answer: Answer, now: int)
    requires Fits(r) && (r.pc.Reserving?)
    ensures Fits(Moved(r, DoReserve(db, r, answer, now)))
  {
  }

  lemma NothingIsOwnedAnew(before: Db, after: Db)
    requires after.sessions == before.sessions && after.challenges == before.challenges
    ensures OwnersStay(before, after)
  {
  }

  lemma ReservingCounts(db: Db, r: Request, answer: Answer, now: int)
    requires r.pc.Reserving? && r.trace == []
    ensures var m := DoReserve(db, r, answer, now);
            && m.db == db.(attempts := m.db.attempts)
            && m.request == r.(pc := m.request.pc, failures := m.request.failures)
            && Counted(db.attempts, m.db.attempts, r.operator, m.event)
  {
  }

  lemma ReservingIsFramed(db: Db, r: Request, answer: Answer, now: int)
    requires r.pc.Reserving? && r.trace == []
    ensures Framed(db, r, DoReserve(db, r, answer, now))
  {
    ReservingCounts(db, r, answer, now);
    NothingIsOwnedAnew(db, DoReserve(db, r, answer, now).db);
  }

  lemma ComparingFits(db: Db, r: Request, answer: Answer)
    requires Fits(r) && (r.pc.Compare?)
    ensures Fits(Moved(r, DoCompare(db, r, answer)))
  {
  }

  lemma ComparingIsFramed(db: Db, r: Request, answer: Answer)
    requires r.pc.Compare?
    ensures Framed(db, r, DoCompare(db, r, answer))
  {
  }

  lemma SpendingTouchesAccountsOnly(db: Db, operator: nat, proof: Proof, accepted: bool)
    ensures var after := SpendOn(db, operator, proof, accepted).0; after == db.(accounts := after.accounts)
  {
  }

  lemma SpendingFits(db: Db, r: Request, answer: Answer)
    requires Fits(r) && (r.pc.Spend?)
    ensures Fits(Moved(r, DoSpend(db, r, answer)))
  {
  }

  lemma SpendingIsFramed(db: Db, r: Request, answer: Answer)
    requires r.pc.Spend?
    ensures Framed(db, r, DoSpend(db, r, answer))
  {
    SpendingTouchesAccountsOnly(db, r.operator, r.pc.proof, answer.Answered? && answer.accepted);
  }

  lemma GivingBackFits(db: Db, r: Request, answer: Answer)
    requires Fits(r) && (r.pc.GiveBack?)
    ensures Fits(Moved(r, DoGiveBack(db, r, answer)))
  {
    assert (r.trace + [GaveBack])[..|r.trace|] == r.trace;
  }

  lemma GivingBackIsFramed(db: Db, r: Request, answer: Answer)
    requires r.pc.GiveBack?
    ensures Framed(db, r, DoGiveBack(db, r, answer))
  {
  }

  lemma ConsumingFits(db: Db, r: Request, answer: Answer, now: int)
    requires Fits(r) && (r.pc.ConsumeChallenge?)
    ensures Fits(Moved(r, Advance(db, r, answer, now, 0, {})))
  {
  }

  lemma ConsumingIsFramed(db: Db, r: Request, answer: Answer, now: int)
    requires r.pc.ConsumeChallenge? && r.route.Verify?
    ensures Framed(db, r, DoConsumeChallenge(db, r, answer, now))
  {
  }

  lemma ElevatingEnds(db: Db, r: Request, answer: Answer)
    requires r.pc.Elevate?
    ensures var m := DoElevate(db, r, answer);
            && m.request == r.(pc := m.request.pc)
            && match m.event
               case None => m.request.pc == Done(500) || m.request.pc == Done(401)
               case Some(e) => e == Event.Elevated(r.session) && (m.request.pc == Done(500) || m.request.pc == Succeed)
  {
  }

  lemma ElevatingFits(db: Db, r: Request, answer: Answer)
    requires Fits(r) && (r.pc.Elevate?)
    ensures Fits(Moved(r, DoElevate(db, r, answer)))
  {
    ElevatingEnds(db, r, answer);
  }

  lemma ElevatingIsFramed(db: Db, r: Request, answer: Answer)
    requires r.pc.Elevate?
    ensures Framed(db, r, DoElevate(db, r, answer))
  {
  }

  lemma SucceedingEnds(db: Db, r: Request, answer: Answer)
    requires r.pc.Succeed?
    ensures var m := DoSucceed(db, r, answer);
            && m.request == r.(pc := m.request.pc)
            && match m.event
               case None => m.request.pc == Done(500)
               case Some(e) => e == Cleared && (m.request.pc == Done(500) || m.request.pc == Done(204))
  {
  }

  lemma SucceedingFits(db: Db, r: Request, answer: Answer)
    requires Fits(r) && (r.pc.Succeed?)
    ensures Fits(Moved(r, DoSucceed(db, r, answer)))
  {
    SucceedingEnds(db, r, answer);
  }

  lemma SucceedingIsFramed(db: Db, r: Request, answer: Answer)
    requires r.pc.Succeed?
    ensures Framed(db, r, DoSucceed(db, r, answer))
  {
  }

  /** Where a write leads, and what it leaves. */
  lemma WritingEnds(db: Db, r: Request, answer: Answer, secret: nat, codes: set<nat>)
    requires r.pc.Write?
    ensures var m := DoWrite(db, r, answer, secret, codes);
            var written := WriteOn(db, r.operator, r.pc.replace, r.pc.pending, secret, codes);
            && (m.db == db || m.db == written.0)
            && m.request.pc.Done? && m.request == r.(pc := m.request.pc)
            && match m.event
               case None => m.request.pc.status == 500 || m.request.pc.status == 409
               case Some(e) => e == Wrote(r.pc.pending) && (m.request.pc.status == 500 || m.request.pc.status == 200)
  {
  }

  lemma WritingFits(db: Db, r: Request, answer: Answer, secret: nat, codes: set<nat>)
    requires Fits(r) && (r.pc.Write?)
    ensures Fits(Moved(r, DoWrite(db, r, answer, secret, codes)))
  {
    WritingEnds(db, r, answer, secret, codes);
  }

  lemma WritingTouchesAccountsOnly(db: Db, operator: nat, replace: bool, pending: bool, secret: nat, codes: set<nat>)
    ensures var after := WriteOn(db, operator, replace, pending, secret, codes).0;
            after == db.(accounts := after.accounts)
  {
  }

  lemma WritingIsFramed(db: Db, r: Request, answer: Answer, secret: nat, codes: set<nat>)
    requires r.pc.Write?
    ensures Framed(db, r, DoWrite(db, r, answer, secret, codes))
  {
    WritingEnds(db, r, answer, secret, codes);
    WritingTouchesAccountsOnly(db, r.operator, r.pc.replace, r.pc.pending, secret, codes);
    NothingIsOwnedAnew(db, DoWrite(db, r, answer, secret, codes).db);
  }

  ghost predicate Sound(db: Db, r: Request, m: Move) { Fits(Moved(r, m)) && Framed(db, r, m) }

  lemma AReadingIsSound(db: Db, r: Request, answer: Answer, now: int)
    requires Fits(r) && (r.pc.Admit? || r.pc.ReadState? || r.pc.ReadFactors? || r.pc.ReadChallenge?)
    ensures Sound(db, r, Advance(db, r, answer, now, 0, {}))
  {
    ReadingFits(db, r, answer, now);
    match r.pc
    case Admit => AdmittingIsFramed(db, r, answer, now);
    case ReadState => ReadingIsFramed(db, r, answer);
    case ReadFactors => ReadingFactorsIsFramed(db, r, answer);
    case ReadChallenge => ChallengingIsFramed(db, r, answer, now);
  }

  lemma AJudgementIsSound(db: Db, r: Request, answer: Answer, now: int)
    requires Fits(r) && (r.pc.Reserving? || r.pc.Compare? || r.pc.Spend? || r.pc.GiveBack?)
    ensures Sound(db, r, Advance(db, r, answer, now, 0, {}))
  {
    match r.pc
    case Reserving => ReservingFits(db, r, answer, now); ReservingIsFramed(db, r, answer, now);
    case Compare => ComparingFits(db, r, answer); ComparingIsFramed(db, r, answer);
    case Spend(_) => SpendingFits(db, r, answer); SpendingIsFramed(db, r, answer);
    case GiveBack => GivingBackFits(db, r, answer); GivingBackIsFramed(db, r, answer);
  }

  lemma ASuccessIsSound(db: Db, r: Request, answer: Answer, now: int)
    requires Fits(r) && (r.pc.ConsumeChallenge? || r.pc.Elevate? || r.pc.Succeed?)
    ensures Sound(db, r, Advance(db, r, answer, now, 0, {}))
  {
    match r.pc
    case ConsumeChallenge => ConsumingFits(db, r, answer, now); ConsumingIsFramed(db, r, answer, now);
    case Elevate => ElevatingFits(db, r, answer); ElevatingIsFramed(db, r, answer);
    case Succeed => SucceedingFits(db, r, answer); SucceedingIsFramed(db, r, answer);
  }

  lemma StayingIsSound(db: Db, r: Request)
    requires Fits(r) && r.pc.Done?
    ensures Sound(db, r, Move(db, r, None))
  {
  }

  /** Only a write reads the secret and the codes that were drawn. */
  lemma OnlyWritesDraw(db: Db, r: Request, answer: Answer, now: int, secret: nat, codes: set<nat>)
    requires !r.pc.Write?
    ensures Advance(db, r, answer, now, secret, codes) == Advance(db, r, answer, now, 0, {})
  {
  }

  lemma AnUndrawnMoveIsSound(db: Db, r: Request, answer: Answer, now: int)
    requires Fits(r) && !r.pc.Write?
    ensures Sound(db, r, Advance(db, r, answer, now, 0, {}))
  {
    if r.pc.Admit? || r.pc.ReadState? || r.pc.ReadFactors? || r.pc.ReadChallenge? {
      AReadingIsSound(db, r, answer, now);
    } else if r.pc.Reserving? || r.pc.Compare? || r.pc.Spend? || r.pc.GiveBack? {
      AJudgementIsSound(db, r, answer, now);
    } else if r.pc.Done? {
      StayingIsSound(db, r);
    } else {
      ASuccessIsSound(db, r, answer, now);
    }
  }

  lemma AMoveIsSound(db: Db, r: Request, answer: Answer, now: int, secret: nat, codes: set<nat>)
    requires Fits(r)
    ensures Sound(db, r, Advance(db, r, answer, now, secret, codes))
  {
    if r.pc.Write? {
      WritingFits(db, r, answer, secret, codes);
      WritingIsFramed(db, r, answer, secret, codes);
    } else {
      OnlyWritesDraw(db, r, answer, now, secret, codes);
      AnUndrawnMoveIsSound(db, r, answer, now);
    }
  }

  // ---------------------------------------------------------------- every step keeps it

  lemma ConsumptionsStayUnique(s: State, entry: Entry<Event>, db: Db)
    requires ConsumptionsAreUnique(s) && OwnersStay(s.db, db)
    requires entry.ByRequest? && entry.event.Consumed? ==>
               var challenge := entry.event.challenge;
               && challenge in s.db.challenges && !s.db.challenges[challenge].consumed
               && s.db.challenges[challenge].operator == entry.subject
               && entry.event.at < s.db.challenges[challenge].expires
               && challenge in db.challenges && db.challenges[challenge].consumed
    ensures ConsumptionsAreUnique(State(db, s.requests, s.log + [entry]))
  {
    var log := s.log + [entry];
    forall i, j | 0 <= i < j < |log| && log[i].ByRequest? && log[j].ByRequest?
                  && log[i].event.Consumed? && log[j].event.Consumed?
      ensures log[i].event.challenge != log[j].event.challenge
    {
      assert log[i] == s.log[i];
      if j == |s.log| {
        assert s.log[i] in s.log;
      } else {
        assert log[j] == s.log[j];
      }
    }
  }

  lemma AnEntryKeepsTheRows(s: State, after: State, entry: Entry<Event>, operator: nat)
    requires RowsReplayTheJournal(s) && ReservationsAreDistinct(s)
    requires after.log == s.log + [entry]
    requires entry.ByRequest? && (entry.event.Granted? || entry.event.Refused? || entry.event.Unanswered?) ==>
               Project(s.log, entry.id) == []
    requires var op := EntryOp(entry, operator, CounterOp);
             RowOf(after.db.attempts, operator) ==
             if op.Some? then After(RowOf(s.db.attempts, operator), op.value) else RowOf(s.db.attempts, operator)
    ensures RowOf(after.db.attempts, operator) == Replay(Absent, AttemptsOf(after.log, operator))
    ensures DistinctReservations(AttemptsOf(after.log, operator))
  {
    assert RowOf(s.db.attempts, operator) == Replay(Absent, AttemptsOf(s.log, operator));
    assert DistinctReservations(AttemptsOf(s.log, operator));
    ReservationsStayDistinct(s.log, entry, operator, CounterOp);
    AnEntryMovesItsRow(s.log, entry, operator, CounterOp, RowOf(s.db.attempts, operator),
                       RowOf(after.db.attempts, operator));
  }

  /** Whatever request reserves or clears, its number does not matter to the row. */
  lemma TheNumberDoesNotMatter(row: Row, id: nat, event: Event)
    ensures CounterOp(id, event).Some? <==> CounterOp(0, event).Some?
    ensures CounterOp(id, event).Some? ==>
              After(row, CounterOp(id, event).value) == After(row, CounterOp(0, event).value)
  {
  }

  lemma ActKeepsTheRows(s: State, id: nat, m: Move)
    requires Invariant(s) && id in s.requests && Framed(s.db, s.requests[id], m)
    ensures RowsReplayTheJournal(Recorded(s, id, m)) && ReservationsAreDistinct(Recorded(s, id, m))
  {
    var r, after := s.requests[id], Recorded(s, id, m);
    forall operator
      ensures RowOf(after.db.attempts, operator) == Replay(Absent, AttemptsOf(after.log, operator))
      ensures DistinctReservations(AttemptsOf(after.log, operator))
    {
      if m.event.Some? {
        TheNumberDoesNotMatter(RowOf(s.db.attempts, operator), id, m.event.value);
        AnEntryKeepsTheRows(s, after, ByRequest(id, r.operator, m.event.value), operator);
      }
    }
  }

  lemma ActKeepsTheJournal(s: State, id: nat, m: Move)
    requires Invariant(s) && id in s.requests && Framed(s.db, s.requests[id], m)
    ensures JournalIsTheInterleaving(Recorded(s, id, m)) && ConsumptionsAreUnique(Recorded(s, id, m))
  {
    if m.event.Some? {
      var entry := ByRequest(id, s.requests[id].operator, m.event.value);
      ConsumptionsStayUnique(s, entry, m.db);
      forall other <- s.requests ensures Project(s.log + [entry], other) == Recorded(s, id, m).requests[other].trace {
        AppendProjects(s.log, entry, other);
        assert Project(s.log, other) == s.requests[other].trace;
      }
    }
  }

  lemma ActKeepsOwnership(s: State, id: nat, m: Move)
    requires Invariant(s) && id in s.requests && Framed(s.db, s.requests[id], m)
    requires s.requests[id].pc.Done? ==> m == Move(s.db, s.requests[id], None)
    ensures OwnershipHolds(Recorded(s, id, m))
  {
  }

  /** The state once a move of request `id` is recorded. */
  function Recorded(s: State, id: nat, m: Move): State
    requires id in s.requests
  {
    State(m.db, s.requests[id := Moved(s.requests[id], m)],
          if m.event.Some? then s.log + [ByRequest(id, s.requests[id].operator, m.event.value)] else s.log)
  }

  lemma ActKeepsTheInvariant(s: State, id: nat, answer: Answer, now: int, secret: nat, codes: set<nat>)
    requires Invariant(s) && id in s.requests
    ensures Invariant(Apply(s, Act(id, answer, now, secret, codes)))
  {
    var r := s.requests[id];
    var m := Advance(s.db, r, answer, now, secret, codes);
    AMoveIsSound(s.db, r, answer, now, secret, codes);
    assert Apply(s, Act(id, answer, now, secret, codes)) == Recorded(s, id, m);
    ActKeepsTheRows(s, id, m);
    ActKeepsTheJournal(s, id, m);
    ActKeepsOwnership(s, id, m);
  }

  lemma ResetKeepsTheInvariant(s: State, operator: nat)
    requires Invariant(s) && operator in s.db.accounts
    ensures Invariant(Apply(s, ResetAccount(operator)))
  {
    var after := Apply(s, ResetAccount(operator));
    var entry := ByReset(operator);
    forall other <- s.requests ensures Project(after.log, other) == s.requests[other].trace {
      AppendProjects(s.log, entry, other);
    }
    forall other
      ensures RowOf(after.db.attempts, other) == Replay(Absent, AttemptsOf(after.log, other))
      ensures DistinctReservations(AttemptsOf(after.log, other))
    {
      assert EntryOp(entry, other, CounterOp) == if other == operator then Some(Clear) else None;
      AnEntryKeepsTheRows(s, after, entry, other);
    }
    ConsumptionsStayUnique(s, entry, after.db);
  }

  lemma OthersKeepTheInvariant(s: State, step: Step)
    requires Invariant(s) && !step.Act? && !step.Arrive? && !step.ResetAccount?
    ensures Invariant(Apply(s, step))
  {
    var after := Apply(s, step);
    assert after.log == s.log && after.requests == s.requests && after.db.attempts == s.db.attempts;
    assert OwnersStay(s.db, after.db);
  }

  /** A request that arrives has done nothing, and stands where a fresh one may. */
  lemma ArrivingFits(db: Db, route: Route, session: nat)
    ensures var r := Arriving(db, route, session);
            && Fits(r) && r.trace == [] && !PastChallenge(r) && r.session == session
            && (r.pc.Done? || (session in db.sessions && db.sessions[session].operator == r.operator))
  {
  }

  lemma ArrivalKeepsTheInvariant(s: State, id: nat, route: Route, session: nat)
    requires Invariant(s) && id !in s.requests
    ensures Invariant(Apply(s, Arrive(id, route, session)))
  {
    ArrivingFits(s.db, route, session);
    NothingLoggedNothingProjected(s.log, id);
  }

  lemma AStepKeepsTheInvariant(s: State, step: Step)
    requires Invariant(s)
    ensures Invariant(Apply(s, step))
  {
    match step
    case Act(id, answer, now, secret, codes) =>
      if id in s.requests { ActKeepsTheInvariant(s, id, answer, now, secret, codes); }
    case Arrive(id, route, session) =>
      if id !in s.requests { ArrivalKeepsTheInvariant(s, id, route, session); }
    case ResetAccount(operator) =>
      if operator in s.db.accounts { ResetKeepsTheInvariant(s, operator); }
    case _ => OthersKeepTheInvariant(s, step);
  }

  lemma {:induction false} EveryRunKeepsTheInvariant(steps: seq<Step>)
    ensures Invariant(Run(INITIAL, steps))
  {
    if steps != [] {
      EveryRunKeepsTheInvariant(steps[..|steps| - 1]);
      AStepKeepsTheInvariant(Run(INITIAL, steps[..|steps| - 1]), steps[|steps| - 1]);
    }
  }
}
