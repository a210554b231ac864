/**
 What every run of the access-link protocol keeps: a token sets at most one password, nothing but a
 consumption changes a stored hash, a hash is only computed for a token read as valid and a password
 that was let through, and no slot is lost.
 */
module AccessLinkRuns {
  import opened Common
  import opened Journal
  import opened AccessLink

  // ---------------------------------------------------------------- the life of one request

  predicate Script(t: seq<Event>, n: nat) {
    && n <= 2 && |t| == n
    && (n >= 1 ==> t[0].ReadValid?)
    && (n >= 2 ==> t[1].Hashed?)
  }

  predicate Outcome(r: Request, verdict: Verdict) {
    var t := r.trace;
    match verdict
    case BadRequest => t == []
    case WeakPassword => Script(t, 1)
    case Overloaded => Script(t, 1)
    case Gone => t == [] || Script(t, 2)
    case Failed => t == [] || Script(t, 1) || Script(t, 2) || Finished(r)
    case Saved => Finished(r)
  }

  /** The link was consumed, with the hash this request computed. */
  predicate Finished(r: Request) {
    && r.token.Some? && |r.trace| == 3 && Script(r.trace[..2], 2) && r.trace[2].Consumed?
    && r.trace[2].hash == r.trace[1].hash
  }

  predicate Fits(c: Config, r: Request) {
    var t := r.trace;
    && (t != [] ==> r.token.Some?)
    && (forall e <- t | e.Hashed? :: r.password in c.strong && e.hash.password == r.password)
    && (forall e <- t | e.Consumed? :: r.password in c.strong && e.hash.password == r.password)
    && match r.pc
       case Checking => t == []
       case Reading => t == []
       case Deciding => Script(t, 1)
       case Waiting => Script(t, 1) && r.password in c.strong
       case Hashing => Script(t, 1) && r.password in c.strong
       case Consuming => Script(t, 2) && r.hash == Some(t[1].hash)
       case Done(verdict) => Outcome(r, verdict)
  }

  // ---------------------------------------------------------------- the invariant

  ghost predicate RequestsFit(c: Config, s: State) {
    forall id <- s.requests :: Fits(c, s.requests[id])
  }

  ghost predicate JournalIsTheInterleaving(s: State) {
    && (forall id <- s.requests :: Project(s.log, id) == s.requests[id].trace)
    && (forall entry <- s.log ::
          entry.ByRequest? && entry.id in s.requests && s.requests[entry.id].token == Some(entry.subject))
  }

  /** A token that set a password was issued, is gone, and set no other. */
  ghost predicate TokensAreSpentOnce(s: State) {
    && (forall token <- s.db.links :: token in s.issued)
    && (forall k | 0 <= k < |s.log| && Spends(s.log[k]) ::
          s.log[k].subject in s.issued && s.log[k].subject !in s.db.links)
    && (forall i, k | 0 <= i < k < |s.log| && Spends(s.log[i]) && Spends(s.log[k]) ::
          s.log[i].subject != s.log[k].subject)
  }

  predicate Spends(entry: Entry<Event>) { entry.ByRequest? && entry.event.Consumed? }

  /** The stored hashes after a stretch of the journal. */
  function PasswordsAfter(before: map<nat, Hash>, log: seq<Entry<Event>>): map<nat, Hash> {
    if log == [] then before
    else
      var m, last := PasswordsAfter(before, log[..|log| - 1]), log[|log| - 1];
      if Spends(last) then m[last.event.operator := last.event.hash] else m
  }

  ghost function InFlight(s: State): set<nat> {
    set id | id in s.requests && s.requests[id].pc.Hashing?
  }

  ghost predicate SlotsAreTheHashes(s: State) {
    s.db.slots == |InFlight(s)| + s.db.others && s.db.slots <= HASH_SLOTS
  }

  ghost predicate Invariant(c: Config, before: map<nat, Hash>, s: State) {
    && RequestsFit(c, s)
    && JournalIsTheInterleaving(s)
    && TokensAreSpentOnce(s)
    && s.db.passwords == PasswordsAfter(before, s.log)
    && SlotsAreTheHashes(s)
  }

  // ---------------------------------------------------------------- one move

  /** What a move may change outside the request: a consumption, or one slot. */
  predicate Framed(db: Db, r: Request, m: Move) {
    && m.request.token == r.token && m.request.trace == r.trace
    && m.db.active == db.active && m.db.others == db.others
    && (if m.event.Some? && m.event.value.Consumed? then
          && r.token.Some? && Usable(db, r.token.value, m.event.value.now)
          && m.event.value.operator == db.links[r.token.value].operator
          && m.db.links == db.links - {r.token.value}
          && m.db.passwords == db.passwords[m.event.value.operator := m.event.value.hash]
        else m.db.links == db.links && m.db.passwords == db.passwords)
    && (r.pc.Hashing? && !m.request.pc.Hashing? ==> m.db.slots == if db.slots > 0 then db.slots - 1 else 0)
    && (!r.pc.Hashing? && m.request.pc.Hashing? ==> db.slots < HASH_SLOTS && m.db.slots == db.slots + 1)
    && (r.pc.Hashing? == m.request.pc.Hashing? ==> m.db.slots == db.slots)
  }

  lemma EnteringFits(c: Config, db: Db, r: Request, answer: Answer, now: int)
    requires Fits(c, r) && (r.pc.Checking? || r.pc.Reading? || r.pc.Deciding? || r.pc.Waiting?)
    ensures Fits(c, Moved(r, Advance(c, db, r, answer, now, 0)))
  {
  }

  lemma HashingFits(c: Config, db: Db, r: Request, answer: Answer, salt: nat)
    requires Fits(c, r) && r.pc.Hashing?
    ensures Fits(c, Moved(r, DoHash(db, r, answer, salt)))
  {
  }

  lemma ConsumingFits(c: Config, db: Db, r: Request, answer: Answer, now: int)
    requires Fits(c, r) && r.pc.Consuming?
    ensures Fits(c, Moved(r, DoConsume(db, r, answer, now)))
  {
  }

  lemma AMoveFits(c: Config, db: Db, r: Request, answer: Answer, now: int, salt: nat)
    requires Fits(c, r)
    ensures Fits(c, Moved(r, Advance(c, db, r, answer, now, salt)))
  {
    match r.pc
    case Hashing => HashingFits(c, db, r, answer, salt);
    case Consuming => ConsumingFits(c, db, r, answer, now);
    case Done(_) =>
    case _ => EnteringFits(c, db, r, answer, now);
  }

  lemma ConsumingIsFramed(db: Db, r: Request, answer: Answer, now: int)
    requires r.pc.Consuming?
    ensures Framed(db, r, DoConsume(db, r, answer, now))
  {
  }

  lemma HashingIsFramed(db: Db, r: Request, answer: Answer, salt: nat)
    requires r.pc.Hashing?
    ensures Framed(db, r, DoHash(db, r, answer, salt))
  {
  }

  lemma AMoveIsFramed(c: Config, db: Db, r: Request, answer: Answer, now: int, salt: nat)
    ensures Framed(db, r, Advance(c, db, r, answer, now, salt))
  {
    match r.pc
    case Hashing => HashingIsFramed(db, r, answer, salt);
    case Consuming => ConsumingIsFramed(db, r, answer, now);
    case _ =>
  }

  // ---------------------------------------------------------------- every step keeps it

  lemma InFlightAfter(s: State, id: nat, r: Request)
    ensures var after := s.(requests := s.requests[id := r]);
            InFlight(after) == if r.pc.Hashing? then InFlight(s) + {id} else InFlight(s) - {id}
  {
  }

  lemma ActKeepsTheSlots(s: State, id: nat, m: Move)
    requires SlotsAreTheHashes(s) && id in s.requests && Framed(s.db, s.requests[id], m)
    ensures SlotsAreTheHashes(Recorded(s, id, m))
  {
    var after := Recorded(s, id, m);
    InFlightAfter(s, id, Moved(s.requests[id], m));
    assert InFlight(after) == InFlight(s.(requests := after.requests));
    if s.requests[id].pc.Hashing? {
      assert id in InFlight(s);
    }
  }

  lemma ActKeepsTheJournal(s: State, id: nat, m: Move)
    requires JournalIsTheInterleaving(s) && id in s.requests && Framed(s.db, s.requests[id], m)
    requires m.event.Some? ==> s.requests[id].token.Some?
    ensures JournalIsTheInterleaving(Recorded(s, id, m))
  {
    if m.event.Some? {
      var r, after := s.requests[id], Recorded(s, id, m);
      forall other <- after.requests ensures Project(after.log, other) == after.requests[other].trace {
        AppendProjects(s.log, ByRequest(id, r.token.value, m.event.value), other);
      }
    }
  }

  lemma ActKeepsTheTokens(s: State, id: nat, m: Move)
    requires TokensAreSpentOnce(s) && id in s.requests && Framed(s.db, s.requests[id], m)
    ensures TokensAreSpentOnce(Recorded(s, id, m))
  {
    var r, after := s.requests[id], Recorded(s, id, m);
    var spending := m.event.Some? && m.event.value.Consumed?;
    assert spending ==> r.token.value in s.db.links;
    forall k | 0 <= k < |after.log| && Spends(after.log[k])
      ensures after.log[k].subject in after.issued && after.log[k].subject !in after.db.links
    {
      assert k < |s.log| ==> after.log[k] == s.log[k];
    }
    forall i, k | 0 <= i < k < |after.log| && Spends(after.log[i]) && Spends(after.log[k])
      ensures after.log[i].subject != after.log[k].subject
    {
      assert after.log[i] == s.log[i];
      assert k < |s.log| ==> after.log[k] == s.log[k];
    }
  }

  lemma ActKeepsThePasswords(before: map<nat, Hash>, s: State, id: nat, m: Move)
    requires s.db.passwords == PasswordsAfter(before, s.log)
    requires id in s.requests && Framed(s.db, s.requests[id], m)
    requires m.event.Some? ==> s.requests[id].token.Some?
    ensures Recorded(s, id, m).db.passwords == PasswordsAfter(before, Recorded(s, id, m).log)
  {
    var after := Recorded(s, id, m);
    if m.event.Some? {
      assert after.log[..|after.log| - 1] == s.log;
    }
  }

  lemma ActKeepsTheInvariant(c: Config, before: map<nat, Hash>, s: State, id: nat, answer: Answer, now: int, salt: nat)
    requires Invariant(c, before, s) && id in s.requests
    ensures Invariant(c, before, Recorded(s, id, Advance(c, s.db, s.requests[id], answer, now, salt)))
  {
    var r := s.requests[id];
    AMoveFits(c, s.db, r, answer, now, salt);
    AMoveIsFramed(c, s.db, r, answer, now, salt);
    FramedActKeepsTheInvariant(c, before, s, id, Advance(c, s.db, r, answer, now, salt));
  }

  lemma FramedActKeepsTheInvariant(c: Config, before: map<nat, Hash>, s: State, id: nat, m: Move)
    requires Invariant(c, before, s) && id in s.requests
    requires Framed(s.db, s.requests[id], m) && Fits(c, Moved(s.requests[id], m))
    ensures Invariant(c, before, Recorded(s, id, m))
  {
    assert m.event.Some? ==> Moved(s.requests[id], m).trace != [];
    ActKeepsTheSlots(s, id, m);
    ActKeepsTheJournal(s, id, m);
    ActKeepsTheTokens(s, id, m);
    ActKeepsThePasswords(before, s, id, m);
  }

  lemma AnArrivalFits(c: Config, token: Option<nat>, sized: bool, password: nat)
    ensures Fits(c, Arriving(token, sized, password))
  {
  }

  lemma AnArrivalKeepsTheJournal(s: State, id: nat, r: Request)
    requires JournalIsTheInterleaving(s) && id !in s.requests && r.trace == []
    ensures JournalIsTheInterleaving(s.(requests := s.requests[id := r]))
  {
    NothingLoggedNothingProjected(s.log, id);
  }

  lemma AnArrivalKeepsTheTokens(s: State, id: nat, r: Request)
    requires TokensAreSpentOnce(s)
    ensures TokensAreSpentOnce(s.(requests := s.requests[id := r]))
  {
  }

  lemma AnArrivalKeepsTheSlots(s: State, id: nat, r: Request)
    requires SlotsAreTheHashes(s) && id !in s.requests && !r.pc.Hashing?
    ensures SlotsAreTheHashes(s.(requests := s.requests[id := r]))
  {
    InFlightAfter(s, id, r);
    assert id !in InFlight(s);
    assert InFlight(s) - {id} == InFlight(s);
  }

  lemma AnArrivalKeepsTheInvariant(c: Config, before: map<nat, Hash>, s: State, id: nat, r: Request)
    requires Invariant(c, before, s) && id !in s.requests
    requires r.trace == [] && !r.pc.Hashing? && Fits(c, r)
    ensures Invariant(c, before, s.(requests := s.requests[id := r]))
  {
    AnArrivalKeepsTheJournal(s, id, r);
    AnArrivalKeepsTheTokens(s, id, r);
    AnArrivalKeepsTheSlots(s, id, r);
  }

  /** A step outside the requests: links it leaves are old ones or fresh, and slots stay counted. */
  lemma AnotherStepKeepsTheInvariant(c: Config, before: map<nat, Hash>, s: State, after: State)
    requires Invariant(c, before, s)
    requires after.requests == s.requests && after.log == s.log && after.db.passwords == s.db.passwords
    requires s.issued <= after.issued
    requires forall token <- after.db.links :: token in s.db.links || (token in after.issued && token !in s.issued)
    requires after.db.slots - after.db.others == s.db.slots - s.db.others && after.db.slots <= HASH_SLOTS
    ensures Invariant(c, before, after)
  {
    assert InFlight(after) == InFlight(s);
  }

  lemma OthersKeepTheInvariant(c: Config, before: map<nat, Hash>, s: State, step: Step)
    requires Invariant(c, before, s) && !step.Act?
    ensures Invariant(c, before, Apply(c, s, step))
  {
    if !step.Arrive? {
      AnotherStepKeepsTheInvariant(c, before, s, Apply(c, s, step));
    } else if step.id !in s.requests {
      AnArrivalFits(c, step.presented, step.sized, step.password);
      AnArrivalKeepsTheInvariant(c, before, s, step.id, Arriving(step.presented, step.sized, step.password));
    }
  }

  lemma {:induction false} EveryRunKeepsTheInvariant(c: Config, active: set<nat>, passwords: map<nat, Hash>,
                                                     steps: seq<Step>)
    ensures Invariant(c, passwords, Run(c, Initial(active, passwords), steps))
  {
    if steps == [] {
      assert InFlight(Initial(active, passwords)) == {};
    } else {
      var before := Run(c, Initial(active, passwords), steps[..|steps| - 1]);
      EveryRunKeepsTheInvariant(c, active, passwords, steps[..|steps| - 1]);
      var step := steps[|steps| - 1];
      if !step.Act? {
        OthersKeepTheInvariant(c, passwords, before, step);
      } else if step.id in before.requests {
        ActKeepsTheInvariant(c, passwords, before, step.id, step.answer, step.now, step.salt);
      }
    }
  }

  // ---------------------------------------------------------------- what is promised

  /** The effects of a request are in the journal, under its own token. */
  lemma ItsEffectIsLogged(c: Config, before: map<nat, Hash>, s: State, id: nat, p: nat) returns (k: nat)
    requires Invariant(c, before, s) && id in s.requests && p < |s.requests[id].trace|
    ensures k < |s.log| && s.log[k].ByRequest? && s.log[k].id == id && s.log[k].event == s.requests[id].trace[p]
    ensures s.requests[id].token == Some(s.log[k].subject)
  {
    ProjectedIsLogged(s.log, id, p);
    k :| 0 <= k < |s.log| && s.log[k].ByRequest? && s.log[k].id == id && s.log[k].event == s.requests[id].trace[p];
    assert s.log[k] in s.log;
  }

  /**
   In every interleaving, one token sets at most one password: two requests that present the same
   token and both set one - answered 204, or unanswered after the commit - are the same request.
   */
  lemma ATokenSetsOnePassword(c: Config, active: set<nat>, passwords: map<nat, Hash>, steps: seq<Step>, id: nat,
                              other: nat)
    requires var s := Run(c, Initial(active, passwords), steps);
             && id in s.requests && other in s.requests
             && s.requests[id].token == s.requests[other].token
             && Finished(s.requests[id]) && Finished(s.requests[other])
    ensures id == other
  {
    EveryRunKeepsTheInvariant(c, active, passwords, steps);
    var s := Run(c, Initial(active, passwords), steps);
    var i := ItsEffectIsLogged(c, passwords, s, id, 2);
    var k := ItsEffectIsLogged(c, passwords, s, other, 2);
    assert Spends(s.log[i]) && Spends(s.log[k]);
    assert s.log[i].subject == s.log[k].subject;
  }

  /** A 204 says the password was set; no other answer but a fault hides that it was. */
  lemma TheAnswerTellsWhatWasSet(c: Config, active: set<nat>, passwords: map<nat, Hash>, steps: seq<Step>, id: nat)
    requires id in Run(c, Initial(active, passwords), steps).requests
    ensures var r := Run(c, Initial(active, passwords), steps).requests[id];
            && (r.pc == Done(Saved) ==> Finished(r))
            && ((exists e <- r.trace :: e.Consumed?) ==> Finished(r) && (r.pc == Done(Saved) || r.pc == Done(Failed)))
  {
    EveryRunKeepsTheInvariant(c, active, passwords, steps);
    var r := Run(c, Initial(active, passwords), steps).requests[id];
    WhatAnOutcomeSays(c, r);
  }

  lemma WhatAnOutcomeSays(c: Config, r: Request)
    requires Fits(c, r)
    ensures r.pc == Done(Saved) ==> Finished(r)
    ensures (exists e <- r.trace :: e.Consumed?) ==> Finished(r) && (r.pc == Done(Saved) || r.pc == Done(Failed))
  {
    if |r.trace| <= 2 {
      assert forall e <- r.trace :: e == r.trace[0] || e == r.trace[|r.trace| - 1];
    }
  }

  /** What a step that consumes a link finds. */
  predicate Consumes(s: State, id: nat, answer: Answer, now: int)
    requires id in s.requests
  {
    var r := s.requests[id];
    && r.pc.Consuming? && r.hash.Some? && answer != Fault(false)
    && r.token.Some? && r.token.value in s.db.links && now < s.db.links[r.token.value].expires
    && s.db.links[r.token.value].operator in s.db.active
  }

  /**
   In any interleaving, a step of a request changes links and stored hashes exactly when its consumption
   reaches a link before its deadline whose operator is active: its own link goes, the hash of the operator of
   the link is set, and nothing else of them; it is journalled so.
   */
  lemma AStepTouchesItsOwnLinkOnly(c: Config, s: State, id: nat, answer: Answer, now: int, salt: nat)
    requires id in s.requests
    ensures var after, r := Apply(c, s, Act(id, answer, now, salt)), s.requests[id];
            if Consumes(s, id, answer, now) then
              var operator := s.db.links[r.token.value].operator;
              && after.db.links == s.db.links - {r.token.value}
              && after.db.passwords == s.db.passwords[operator := r.hash.value]
              && after.log == s.log + [ByRequest(id, r.token.value, Consumed(operator, r.hash.value, now))]
            else
              && after.db.links == s.db.links && after.db.passwords == s.db.passwords
              && (|after.log| > |s.log| ==> !after.log[|s.log|].event.Consumed?)
  {
    AMoveIsFramed(c, s.db, s.requests[id], answer, now, salt);
  }

  /**
   A token is read as valid exactly when its link is there, before its deadline, and its operator active; the
   request is refused as gone otherwise.
   */
  lemma ATokenIsReadAsValidIff(c: Config, db: Db, r: Request, now: int, salt: nat)
    requires r.pc.Reading? && r.token.Some?
    ensures var m, token := Advance(c, db, r, Answered, now, salt), r.token.value;
            && m.db == db
            && (m.event == Some(ReadValid(now)) <==>
                token in db.links && now < db.links[token].expires && db.links[token].operator in db.active)
            && m.request == r.(pc := if m.event == Some(ReadValid(now)) then Deciding else Done(Gone))
  {
  }

  /**
   Wherever a statement fails, its effect is there whole or not at all, as the answer that was lost would have
   it, and the request ends with the error; a hash that fails gives its slot back all the same.
   */
  lemma AFailedStatementEnds(c: Config, db: Db, r: Request, applied: bool, now: int, salt: nat)
    requires r.pc.Reading? || r.pc.Hashing? || r.pc.Consuming?
    ensures var failed := Advance(c, db, r, Fault(applied), now, salt);
            var answered := Advance(c, db, r, Answered, now, salt);
            && failed.request == r.(pc := Done(Failed))
            && failed.db == (if applied || r.pc.Hashing? then answered.db else db)
            && (r.pc.Consuming? && applied ==> failed.event == answered.event)
            && (!(r.pc.Consuming? && applied) ==> failed.event.None?)
  {
  }

  /** Who waits takes a slot if one is free, waits on if none is, and is turned away at its deadline without one. */
  lemma AWaitEnds(c: Config, db: Db, r: Request, now: int, salt: nat)
    requires r.pc.Waiting?
    ensures Advance(c, db, r, Cancelled, now, salt) == Move(db, r.(pc := Done(Overloaded)), None)
    ensures Advance(c, db, r, Answered, now, salt) ==
              if db.slots < 10 then Move(db.(slots := db.slots + 1), r.(pc := Hashing), None) else Move(db, r, None)
  {
  }

  /** The stored hash of an operator is the one the last consumption of its links set. */
  lemma StoredHashesComeFromLinks(c: Config, active: set<nat>, passwords: map<nat, Hash>, steps: seq<Step>)
    ensures var s := Run(c, Initial(active, passwords), steps);
            s.db.passwords == PasswordsAfter(passwords, s.log)
  {
    EveryRunKeepsTheInvariant(c, active, passwords, steps);
  }

  /**
   A hash is only computed by a request that had read its token as valid before, with a password
   that CheckPassword let through, and once per request.
   */
  lemma EveryHashFollowsAValidToken(c: Config, active: set<nat>, passwords: map<nat, Hash>, steps: seq<Step>, i: nat)
    requires var log := Run(c, Initial(active, passwords), steps).log;
             i < |log| && log[i].ByRequest? && log[i].event.Hashed?
    ensures var log := Run(c, Initial(active, passwords), steps).log;
            && log[i].event.hash.password in c.strong
            && (exists j :: 0 <= j < i && log[j].ByRequest? && log[j].id == log[i].id
                            && log[j].subject == log[i].subject && log[j].event.ReadValid?)
            && (forall k | 0 <= k < |log| && k != i && log[k].ByRequest? && log[k].id == log[i].id ::
                  !log[k].event.Hashed?)
  {
    EveryRunKeepsTheInvariant(c, active, passwords, steps);
    var s := Run(c, Initial(active, passwords), steps);
    var log, id := s.log, s.log[i].id;
    assert log[i] in log;
    LoggedIsProjected(log, i);
    WhereTheHashStands(c, s.requests[id], |Project(log[..i], id)|);
    ProjectedIsLogged(log[..i], id, 0);
    var j :| 0 <= j < i && log[..i][j].ByRequest? && log[..i][j].id == id
             && log[..i][j].event == Project(log[..i], id)[0];
    assert log[j] in log;
    forall k | 0 <= k < |log| && k != i && log[k].ByRequest? && log[k].id == id ensures !log[k].event.Hashed? {
      assert log[k] in log;
      LoggedIsProjected(log, k);
      if log[k].event.Hashed? {
        WhereTheHashStands(c, s.requests[id], |Project(log[..k], id)|);
        if k < i { PositionsAreDistinct(log, k, i); } else { PositionsAreDistinct(log, i, k); }
      }
    }
  }

  lemma WhereTheHashStands(c: Config, r: Request, p: nat)
    requires Fits(c, r) && p < |r.trace| && r.trace[p].Hashed?
    ensures p == 1 && r.trace[0].ReadValid?
    ensures r.trace[p].hash.password in c.strong
  {
  }

  /** The slots in use are the hashes in flight, here and elsewhere; there are never more than ten. */
  lemma SlotsAreNeverLost(c: Config, active: set<nat>, passwords: map<nat, Hash>, steps: seq<Step>)
    ensures var s := Run(c, Initial(active, passwords), steps);
            s.db.slots == |InFlight(s)| + s.db.others <= HASH_SLOTS
  {
    EveryRunKeepsTheInvariant(c, active, passwords, steps);
  }

  // ---------------------------------------------------------------- what happens to links

  /** A step outside the requests, in the columns of the rows. */
  lemma WhatElseHappens(c: Config, s: State, step: Step, token: nat, operator: nat)
    requires !step.Act?
    ensures var after := Apply(c, s, step);
            && after.db.passwords == s.db.passwords && after.log == s.log
            && (token in after.db.links <==>
                || (step.Deliver? && step.token == token && token !in s.issued)
                || (&& token in s.db.links
                    && !(step.Requeue? && step.operator == s.db.links[token].operator)
                    && !(step.Deliver? && step.token !in s.issued && step.operator == s.db.links[token].operator)))
            && (token in after.db.links ==>
                  after.db.links[token] ==
                  if step.Deliver? && step.token == token && token !in s.issued
                    then Link(step.operator, step.expires) else s.db.links[token])
            && (token in after.issued <==> token in s.issued || (step.Deliver? && step.token == token))
            && (operator in after.db.active <==>
                || (step.Enable? && step.operator == operator)
                || (operator in s.db.active && !(step.Disable? && step.operator == operator)))
            && (after.requests == if step.Arrive? && step.id !in s.requests
                  then s.requests[step.id := Arriving(step.presented, step.sized, step.password)] else s.requests)
  {
  }

  ghost predicate OneLinkEach(s: State) {
    forall a, b | a in s.db.links && b in s.db.links && s.db.links[a].operator == s.db.links[b].operator :: a == b
  }

  lemma AStepKeepsOneLinkEach(c: Config, s: State, step: Step)
    requires OneLinkEach(s)
    ensures OneLinkEach(Apply(c, s, step))
  {
    if step.Act? && step.id in s.requests {
      AStepTouchesItsOwnLinkOnly(c, s, step.id, step.answer, step.now, step.salt);
    }
  }

  /** In every run an operator has at most one link that stands: a new one voids the one before. */
  lemma {:induction false} AnOperatorHasOneLink(c: Config, active: set<nat>, passwords: map<nat, Hash>,
                                                 steps: seq<Step>)
    ensures OneLinkEach(Run(c, Initial(active, passwords), steps))
  {
    if steps != [] {
      AnOperatorHasOneLink(c, active, passwords, steps[..|steps| - 1]);
      AStepKeepsOneLinkEach(c, Run(c, Initial(active, passwords), steps[..|steps| - 1]), steps[|steps| - 1]);
    }
  }
}
