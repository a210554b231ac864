/**
 What a login answers and leaves when no statement fails and nobody else runs, from its arrival: for every
 address, source, password and row, in the columns of the rows.
 */
module LoginAlone {
  import opened Common
  import opened CounterRows
  import opened Counters
  import opened Login
  import opened LoginRuns

  /** The stamps of its statements, and the challenge it draws. */
  datatype Course = Course(asked: int, reserved: int, counted: int, challenge: nat)

  /** Where a login stands, and the rows. */
  datatype End = End(pc: Pc, db: Db)

  function Stamp(course: Course, pc: Pc): int {
    match pc
    case ReadSource => course.asked
    case Reserving => course.reserved
    case _ => course.counted
  }

  function Turn(c: Config, db: Db, r: Request, course: Course): Move {
    Advance(c, db, r, Answered, Stamp(course, r.pc), course.challenge)
  }

  /** The next `n` statements. */
  function Play(c: Config, db: Db, r: Request, course: Course, n: nat): End
    decreases n
  {
    if n == 0 then End(r.pc, db) else var m := Turn(c, db, r, course); Play(c, m.db, m.request, course, n - 1)
  }

  lemma OneTurn(c: Config, db: Db, r: Request, course: Course, n: nat)
    requires n > 0
    ensures var m := Turn(c, db, r, course); Play(c, db, r, course, n) == Play(c, m.db, m.request, course, n - 1)
  {
  }

  /** A login that does not move any more. */
  lemma {:induction false} Stays(c: Config, db: Db, r: Request, course: Course, n: nat)
    requires Turn(c, db, r, course) == Move(db, r, None)
    ensures Play(c, db, r, course, n) == End(r.pc, db)
  {
    if n > 0 {
      Stays(c, db, r, course, n - 1);
    }
  }

  /** A turn that ends the login. */
  lemma TheLastTurn(c: Config, db: Db, r: Request, course: Course, n: nat)
    requires n > 0 && Turn(c, db, r, course).request.pc.Done?
    ensures var m := Turn(c, db, r, course); Play(c, db, r, course, n) == End(m.request.pc, m.db)
  {
    var m := Turn(c, db, r, course);
    Stays(c, m.db, m.request, course, n - 1);
  }

  // ---------------------------------------------------------------- the reference

  /** Once the attempt is counted and a slot was free: the password. */
  function Judged(c: Config, db: Db, email: nat, source: nat, password: nat, course: Course): End
    requires email in db.emails && db.emails[email].Row?
  {
    if Holds(c, email, password) then
      var cleared := db.(emails := db.emails[email := Absent]);
      if course.challenge in db.challenges then End(Done(Failed), cleared)
      else
        var id := c.operators[email].id;
        End(Done(Challenged(id, course.challenge)),
            cleared.(challenges := db.challenges[course.challenge := id]))
    else
      End(Done(if db.emails[email].failures >= 5 then Locked(900_000_000) else Refused),
          db.(sources := db.sources[source := OneMoreOn(RowOf(db.sources, source), course.counted)]))
  }

  /** A whole login: the source's lock, the address's, a slot, the password. */
  function LoggedIn(c: Config, db: Db, email: nat, source: nat, password: nat, course: Course): End {
    var known, row := RowOf(db.sources, source), RowOf(db.emails, email);
    if Shut(known, course.asked) then End(Done(Locked(known.last + 900_000_000 - course.asked)), db)
    else if Refuses(row, course.reserved) then
      End(Done(Locked(row.last + 900_000_000 - course.reserved)), db)
    else
      var counted := db.(emails := db.emails[email := LetInTo(row, course.reserved)]);
      if db.slots >= 10 then End(Waiting, counted)
      else Judged(c, counted, email, source, password, course)
  }

  // ---------------------------------------------------------------- from the last statement to the first

  lemma FromTheClearing(c: Config, db: Db, r: Request, course: Course, n: nat)
    requires n >= 2 && r.pc.ClearEmail? && r.operator.Some?
    ensures var cleared := db.(emails := db.emails[r.email := Absent]);
            Play(c, db, r, course, n) ==
            if course.challenge in db.challenges then End(Done(Failed), cleared)
            else End(Done(Challenged(r.operator.value.id, course.challenge)),
                     cleared.(challenges := db.challenges[course.challenge := r.operator.value.id]))
  {
    OneTurn(c, db, r, course, n);
    var m := Turn(c, db, r, course);
    TheLastTurn(c, m.db, m.request, course, n - 1);
  }

  /** A login let in: what it holds is what the rows say. */
  predicate LetIn(db: Db, r: Request) {
    && r.email in db.emails && db.emails[r.email].Row?
    && (r.failures >= 5 <==> db.emails[r.email].failures >= 5)
  }

  lemma FromTheSlot(c: Config, db: Db, r: Request, course: Course, n: nat)
    requires n >= 4 && r.pc.Waiting? && LetIn(db, r)
    requires r.operator == if r.email in c.operators then Some(c.operators[r.email]) else None
    ensures Play(c, db, r, course, n) ==
              if db.slots >= 10 then End(Waiting, db)
              else Judged(c, db, r.email, r.source, r.password, course)
  {
    if db.slots >= 10 {
      Stays(c, db, r, course, n);
    } else {
      OneTurn(c, db, r, course, n);
      var taken := db.(slots := db.slots + 1);
      OneTurn(c, taken, r.(pc := Hashing), course, n - 1);
      var m := Turn(c, taken, r.(pc := Hashing), course);
      assert m.db == db;
      if Holds(c, r.email, r.password) {
        FromTheClearing(c, db, m.request, course, n - 2);
      } else {
        TheOthersInNumbers(RowOf(db.sources, r.source), course.counted);
        TheLastTurn(c, db, m.request, course, n - 2);
      }
    }
  }

  lemma FromTheReservation(c: Config, db: Db, r: Request, course: Course, n: nat)
    requires n >= 6 && r.pc.Reserving?
    ensures var row := RowOf(db.emails, r.email);
            var counted := db.(emails := db.emails[r.email := LetInTo(row, course.reserved)]);
            Play(c, db, r, course, n) ==
            if Refuses(row, course.reserved) then
              End(Done(Locked(row.last + 900_000_000 - course.reserved)), db)
            else if db.slots >= 10 then End(Waiting, counted)
            else Judged(c, counted, r.email, r.source, r.password, course)
  {
    var row := RowOf(db.emails, r.email);
    AReservationInNumbers(row, course.reserved);
    if Refuses(row, course.reserved) {
      TheLastTurn(c, db, r, course, n);
      assert db.emails[r.email := row] == db.emails;
    } else {
      OneTurn(c, db, r, course, n);
      var m := Turn(c, db, r, course);
      OneTurn(c, m.db, m.request, course, n - 1);
      FromTheSlot(c, m.db, Turn(c, m.db, m.request, course).request, course, n - 2);
    }
  }

  /**
   For every address, source, password, stamp and content of the rows: seven statements on, a login that
   arrives has the answer of the reference - the lock of the source, then the one of the address, then the
   password - and leaves its rows: the slot it took is free again.
   */
  lemma ALoginAlone(c: Config, db: Db, email: nat, source: nat, password: nat, course: Course)
    ensures Play(c, db, Arriving(email, source, password), course, 7) ==
            LoggedIn(c, db, email, source, password, course)
  {
    var r := Arriving(email, source, password);
    TheOthersInNumbers(RowOf(db.sources, source), course.asked);
    if Shut(RowOf(db.sources, source), course.asked) {
      TheLastTurn(c, db, r, course, 7);
    } else {
      OneTurn(c, db, r, course, 7);
      FromTheReservation(c, db, r.(pc := Reserving), course, 6);
    }
  }

  /**
   Undisturbed, with a slot free and a challenge never drawn before, a login is challenged exactly when neither
   its source nor its address is locked, somebody holds the address, that operator is active, their hash is
   readable, and the password presented is the one that produced it; and it is challenged as that operator.
   */
  lemma ALoginIsChallengedIff(c: Config, db: Db, email: nat, source: nat, password: nat, course: Course)
    requires db.slots < 10 && course.challenge !in db.challenges
    ensures var end := Play(c, db, Arriving(email, source, password), course, 7);
            && (end.pc.Done? && end.pc.verdict.Challenged? <==>
                && !Shut(RowOf(db.sources, source), course.asked)
                && (Shut(RowOf(db.emails, email), course.reserved) ==> course.reserved == db.emails[email].last)
                && email in c.operators && c.operators[email].active
                && c.operators[email].hash in c.secrets && c.secrets[c.operators[email].hash] == password)
            && (end.pc.Done? && end.pc.verdict.Challenged? ==>
                  && email in c.operators
                  && end.pc.verdict == Challenged(c.operators[email].id, course.challenge)
                  && end.db == db.(emails := db.emails[email := Absent],
                                   challenges := db.challenges[course.challenge := c.operators[email].id]))
  {
    ALoginAlone(c, db, email, source, password, course);
    var counted := db.emails[email := LetInTo(RowOf(db.emails, email), course.reserved)];
    assert counted[email := Absent] == db.emails[email := Absent];
  }
}
