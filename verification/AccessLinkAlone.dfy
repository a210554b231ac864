/**
 What one use of an access link answers and leaves when no statement fails and nobody else runs, from its
 arrival: for every presented value, password, stamp and row.
 */
module AccessLinkAlone {
  import opened Common
  import opened AccessLink

  /** The stamps of its two statements, and the salt it draws. */
  datatype Course = Course(read: int, consumed: int, salt: nat)

  /** Where a use stands, and the rows. */
  datatype End = End(pc: Pc, db: Db)

  function Turn(c: Config, db: Db, r: Request, course: Course): Move {
    Advance(c, db, r, Answered, if r.pc.Reading? then course.read else course.consumed, course.salt)
  }

  /** The next `n` statements. */
  function Play(c: Config, db: Db, r: Request, course: Course, n: nat): End
    decreases n
  {
    if n == 0 then End(r.pc, db) else var m := Turn(c, db, r, course); Play(c, m.db, m.request, course, n - 1)
  }

  lemma OneTurn(c: Config, db: Db, r: Request, course: Course, n: nat)
    requires n > 0
    ensures var m := Turn(c, db, r, course); Play(c, db, r, course, n) == Play(c, m.db, m.request, course, n - 1)
  {
  }

  /** A use that does not move any more. */
  lemma {:induction false} Stays(c: Config, db: Db, r: Request, course: Course, n: nat)
    requires Turn(c, db, r, course) == Move(db, r, None)
    ensures Play(c, db, r, course, n) == End(r.pc, db)
  {
    if n > 0 {
      Stays(c, db, r, course, n - 1);
    }
  }

  /** A turn that ends the use. */
  lemma TheLastTurn(c: Config, db: Db, r: Request, course: Course, n: nat)
    requires n > 0 && Turn(c, db, r, course).request.pc.Done?
    ensures var m := Turn(c, db, r, course); Play(c, db, r, course, n) == End(m.request.pc, m.db)
  {
    var m := Turn(c, db, r, course);
    Stays(c, m.db, m.request, course, n - 1);
  }

  // ---------------------------------------------------------------- the reference

  /** The link is there, before its deadline, and its operator is active. */
  predicate Stands(db: Db, token: nat, now: int) {
    token in db.links && now < db.links[token].expires && db.links[token].operator in db.active
  }

  /** The refusals in their order: the policy comes after the link, and before any hashing. */
  function Using(c: Config, db: Db, token: Option<nat>, sized: bool, password: nat, course: Course): End {
    if !sized then End(Done(BadRequest), db)
    else if token.None? || !Stands(db, token.value, course.read) then End(Done(Gone), db)
    else if password !in c.strong then End(Done(WeakPassword), db)
    else if db.slots >= 10 then End(Waiting, db)
    else if !Stands(db, token.value, course.consumed) then End(Done(Gone), db)
    else
      End(Done(Saved), db.(
        links := db.links - {token.value},
        passwords := db.passwords[db.links[token.value].operator := Hash(password, course.salt)]))
  }

  // ---------------------------------------------------------------- from the last statement to the first

  lemma FromTheSlot(c: Config, db: Db, r: Request, course: Course, n: nat)
    requires n >= 3 && r.pc.Waiting? && r.token.Some? && Stands(db, r.token.value, course.read)
    ensures Play(c, db, r, course, n) ==
              if db.slots >= 10 then End(Waiting, db)
              else if !Stands(db, r.token.value, course.consumed) then End(Done(Gone), db)
              else End(Done(Saved), db.(
                links := db.links - {r.token.value},
                passwords := db.passwords[db.links[r.token.value].operator := Hash(r.password, course.salt)]))
  {
    if db.slots >= 10 {
      Stays(c, db, r, course, n);
    } else {
      OneTurn(c, db, r, course, n);
      var taken := db.(slots := db.slots + 1);
      OneTurn(c, taken, r.(pc := Hashing), course, n - 1);
      var m := Turn(c, taken, r.(pc := Hashing), course);
      assert m.db == db;
      TheLastTurn(c, db, m.request, course, n - 2);
    }
  }

  /**
   For every presented value, password, stamp and content of the rows: six statements on, a use that arrives
   has the answer of the reference and leaves its rows; the slot it took is free again.
   */
  lemma AUseAlone(c: Config, db: Db, token: Option<nat>, sized: bool, password: nat, course: Course)
    ensures Play(c, db, Arriving(token, sized, password), course, 6) == Using(c, db, token, sized, password, course)
  {
    var r := Arriving(token, sized, password);
    if !sized || token.None? {
      TheLastTurn(c, db, r, course, 6);
    } else {
      OneTurn(c, db, r, course, 6);
      if !Stands(db, token.value, course.read) {
        TheLastTurn(c, db, r.(pc := Reading), course, 5);
      } else {
        OneTurn(c, db, r.(pc := Reading), course, 5);
        if password !in c.strong {
          TheLastTurn(c, db, r.(pc := Deciding), course, 4);
        } else {
          OneTurn(c, db, r.(pc := Deciding), course, 4);
          FromTheSlot(c, db, r.(pc := Waiting), course, 3);
        }
      }
    }
  }

  /**
   Undisturbed, with a slot free, a use sets a password exactly when the presented value has the form of a
   token, the link is there, in time when it is read and when it is consumed, its operator is active, and the
   password is sized and strong. The link is then gone and the password of its operator set; otherwise nothing
   has changed.
   */
  lemma APasswordIsSetIff(c: Config, db: Db, token: Option<nat>, sized: bool, password: nat, course: Course)
    requires db.slots < 10
    ensures var end := Play(c, db, Arriving(token, sized, password), course, 6);
            && (end.pc == Done(Saved) <==>
                && sized && token.Some? && password in c.strong
                && token.value in db.links && db.links[token.value].operator in db.active
                && course.read < db.links[token.value].expires && course.consumed < db.links[token.value].expires)
            && (end.pc == Done(Saved) ==>
                  && token.Some? && token.value in db.links
                  && end.db == db.(
                       links := db.links - {token.value},
                       passwords := db.passwords[db.links[token.value].operator := Hash(password, course.salt)]))
            && (end.pc != Done(Saved) ==> end.db == db)
  {
    AUseAlone(c, db, token, sized, password, course);
  }
}
