/**
 One request of the second factor with nothing between its statements and none of them failing: how it is
 played on the machine, and the pieces of what it answers and leaves, in the columns of the rows.
 */
module FactorAlone {
  import opened Common
  import opened SecondFactor

  /**
   What the request meets on its way: the verdict of its comparison, the verdict of a passkey's ceremony, the
   stamps of its statements, and the secret and codes that an enrolment draws.
   */
  datatype Course = Course(
    verdict: Answer,
    accepted: bool,
    admitted: int,
    reserved: int,
    read: int,
    consumed: int,
    secret: nat,
    codes: set<nat>)

  /** Where a request stands, and the rows. */
  datatype End = End(pc: Pc, db: Db)

  function Stamp(c: Course, pc: Pc): int {
    match pc
    case Admit => c.admitted
    case Reserving => c.reserved
    case ReadChallenge => c.read
    case _ => c.consumed
  }

  function Turn(db: Db, r: Request, c: Course): Move {
    Advance(db, r, if r.pc.Compare? then c.verdict else Answered(c.accepted), Stamp(c, r.pc), c.secret, c.codes)
  }

  /** The next `n` statements of the request. */
  function Play(db: Db, r: Request, c: Course, n: nat): End
    decreases n
  {
    if n == 0 then End(r.pc, db) else var m := Turn(db, r, c); Play(m.db, m.request, c, n - 1)
  }

  lemma OneTurn(db: Db, r: Request, c: Course, n: nat)
    requires n > 0
    ensures var m := Turn(db, r, c); Play(db, r, c, n) == Play(m.db, m.request, c, n - 1)
  {
  }

  lemma {:induction false} Stays(db: Db, r: Request, c: Course, n: nat)
    requires r.pc.Done?
    ensures Play(db, r, c, n) == End(r.pc, db)
  {
    if n > 0 {
      Stays(db, r, c, n - 1);
    }
  }

  /** A turn that ends the request. */
  lemma TheLastTurn(db: Db, r: Request, c: Course, n: nat)
    requires n > 0 && Turn(db, r, c).request.pc.Done?
    ensures Play(db, r, c, n) == End(Turn(db, r, c).request.pc, Turn(db, r, c).db)
  {
    Stays(Turn(db, r, c).db, Turn(db, r, c).request, c, n - 1);
  }

  /** A comparison without a verdict is still to be made. */
  lemma {:induction false} NoVerdict(db: Db, r: Request, c: Course, n: nat)
    requires r.pc.Compare? && Turn(db, r, c) == Move(db, r, None)
    ensures Play(db, r, c, n) == End(Compare, db)
  {
    if n > 0 {
      NoVerdict(db, r, c, n - 1);
    }
  }

  // ---------------------------------------------------------------- the rows, column by column

  /** The session resolves to an operator who may act. */
  predicate Alive(db: Db, session: nat) {
    && session in db.sessions && db.sessions[session].alive
    && db.sessions[session].operator in db.accounts && db.accounts[db.sessions[session].operator].active
  }

  /** The comparison can find this proof: the account holds it under the means presented. */
  predicate Held(account: Account, means: Method, proof: Proof) {
    match means
    case Totp => proof.TotpStep? && account.secret == Some(proof.shown)
    case Recovery => proof.RecoveryCode? && proof.code in account.codes
    case Webauthn => proof.Assertion?
  }

  /** ... and it was not used before. */
  predicate Unused(account: Account, means: Method, proof: Proof, accepted: bool)
    requires Held(account, means, proof)
  {
    match means
    case Totp => account.lastStep.None? || account.lastStep.value < proof.step
    case Recovery => true
    case Webauthn => accepted
  }

  /** The account once it is used. */
  function Using(account: Account, means: Method, proof: Proof): Account
    requires Held(account, means, proof)
  {
    match means
    case Totp => account.(lastStep := Some(proof.step))
    case Recovery => account.(codes := account.codes - {proof.code})
    case Webauthn => account
  }
}
