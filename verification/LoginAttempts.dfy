/**
 How many logins an address lets in: over every run, six attempts let in one after the other span the
 lock window, but for a tie of two stamps - and exactly then they do not.
 */
module LoginAttempts {
  import opened Counters
  import opened Journal
  import opened Login
  import opened LoginRuns

  // ---------------------------------------------------------------- entries of the journal

  /** The entry clears the row of the address: a success, or a reset. */
  predicate Clears(entry: Entry<Event>, email: nat) {
    entry.subject == email && (entry.ByReset? || entry.event.Cleared?)
  }

  predicate NothingCleared(log: seq<Entry<Event>>, i: nat, j: nat, email: nat)
    requires i <= j <= |log|
  {
    forall k | i <= k < j :: !Clears(log[k], email)
  }

  /** The row of the address before an entry of the journal. */
  function RowBefore(log: seq<Entry<Event>>, k: nat, email: nat): Row
    requires k <= |log|
  {
    Replay(Absent, AttemptsOf(log[..k], email))
  }

  /** A login was let in: it was granted its reservation, or only missed the answer. */
  predicate LetsIn(log: seq<Entry<Event>>, k: nat, email: nat)
    requires k < |log|
  {
    && log[k].ByRequest? && log[k].subject == email
    && (log[k].event.Granted? || (log[k].event.Unanswered? && Admits(RowBefore(log, k, email), log[k].event.now)))
  }

  /** The stamps of the logins let in on an address by a stretch of the journal. */
  function LetInStamps(log: seq<Entry<Event>>, i: nat, j: nat, email: nat): (stamps: seq<int>)
    requires i <= j <= |log|
    decreases j
  {
    if i == j then [] else
      LetInStamps(log, i, j - 1, email) + if LetsIn(log, j - 1, email) then [log[j - 1].event.now] else []
  }

  // ---------------------------------------------------------------- what the counter admitted

  lemma {:induction false} AttemptsAreReplayed(log: seq<Entry<Event>>, i: nat, j: nat, email: nat)
    requires i <= j <= |log|
    ensures AttemptsOf(log[..j], email) == AttemptsOf(log[..i], email) + AttemptsOf(log[i..j], email)
  {
    assert log[..j] == log[..i] + log[i..j];
    OpsOfConcat(log[..i], log[i..j], email, CounterOp);
  }

  lemma {:induction false} ReplayContinues(row: Row, a: seq<Op>, b: seq<Op>)
    ensures Replay(row, a + b) == Replay(Replay(row, a), b)
  {
    if b == [] {
      assert a + b == a;
    } else {
      ReplayContinues(row, a, b[..|b| - 1]);
      assert a + b == (a + b[..|b| - 1]) + [b[|b| - 1]];
      ReplayAppend(row, a + b[..|b| - 1], b[|b| - 1]);
    }
  }

  lemma OneMoreStamp(row: Row, ops: seq<Op>, id: nat, now: int)
    requires OnlyReservations(ops) && OnlyReservations(ops + [Reserve(id, now)])
    ensures AdmittedStamps(row, ops + [Reserve(id, now)]) ==
            AdmittedStamps(row, ops) + if Admits(Replay(row, ops), now) then [now] else []
  {
    assert (ops + [Reserve(id, now)])[..|ops|] == ops;
  }

  predicate Reserves(entry: Entry<Event>, email: nat) {
    entry.ByRequest? && entry.subject == email
    && (entry.event.Granted? || entry.event.Denied? || entry.event.Unanswered?)
  }

  /** An entry that clears nothing is one more reservation of its address, or leaves the row alone. */
  lemma OneMoreEntry(log: seq<Entry<Event>>, i: nat, j: nat, email: nat)
    requires i <= j < |log| && !Clears(log[j], email) && OnlyReservations(AttemptsOf(log[i..j], email))
    ensures var was, now := AttemptsOf(log[i..j], email), AttemptsOf(log[i..j + 1], email);
            && OnlyReservations(now)
            && (if Reserves(log[j], email)
                then now == was + [Reserve(log[j].id, log[j].event.now)] else now == was)
  {
    assert log[i..j + 1] == log[i..j] + [log[j]];
    AppendCounts(log[i..j], log[j], email, CounterOp);
    forall op <- AttemptsOf(log[i..j + 1], email) ensures op.Reserve? {
    }
  }

  lemma TheRowGoesOn(log: seq<Entry<Event>>, i: nat, j: nat, email: nat)
    requires i <= j <= |log|
    ensures RowBefore(log, j, email) == Replay(RowBefore(log, i, email), AttemptsOf(log[i..j], email))
  {
    AttemptsAreReplayed(log, i, j, email);
    ReplayContinues(Absent, AttemptsOf(log[..i], email), AttemptsOf(log[i..j], email));
  }

  /** What a reservation was told is what the row before it says. */
  predicate ToldTheTruth(log: seq<Entry<Event>>, k: nat, email: nat)
    requires k < |log|
  {
    Reserves(log[k], email) ==> (LetsIn(log, k, email) <==> Admits(RowBefore(log, k, email), log[k].event.now))
  }

  lemma EveryoneIsToldTheTruth(s: State, k: nat, email: nat)
    requires GrantsAreAdmissions(s) && k < |s.log|
    ensures ToldTheTruth(s.log, k, email)
  {
  }

  lemma OneMoreAttempt(log: seq<Entry<Event>>, i: nat, j: nat, email: nat)
    requires i <= j < |log| && Reserves(log[j], email) && OnlyReservations(AttemptsOf(log[i..j], email))
    requires ToldTheTruth(log, j, email)
    ensures var ops := AttemptsOf(log[i..j + 1], email);
            && OnlyReservations(ops)
            && AdmittedStamps(RowBefore(log, i, email), ops) ==
                 AdmittedStamps(RowBefore(log, i, email), AttemptsOf(log[i..j], email))
                 + if LetsIn(log, j, email) then [log[j].event.now] else []
  {
    OneMoreEntry(log, i, j, email);
    TheRowGoesOn(log, i, j, email);
    OneMoreStamp(RowBefore(log, i, email), AttemptsOf(log[i..j], email), log[j].id, log[j].event.now);
  }

  /** The logins let in by a stretch are the reservations admitted from the row before it. */
  ghost predicate LetInAreAdmitted(log: seq<Entry<Event>>, i: nat, j: nat, email: nat)
    requires i <= j <= |log|
  {
    var ops := AttemptsOf(log[i..j], email);
    OnlyReservations(ops) && LetInStamps(log, i, j, email) == AdmittedStamps(RowBefore(log, i, email), ops)
  }

  lemma NobodyIsLetInYet(log: seq<Entry<Event>>, i: nat, email: nat)
    requires i <= |log|
    ensures LetInAreAdmitted(log, i, i, email)
  {
    assert log[i..i] == [];
    assert AttemptsOf([], email) == [];
  }

  predicate Plain(log: seq<Entry<Event>>, k: nat, email: nat)
    requires k < |log|
  {
    !Clears(log[k], email) && ToldTheTruth(log, k, email)
  }

  lemma OneMoreIsAdmitted(log: seq<Entry<Event>>, i: nat, j: nat, email: nat)
    requires i <= j < |log| && LetInAreAdmitted(log, i, j, email)
    requires Plain(log, j, email)
    ensures LetInAreAdmitted(log, i, j + 1, email)
  {
    if Reserves(log[j], email) {
      OneMoreAttempt(log, i, j, email);
    } else {
      OneMoreEntry(log, i, j, email);
    }
  }

  /** Induction over the entries of a stretch. */
  lemma {:induction false} UpTo(i: nat, j: nat, p: nat -> bool)
    requires i <= j && p(i) && forall k: nat | i <= k < j && p(k) :: p(k + 1)
    ensures p(j)
  {
    if i < j {
      UpTo(i, j - 1, p);
      assert p(j - 1 + 1);
    }
  }

  lemma StampsAreAdmittedAttempts(log: seq<Entry<Event>>, i: nat, j: nat, email: nat)
    requires i <= j <= |log|
    requires forall k: nat | i <= k < j :: Plain(log, k, email)
    ensures LetInAreAdmitted(log, i, j, email)
  {
    var p := (k: nat) => i <= k <= |log| && LetInAreAdmitted(log, i, k, email);
    NobodyIsLetInYet(log, i, email);
    forall k: nat | i <= k < j && p(k) ensures p(k + 1) {
      assert Plain(log, k, email);
      OneMoreIsAdmitted(log, i, k, email);
    }
    UpTo(i, j, p);
  }

  /**
   In every run the logins let in are exactly the reservations the counter admitted, whatever else
   the journal holds between them.
   */
  lemma TheLoginsLetInAreTheAdmittedOnes(c: Config, steps: seq<Step>, i: nat, j: nat, email: nat)
    requires i <= j <= |Run(c, steps).log| && NothingCleared(Run(c, steps).log, i, j, email)
    ensures LetInAreAdmitted(Run(c, steps).log, i, j, email)
  {
    EveryRunKeepsTheInvariant(c, steps);
    var s := Run(c, steps);
    forall k: nat | i <= k < j ensures Plain(s.log, k, email) {
      EveryoneIsToldTheTruth(s, k, email);
    }
    StampsAreAdmittedAttempts(s.log, i, j, email);
  }

  // ---------------------------------------------------------------- six logins of one address

  /**
   In every interleaving of any number of logins, over any stretch of the journal in which nothing
   cleared the address: among six consecutive logins let in, two consecutive ones are at least the
   lock window apart, unless the last two carry the same stamp.
   */
  lemma SixLoginsSpanAWindow(c: Config, steps: seq<Step>, i: nat, j: nat, email: nat, k: nat)
    requires i <= j <= |Run(c, steps).log| && NothingCleared(Run(c, steps).log, i, j, email)
    requires k + 5 < |LetInStamps(Run(c, steps).log, i, j, email)|
    ensures var stamps := LetInStamps(Run(c, steps).log, i, j, email);
            (exists g: nat :: k <= g < k + 5 && GapAt(stamps, g)) || stamps[k + 5] == stamps[k + 4]
  {
    var log := Run(c, steps).log;
    TheLoginsLetInAreTheAdmittedOnes(c, steps, i, j, email);
    SixAdmissionsSpanAWindow(RowBefore(log, i, email), AttemptsOf(log[i..j], email), k);
  }

  lemma NothingIsLeftOfTheRow(log: seq<Entry<Event>>, i: nat, email: nat)
    requires i <= |log| && (i == 0 || Clears(log[i - 1], email))
    ensures RowBefore(log, i, email) == Absent
  {
    if i == 0 {
      assert log[..0] == [];
    } else {
      assert log[..i] == log[..i - 1] + [log[i - 1]];
      AppendCounts(log[..i - 1], log[i - 1], email, CounterOp);
      ReplayAppend(Absent, AttemptsOf(log[..i - 1], email), Clear);
    }
  }

  /**
   Exactly when it fails: since the beginning, or since the address was last cleared, a login is let
   in as the sixth of a run without a gap exactly when its stamp equals the one that closed the row.
   */
  lemma ASixthIsLetInIff(c: Config, steps: seq<Step>, i: nat, k: nat, email: nat)
    requires var log := Run(c, steps).log;
             && i <= k < |log| && (i == 0 || Clears(log[i - 1], email)) && NothingCleared(log, i, k, email)
             && LetsIn(log, k, email)
    ensures var log := Run(c, steps).log;
            GaplessTail(LetInStamps(log, i, k + 1, email), MAX_FAILURES + 1) <==>
            Tie(RowBefore(log, k, email), log[k].event.now)
  {
    var log := Run(c, steps).log;
    NothingIsLeftOfTheRow(log, i, email);
    TheLoginsLetInAreTheAdmittedOnes(c, steps, i, k, email);
    TheLoginsLetInAreTheAdmittedOnes(c, steps, i, k + 1, email);
    ALoginIsToldTheTruth(c, steps, k, email);
    TheSixthOfAStretch(log, i, k, email);
  }

  lemma ALoginIsToldTheTruth(c: Config, steps: seq<Step>, k: nat, email: nat)
    requires k < |Run(c, steps).log|
    ensures ToldTheTruth(Run(c, steps).log, k, email)
  {
    EveryRunKeepsTheInvariant(c, steps);
    EveryoneIsToldTheTruth(Run(c, steps), k, email);
  }

  lemma TheSixthOfAStretch(log: seq<Entry<Event>>, i: nat, k: nat, email: nat)
    requires i <= k < |log| && RowBefore(log, i, email) == Absent
    requires LetInAreAdmitted(log, i, k, email) && LetInAreAdmitted(log, i, k + 1, email)
    requires LetsIn(log, k, email) && ToldTheTruth(log, k, email)
    ensures GaplessTail(LetInStamps(log, i, k + 1, email), MAX_FAILURES + 1) <==>
            Tie(RowBefore(log, k, email), log[k].event.now)
  {
    OneMoreEntry(log, i, k, email);
    TheRowGoesOn(log, i, k, email);
    ASixthWithoutAGapIff(AttemptsOf(log[i..k], email), log[k].id, log[k].event.now);
  }

  // ---------------------------------------------------------------- the tie is reachable

  lemma OneMoreStep(c: Config, steps: seq<Step>, step: Step)
    ensures Run(c, steps + [step]) == Apply(c, Run(c, steps), step)
  {
    assert (steps + [step])[..|steps|] == steps;
  }

  /** These logins were let in on address 1, and nothing else happened. */
  ghost predicate OnlyGrants(s: State, ops: seq<Op>) {
    && s.db.sources == map[] && AttemptsOf(s.log, 1) == ops
    && (forall entry <- s.log :: entry.ByRequest? && entry.subject == 1 && entry.event.Granted?)
  }

  /** A login arrives and finds its source free. */
  lemma TheSourceIsFree(c: Config, s: State, id: nat)
    requires s.db.sources == map[] && id !in s.requests
    ensures Apply(c, Apply(c, s, Arrive(id, 1, 0, 0)), Act(id, Answered, 0, 0)) ==
            s.(requests := s.requests[id := Arriving(1, 0, 0).(pc := Reserving)])
  {
  }

  lemma ALoginArrives(c: Config, steps: seq<Step>, id: nat) returns (more: seq<Step>)
    requires Run(c, steps).db.sources == map[] && id !in Run(c, steps).requests
    ensures var s, after := Run(c, steps), Run(c, more);
            after == s.(requests := s.requests[id := Arriving(1, 0, 0).(pc := Reserving)])
  {
    var first, second := Arrive(id, 1, 0, 0), Act(id, Answered, 0, 0);
    TheSourceIsFree(c, Run(c, steps), id);
    OneMoreStep(c, steps, first);
    OneMoreStep(c, steps + [first], second);
    more := (steps + [first]) + [second];
  }

  lemma TheRowReplays(c: Config, steps: seq<Step>, email: nat)
    ensures RowOf(Run(c, steps).db.emails, email) == Replay(Absent, AttemptsOf(Run(c, steps).log, email))
  {
    EveryRunKeepsTheInvariant(c, steps);
  }

  /** ... and has its reservation. */
  lemma ALoginIsLetIn(c: Config, steps: seq<Step>, ops: seq<Op>, id: nat, now: int) returns (more: seq<Step>)
    requires OnlyGrants(Run(c, steps), ops) && id !in Run(c, steps).requests && Admits(Replay(Absent, ops), now)
    ensures OnlyGrants(Run(c, more), ops + [Reserve(id, now)])
    ensures Run(c, more).requests.Keys == Run(c, steps).requests.Keys + {id}
    ensures Run(c, more).log == Run(c, steps).log + [ByRequest(id, 1, Granted(now))]
  {
    var s := Run(c, steps);
    TheRowReplays(c, steps, 1);
    more := ALoginArrives(c, steps, id);
    OneMoreStep(c, more, Act(id, Answered, now, 0));
    more := more + [Act(id, Answered, now, 0)];
    AppendCounts(s.log, ByRequest(id, 1, Granted(now)), 1, CounterOp);
  }

  lemma {:induction false} ABurstOfLogins(c: Config, n: nat) returns (steps: seq<Step>)
    requires n <= MAX_FAILURES
    ensures OnlyGrants(Run(c, steps), Burst(n)) && |Run(c, steps).log| == n
    ensures forall id <- Run(c, steps).requests :: id < FIRST_ID + n
  {
    if n == 0 {
      steps := [];
    } else {
      var before := ABurstOfLogins(c, n - 1);
      ABurstIsAdmitted([], n - 1);
      assert [] + Burst(n - 1) == Burst(n - 1);
      steps := ALoginIsLetIn(c, before, Burst(n - 1), FIRST_ID + n - 1, 1 + n);
    }
  }

  lemma OnlyGrantsLetIn(s: State, ops: seq<Op>)
    requires OnlyGrants(s, ops)
    ensures NothingCleared(s.log, 0, |s.log|, 1) && forall k: nat | k < |s.log| :: LetsIn(s.log, k, 1)
  {
    forall k: nat | k < |s.log| ensures LetsIn(s.log, k, 1) && !Clears(s.log[k], 1) {
      assert s.log[k] in s.log;
    }
  }

  /**
   Whoever the operators are: six logins on one address are let in within a few microseconds, the
   sixth on the stamp of the fifth.
   */
  lemma ATieLetsASixthIn(c: Config) returns (steps: seq<Step>)
    ensures var log := Run(c, steps).log;
            && |log| == MAX_FAILURES + 1 && (forall k: nat | k < |log| :: LetsIn(log, k, 1))
            && AttemptsOf(log, 1) == TIED && GaplessTail(LetInStamps(log, 0, |log|, 1), MAX_FAILURES + 1)
  {
    var before := ABurstOfLogins(c, 5);
    ATieGrantsASixth();
    steps := ALoginIsLetIn(c, before, Burst(5), 17, 6);
    OnlyGrantsLetIn(Run(c, steps), TIED);
    assert Run(c, steps).log[..5] == Run(c, before).log;
    ASixthIsLetInIff(c, steps, 0, 5, 1);
  }
}
