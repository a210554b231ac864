/**
 The attempt counters of internal/store/counters.go: one row per subject, and the statements that
 reserve, give back, clear and count on it. Each SQL statement is one atomic step here. Time is in
 microseconds, the resolution of the database clock, and `now` is the start of the statement's own
 transaction: nothing orders the stamps of two statements that wait on the same row.
 */
module Counters {

  /** 15 minutes: both the duration of the lock and the window after which failures are forgotten. */
  const LOCK_WINDOW: int := 900_000_000

  const MAX_FAILURES: nat := 5

  datatype Row = Absent | Row(failures: nat, last: int)

  datatype Lock = Lock(failures: nat, remaining: int) {
    predicate Locked() { remaining > 0 }
  }

  const NO_LOCK := Lock(0, 0)

  predicate Expired(row: Row, now: int)
    requires row.Row?
  {
    row.last + LOCK_WINDOW <= now
  }

  /** The row refuses an attempt: at the threshold, and the window has not run out. */
  predicate Closed(row: Row, now: int) {
    row.Row? && !Expired(row, now) && row.failures >= MAX_FAILURES
  }

  /** The row left by the reservation's INSERT ... ON CONFLICT DO UPDATE. */
  function ReservedRow(row: Row, now: int): (after: Row)
    ensures after.Row?
  {
    if row.Absent? || Expired(row, now) then Row(1, now)
    else if row.failures >= MAX_FAILURES then row
    else Row(row.failures + 1, now)
  }

  /**
   The lock the reservation returns. The statement decides with `last_failure_at = now()`: an
   attempt counts as admitted when the row carries this statement's stamp afterwards.
   */
  function ReserveLock(row: Row, now: int): (lock: Lock) {
    var after := ReservedRow(row, now);
    if after.last != now then Lock(after.failures, after.last + LOCK_WINDOW - now)
    else if after.failures < MAX_FAILURES then NO_LOCK
    else Lock(after.failures, 0)
  }

  predicate Admits(row: Row, now: int) { !ReserveLock(row, now).Locked() }

  /** A closed row read by a statement that carries the very stamp it was closed with. */
  predicate Tie(row: Row, now: int) { Closed(row, now) && row.last == now }

  /** UPDATE ... SET failures = greatest(failures - 1, 0): the stamp stays, an absent row stays. */
  function ReleasedRow(row: Row): (after: Row) {
    if row.Row? && row.failures > 0 then row.(failures := row.failures - 1) else row
  }

  /** The unconditional count of a refused source, which no threshold freezes. */
  function CountedRow(row: Row, now: int): (after: Row)
    ensures after.Row?
  {
    if row.Absent? || Expired(row, now) then Row(1, now) else Row(row.failures + 1, now)
  }

  /** The read-only lock of a source. */
  function ReadLock(row: Row, now: int): (lock: Lock) {
    if Closed(row, now) then Lock(row.failures, row.last + LOCK_WINDOW - now) else NO_LOCK
  }

  // ---------------------------------------------------------------- one statement

  /**
   The reservation admits exactly when the row is not closed, or when it is closed and the two
   stamps coincide to the microsecond.
   */
  lemma AdmissionIsExact(row: Row, now: int)
    ensures Admits(row, now) <==> !Closed(row, now) || row.last == now
    ensures !Admits(row, now) ==>
              ReservedRow(row, now) == row && ReserveLock(row, now).remaining == row.last + LOCK_WINDOW - now
    ensures Admits(row, now) ==> ReservedRow(row, now).last == now
  {
  }

  /** The coincidence is possible: a sixth attempt stamped like the fifth passes a closed row. */
  lemma ATiedReservationPassesTheLock()
    ensures Closed(Row(5, 0), 0) && Admits(Row(5, 0), 0) && !Admits(Row(5, 0), 1)
  {
  }

  // ---------------------------------------------------------------- histories of one subject

  /** What happened to one subject's row, in the order the row lock serialised it. */
  datatype Op =
    | Reserve(id: nat, now: int)
    | Release(id: nat)
    | Clear

  function After(row: Row, op: Op): Row {
    match op
    case Reserve(_, now) => ReservedRow(row, now)
    case Release(_) => ReleasedRow(row)
    case Clear => Absent
  }

  function Replay(row: Row, ops: seq<Op>): Row {
    if ops == [] then row else After(Replay(row, ops[..|ops| - 1]), ops[|ops| - 1])
  }

  lemma ReplayAppend(row: Row, ops: seq<Op>, op: Op)
    ensures Replay(row, ops + [op]) == After(Replay(row, ops), op)
  {
    assert (ops + [op])[..|ops|] == ops;
  }

  // ---------------------------------------------------------------- the lock window

  /** Only reservations: nothing was cleared or given back in this stretch. */
  predicate OnlyReservations(ops: seq<Op>) {
    forall op <- ops :: op.Reserve?
  }

  /** The stamps of the attempts that a stretch of reservations admits, from a given row. */
  function AdmittedStamps(row: Row, ops: seq<Op>): (stamps: seq<int>)
    requires OnlyReservations(ops)
  {
    if ops == [] then [] else
      var before, op := ops[..|ops| - 1], ops[|ops| - 1];
      AdmittedStamps(row, before) + if Admits(Replay(row, before), op.now) then [op.now] else []
  }

  /** How many of the last stamps follow each other by less than the window. */
  function Streak(stamps: seq<int>): (length: nat)
    ensures length <= |stamps| && (stamps != [] ==> length > 0)
  {
    if stamps == [] then 0
    else if |stamps| > 1 && stamps[|stamps| - 1] - stamps[|stamps| - 2] < LOCK_WINDOW
    then 1 + Streak(stamps[..|stamps| - 1])
    else 1
  }

  predicate GapAt(stamps: seq<int>, j: nat)
    requires j + 1 < |stamps|
  {
    stamps[j + 1] - stamps[j] >= LOCK_WINDOW
  }

  lemma {:induction false} StreakCoversGaplessTail(stamps: seq<int>, k: nat)
    requires k < |stamps|
    requires forall j: nat | k <= j && j + 1 < |stamps| :: !GapAt(stamps, j)
    ensures Streak(stamps) >= |stamps| - k
  {
    if k + 1 < |stamps| {
      var shorter := stamps[..|stamps| - 1];
      assert !GapAt(stamps, |stamps| - 2);
      forall j: nat | k <= j && j + 1 < |shorter| ensures !GapAt(shorter, j) {
        assert !GapAt(stamps, j);
      }
      StreakCoversGaplessTail(shorter, k);
    }
  }

  /** The row remembers the last admitted stamp, and counts at least the current streak. */
  lemma {:induction false} RowTracksTheStreak(row: Row, ops: seq<Op>)
    requires OnlyReservations(ops)
    ensures var stamps, after := AdmittedStamps(row, ops), Replay(row, ops);
            stamps != [] ==>
              && after.Row?
              && after.last == stamps[|stamps| - 1]
              && (after.failures >= Streak(stamps) || after.failures >= MAX_FAILURES)
  {
    if ops != [] {
      var before, op := ops[..|ops| - 1], ops[|ops| - 1];
      RowTracksTheStreak(row, before);
      var was, now := AdmittedStamps(row, before), AdmittedStamps(row, ops);
      AdmissionIsExact(Replay(row, before), op.now);
      if now != was {
        assert now[..|was|] == was;
      }
    }
  }

  /**
   Six consecutive admitted attempts, whatever row they start from, whatever refused attempts stand
   between them and however their stamps are ordered: two consecutive ones are at least the window
   apart, or the last two carry the same stamp.
   */
  lemma {:induction false} SixAdmissionsSpanAWindow(row: Row, ops: seq<Op>, k: nat)
    requires OnlyReservations(ops)
    requires k + 5 < |AdmittedStamps(row, ops)|
    ensures var stamps := AdmittedStamps(row, ops);
            (exists j: nat :: k <= j < k + 5 && GapAt(stamps, j)) || stamps[k + 5] == stamps[k + 4]
  {
    var before, op := ops[..|ops| - 1], ops[|ops| - 1];
    var stamps, was := AdmittedStamps(row, ops), AdmittedStamps(row, before);
    if k + 5 < |was| {
      SixAdmissionsSpanAWindow(row, before, k);
      forall j: nat | k <= j < k + 5 && GapAt(was, j) ensures GapAt(stamps, j) {
      }
    } else {
      assert stamps == was + [op.now] && |was| == k + 5;
      RowTracksTheStreak(row, before);
      AdmissionIsExact(Replay(row, before), op.now);
      if forall j: nat | k <= j < k + 5 :: !GapAt(stamps, j) {
        forall j: nat | k <= j && j + 1 < |was| ensures !GapAt(was, j) {
          assert !GapAt(stamps, j);
        }
        StreakCoversGaplessTail(was, k);
        assert !GapAt(stamps, k + 4);
      }
    }
  }

  lemma {:induction false} AStreakHasNoGap(stamps: seq<int>, j: nat)
    requires |stamps| - Streak(stamps) <= j && j + 1 < |stamps|
    ensures !GapAt(stamps, j)
  {
    if j + 2 < |stamps| {
      AStreakHasNoGap(stamps[..|stamps| - 1], j);
      assert !GapAt(stamps[..|stamps| - 1], j);
    }
  }

  /** From an absent row the count is the streak, as far as the threshold. */
  lemma {:induction false} TheCountIsTheStreak(ops: seq<Op>)
    requires OnlyReservations(ops)
    ensures var stamps, row := AdmittedStamps(Absent, ops), Replay(Absent, ops);
            && (stamps == [] <==> row.Absent?)
            && (row.Row? ==> row.last == stamps[|stamps| - 1] &&
                             row.failures == if Streak(stamps) < MAX_FAILURES then Streak(stamps) else MAX_FAILURES)
  {
    if ops != [] {
      var before, op := ops[..|ops| - 1], ops[|ops| - 1];
      TheCountIsTheStreak(before);
      var was, now := AdmittedStamps(Absent, before), AdmittedStamps(Absent, ops);
      AdmissionIsExact(Replay(Absent, before), op.now);
      if now != was {
        assert now[..|was|] == was;
      }
    }
  }

  /** The last `n` stamps follow each other by less than the window. */
  predicate GaplessTail(stamps: seq<int>, n: nat) {
    |stamps| >= n && forall j: nat | |stamps| - n <= j && j + 1 < |stamps| :: !GapAt(stamps, j)
  }

  /**
   The converse: from an absent row, with nothing cleared, an admitted reservation is the sixth of a
   run without a gap exactly when it passed a closed row on an equal stamp.
   */
  lemma ASixthWithoutAGapIff(ops: seq<Op>, id: nat, now: int)
    requires OnlyReservations(ops) && Admits(Replay(Absent, ops), now)
    ensures OnlyReservations(ops + [Reserve(id, now)])
    ensures GaplessTail(AdmittedStamps(Absent, ops + [Reserve(id, now)]), MAX_FAILURES + 1) <==>
            Tie(Replay(Absent, ops), now)
  {
    var all := ops + [Reserve(id, now)];
    assert all[..|ops|] == ops;
    assert forall op <- all :: op in ops || op == Reserve(id, now);
    var was, stamps := AdmittedStamps(Absent, ops), AdmittedStamps(Absent, all);
    assert stamps == was + [now] && stamps[..|was|] == was;
    TheCountIsTheStreak(ops);
    AdmissionIsExact(Replay(Absent, ops), now);
    StreakIff(stamps, MAX_FAILURES + 1);
  }

  lemma StreakIff(stamps: seq<int>, n: nat)
    requires n > 0
    ensures GaplessTail(stamps, n) <==> Streak(stamps) >= n
  {
    if GaplessTail(stamps, n) {
      StreakCoversGaplessTail(stamps, |stamps| - n);
    }
    if Streak(stamps) >= n {
      forall j: nat | |stamps| - n <= j && j + 1 < |stamps| ensures !GapAt(stamps, j) {
        AStreakHasNoGap(stamps, j);
      }
    }
  }

  /**
   Attempts refused during a lock do not push its end away: after any number of them the row is
   unchanged, and the first attempt once the announced delay has run out is admitted and starts a
   new count.
   */
  lemma {:induction false} ALockOpensWhenItSaid(row: Row, ops: seq<Op>, first: int, later: int)
    requires OnlyReservations(ops)
    requires !Admits(row, first)
    requires forall op <- ops :: !Admits(row, op.now)
    requires later >= first + ReserveLock(row, first).remaining
    ensures Replay(row, ops) == row && AdmittedStamps(row, ops) == []
    ensures Admits(Replay(row, ops), later) && ReservedRow(Replay(row, ops), later) == Row(1, later)
  {
    AdmissionIsExact(row, first);
    AdmissionIsExact(row, later);
    if ops != [] {
      ALockOpensWhenItSaid(row, ops[..|ops| - 1], first, later);
      AdmissionIsExact(row, ops[|ops| - 1].now);
    }
  }

  // ---------------------------------------------------------------- the count of a source

  /** The row of a source after refusals counted at these stamps. */
  function CountedTo(stamps: seq<int>): (row: Row) {
    if stamps == [] then Absent else CountedRow(CountedTo(stamps[..|stamps| - 1]), stamps[|stamps| - 1])
  }

  lemma {:induction false} ASourceCountsItsStreak(stamps: seq<int>)
    requires stamps != []
    ensures CountedTo(stamps) == Row(Streak(stamps), stamps[|stamps| - 1])
  {
    if |stamps| > 1 {
      ASourceCountsItsStreak(stamps[..|stamps| - 1]);
    }
  }

  /**
   Whatever refusals were counted and in whatever order of their stamps, a source is locked at a moment
   exactly when the last five follow each other by less than fifteen minutes and the last is less than fifteen
   minutes old; it is told when that quarter of an hour ends. So a sixth refusal pushes the end away.
   */
  lemma ASourceIsLockedIff(stamps: seq<int>, now: int)
    ensures ReadLock(CountedTo(stamps), now).remaining > 0 <==>
            && |stamps| >= 5 && now < stamps[|stamps| - 1] + 900_000_000
            && forall j: nat | |stamps| - 5 <= j && j + 1 < |stamps| :: stamps[j + 1] - stamps[j] < 900_000_000
    ensures ReadLock(CountedTo(stamps), now).remaining > 0 ==>
              ReadLock(CountedTo(stamps), now).remaining == stamps[|stamps| - 1] + 900_000_000 - now
  {
    if stamps != [] {
      ASourceCountsItsStreak(stamps);
      StreakIff(stamps, 5);
      if GaplessTail(stamps, 5) {
        forall j: nat | |stamps| - 5 <= j && j + 1 < |stamps| ensures stamps[j + 1] - stamps[j] < 900_000_000 {
          assert !GapAt(stamps, j);
        }
      }
    }
  }

  // ---------------------------------------------------------------- the budget of an epoch

  /**
   The account of one epoch: everything since the last clear or the last reservation that found the
   row absent or forgotten. `granted` are its reservations, `kept` those not given back, `released`
   counts its give-backs, `stale` those among them that belong to an earlier epoch and `lost` those
   that found no count to take from; `ties` counts reservations that passed a closed row on an equal
   stamp.
   */
  datatype Epoch = Epoch(granted: set<nat>, kept: set<nat>, released: nat, stale: nat, lost: nat, ties: nat)

  const NEW_EPOCH := Epoch({}, {}, 0, 0, 0, 0)

  function CountOf(row: Row): nat { if row.Absent? then 0 else row.failures }

  function EpochAfter(row: Row, epoch: Epoch, op: Op): Epoch {
    match op
    case Reserve(id, now) =>
      if row.Absent? || Expired(row, now) then Epoch({id}, {id}, 0, 0, 0, 0)
      else if !Admits(row, now) then epoch
      else epoch.(granted := epoch.granted + {id}, kept := epoch.kept + {id},
                  ties := epoch.ties + if Tie(row, now) then 1 else 0)
    case Release(id) =>
      epoch.(released := epoch.released + 1, kept := epoch.kept - {id},
             stale := epoch.stale + (if id in epoch.kept then 0 else 1),
             lost := epoch.lost + (if CountOf(row) == 0 then 1 else 0))
    case Clear => NEW_EPOCH
  }

  function CurrentEpoch(ops: seq<Op>): Epoch {
    if ops == [] then NEW_EPOCH else
      var before := ops[..|ops| - 1];
      EpochAfter(Replay(Absent, before), CurrentEpoch(before), ops[|ops| - 1])
  }

  lemma CurrentEpochAppend(ops: seq<Op>, op: Op)
    ensures CurrentEpoch(ops + [op]) == EpochAfter(Replay(Absent, ops), CurrentEpoch(ops), op)
  {
    assert (ops + [op])[..|ops|] == ops;
  }

  /** No request reserves twice. */
  predicate DistinctReservations(ops: seq<Op>) {
    forall i, j | 0 <= i < j < |ops| && ops[i].Reserve? && ops[j].Reserve? :: ops[i].id != ops[j].id
  }

  /** The account against the row: the two equations are exact. */
  ghost predicate BalancedEpoch(row: Row, epoch: Epoch) {
    && epoch.kept <= epoch.granted
    && CountOf(row) <= MAX_FAILURES
    && CountOf(row) + epoch.ties == |epoch.granted| - epoch.released + epoch.lost
    && |epoch.kept| == |epoch.granted| - epoch.released + epoch.stale
    && (row.Absent? ==> epoch.granted == {} && epoch.ties == 0)
    && (epoch.stale == 0 && epoch.ties == 0 ==> epoch.lost == 0)
  }

  lemma {:induction false} WhatNeverReservedIsNotGranted(ops: seq<Op>, id: nat)
    requires forall op <- ops | op.Reserve? :: op.id != id
    ensures id !in CurrentEpoch(ops).granted && id !in CurrentEpoch(ops).kept
  {
    if ops != [] {
      WhatNeverReservedIsNotGranted(ops[..|ops| - 1], id);
    }
  }

  lemma BalanceKept(row: Row, epoch: Epoch, op: Op)
    requires BalancedEpoch(row, epoch)
    requires op.Reserve? ==> op.id !in epoch.granted
    ensures BalancedEpoch(After(row, op), EpochAfter(row, epoch, op))
  {
    match op
    case Reserve(id, now) =>
      AdmissionIsExact(row, now);
      assert id !in epoch.kept;
    case Release(id) =>
      if id in epoch.kept {
        assert |epoch.kept - {id}| == |epoch.kept| - 1;
      } else {
        assert epoch.kept - {id} == epoch.kept;
      }
    case Clear =>
  }

  lemma {:induction false} EveryEpochBalances(ops: seq<Op>)
    requires DistinctReservations(ops)
    ensures BalancedEpoch(Replay(Absent, ops), CurrentEpoch(ops))
  {
    if ops != [] {
      var before, op := ops[..|ops| - 1], ops[|ops| - 1];
      EveryEpochBalances(before);
      if op.Reserve? {
        WhatNeverReservedIsNotGranted(before, op.id);
      }
      BalanceKept(Replay(Absent, before), CurrentEpoch(before), op);
    }
  }

  /**
   Reservations granted minus reservations given back, since the last clear or forget, exceed the
   threshold exactly when the ties outnumber the give-backs that found no count and the room the row
   has left; those granted and not given back, exactly when the ties and the give-backs of older
   epochs do. With neither tie nor older give-back the row counts exactly what is kept.
   */
  lemma EpochBudget(ops: seq<Op>)
    requires DistinctReservations(ops)
    ensures var row, epoch := Replay(Absent, ops), CurrentEpoch(ops);
            var room := MAX_FAILURES - CountOf(row);
            && room >= 0
            && |epoch.granted| - epoch.released == CountOf(row) + epoch.ties - epoch.lost
            && |epoch.kept| == CountOf(row) + epoch.ties + epoch.stale - epoch.lost
            && (|epoch.granted| - epoch.released > MAX_FAILURES <==> epoch.ties > epoch.lost + room)
            && (|epoch.kept| > MAX_FAILURES <==> epoch.ties + epoch.stale > epoch.lost + room)
            && (epoch.ties == 0 && epoch.stale == 0 ==> CountOf(row) == |epoch.kept|)
  {
    EveryEpochBalances(ops);
  }

  lemma OneMore(ops: seq<Op>, op: Op)
    ensures Replay(Absent, ops + [op]) == After(Replay(Absent, ops), op)
    ensures CurrentEpoch(ops + [op]) == EpochAfter(Replay(Absent, ops), CurrentEpoch(ops), op)
  {
    ReplayAppend(Absent, ops, op);
    CurrentEpochAppend(ops, op);
  }

  // ---------------------------------------------------------------- six reservations of one window

  const FIRST_ID: nat := 12

  /** `n` reservations one microsecond apart. */
  function Burst(n: nat): (ops: seq<Op>)
    ensures |ops| == n
    ensures forall i | 0 <= i < n :: ops[i] == Reserve(FIRST_ID + i, 2 + i)
  {
    if n == 0 then [] else Burst(n - 1) + [Reserve(FIRST_ID + n - 1, 1 + n)]
  }

  /** Their numbers. */
  function BurstIds(n: nat): (ids: set<nat>)
    ensures |ids| == n
    ensures forall i: nat :: i in ids <==> FIRST_ID <= i < FIRST_ID + n
  {
    if n == 0 then {} else BurstIds(n - 1) + {FIRST_ID + n - 1}
  }

  /** A history that leaves no row and no account. */
  predicate Settled(ops: seq<Op>) { Replay(Absent, ops) == Absent && CurrentEpoch(ops) == NEW_EPOCH }

  lemma TheFirstOfABurst(before: seq<Op>)
    requires Settled(before)
    ensures Replay(Absent, before + Burst(1)) == Row(1, 2)
    ensures CurrentEpoch(before + Burst(1)) == Epoch(BurstIds(1), BurstIds(1), 0, 0, 0, 0)
  {
    OneMore(before, Reserve(FIRST_ID, 2));
    assert Burst(1) == [Reserve(FIRST_ID, 2)];
    assert BurstIds(1) == {FIRST_ID};
  }

  lemma OneMoreInTheWindow(n: nat)
    requires 1 <= n < MAX_FAILURES
    ensures var row, op := Row(n, 1 + n), Reserve(FIRST_ID + n, 2 + n);
            && After(row, op) == Row(n + 1, 2 + n)
            && EpochAfter(row, Epoch(BurstIds(n), BurstIds(n), 0, 0, 0, 0), op) ==
                 Epoch(BurstIds(n + 1), BurstIds(n + 1), 0, 0, 0, 0)
  {
  }

  lemma TheBurstGrows(before: seq<Op>, n: nat)
    requires n > 0
    ensures before + Burst(n) == (before + Burst(n - 1)) + [Reserve(FIRST_ID + n - 1, 1 + n)]
  {
  }

  /** The row and the account of a burst. */
  predicate Fills(ops: seq<Op>, n: nat) {
    Replay(Absent, ops) == Row(n, 1 + n) && CurrentEpoch(ops) == Epoch(BurstIds(n), BurstIds(n), 0, 0, 0, 0)
  }

  lemma OneMoreFills(ops: seq<Op>, n: nat)
    requires 1 <= n < MAX_FAILURES && Fills(ops, n)
    ensures Fills(ops + [Reserve(FIRST_ID + n, 2 + n)], n + 1)
  {
    OneMore(ops, Reserve(FIRST_ID + n, 2 + n));
    OneMoreInTheWindow(n);
  }

  lemma {:induction false} BurstFillsTheEpoch(before: seq<Op>, n: nat)
    requires Settled(before) && 1 <= n <= MAX_FAILURES
    ensures Fills(before + Burst(n), n)
  {
    if n == 1 {
      TheFirstOfABurst(before);
    } else {
      BurstFillsTheEpoch(before, n - 1);
      OneMoreFills(before + Burst(n - 1), n - 1);
      TheBurstGrows(before, n);
    }
  }

  lemma ABurstIsAdmitted(before: seq<Op>, n: nat)
    requires Settled(before) && n < MAX_FAILURES
    ensures Admits(Replay(Absent, before + Burst(n)), 2 + n)
  {
    if n == 0 {
      assert before + Burst(n) == before;
    } else {
      BurstFillsTheEpoch(before, n);
    }
  }

  /** A reservation of number 10, and a clear by the success of number 11, before it is judged. */
  const CLEARED_MEANWHILE: seq<Op> := [Reserve(10, 0), Reserve(11, 1), Clear]

  lemma TheClearSettles()
    ensures Settled(CLEARED_MEANWHILE)
  {
    OneMore([Reserve(10, 0), Reserve(11, 1)], Clear);
    assert CLEARED_MEANWHILE == [Reserve(10, 0), Reserve(11, 1)] + [Clear];
  }

  /** ... then five reservations, the late give-back of number 10, and one more reservation. */
  const LATE_RELEASE: seq<Op> := CLEARED_MEANWHILE + Burst(5) + [Release(10)] + [Reserve(17, 7)]

  lemma TheLateRelease()
    ensures Replay(Absent, CLEARED_MEANWHILE + Burst(5) + [Release(10)]) == Row(4, 6)
    ensures CurrentEpoch(CLEARED_MEANWHILE + Burst(5) + [Release(10)]) == Epoch(BurstIds(5), BurstIds(5), 1, 1, 0, 0)
  {
    TheClearSettles();
    BurstFillsTheEpoch(CLEARED_MEANWHILE, 5);
    OneMore(CLEARED_MEANWHILE + Burst(5), Release(10));
    assert BurstIds(5) - {10} == BurstIds(5);
  }

  /**
   The give-back of a reservation that a clear has forgotten since takes from the current count: within
   a few microseconds, without any tie, a sixth reservation of the same window is granted and kept.
   */
  lemma ALateReleaseGrantsASixth()
    ensures var epoch := CurrentEpoch(LATE_RELEASE);
            && epoch.kept == BurstIds(5) + {17} && |epoch.kept| == MAX_FAILURES + 1
            && epoch.stale == 1 && epoch.ties == 0
    ensures Admits(Replay(Absent, CLEARED_MEANWHILE + Burst(5) + [Release(10)]), 7)
  {
    TheLateRelease();
    OneMore(CLEARED_MEANWHILE + Burst(5) + [Release(10)], Reserve(17, 7));
    assert BurstIds(5) + {17} == BurstIds(6);
  }

  /** Five reservations and a sixth on the stamp of the fifth. */
  const TIED: seq<Op> := Burst(5) + [Reserve(17, 6)]

  /** The tie does the same without any give-back. */
  lemma ATieGrantsASixth()
    ensures var epoch := CurrentEpoch(TIED);
            && epoch.kept == BurstIds(5) + {17} && |epoch.kept| == MAX_FAILURES + 1
            && epoch.stale == 0 && epoch.ties == 1
    ensures Tie(Replay(Absent, Burst(5)), 6)
    ensures Admits(Replay(Absent, Burst(5)), 6)
  {
    assert Settled([]);
    BurstFillsTheEpoch([], 5);
    assert [] + Burst(5) == Burst(5);
    OneMore(Burst(5), Reserve(17, 6));
    assert BurstIds(5) + {17} == BurstIds(6);
  }
}
