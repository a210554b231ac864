/**
 The statements of the attempt counters in numbers: five refusals, a quarter of an hour. What the
 references of the two factors say of their rows is said in these terms.
 */
module CounterRows {
  import opened Counters

  /** Five were counted, the last one less than fifteen minutes ago. */
  predicate Shut(row: Row, now: int) {
    row.Row? && row.failures >= 5 && now < row.last + 900_000_000
  }

  /** An attempt is refused: five were counted, the last one less than fifteen minutes ago, on another stamp. */
  predicate Refuses(row: Row, now: int) {
    Shut(row, now) && now != row.last
  }

  /** The row once an attempt is let in: the first after a quarter of an hour, or one more up to the fifth. */
  function LetInTo(row: Row, now: int): Row {
    Row(if row.Absent? || row.last + 900_000_000 <= now then 1
        else if row.failures < 5 then row.failures + 1 else row.failures, now)
  }

  /** The row once a refusal of its source is counted: nothing freezes it. */
  function OneMoreOn(row: Row, now: int): Row {
    Row(if row.Absent? || row.last + 900_000_000 <= now then 1 else row.failures + 1, now)
  }

  /** One attempt less. */
  function OneLessOn(row: Row): Row {
    if row.Row? && row.failures > 0 then Row(row.failures - 1, row.last) else row
  }

  /**
   The reservation is refused exactly when the numbers say so: the row then stays and the delay told is what is
   left of the quarter of an hour. Let in, it leaves the row the numbers say, tells no delay, and tells the
   threshold exactly when it is reached.
   */
  lemma AReservationInNumbers(row: Row, now: int)
    ensures Admits(row, now) <==> !Refuses(row, now)
    ensures Refuses(row, now) ==>
              ReservedRow(row, now) == row && ReserveLock(row, now).remaining == row.last + 900_000_000 - now
    ensures !Refuses(row, now) ==>
              && ReservedRow(row, now) == LetInTo(row, now)
              && ReserveLock(row, now) ==
                 Lock(if LetInTo(row, now).failures >= 5 then LetInTo(row, now).failures else 0, 0)
  {
  }

  /** So are the lock of a source, its count and the give-back. */
  lemma TheOthersInNumbers(row: Row, now: int)
    ensures ReadLock(row, now).remaining == if Shut(row, now) then row.last + 900_000_000 - now else 0
    ensures CountedRow(row, now) == OneMoreOn(row, now)
    ensures ReleasedRow(row) == OneLessOn(row)
  {
  }
}
