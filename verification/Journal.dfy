/**
 The journal of a protocol whose requests interleave: every effect in the order it took place. The
 history of one request and the history of one counter row are projections of it.
 */
module Journal {
  import opened Common
  import opened Counters

  /** An effect of a request on the rows of a subject, or the administrative reset of that subject. */
  datatype Entry<E> =
    | ByRequest(id: nat, subject: nat, event: E)
    | ByReset(subject: nat)

  /** The counter operation an effect performs, if it performs one. */
  type Counting<!E> = (nat, E) -> Option<Op>

  ghost predicate Faithful<E(!new)>(count: Counting<E>) {
    forall id, e :: count(id, e).Some? && !count(id, e).value.Clear? ==> count(id, e).value.id == id
  }

  /** The effects of one request, in journal order. */
  function Project<E>(log: seq<Entry<E>>, id: nat): (t: seq<E>) {
    if log == [] then [] else
      var last := log[|log| - 1];
      Project(log[..|log| - 1], id) + if last.ByRequest? && last.id == id then [last.event] else []
  }

  function EntryOp<E>(entry: Entry<E>, subject: nat, count: Counting<E>): Option<Op> {
    if entry.subject != subject then None
    else match entry
      case ByRequest(id, _, event) => count(id, event)
      case ByReset(_) => Some(Clear)
  }

  /** What happened to one subject's row, in journal order. */
  function OpsOf<E>(log: seq<Entry<E>>, subject: nat, count: Counting<E>): (ops: seq<Op>) {
    if log == [] then [] else
      var op := EntryOp(log[|log| - 1], subject, count);
      OpsOf(log[..|log| - 1], subject, count) + if op.Some? then [op.value] else []
  }

  lemma AppendProjects<E>(log: seq<Entry<E>>, entry: Entry<E>, id: nat)
    ensures Project(log + [entry], id) ==
              if entry.ByRequest? && entry.id == id then Project(log, id) + [entry.event] else Project(log, id)
  {
    assert (log + [entry])[..|log|] == log;
  }

  lemma AppendCounts<E>(log: seq<Entry<E>>, entry: Entry<E>, subject: nat, count: Counting<E>)
    ensures OpsOf(log + [entry], subject, count) ==
              if EntryOp(entry, subject, count).Some?
                  then OpsOf(log, subject, count) + [EntryOp(entry, subject, count).value]
              else OpsOf(log, subject, count)
  {
    assert (log + [entry])[..|log|] == log;
  }

  lemma {:induction false} ProjectedIsLogged<E>(log: seq<Entry<E>>, id: nat, k: nat)
    requires k < |Project(log, id)|
    ensures exists j :: 0 <= j < |log| && log[j].ByRequest? && log[j].id == id && log[j].event == Project(log, id)[k]
  {
    var before := log[..|log| - 1];
    if k < |Project(before, id)| {
      ProjectedIsLogged(before, id, k);
      var j :| 0 <= j < |before| && before[j].ByRequest? && before[j].id == id
               && before[j].event == Project(before, id)[k];
      assert log[j] == before[j];
    } else {
      assert log[|log| - 1].id == id;
    }
  }

  /** An entry of a request stands in its projection right after the projection of what precedes it. */
  lemma {:induction false} LoggedIsProjected<E>(log: seq<Entry<E>>, i: nat)
    requires i < |log| && log[i].ByRequest?
    ensures var id := log[i].id;
            && |Project(log[..i], id)| < |Project(log, id)|
            && Project(log[..i], id) == Project(log, id)[..|Project(log[..i], id)|]
            && Project(log, id)[|Project(log[..i], id)|] == log[i].event
  {
    var before := log[..|log| - 1];
    if i < |before| {
      LoggedIsProjected(before, i);
      assert before[..i] == log[..i];
    }
  }

  /** Two entries of one request have different positions in its history. */
  lemma PositionsAreDistinct<E>(log: seq<Entry<E>>, i: nat, k: nat)
    requires i < k < |log| && log[i].ByRequest? && log[k].ByRequest? && log[i].id == log[k].id
    ensures |Project(log[..i], log[i].id)| < |Project(log[..k], log[k].id)|
  {
    LoggedIsProjected(log[..k], i);
    assert log[..k][..i] == log[..i];
  }

  lemma {:induction false} NothingLoggedNothingProjected<E>(log: seq<Entry<E>>, id: nat)
    requires forall entry <- log | entry.ByRequest? :: entry.id != id
    ensures Project(log, id) == []
  {
    if log != [] {
      NothingLoggedNothingProjected(log[..|log| - 1], id);
    }
  }

  lemma {:induction false} OpsComeFromEntries<E>(log: seq<Entry<E>>, subject: nat, count: Counting<E>, k: nat)
    requires k < |OpsOf(log, subject, count)|
    ensures exists j :: 0 <= j < |log| && EntryOp(log[j], subject, count) == Some(OpsOf(log, subject, count)[k])
  {
    var before := log[..|log| - 1];
    if k < |OpsOf(before, subject, count)| {
      OpsComeFromEntries(before, subject, count, k);
      var j :| 0 <= j < |before| && EntryOp(before[j], subject, count) == Some(OpsOf(before, subject, count)[k]);
      assert log[j] == before[j];
    } else {
      assert EntryOp(log[|log| - 1], subject, count) == Some(OpsOf(log, subject, count)[k]);
    }
  }

  // ---------------------------------------------------------------- the counter rows

  /** Where a request has done nothing yet, its reservation is a new one. */
  lemma ReservationsStayDistinct<E(!new)>(log: seq<Entry<E>>, entry: Entry<E>, subject: nat, count: Counting<E>)
    requires Faithful(count)
    requires DistinctReservations(OpsOf(log, subject, count))
    requires entry.ByRequest? && count(entry.id, entry.event).Some? && count(entry.id, entry.event).value.Reserve? ==>
               Project(log, entry.id) == []
    ensures DistinctReservations(OpsOf(log + [entry], subject, count))
  {
    AppendCounts(log, entry, subject, count);
    var was, ops := OpsOf(log, subject, count), OpsOf(log + [entry], subject, count);
    forall i, j | 0 <= i < j < |ops| && ops[i].Reserve? && ops[j].Reserve? ensures ops[i].id != ops[j].id {
      assert ops[i] == was[i];
      if j == |was| {
        OpsComeFromEntries(log, subject, count, i);
        var k :| 0 <= k < |log| && EntryOp(log[k], subject, count) == Some(was[i]);
        if log[k].id == entry.id {
          LoggedIsProjected(log, k);
        }
      } else {
        assert ops[j] == was[j];
      }
    }
  }

  /** A row that replays its journal still does once an entry has moved it by its own operation. */
  lemma AnEntryMovesItsRow<E>(log: seq<Entry<E>>, entry: Entry<E>, subject: nat, count: Counting<E>, row: Row,
                              after: Row)
    requires row == Replay(Absent, OpsOf(log, subject, count))
    requires var op := EntryOp(entry, subject, count); after == if op.Some? then After(row, op.value) else row
    ensures after == Replay(Absent, OpsOf(log + [entry], subject, count))
  {
    AppendCounts(log, entry, subject, count);
    var op := EntryOp(entry, subject, count);
    if op.Some? {
      ReplayAppend(Absent, OpsOf(log, subject, count), op.value);
    }
  }

  // ---------------------------------------------------------------- stretches of the journal

  lemma {:induction false} OpsOfConcat<E>(a: seq<Entry<E>>, b: seq<Entry<E>>, subject: nat, count: Counting<E>)
    ensures OpsOf(a + b, subject, count) == OpsOf(a, subject, count) + OpsOf(b, subject, count)
  {
    if b == [] {
      assert a + b == a;
    } else {
      var before, last := b[..|b| - 1], b[|b| - 1];
      OpsOfConcat(a, before, subject, count);
      assert a + b == (a + before) + [last];
      AppendCounts(a + before, last, subject, count);
      AppendCounts(before, last, subject, count);
      assert before + [last] == b;
      Associative(OpsOf(a, subject, count), OpsOf(before, subject, count),
                  if EntryOp(last, subject, count).Some? then [EntryOp(last, subject, count).value] else []);
    }
  }

  lemma Associative(a: seq<Op>, b: seq<Op>, c: seq<Op>)
    ensures (a + b) + c == a + (b + c)
  {
  }
}
