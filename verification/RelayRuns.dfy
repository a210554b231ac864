/**
 Any number of relayed actions interleaving over one journal, any write failing with or without its
 row, and a crash of any action between or within two steps.
 */
module RelayRuns {
  import opened Common
  import opened Journal
  import opened Relay

  datatype Pc =
    | Intending
    | Calling
    | Concluding
    | Done(status: nat, error: Option<Error>)
    | Crashed

  datatype Event =
    | Attempted(row: Row)     // the row of the intent is durable
    | Called                  // the call left for the gateway
    | Concluded(row: Row)     // the row of the outcome is durable

  datatype Action = Action(op: Operation, reply: Option<Reply>, pc: Pc, trace: seq<Event>)

  datatype State = State(actions: map<nat, Action>, log: seq<Entry<Event>>)

  datatype Step =
    | Arrive(id: nat, op: Operation)
    | Act(id: nat, write: Write, refused: Error, reply: Reply)
    | Crash(id: nat, effective: bool, reply: Reply)   // the step under way took effect, or did not

  datatype Move = Move(action: Action, event: Option<Event>)

  /** The effect of the step an action is about to take. */
  function EventOf(a: Action, reply: Reply): Option<Event> {
    match a.pc
    case Intending => Some(Attempted(IntentRow(a.op)))
    case Calling => Some(Called)
    case Concluding => if a.reply.Some? then Some(Concluded(OutcomeRow(a.op, a.reply.value))) else None
    case _ => None
  }

  function Advance(a: Action, write: Write, refused: Error, reply: Reply): Move {
    match a.pc
    case Intending =>
      Move(a.(pc := if write.Acknowledged? then Calling else Done(0, Some(NotTraced(refused)))),
           if Stores(write) then EventOf(a, reply) else None)
    case Calling => Move(a.(pc := Concluding, reply := Some(reply)), EventOf(a, reply))
    case Concluding =>
      if a.reply.None? then Move(a, None)
      else Move(a.(pc := Done(a.reply.value.status, a.reply.value.error)),
                if Stores(write) then EventOf(a, reply) else None)
    case _ => Move(a, None)
  }

  function Stopped(a: Action, effective: bool, reply: Reply): Move {
    if a.pc.Done? || a.pc.Crashed? then Move(a, None)
    else Move(a.(pc := Crashed, reply := if a.pc.Calling? then Some(reply) else a.reply),
              if effective then EventOf(a, reply) else None)
  }

  /** The action after a move, with the effect recorded. */
  function Moved(a: Action, m: Move): Action {
    if m.event.None? then m.action else m.action.(trace := a.trace + [m.event.value])
  }

  function Recorded(s: State, id: nat, m: Move): State
    requires id in s.actions
  {
    State(s.actions[id := Moved(s.actions[id], m)],
          if m.event.None? then s.log else s.log + [ByRequest(id, 0, m.event.value)])
  }

  function Apply(s: State, step: Step): State {
    match step
    case Arrive(id, op) =>
      if id in s.actions then s else s.(actions := s.actions[id := Action(op, None, Intending, [])])
    case Act(id, write, refused, reply) =>
      if id in s.actions then Recorded(s, id, Advance(s.actions[id], write, refused, reply)) else s
    case Crash(id, effective, reply) =>
      if id in s.actions then Recorded(s, id, Stopped(s.actions[id], effective, reply)) else s
  }

  const INITIAL := State(map[], [])

  function Run(steps: seq<Step>): State {
    if steps == [] then INITIAL else Apply(Run(steps[..|steps| - 1]), steps[|steps| - 1])
  }

  // ---------------------------------------------------------------- the invariant

  /** The first `n` effects of a whole action. */
  predicate Prefix(a: Action, n: nat) {
    && |a.trace| == n <= 3
    && (n >= 1 ==> a.trace[0] == Attempted(IntentRow(a.op)))
    && (n >= 2 ==> a.trace[1].Called? && a.reply.Some?)
    && (n >= 3 ==> a.trace[2] == Concluded(OutcomeRow(a.op, a.reply.value)))
  }

  predicate Fits(a: Action) {
    match a.pc
    case Intending => Prefix(a, 0)
    case Calling => Prefix(a, 1)
    case Concluding => Prefix(a, 2)
    case Done(status, error) =>
      || ((Prefix(a, 0) || Prefix(a, 1)) && status == 0 && error.Some? && error.value.Both?
          && error.value.first.IntentNotTraced?)
      || ((Prefix(a, 2) || Prefix(a, 3)) && status == a.reply.value.status && error == a.reply.value.error)
    case Crashed => Prefix(a, 0) || Prefix(a, 1) || Prefix(a, 2) || Prefix(a, 3)
  }

  ghost predicate Invariant(s: State) {
    && (forall id <- s.actions :: Fits(s.actions[id]) && Project(s.log, id) == s.actions[id].trace)
    && (forall entry <- s.log :: entry.ByRequest? && entry.id in s.actions)
  }

  lemma AMoveFits(a: Action, write: Write, refused: Error, reply: Reply)
    requires Fits(a)
    ensures Fits(Moved(a, Advance(a, write, refused, reply)))
  {
  }

  lemma ACrashFits(a: Action, effective: bool, reply: Reply)
    requires Fits(a)
    ensures Fits(Moved(a, Stopped(a, effective, reply)))
  {
  }

  lemma AMoveIsRecorded(s: State, id: nat, m: Move)
    requires Invariant(s) && id in s.actions && m.action.trace == s.actions[id].trace
    requires Fits(if m.event.None? then m.action else m.action.(trace := s.actions[id].trace + [m.event.value]))
    ensures Invariant(Recorded(s, id, m))
  {
    var after := Recorded(s, id, m);
    if m.event.Some? {
      forall other <- after.actions ensures Project(after.log, other) == after.actions[other].trace {
        AppendProjects(s.log, ByRequest(id, 0, m.event.value), other);
      }
    }
  }

  lemma AStepKeepsTheInvariant(s: State, step: Step)
    requires Invariant(s)
    ensures Invariant(Apply(s, step))
  {
    match step
    case Arrive(id, op) =>
      if id !in s.actions {
        NothingLoggedNothingProjected(s.log, id);
      }
    case Act(id, write, refused, reply) =>
      if id in s.actions {
        AMoveFits(s.actions[id], write, refused, reply);
        AMoveIsRecorded(s, id, Advance(s.actions[id], write, refused, reply));
      }
    case Crash(id, effective, reply) =>
      if id in s.actions {
        ACrashFits(s.actions[id], effective, reply);
        AMoveIsRecorded(s, id, Stopped(s.actions[id], effective, reply));
      }
  }

  lemma {:induction false} EveryRunKeepsTheInvariant(steps: seq<Step>)
    ensures Invariant(Run(steps))
  {
    if steps != [] {
      EveryRunKeepsTheInvariant(steps[..|steps| - 1]);
      AStepKeepsTheInvariant(Run(steps[..|steps| - 1]), steps[|steps| - 1]);
    }
  }

  // ---------------------------------------------------------------- what the journal promises

  /** Entry `k` of the journal is the effect of its action at its position in the history. */
  lemma WhereAnEffectStands(steps: seq<Step>, k: nat) returns (p: nat)
    requires k < |Run(steps).log|
    ensures var s := Run(steps);
            && s.log[k].ByRequest? && s.log[k].id in s.actions && Fits(s.actions[s.log[k].id])
            && p == |Project(s.log[..k], s.log[k].id)|
            && LoggedAt(s, k, s.log[k].id, p)
  {
    EveryRunKeepsTheInvariant(steps);
    var s := Run(steps);
    assert s.log[k] in s.log;
    LoggedIsProjected(s.log, k);
    p := |Project(s.log[..k], s.log[k].id)|;
  }

  /** The earlier effects of its action stand earlier in the journal. */
  lemma AnEarlierEffect(steps: seq<Step>, k: nat, q: nat) returns (j: nat)
    requires k < |Run(steps).log| && Run(steps).log[k].ByRequest?
    requires q < |Project(Run(steps).log[..k], Run(steps).log[k].id)|
    ensures j < k && LoggedAt(Run(steps), j, Run(steps).log[k].id, q)
  {
    EveryRunKeepsTheInvariant(steps);
    var s := Run(steps);
    var id := s.log[k].id;
    assert s.log[k] in s.log;
    LoggedIsProjected(s.log, k);
    ProjectedIsLogged(s.log[..k], id, q);
    j :| 0 <= j < k && s.log[..k][j].ByRequest? && s.log[..k][j].id == id
         && s.log[..k][j].event == Project(s.log[..k], id)[q];
  }

  /** Entry `j` is effect `q` of action `id`. */
  predicate LoggedAt(s: State, j: nat, id: nat, q: nat) {
    && j < |s.log| && s.log[j].ByRequest? && s.log[j].id == id
    && id in s.actions && q < |s.actions[id].trace| && s.log[j].event == s.actions[id].trace[q]
  }

  /** Each call follows a durable row of its own action that says "attempted". */
  lemma EveryCallFollowsItsIntent(steps: seq<Step>, k: nat)
    requires k < |Run(steps).log| && Run(steps).log[k].ByRequest? && Run(steps).log[k].event.Called?
    ensures var log := Run(steps).log;
            exists j :: 0 <= j < k && log[j].ByRequest? && log[j].id == log[k].id && log[j].event.Attempted? &&
              "outcome" in log[j].event.row.after && log[j].event.row.after["outcome"] == "attempted"
  {
    var p := WhereAnEffectStands(steps, k);
    var s := Run(steps);
    assert p == 1;
    var j := AnEarlierEffect(steps, k, 0);
    assert s.log[j].event == Attempted(IntentRow(s.actions[s.log[k].id].op));
  }

  /**
   Each action leaves at most one outcome row; it follows the call, and reads "succeeded" iff the
   call returned without error a status in [200, 300).
   */
  lemma AnOutcomeIsTheOnlyOne(steps: seq<Step>, k: nat)
    requires k < |Run(steps).log| && Run(steps).log[k].ByRequest? && Run(steps).log[k].event.Concluded?
    ensures var s := Run(steps);
            var id := s.log[k].id;
            && id in s.actions && s.actions[id].reply.Some?
            && s.log[k].event.row == OutcomeRow(s.actions[id].op, s.actions[id].reply.value)
            && (var reply := s.actions[id].reply.value;
                s.log[k].event.row.after["outcome"] ==
                  if reply.error.None? && 200 <= reply.status <= 299 then "succeeded" else "failed")
            && (exists j :: 0 <= j < k && s.log[j].ByRequest? && s.log[j].id == id && s.log[j].event.Called?)
            && (forall j :: 0 <= j < |s.log| && j != k && s.log[j].ByRequest? && s.log[j].id == id ==>
                  !s.log[j].event.Concluded?)
  {
    var p := WhereAnEffectStands(steps, k);
    var s := Run(steps);
    var id := s.log[k].id;
    assert p == 2;
    var c := AnEarlierEffect(steps, k, 1);
    assert s.log[c].event.Called?;
    WhatTheRowsSay(s.actions[id].op, s.actions[id].reply.value, "outcome");
    NoOtherOutcome(steps, k, p);
  }

  lemma NoOtherOutcome(steps: seq<Step>, k: nat, p: nat)
    requires var s := Run(steps); k < |s.log| && s.log[k].ByRequest? && LoggedAt(s, k, s.log[k].id, 2)
    requires p == |Project(Run(steps).log[..k], Run(steps).log[k].id)| == 2
    ensures var s := Run(steps);
            forall j :: 0 <= j < |s.log| && j != k && s.log[j].ByRequest? && s.log[j].id == s.log[k].id ==>
              !s.log[j].event.Concluded?
  {
    var s := Run(steps);
    var id := s.log[k].id;
    forall j | 0 <= j < |s.log| && j != k && s.log[j].ByRequest? && s.log[j].id == id
      ensures !s.log[j].event.Concluded?
    {
      var q := WhereAnEffectStands(steps, j);
      if q == p {
        if j < k { PositionsAreDistinct(s.log, j, k); } else { PositionsAreDistinct(s.log, k, j); }
      }
    }
  }

  /**
   What the operator is told does not depend on the second write: once the call left, an action that
   ends returns the gateway's own status and error; and a refusal in the gateway's name says that
   the call left.
   */
  lemma TheAnswerIsTheGateways(steps: seq<Step>, id: nat)
    requires id in Run(steps).actions && Run(steps).actions[id].pc.Done?
    ensures var a := Run(steps).actions[id];
            && (|a.trace| >= 2 <==> Called in a.trace)
            && (Called in a.trace ==> a.reply.Some? && a.pc == Done(a.reply.value.status, a.reply.value.error))
            && (Called !in a.trace ==> a.pc.status == 0 && a.pc.error.Some?)
            && (a.pc.error.Some? && Refusal(a.pc.error.value).Some? ==> Called in a.trace)
  {
    EveryRunKeepsTheInvariant(steps);
    var a := Run(steps).actions[id];
    assert Fits(a);
    if |a.trace| >= 2 {
      assert a.trace[1] in a.trace;
    } else {
      TheGatewayAnswersForItsCallsOnly(a.pc.error.value.second);
    }
  }

  /**
   What the rows alone tell, wherever the run stopped: the rows of an action are its intent, or its
   intent and its outcome, in that order and never its outcome alone; an outcome that is missing
   means unknown.
   */
  lemma TheRowsOfAnAction(steps: seq<Step>, id: nat)
    requires id in Run(steps).actions
    ensures var a := Run(steps).actions[id];
            var rows := DurableRows(Run(steps).log, id);
            || rows == []
            || rows == [IntentRow(a.op)]
            || (a.reply.Some? && rows == [IntentRow(a.op), OutcomeRow(a.op, a.reply.value)])
  {
    EveryRunKeepsTheInvariant(steps);
    var a := Run(steps).actions[id];
    assert Fits(a);
    WrittenInOrder(a.trace);
  }

  lemma WrittenInOrder(t: seq<Event>)
    requires |t| <= 3
    requires (|t| >= 1 ==> t[0].Attempted?) && (|t| >= 2 ==> t[1].Called?) && (|t| >= 3 ==> t[2].Concluded?)
    ensures Written(t) == if |t| == 0 then [] else if |t| < 3 then [t[0].row] else [t[0].row, t[2].row]
  {
    if |t| >= 1 {
      OneMoreWritten([], t[0]);
      assert [] + [t[0]] == [t[0]];
    }
    if |t| >= 2 {
      OneMoreWritten([t[0]], t[1]);
      assert [t[0]] + [t[1]] == [t[0], t[1]];
    }
    if |t| >= 3 {
      OneMoreWritten([t[0], t[1]], t[2]);
      assert [t[0], t[1]] + [t[2]] == t;
    } else {
      assert t == if |t| == 0 then [] else if |t| == 1 then [t[0]] else [t[0], t[1]];
    }
  }

  lemma OneMoreWritten(t: seq<Event>, e: Event)
    ensures Written(t + [e]) == if e.Called? then Written(t) else Written(t) + [e.row]
  {
    assert (t + [e])[..|t|] == t;
  }

  function Written(t: seq<Event>): seq<Row> {
    if t == [] then []
    else
      var last := t[|t| - 1];
      Written(t[..|t| - 1]) + if last.Called? then [] else [last.row]
  }

  function DurableRows(log: seq<Entry<Event>>, id: nat): seq<Row> { Written(Project(log, id)) }

  // ---------------------------------------------------------------- one action

  /**
   An action that nothing stops: its rows are those of the two writes around the call, the call leaves exactly
   when the intent is acknowledged, and it ends with what the gateway replied, or with what the intent failed on.
   */
  lemma AnActionAlone(op: Operation, intent: Write, refused: Error, reply: Reply, outcome: Write)
    ensures var arrived := Action(op, None, Intending, []);
            var first := Moved(arrived, Advance(arrived, intent, refused, reply));
            var second := Moved(first, Advance(first, outcome, refused, reply));
            var last := Moved(second, Advance(second, outcome, refused, reply));
            && Written(last.trace) == RowsOf(op, intent, reply, outcome)
            && (Called in last.trace <==> intent == Acknowledged)
            && last.pc == (if intent == Acknowledged then Done(reply.status, reply.error)
                           else Done(0, Some(Both(IntentNotTraced, refused))))
  {
    var arrived := Action(op, None, Intending, []);
    var first := Moved(arrived, Advance(arrived, intent, refused, reply));
    var second := Moved(first, Advance(first, outcome, refused, reply));
    var last := Moved(second, Advance(second, outcome, refused, reply));
    WrittenInOrder(last.trace);
    if intent == Acknowledged {
      assert last.trace[1] == Called;
    }
  }

  /** An action arrives once, having done nothing. */
  lemma AnActionArrives(s: State, id: nat, op: Operation)
    ensures var after := Apply(s, Arrive(id, op));
            && after.log == s.log
            && after.actions ==
                 (if id in s.actions then s.actions else s.actions[id := Action(op, None, Intending, [])])
  {
  }

  /** A crash leaves the effect of the step it falls in, or not; what has ended or crashed stays so. */
  lemma ACrashStops(a: Action, effective: bool, reply: Reply)
    ensures var after := Moved(a, Stopped(a, effective, reply));
            && after.op == a.op
            && (a.pc.Done? || a.pc.Crashed? ==> after == a)
            && (!a.pc.Done? ==> after.pc == Crashed)
            && (!effective ==> after.trace == a.trace)
            && (effective && a.pc.Intending? ==> after.trace == a.trace + [Attempted(IntentRow(a.op))])
            && (effective && a.pc.Calling? ==> after.trace == a.trace + [Called] && after.reply == Some(reply))
            && (effective && a.pc.Concluding? && a.reply.Some? ==>
                  after.trace == a.trace + [Concluded(OutcomeRow(a.op, a.reply.value))])
  {
  }
}
