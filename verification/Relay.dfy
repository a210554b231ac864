/**
 An action that the gateway executes (internal/bff/relay.go): its intent is written before the call,
 its outcome after, and its failure is translated for the dashboard. A write answers or fails, and a
 failed one may still have left its row; the call is what it replies and what it adds to the event.
 */
module Relay {
  import opened Common
  import opened Text

  // ---------------------------------------------------------------- errors

  datatype FieldError = FieldError(field: string, message: string)

  datatype ApiError = ApiError(status: nat, code: string, message: string, fields: seq<FieldError>)

  /** A Go error as the tree its Unwrap methods span. */
  datatype Error =
    | NoCaller
    | IntentNotTraced
    | Upstream(api: ApiError)
    | Plain
    | Wrap(inner: Error)
    | Both(first: Error, second: Error)

  predicate Is(e: Error, target: Error) {
    e == target ||
    match e
    case Wrap(inner) => Is(inner, target)
    case Both(first, second) => Is(first, target) || Is(second, target)
    case _ => false
  }

  /** errors.As on an APIError: the first one met in the tree. */
  function As(e: Error): Option<ApiError> {
    match e
    case Upstream(api) => Some(api)
    case Wrap(inner) => As(inner)
    case Both(first, second) => if As(first).Some? then As(first) else As(second)
    case _ => None
  }

  datatype Body = Body(code: string, message: string, errors: Option<seq<FieldError>>)

  const UPSTREAM_UNREACHABLE := "upstream_unreachable"
  const TRY_AGAIN := "try again"

  function Unavailable(code: string): Body { Body(code, TRY_AGAIN, None) }

  method FieldErrors(upstream: ApiError) returns (fields: Option<seq<FieldError>>)
    ensures fields == if upstream.fields == [] then None else Some(upstream.fields)
  {
    if |upstream.fields| == 0 {
      return None;
    }
    var copied: seq<FieldError> := [];
    for i := 0 to |upstream.fields|
      invariant copied == upstream.fields[..i]
    {
      copied := copied + [FieldError(upstream.fields[i].field, upstream.fields[i].message)];
    }
    assert copied == upstream.fields;
    return Some(copied);
  }

  /** What relayError makes of an error: a status and a body to serve, or nothing. */
  function Relayed(e: Error): Option<(nat, Body)> {
    if Is(e, NoCaller) then None
    else
      match As(e)
      case None => Some((503, Unavailable(UPSTREAM_UNREACHABLE)))
      case Some(api) =>
        if api.status == 401 || api.status == 403 then None
        else if api.status == 429 || api.status >= 500 then Some((503, Unavailable(api.code)))
        else if api.status >= 400 then
          Some((api.status, Body(api.code, api.message, if api.fields == [] then None else Some(api.fields))))
        else None
  }

  /** relayedRefusal: status and body to serve, or the error itself for the error handler. */
  function Refusal(e: Error): Option<(nat, Body)> {
    if Relayed(e).None? || Is(e, IntentNotTraced) then None else Relayed(e)
  }

  // ---------------------------------------------------------------- rows of the journal

  datatype Operation = Operation(action: string, target: string, after: map<string, string>)

  datatype Row = Row(action: string, target: string, after: map<string, string>)

  /** What the gateway answers, and what the call itself completes in the event. */
  datatype Reply = Reply(status: nat, error: Option<Error>, target: Option<string>, added: map<string, string>)

  datatype Write = Acknowledged | Unacknowledged(stored: bool)

  predicate Stores(w: Write) { w.Acknowledged? || w.stored }

  predicate Succeeds(reply: Reply) { reply.error.None? && 200 <= reply.status < 300 }

  function IntentRow(op: Operation): Row { Row(op.action, op.target, op.after["outcome" := "attempted"]) }

  function OutcomeRow(op: Operation, reply: Reply): Row {
    var completed := op.after["outcome" := "attempted"] + reply.added;
    var judged := completed["outcome" := if Succeeds(reply) then "succeeded" else "failed"];
    Row(op.action, if reply.target.Some? then reply.target.value else op.target,
        if reply.status != 0 then judged["http_status" := Decimal(reply.status)] else judged)
  }

  /** The rows a whole action leaves. */
  function RowsOf(op: Operation, intent: Write, reply: Reply, outcome: Write): seq<Row> {
    (if Stores(intent) then [IntentRow(op)] else []) +
    (if intent.Acknowledged? && Stores(outcome) then [OutcomeRow(op, reply)] else [])
  }

  function NotTraced(e: Error): Error { Both(IntentNotTraced, e) }

  // ---------------------------------------------------------------- the objects

  /** store.Fields: a map completed in place, which every copy of the event shares. */
  class Fields {
    var values: map<string, string>

    constructor ()
      ensures values == map[]
    {
      values := map[];
    }

    /** Text on a pointer that may be nil. */
    static method Text(f: Fields?, name: string, value: string) returns (g: Fields)
      modifies f
      ensures if f == null then fresh(g) && g.values == map[name := value]
              else g == f && g.values == old(f.values)[name := value]
    {
      if f == null {
        g := new Fields();
      } else {
        g := f;
      }
      g.values := g.values[name := value];
    }
  }

  /** The journal: a row is serialised when it is written, so that later changes do not reach it. */
  class Trail {
    var rows: seq<Row>

    constructor ()
      ensures rows == []
    {
      rows := [];
    }

    method Record(action: string, target: string, after: Fields, write: Write) returns (ok: bool)
      modifies this`rows
      ensures ok == write.Acknowledged?
      ensures rows == old(rows) + if Stores(write) then [Row(action, target, after.values)] else []
    {
      ok := write.Acknowledged?;
      if Stores(write) {
        rows := rows + [Row(action, target, after.values)];
      }
    }
  }

  /** The call: it may name the target and complete the fields, in place. */
  method Call(target: string, after: Fields, reply: Reply) returns (named: string)
    modifies after
    ensures named == if reply.target.Some? then reply.target.value else target
    ensures after.values == old(after.values) + reply.added
  {
    named := if reply.target.Some? then reply.target.value else target;
    after.values := after.values + reply.added;
  }

  function Values(after: Fields?): map<string, string>
    reads after
  {
    if after == null then map[] else after.values
  }

  /**
   The two writes around the call. The caller gets what the gateway replied, whatever became of the
   second write; when the intent is not acknowledged the call does not leave.
   */
  method AuditRelayed(trail: Trail, action: string, target: string, after: Fields?,
                      intent: Write, refused: Error, reply: Reply, outcome: Write)
    returns (status: nat, error: Option<Error>, ghost called: bool)
    modifies trail`rows, after
    ensures var op := Operation(action, target, old(Values(after)));
            trail.rows == old(trail.rows) + RowsOf(op, intent, reply, outcome)
    ensures called <==> intent.Acknowledged?
    ensures called ==> status == reply.status && error == reply.error
    ensures !called ==> status == 0 && error == Some(NotTraced(refused))
  {
    called := false;
    ghost var op := Operation(action, target, Values(after));
    var fields := Fields.Text(after, "outcome", "attempted");
    assert fields.values == IntentRow(op).after;
    var ok := trail.Record(action, target, fields, intent);
    if !ok {
      return 0, Some(NotTraced(refused)), false;
    }
    called := true;
    var named := Call(target, fields, reply);
    status, error := reply.status, reply.error;
    var judged := "succeeded";
    if error.Some? || status < 200 || status >= 300 {
      judged := "failed";
    }
    fields := Fields.Text(fields, "outcome", judged);
    if status != 0 {
      fields := Fields.Text(fields, "http_status", Decimal(status));
    }
    assert Row(action, named, fields.values) == OutcomeRow(op, reply);
    var _ := trail.Record(action, named, fields, outcome);
  }

  // ---------------------------------------------------------------- what the rows and refusals say

  /** The errors of a tree, an error before the ones it wraps, left to right. */
  function Tree(e: Error): (errors: seq<Error>)
    ensures errors != [] && errors[0] == e
  {
    match e
    case Wrap(inner) => [e] + Tree(inner)
    case Both(first, second) => [e] + (Tree(first) + Tree(second))
    case _ => [e]
  }

  /** errors.Is finds an error anywhere in the tree. */
  lemma {:induction false} IsIff(e: Error, target: Error)
    ensures Is(e, target) <==> target in Tree(e)
  {
    match e
    case Wrap(inner) => IsIff(inner, target);
    case Both(first, second) => IsIff(first, target); IsIff(second, target);
    case _ =>
  }

  /** Error `k` is the first answer of the gateway among these. */
  predicate FirstAnswer(errors: seq<Error>, k: nat, api: ApiError) {
    k < |errors| && errors[k] == Upstream(api) && forall j | 0 <= j < k :: !errors[j].Upstream?
  }

  predicate NoAnswer(errors: seq<Error>) { forall j | 0 <= j < |errors| :: !errors[j].Upstream? }

  lemma BehindOthers(before: seq<Error>, errors: seq<Error>)
    requires NoAnswer(before)
    ensures NoAnswer(errors) ==> NoAnswer(before + errors)
    ensures forall k: nat, api | FirstAnswer(errors, k, api) :: FirstAnswer(before + errors, |before| + k, api)
  {
  }

  lemma BeforeOthers(errors: seq<Error>, after: seq<Error>)
    ensures forall k: nat, api | FirstAnswer(errors, k, api) :: FirstAnswer(errors + after, k, api)
  {
  }

  /** errors.As finds the gateway's answer that comes first in the tree, if there is one. */
  lemma {:induction false} AsIff(e: Error)
    ensures As(e).None? ==> NoAnswer(Tree(e))
    ensures As(e).Some? ==> exists k: nat :: FirstAnswer(Tree(e), k, As(e).value)
  {
    match e
    case Wrap(inner) =>
      AsIff(inner);
      BehindOthers([e], Tree(inner));
      assert Tree(e) == [e] + Tree(inner);
    case Both(first, second) =>
      AsIff(first);
      AsIff(second);
      var both := Tree(first) + Tree(second);
      if As(first).Some? { BeforeOthers(Tree(first), Tree(second)); } else { BehindOthers(Tree(first), Tree(second)); }
      BehindOthers([e], both);
      assert Tree(e) == [e] + both;
      assert As(e).Some? ==> exists k: nat :: FirstAnswer(both, k, As(e).value);
    case Upstream(api) => assert FirstAnswer(Tree(e), 0, api);
    case _ =>
  }

  /**
   What the two rows of an action say. The intent: what the caller gave, "attempted". The outcome: the target
   the reply named, or the caller's; what the reply added over what the caller gave; "succeeded" exactly when
   there is no error and the status is of the 200s, "failed" otherwise; and the status in decimal, if there was
   one.
   */
  lemma WhatTheRowsSay(op: Operation, reply: Reply, key: string)
    ensures IntentRow(op) == Row(op.action, op.target, op.after["outcome" := "attempted"])
    ensures var row := OutcomeRow(op, reply);
            && row.action == op.action
            && row.target == (match reply.target case Some(named) => named case None => op.target)
            && "outcome" in row.after
            && row.after["outcome"] ==
                 (if reply.error.None? && 200 <= reply.status <= 299 then "succeeded" else "failed")
            && (reply.status != 0 ==> "http_status" in row.after && row.after["http_status"] == Decimal(reply.status))
            && (key != "outcome" && (key != "http_status" || reply.status == 0) ==>
                  && (key in row.after <==> key in reply.added || key in op.after)
                  && (key in reply.added ==> row.after[key] == reply.added[key])
                  && (key in op.after && key !in reply.added ==> row.after[key] == op.after[key]))
  {
  }

  /** Which rows an action leaves: a write that answers, or fails after its effect, leaves its own. */
  lemma WhichRowsAreLeft(op: Operation, intent: Write, reply: Reply, outcome: Write)
    ensures var rows := RowsOf(op, intent, reply, outcome);
            && (rows == [] <==> intent == Unacknowledged(false))
            && (rows == [IntentRow(op)] <==>
                  intent == Unacknowledged(true) || (intent == Acknowledged && outcome == Unacknowledged(false)))
            && (rows == [IntentRow(op), OutcomeRow(op, reply)] <==>
                  intent == Acknowledged && outcome != Unacknowledged(false))
  {
  }

  /**
   Which failures are served, and as what: 503 for a gateway that cannot be reached, limits or
   fails; its own status, code, message and fields for the other client errors; nothing for 401 and 403, for a
   call without caller, and for an answer that is no error. A 503 never carries the text of the gateway.
   */
  lemma RelayedIff(e: Error)
    ensures Relayed(e).None? <==>
            Is(e, NoCaller) || (As(e).Some? && (As(e).value.status < 400 || As(e).value.status in {401, 403}))
    ensures Relayed(e).Some? ==>
            var (status, body) := Relayed(e).value;
            && 400 <= status <= 503 && status !in {401, 403, 429}
            && (status == 503 <==> As(e).None? || As(e).value.status == 429 || As(e).value.status >= 500)
            && (As(e).None? ==> body == Body("upstream_unreachable", "try again", None))
            && (As(e).Some? ==>
                  var api := As(e).value;
                  && (status == 503 ==> body == Body(api.code, "try again", None))
                  && (status != 503 ==>
                        && status == api.status
                        && body == Body(api.code, api.message, if |api.fields| == 0 then None else Some(api.fields))))
  {
  }

  /** A refusal is served exactly where the error is relayed and does not say that the intent was not traced. */
  lemma ARefusalIsServedIff(e: Error)
    ensures Refusal(e).Some? <==> Relayed(e).Some? && IntentNotTraced !in Tree(e)
    ensures Refusal(e).Some? ==> Refusal(e) == Relayed(e)
  {
    IsIff(e, IntentNotTraced);
  }

  /**
   Across the two: a refusal served in the gateway's name - any status, any body - comes from a call
   that left, whatever the failed write of the intent wraps.
   */
  lemma TheGatewayAnswersForItsCallsOnly(refused: Error)
    ensures Refusal(NotTraced(refused)).None?
  {
    assert Is(NotTraced(refused), IntentNotTraced);
  }
}
