/**
 The chain around every generated handler: the permission guard outermost, the pending cookie inside
 it, the handler innermost, and the generated wrapper that writes whatever comes out
 (internal/bff/guard.go, session.go, router.go, bff.gen.go). An exchange records, in order, what the
 chain does to the outside.
 */
module StrictChain {
  import opened Common
  import Relay

  /** An exemption without a written reason is none. */
  datatype Rule = Rule(permission: string, exemption: string) {
    predicate Exempted() { exemption != "" }
  }

  datatype Session = Session(operator: string, elevated: bool)

  /** What the request's context carries: no cookie was read, or what its resolution gave. */
  datatype Resolution = NoSession | Resolved(session: Session, alive: bool, failure: Option<Relay.Error>)

  datatype World = World(
    resolution: Resolution,
    grants: Result<seq<string>, Relay.Error>,
    audit: Relay.Write,            // the write of a denial
    auditFailure: Relay.Error,     // its error when it is not acknowledged
    visitFailure: Option<Relay.Error>)

  datatype Response = Typed(status: nat) | OtherType | NoResponse

  /** What a handler does: the cookies it posts, and what it returns. */
  datatype Handler = Handler(posts: seq<string>, response: Response, error: Option<Relay.Error>)

  datatype Caller = Caller(operator: string, held: seq<string>)

  datatype Reason =
    | Undecided
    | NotAuthenticated
    | SecondFactorRequired
    | PermissionMissing(key: string)
    | Answer                        // the handler's own response
    | Failure                       // the error handler

  datatype Effect =
    | Ran(caller: Option<Caller>)
    | Denied(operator: string, operation: string)
    | SetCookie(cookie: string)
    | Status(code: nat, reason: Reason)

  class Exchange {
    var effects: seq<Effect>

    constructor ()
      ensures effects == []
    {
      effects := [];
    }

    method Emit(e: Effect)
      modifies this
      ensures effects == old(effects) + [e]
    {
      effects := effects + [e];
    }
  }

  class PendingCookie {
    var cookie: Option<string>

    constructor ()
      ensures cookie == None
    {
      cookie := None;
    }

    method Post(value: string)
      modifies this
      ensures cookie == Some(value)
    {
      cookie := Some(value);
    }
  }

  // ---------------------------------------------------------------- what each layer does, as values

  function SessionFrom(r: Resolution): (Session, bool, Option<Relay.Error>) {
    match r
    case NoSession => (Session("", false), false, None)
    case Resolved(session, alive, failure) => (session, alive, failure)
  }

  datatype Decision =
    | Refuse(code: nat, reason: Reason)
    | Deny(key: string)
    | Break(failure: Relay.Error)
    | Pass(caller: Option<Caller>)

  function Decide(rules: map<string, Rule>, operation: string, w: World): Decision {
    var (session, alive, failure) := SessionFrom(w.resolution);
    if operation !in rules then Refuse(403, Undecided)
    else if rules[operation].Exempted() then Pass(None)
    else if failure.Some? then Break(failure.value)
    else if !alive then Refuse(401, NotAuthenticated)
    else if !session.elevated then Refuse(403, SecondFactorRequired)
    else if w.grants.Err? then Break(w.grants.error)
    else if rules[operation].permission !in w.grants.value then Deny(rules[operation].permission)
    else Pass(Some(Caller(session.operator, w.grants.value)))
  }

  datatype Outcome = Outcome(response: Response, error: Option<Relay.Error>)

  /** The error handler: a refused token is a bad gateway, a refused scope is forbidden. */
  function ErrorStatus(e: Relay.Error): nat {
    match Relay.As(e)
    case Some(api) => if api.status == 401 then 502 else if api.status == 403 then 403 else 500
    case None => 500
  }

  function CookieEffects(h: Handler): seq<Effect> {
    if h.error.None? && h.posts != [] then [SetCookie(h.posts[|h.posts| - 1])] else []
  }

  function OutcomeOf(d: Decision, w: World, h: Handler): Outcome {
    match d
    case Refuse(_, _) => Outcome(NoResponse, None)
    case Deny(_) => Outcome(NoResponse, if w.audit.Acknowledged? then None else Some(w.auditFailure))
    case Break(failure) => Outcome(NoResponse, Some(failure))
    case Pass(_) => Outcome(h.response, h.error)
  }

  function GuardEffects(d: Decision, operation: string, w: World, h: Handler): seq<Effect> {
    match d
    case Refuse(code, reason) => [Status(code, reason)]
    case Deny(key) =>
      (if Relay.Stores(w.audit) then [Denied(SessionFrom(w.resolution).0.operator, operation)] else []) +
      (if w.audit.Acknowledged? then [Status(403, PermissionMissing(key))] else [])
    case Break(_) => []
    case Pass(caller) => [Ran(caller)] + CookieEffects(h)
  }

  function WrapperEffects(o: Outcome, w: World): seq<Effect> {
    if o.error.Some? then [Status(ErrorStatus(o.error.value), Failure)]
    else
      match o.response
      case Typed(status) =>
        [Status(status, Answer)] +
        (if w.visitFailure.Some? then [Status(ErrorStatus(w.visitFailure.value), Failure)] else [])
      case OtherType => [Status(500, Failure)]
      case NoResponse => []
  }

  function Served(rules: map<string, Rule>, operation: string, w: World, h: Handler): seq<Effect> {
    var d := Decide(rules, operation, w);
    GuardEffects(d, operation, w, h) + WrapperEffects(OutcomeOf(d, w, h), w)
  }

  // ---------------------------------------------------------------- the layers in place

  method Run(x: Exchange, caller: Option<Caller>, box: PendingCookie, h: Handler) returns (o: Outcome)
    requires box.cookie == None
    modifies x, box
    ensures x.effects == old(x.effects) + [Ran(caller)]
    ensures box.cookie == if h.posts == [] then None else Some(h.posts[|h.posts| - 1])
    ensures o == Outcome(h.response, h.error)
  {
    x.Emit(Ran(caller));
    for i := 0 to |h.posts|
      invariant x.effects == old(x.effects) + [Ran(caller)]
      invariant box.cookie == if i == 0 then None else Some(h.posts[i - 1])
    {
      box.Post(h.posts[i]);
    }
    return Outcome(h.response, h.error);
  }

  method WritePendingCookie(x: Exchange, caller: Option<Caller>, h: Handler) returns (o: Outcome)
    modifies x
    ensures x.effects == old(x.effects) + ([Ran(caller)] + CookieEffects(h))
    ensures o == Outcome(h.response, h.error)
  {
    var pending := new PendingCookie();
    o := Run(x, caller, pending, h);
    if o.error.None? && pending.cookie.Some? {
      x.Emit(SetCookie(pending.cookie.value));
    }
  }

  method RequirePermission(x: Exchange, rules: map<string, Rule>, operation: string, w: World, h: Handler)
    returns (o: Outcome)
    modifies x
    ensures var d := Decide(rules, operation, w);
            x.effects == old(x.effects) + GuardEffects(d, operation, w, h) && o == OutcomeOf(d, w, h)
  {
    if operation !in rules {
      x.Emit(Status(403, Undecided));
      return Outcome(NoResponse, None);
    }
    var required := rules[operation];
    if required.Exempted() {
      o := WritePendingCookie(x, None, h);
      return;
    }
    var (session, alive, failure) := SessionFrom(w.resolution);
    if failure.Some? {
      return Outcome(NoResponse, failure);
    }
    if !alive {
      x.Emit(Status(401, NotAuthenticated));
      return Outcome(NoResponse, None);
    }
    if !session.elevated {
      x.Emit(Status(403, SecondFactorRequired));
      return Outcome(NoResponse, None);
    }
    if w.grants.Err? {
      return Outcome(NoResponse, Some(w.grants.error));
    }
    var held := w.grants.value;
    if required.permission !in held {
      if Relay.Stores(w.audit) {
        x.Emit(Denied(session.operator, operation));
      }
      if w.audit.Unacknowledged? {
        return Outcome(NoResponse, Some(w.auditFailure));
      }
      x.Emit(Status(403, PermissionMissing(required.permission)));
      return Outcome(NoResponse, None);
    }
    o := WritePendingCookie(x, Some(Caller(session.operator, held)), h);
  }

  /** The generated wrapper of one operation. */
  method Serve(x: Exchange, rules: map<string, Rule>, operation: string, w: World, h: Handler)
    modifies x
    ensures x.effects == old(x.effects) + Served(rules, operation, w, h)
  {
    var o := RequirePermission(x, rules, operation, w, h);
    if o.error.Some? {
      x.Emit(Status(ErrorStatus(o.error.value), Failure));
    } else if o.response.Typed? {
      x.Emit(Status(o.response.status, Answer));
      if w.visitFailure.Some? {
        x.Emit(Status(ErrorStatus(w.visitFailure.value), Failure));
      }
    } else if o.response != NoResponse {
      x.Emit(Status(500, Failure));
    }
  }

  // ---------------------------------------------------------------- the exchange, told straight

  /** What the client gets of an error: 502 for a token the gateway refused, 403 for a scope, 500 for the rest. */
  function Broken(e: Relay.Error): Effect {
    var api := Relay.As(e);
    Status(if api.Some? && api.value.status == 401 then 502
           else if api.Some? && api.value.status == 403 then 403 else 500, Failure)
  }

  /** What a handler that ran shows: its error; or its last cookie, its own status, and the failure of writing it. */
  function Shown(w: World, h: Handler): seq<Effect> {
    match h.error
    case Some(e) => [Broken(e)]
    case None =>
      (if |h.posts| > 0 then [SetCookie(h.posts[|h.posts| - 1])] else []) +
      match h.response
      case Typed(status) =>
        [Status(status, Answer)] + (if w.visitFailure.Some? then [Broken(w.visitFailure.value)] else [])
      case OtherType => [Status(500, Failure)]
      case NoResponse => []
  }

  /** The whole exchange: the table, the session, the second factor, the grants, and the handler last. */
  function Told(rules: map<string, Rule>, operation: string, w: World, h: Handler): seq<Effect> {
    if operation !in rules then [Status(403, Undecided)]
    else if rules[operation].exemption != "" then [Ran(None)] + Shown(w, h)
    else
      match w.resolution
      case NoSession => [Status(401, NotAuthenticated)]
      case Resolved(_, _, Some(failure)) => [Broken(failure)]
      case Resolved(session, alive, None) =>
        if !alive then [Status(401, NotAuthenticated)]
        else if !session.elevated then [Status(403, SecondFactorRequired)]
        else
          match w.grants
          case Err(failure) => [Broken(failure)]
          case Ok(held) =>
            var key := rules[operation].permission;
            if key in held then [Ran(Some(Caller(session.operator, held)))] + Shown(w, h)
            else
              match w.audit
              case Acknowledged => [Denied(session.operator, operation), Status(403, PermissionMissing(key))]
              case Unacknowledged(true) => [Denied(session.operator, operation), Broken(w.auditFailure)]
              case Unacknowledged(false) => [Broken(w.auditFailure)]
  }

  /** The layers, one inside the other, do exactly that: on every table, session, handler and fault. */
  lemma TheLayersTell(rules: map<string, Rule>, operation: string, w: World, h: Handler)
    ensures Served(rules, operation, w, h) == Told(rules, operation, w, h)
  {
    var d := Decide(rules, operation, w);
    if d.Pass? {
      TheHandlerShows(w, h);
      var wrapped := WrapperEffects(Outcome(h.response, h.error), w);
      assert ([Ran(d.caller)] + CookieEffects(h)) + wrapped == [Ran(d.caller)] + (CookieEffects(h) + wrapped);
    }
  }

  lemma TheHandlerShows(w: World, h: Handler)
    ensures CookieEffects(h) + WrapperEffects(Outcome(h.response, h.error), w) == Shown(w, h)
  {
  }

  lemma WhatIsShown(w: World, h: Handler, code: nat)
    ensures forall e <- Shown(w, h) :: !e.Ran?
    ensures forall e <- Shown(w, h) | e.Status? :: e.reason.Answer? || e.reason.Failure?
    ensures Status(code, Answer) in Shown(w, h) <==> h.error.None? && h.response == Typed(code)
  {
    if h.error.None? && h.response == Typed(code) {
      assert Shown(w, h)[if |h.posts| > 0 then 1 else 0] == Status(code, Answer);
    }
  }

  lemma AfterTheRun(ran: Effect, shown: seq<Effect>)
    ensures forall e :: e in [ran] + shown <==> e == ran || e in shown
  {
  }

  /**
   Who is told what: 401 for a session that is not alive, 403 for one without its second factor, each exactly
   then; and the status a handler answers is its own, exactly when it ran and answered without an error.
   */
  lemma WhoIsToldWhat(rules: map<string, Rule>, operation: string, w: World, h: Handler, code: nat)
    ensures var effects := Served(rules, operation, w, h);
            var guarded := operation in rules && rules[operation].exemption == "";
            var resolved := w.resolution.Resolved? && w.resolution.failure.None?;
            && (Status(401, NotAuthenticated) in effects <==>
                  guarded && (w.resolution.NoSession? || (resolved && !w.resolution.alive)))
            && (Status(403, SecondFactorRequired) in effects <==>
                  guarded && resolved && w.resolution.alive && !w.resolution.session.elevated)
            && (Status(403, Undecided) in effects <==> operation !in rules)
            && (Status(code, Answer) in effects <==>
                  h.error.None? && h.response == Typed(code) && exists caller :: Ran(caller) in effects)
  {
    TheLayersTell(rules, operation, w, h);
    WhatIsShown(w, h, code);
    var told := Told(rules, operation, w, h);
    if |told| > 0 && told[0].Ran? {
      AfterTheRun(told[0], Shown(w, h));
      assert Ran(told[0].caller) in told;
    }
  }

  // ---------------------------------------------------------------- what a request is told

  function Statuses(effects: seq<Effect>): nat {
    if effects == [] then 0 else (if effects[0].Status? then 1 else 0) + Statuses(effects[1..])
  }

  /**
   Exactly one status is written, on every table, session and handler, unless the handler returns
   nothing at all (the server then sends an empty 200 of its own) or its response fails while it is
   being written (the error handler then writes a second one).
   */
  lemma OneStatusIff(rules: map<string, Rule>, operation: string, w: World, h: Handler)
    ensures var passes := Decide(rules, operation, w).Pass? && h.error.None?;
            var n := Statuses(Served(rules, operation, w, h));
            && (n == 0 <==> passes && h.response.NoResponse?)
            && (n == 2 <==> passes && h.response.Typed? && w.visitFailure.Some?)
            && n <= 2
  {
    var d := Decide(rules, operation, w);
    var guarded, wrapped := GuardEffects(d, operation, w, h), WrapperEffects(OutcomeOf(d, w, h), w);
    StatusesOfBoth(guarded, wrapped);
    StatusesOfTheWrapper(OutcomeOf(d, w, h), w);
    if d.Pass? {
      assert Statuses(CookieEffects(h)) == 0;
      assert guarded[1..] == CookieEffects(h);
    } else if d.Deny? && w.audit.Acknowledged? {
      assert guarded[1..] == [Status(403, PermissionMissing(d.key))];
    }
  }

  lemma StatusesOfTheWrapper(o: Outcome, w: World)
    ensures Statuses(WrapperEffects(o, w)) ==
            if o.error.None? && o.response.NoResponse? then 0
            else if o.error.None? && o.response.Typed? && w.visitFailure.Some? then 2
            else 1
  {
    var wrapped := WrapperEffects(o, w);
    if |wrapped| == 2 {
      assert wrapped[1..][1..] == [];
    } else if |wrapped| == 1 {
      assert wrapped[1..] == [];
    }
  }

  lemma {:induction false} StatusesOfBoth(a: seq<Effect>, b: seq<Effect>)
    ensures Statuses(a + b) == Statuses(a) + Statuses(b)
  {
    if a == [] {
      assert a + b == b;
    } else {
      StatusesOfBoth(a[1..], b);
      assert (a + b)[1..] == a[1..] + b;
    }
  }

  /**
   The handler runs iff the operation is exempt, or the session resolved, is alive and elevated, and
   its operator holds the key; it then runs in the name of that operator, with the grants that were
   read. An operation the table does not decide never runs.
   */
  lemma RunsIff(rules: map<string, Rule>, operation: string, w: World, h: Handler, caller: Option<Caller>)
    ensures Ran(caller) in Served(rules, operation, w, h) <==>
            operation in rules &&
            if rules[operation].Exempted() then caller == None
            else
              && w.resolution.Resolved? && w.resolution.failure.None? && w.resolution.alive
              && w.resolution.session.elevated
              && w.grants.Ok? && rules[operation].permission in w.grants.value
              && caller == Some(Caller(w.resolution.session.operator, w.grants.value))
  {
    var d := Decide(rules, operation, w);
    assert forall e <- WrapperEffects(OutcomeOf(d, w, h), w) :: e.Status?;
    if d.Pass? {
      assert GuardEffects(d, operation, w, h)[0] == Ran(d.caller);
      assert forall e <- CookieEffects(h) :: e.SetCookie?;
    }
  }

  /** A refusal for a missing key follows the entry that names the operator and the operation. */
  lemma ADenialIsAuditedFirst(rules: map<string, Rule>, operation: string, w: World, h: Handler, k: nat)
    requires var effects := Served(rules, operation, w, h);
             k < |effects| && effects[k].Status? && effects[k].reason.PermissionMissing?
    ensures var effects := Served(rules, operation, w, h);
            && effects[k].code == 403 && operation in rules && effects[k].reason.key == rules[operation].permission
            && w.resolution.Resolved?
            && exists j :: 0 <= j < k && effects[j] == Denied(w.resolution.session.operator, operation)
  {
    var effects := Served(rules, operation, w, h);
    var d := Decide(rules, operation, w);
    if d.Deny? && w.audit.Acknowledged? {
      assert effects == [Denied(w.resolution.session.operator, operation), Status(403, PermissionMissing(d.key))];
      assert effects[0] == Denied(w.resolution.session.operator, operation);
    }
  }

  /**
   A cookie is set only after the handler ran without error, and it is the last one posted; it is
   set before any status, and stands beside a failure iff the response was of another type or
   failed while being written.
   */
  lemma ACookieNeedsANilError(rules: map<string, Rule>, operation: string, w: World, h: Handler, k: nat)
    requires var effects := Served(rules, operation, w, h); k < |effects| && effects[k].SetCookie?
    ensures var effects := Served(rules, operation, w, h);
            && Decide(rules, operation, w).Pass? && h.error.None?
            && h.posts != [] && effects[k].cookie == h.posts[|h.posts| - 1]
            && (forall j :: 0 <= j < |effects| && effects[j].Status? ==> k < j)
            && ((exists j :: 0 <= j < |effects| && effects[j].Status? && effects[j].reason.Failure?) <==>
                h.response.OtherType? || (h.response.Typed? && w.visitFailure.Some?))
  {
    var effects := Served(rules, operation, w, h);
    var d := Decide(rules, operation, w);
    if d.Pass? {
      var wrapped := WrapperEffects(OutcomeOf(d, w, h), w);
      if h.error.None? && h.posts != [] {
        assert effects == [Ran(d.caller), CookieEffects(h)[0]] + wrapped;
        if h.response.OtherType? {
          assert effects[2] == wrapped[0];
        } else if h.response.Typed? && w.visitFailure.Some? {
          assert effects[3] == wrapped[1];
        }
      }
    }
  }

  /**
   A 401 tells the browser that its session is closed, and nothing else does: it comes from a
   session that is not alive, or from the handler's own response, never from an error - not even
   from the gateway's 401.
   */
  lemma A401SpeaksOfTheSession(rules: map<string, Rule>, operation: string, w: World, h: Handler, k: nat)
    requires var effects := Served(rules, operation, w, h);
             k < |effects| && effects[k].Status? && effects[k].code == 401
    ensures var effects := Served(rules, operation, w, h);
            || (effects[k].reason.NotAuthenticated? && !SessionFrom(w.resolution).1)
            || (effects[k].reason.Answer? && h.response == Typed(401) && Decide(rules, operation, w).Pass?)
  {
    var d := Decide(rules, operation, w);
    if d.Pass? {
      assert |CookieEffects(h)| <= 1;
    }
  }
}
