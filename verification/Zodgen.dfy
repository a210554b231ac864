/**
 The schema-to-validator compiler of cmd/zodgen/main.go: the expression of one property as text, the
 Zod tree it is meant to be, and a reader of the text. A property may have no schema at all; a
 property that cannot be rendered is refused.
 */
module Zodgen {
  import opened Common
  import opened Floats
  import opened Literals
  import opened Patterns
  import opened Schemas
  import opened Text

  datatype Refusal = NoSchema | EnumNotAString | EnumNotCarried | UnknownType

  predicate Is(types: seq<string>, name: string) { types == [name] }

  // ---------------------------------------------------------------- the tree

  /** The members as quoted literals, or the first that is not one. */
  function EnumMembers(values: seq<Json>): (r: Result<seq<string>, Refusal>)
    ensures r.Ok? ==> |r.value| == |values| && forall k :: 0 <= k < |values| ==> values[k] == Str(r.value[k])
    ensures r.Ok? ==> forall k :: 0 <= k < |r.value| ==> Clean(r.value[k])
  {
    if values == [] then Ok([])
    else if !values[0].Str? then Err(EnumNotAString)
    else if FirstForbidden(values[0].s).Some? then Err(EnumNotCarried)
    else
      match EnumMembers(values[1..])
      case Err(e) => Err(e)
      case Ok(others) => Ok([values[0].s] + others)
  }

  function Compile(schema: Option<Schema>): Result<Zod, Refusal> {
    if schema.None? then Err(NoSchema)
    else
      var s := schema.value;
      if s.enum != [] then
        match EnumMembers(s.enum)
        case Err(e) => Err(e)
        case Ok(members) => Ok(ZEnum(members))
      else if Is(s.types, "string") then Ok(ZString(s.minLength, s.maxLength, s.pattern))
      else if Is(s.types, "boolean") then Ok(ZBoolean)
      else if Is(s.types, "integer") then Ok(ZInt(s.minimum, s.maximum))
      else if Is(s.types, "array") && s.items.Items? then
        match Compile(s.items.schema)
        case Err(e) => Err(e)
        case Ok(element) => Ok(ZArray(element, s.maxItems))
      else if Is(s.types, "object") && s.additional == Some(true) then Ok(ZRecord)
      else Err(UnknownType)
  }

  // ---------------------------------------------------------------- the text

  function StringExpression(s: Schema): string {
    "z.string()" + (
      (if s.minLength != 0 then ".min(" + (Decimal(s.minLength) + ")") else "") + (
        (if s.maxLength.Some? then ".max(" + (Decimal(s.maxLength.value) + ")") else "") +
        (if s.pattern != "" then ".regex(/" + (Slashed(s.pattern) + "/)") else "")))
  }

  function IntegerExpression(s: Schema): string {
    "z.number().int()" + (
      (if s.minimum.Some? then ".min(" + (FloatText(s.minimum.value) + ")") else "") +
      (if s.maximum.Some? then ".max(" + (FloatText(s.maximum.value) + ")") else ""))
  }

  function Listed(members: seq<string>): string {
    if members == [] then ""
    else if |members| == 1 then "'" + (members[0] + "'")
    else "'" + (members[0] + ("'" + (", " + Listed(members[1..]))))
  }

  function EnumExpression(values: seq<Json>): Result<string, Refusal> {
    match EnumMembers(values)
    case Err(e) => Err(e)
    case Ok(members) => Ok("z.enum([" + (Listed(members) + "])"))
  }

  /** What is refused as text is what has no tree. */
  function ZodFor(schema: Option<Schema>): (r: Result<string, Refusal>)
    ensures r.Ok? <==> Compile(schema).Ok?
    ensures r.Err? ==> Compile(schema) == Err(r.error)
  {
    if schema.None? then Err(NoSchema)
    else
      var s := schema.value;
      if s.enum != [] then EnumExpression(s.enum)
      else if Is(s.types, "string") then Ok(StringExpression(s))
      else if Is(s.types, "boolean") then Ok("z.boolean()")
      else if Is(s.types, "integer") then Ok(IntegerExpression(s))
      else if Is(s.types, "array") && s.items.Items? then
        match ZodFor(s.items.schema)
        case Err(e) => Err(e)
        case Ok(items) =>
          var limit := if s.maxItems.Some? then ".max(" + (Decimal(s.maxItems.value) + ")") else "";
          Ok("z.array(" + (items + (")" + limit)))
      else if Is(s.types, "object") && s.additional == Some(true) then Ok("z.record(z.string(), z.unknown())")
      else Err(UnknownType)
  }

  // ---------------------------------------------------------------- what can be carried

  /**
   No pattern, or one that its literal can carry, whose literal is not the start of a comment, and that
   the language of the form compiles.
   */
  predicate CarriablePattern(p: string, e: Engine) { p != "" ==> Carried(p, false) && p[0] != '*' && e(p) }

  /** Every pattern in the tree survives its literal and compiles. */
  predicate Carriable(z: Zod, e: Engine) {
    match z
    case ZString(_, _, regex) => CarriablePattern(regex, e)
    case ZArray(element, _) => Carriable(element, e)
    case _ => true
  }

  // ---------------------------------------------------------------- the reader

  function ReadNat(s: string): (r: Option<Read<nat>>)
    ensures r.Some? ==> |r.value.rest| < |s|
  {
    if DigitRun(s) == 0 then None else Some(Read(Number(Digits(s)), s[DigitRun(s)..]))
  }

  /** .name(n), or nothing of that name. */
  function ReadLimit(s: string, open: string): (r: Option<Read<Option<nat>>>)
    ensures r.Some? ==> |r.value.rest| <= |s|
  {
    match Accept(s, open)
    case None => Some(Read(None, s))
    case Some(t) =>
      var n :- ReadNat(t);
      var rest :- Accept(n.rest, ")");
      Some(Read(Some(n.value), rest))
  }

  function ReadBound(s: string, open: string): (r: Option<Read<Option<Bound>>>)
    ensures r.Some? ==> |r.value.rest| <= |s|
  {
    match Accept(s, open)
    case None => Some(Read(None, s))
    case Some(t) =>
      var n :- ReadFloat(t);
      var rest :- Accept(n.rest, ")");
      if -SAFE <= n.value <= SAFE then Some(Read(Some(n.value), rest)) else None
  }

  /** .regex(/.../), where a star would open a comment and the body has to compile. */
  function ReadRegex(s: string, e: Engine): (r: Option<Read<string>>)
    ensures r.Some? ==> |r.value.rest| <= |s|
  {
    match Accept(s, ".regex(/")
    case None => Some(Read("", s))
    case Some(t) =>
      if t != "" && t[0] == '*' then None
      else
        var p :- ReadPattern(t, false);
        var rest :- Accept(p.rest, ")");
        if e(p.value) then Some(Read(p.value, rest)) else None
  }

  function ReadString(s: string, e: Engine): (r: Option<Read<Zod>>)
    ensures r.Some? ==> |r.value.rest| <= |s|
  {
    var min :- ReadLimit(s, ".min(");
    var max :- ReadLimit(min.rest, ".max(");
    var regex :- ReadRegex(max.rest, e);
    Some(Read(ZString(if min.value.Some? then min.value.value else 0, max.value, regex.value), regex.rest))
  }

  function ReadInteger(s: string): (r: Option<Read<Zod>>)
    ensures r.Some? ==> |r.value.rest| <= |s|
  {
    var least :- ReadBound(s, ".min(");
    var most :- ReadBound(least.rest, ".max(");
    Some(Read(ZInt(least.value, most.value), most.rest))
  }

  /** literal, literal, ... */
  function ReadList(s: string): (r: Option<Read<seq<string>>>)
    ensures r.Some? ==> |r.value.rest| <= |s|
    decreases |s|
  {
    var first :- Literal(s);
    match Accept(first.rest, ",")
    case None => Some(Read([first.value], first.rest))
    case Some(t) =>
      var others :- ReadList(t);
      Some(Read([first.value] + others.value, others.rest))
  }

  function ReadEnum(s: string): (r: Option<Read<Zod>>)
    ensures r.Some? ==> |r.value.rest| <= |s|
  {
    var members :- ReadList(s);
    var rest :- Accept(members.rest, "])");
    Some(Read(ZEnum(members.value), rest))
  }

  datatype Kind = KString | KBoolean | KInteger | KEnum | KArray | KRecord

  function Opening(k: Kind): string {
    match k
    case KString => "z.string()"
    case KBoolean => "z.boolean()"
    case KInteger => "z.number().int()"
    case KEnum => "z.enum(["
    case KArray => "z.array("
    case KRecord => "z.record(z.string(), z.unknown())"
  }

  /** Which expression a text opens with, and what follows the opening. */
  function Head(s: string): (r: Option<Read<Kind>>)
    ensures r.Some? ==> |r.value.rest| < |s|
  {
    if Accept(s, Opening(KString)).Some? then Some(Read(KString, Accept(s, Opening(KString)).value))
    else if Accept(s, Opening(KBoolean)).Some? then Some(Read(KBoolean, Accept(s, Opening(KBoolean)).value))
    else if Accept(s, Opening(KInteger)).Some? then Some(Read(KInteger, Accept(s, Opening(KInteger)).value))
    else if Accept(s, Opening(KEnum)).Some? then Some(Read(KEnum, Accept(s, Opening(KEnum)).value))
    else if Accept(s, Opening(KArray)).Some? then Some(Read(KArray, Accept(s, Opening(KArray)).value))
    else
      var rest :- Accept(s, Opening(KRecord));
      Some(Read(KRecord, rest))
  }

  /** An expression that holds no other, after its opening. */
  function ReadLeaf(head: Read<Kind>, e: Engine): Option<Read<Zod>> {
    match head.value
    case KString => ReadString(head.rest, e)
    case KBoolean => Some(Read(ZBoolean, head.rest))
    case KInteger => ReadInteger(head.rest)
    case KEnum => ReadEnum(head.rest)
    case KRecord => Some(Read(ZRecord, head.rest))
    case KArray => None
  }

  type LeafReader = Read<Kind> -> Option<Read<Zod>>

  function LeafOf(e: Engine): LeafReader { head => ReadLeaf(head, e) }

  function ReadNested(s: string, leaf: LeafReader): Option<Read<Zod>>
    decreases |s|
  {
    var head :- Head(s);
    if head.value != KArray then leaf(head)
    else
      var element :- ReadNested(head.rest, leaf);
      var limit :- Accept(element.rest, ")");
      var max :- ReadLimit(limit, ".max(");
      Some(Read(ZArray(element.value, max.value), max.rest))
  }

  function ReadZod(s: string, e: Engine): Option<Read<Zod>> { ReadNested(s, LeafOf(e)) }
}
