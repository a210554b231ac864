/**
 The two languages of cmd/zodgen/main.go: schemas made of the keywords listed in `Schema`, each with
 the meaning that JSON Schema 2020-12 gives it, and the Zod expressions with theirs. The keywords of
 JSON Schema that are not listed - const, multipleOf, the exclusive bounds, uniqueItems, contains,
 maxProperties, dependentRequired, allOf, anyOf, oneOf, not, patternProperties, additionalProperties
 given as a schema - are not part of this model; zodgen does not read them. A pattern denotes a test on
 strings, the same on both sides; which patterns the language of the form compiles is given.
 */
module Schemas {
  import opened Common

  datatype Json =
    | Null
    | Bool(b: bool)
    | Num(n: real)
    | Str(s: string)
    | Arr(items: seq<Json>)
    | Obj(fields: map<string, Json>)

  const SAFE := 9007199254740991

  /** A whole bound that a double holds exactly. */
  type Bound = x: int | -SAFE <= x <= SAFE

  datatype Items = NoItems | Items(schema: Option<Schema>)

  /** The keywords that are modelled. A keyword that is absent has its neutral value. */
  datatype Schema = Schema(
    types: seq<string>,
    enum: seq<Json>,
    minLength: nat,
    maxLength: Option<nat>,
    pattern: string,
    minimum: Option<Bound>,
    maximum: Option<Bound>,
    items: Items,
    minItems: nat,
    maxItems: Option<nat>,
    properties: map<string, Option<Schema>>,
    required: seq<string>,
    minProperties: nat,
    additional: Option<bool>)

  /** The schema that asks for nothing. */
  const ANYTHING := Schema([], [], 0, None, "", None, None, NoItems, 0, None, map[], [], 0, None)

  type Matcher = (string, string) -> bool

  /** Which patterns the language of the form compiles. */
  type Engine = string -> bool

  predicate Whole(n: real) { n.Floor as real == n }

  predicate HasType(v: Json, name: string) {
    match v
    case Null => name == "null"
    case Bool(_) => name == "boolean"
    case Num(n) => name == "number" || (name == "integer" && Whole(n))
    case Str(_) => name == "string"
    case Arr(_) => name == "array"
    case Obj(_) => name == "object"
  }

  predicate AtMost(n: nat, limit: Option<nat>) { limit.None? || n <= limit.value }

  /** Keywords that bear on the value itself; each bears on its own type of value only. */
  predicate HoldsHere(m: Matcher, s: Schema, v: Json) {
    && (s.types == [] || exists t <- s.types :: HasType(v, t))
    && (s.enum == [] || v in s.enum)
    && match v
       case Num(n) =>
         && (s.minimum.None? || s.minimum.value as real <= n)
         && (s.maximum.None? || n <= s.maximum.value as real)
       case Str(text) => s.minLength <= |text| && AtMost(|text|, s.maxLength) && (s.pattern == "" || m(s.pattern, text))
       case Arr(items) => s.minItems <= |items| && AtMost(|items|, s.maxItems)
       case Obj(fields) =>
         && s.minProperties <= |fields|
         && (forall name <- s.required :: name in fields)
         && (s.additional == Some(false) ==> fields.Keys <= s.properties.Keys)
       case _ => true
  }

  /** The value satisfies the schema. */
  predicate Holds(m: Matcher, s: Schema, v: Json) {
    && HoldsHere(m, s, v)
    && (v.Arr? && s.items.Items? && s.items.schema.Some? ==>
          forall k :: 0 <= k < |v.items| ==> Holds(m, s.items.schema.value, v.items[k]))
    && (v.Obj? ==>
          forall name :: name in v.fields && name in s.properties && s.properties[name].Some? ==>
            Holds(m, s.properties[name].value, v.fields[name]))
  }

  // ---------------------------------------------------------------- Zod

  datatype Zod =
    | ZString(min: nat, max: Option<nat>, regex: string)   // no minimum is 0, no pattern is empty
    | ZBoolean
    | ZInt(least: Option<Bound>, most: Option<Bound>)
    | ZEnum(members: seq<string>)
    | ZArray(element: Zod, maxItems: Option<nat>)
    | ZRecord

  datatype ZField = ZField(name: string, schema: Zod, optional: bool)

  /** The length of a JavaScript string: UTF-16 code units. */
  function Units(s: string): nat {
    if s == "" then 0 else (if s[0] as int < 0x10000 then 1 else 2) + Units(s[1..])
  }

  /** What `parse` lets through. An integer is a safe one. */
  predicate Accepts(m: Matcher, z: Zod, v: Json) {
    match z
    case ZString(min, max, regex) =>
      v.Str? && min <= Units(v.s) && AtMost(Units(v.s), max) && (regex == "" || m(regex, v.s))
    case ZBoolean => v.Bool?
    case ZInt(least, most) =>
      && v.Num? && Whole(v.n) && -SAFE as real <= v.n <= SAFE as real
      && (least.None? || least.value as real <= v.n) && (most.None? || v.n <= most.value as real)
    case ZEnum(members) => v.Str? && v.s in members
    case ZArray(element, maxItems) =>
      v.Arr? && AtMost(|v.items|, maxItems) && forall k :: 0 <= k < |v.items| ==> Accepts(m, element, v.items[k])
    case ZRecord => v.Obj?
  }

  /** z.object on an object: each declared field, and unknown keys let through. */
  predicate AcceptsObject(m: Matcher, fields: seq<ZField>, v: map<string, Json>) {
    forall f <- fields :: if f.name in v then Accepts(m, f.schema, v[f.name]) else f.optional
  }

  // ---------------------------------------------------------------- ordinary values

  predicate Bmp(s: string) { forall k :: 0 <= k < |s| ==> s[k] as int < 0x10000 }

  /** Every string in it is in the basic plane, and every whole number is safe. */
  predicate Ordinary(v: Json) {
    match v
    case Num(n) => -SAFE as real <= n <= SAFE as real
    case Str(s) => Bmp(s)
    case Arr(items) => forall k :: 0 <= k < |items| ==> Ordinary(items[k])
    case Obj(fields) => forall name :: name in fields ==> Ordinary(fields[name])
    case _ => true
  }

  /** The two lengths agree on the basic plane, and there only: elsewhere code units are more. */
  lemma {:induction false} LengthsAgreeIff(s: string)
    ensures Units(s) >= |s|
    ensures Units(s) == |s| <==> Bmp(s)
  {
    if s != "" {
      LengthsAgreeIff(s[1..]);
      assert Bmp(s) <==> s[0] as int < 0x10000 && Bmp(s[1..]) by {
        assert forall k :: 0 <= k < |s| - 1 ==> s[1..][k] == s[k + 1];
        assert forall k :: 0 < k < |s| ==> s[k] == s[1..][k - 1];
      }
    }
  }
}
