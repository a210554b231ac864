/**
 What the rendered validators mean: never narrower than the schema on ordinary values, and exactly as
 wide under a condition that can be read off the schema.
 */
module ZodMeaning {
  import opened Common
  import opened Schemas
  import opened ZodTrivial
  import opened Zodgen

  // ---------------------------------------------------------------- never narrower

  /**
   What a schema takes and its validator may not: a string whose code units exceed the maximum, an
   integer that is not a safe one, at any depth of array. No other keyword can make it narrower.
   */
  predicate Strays(schema: Option<Schema>, v: Json)
    decreases schema
  {
    && schema.Some? && schema.value.enum == []
    && var s := schema.value;
       match v
       case Str(text) => Is(s.types, "string") && s.maxLength.Some? && Units(text) > s.maxLength.value
       case Num(n) => Is(s.types, "integer") && !(-SAFE as real <= n <= SAFE as real)
       case Arr(items) =>
         Is(s.types, "array") && s.items.Items? && exists k :: 0 <= k < |items| && Strays(s.items.schema, items[k])
       case _ => false
  }

  lemma AListIsNarrowerIff(m: Matcher, s: Schema, element: Zod, items: seq<Json>)
    requires s.enum == [] && Is(s.types, "array") && s.items.Items? && AtMost(|items|, s.maxItems)
    requires forall k :: 0 <= k < |items| ==> (!Accepts(m, element, items[k]) <==> Strays(s.items.schema, items[k]))
    ensures !Accepts(m, ZArray(element, s.maxItems), Arr(items)) <==> Strays(Some(s), Arr(items))
  {
  }

  /** On every value whatever: what the schema takes is refused by the validator iff it strays. */
  lemma {:induction false} NarrowerIff(m: Matcher, schema: Option<Schema>, v: Json)
    requires Compile(schema).Ok? && Holds(m, schema.value, v)
    ensures !Accepts(m, Compile(schema).value, v) <==> Strays(schema, v)
    decreases schema
  {
    var s := schema.value;
    if s.enum != [] {
      var k :| 0 <= k < |s.enum| && s.enum[k] == v;
      assert EnumMembers(s.enum).value[k] == v.s;
    } else {
      assert HasType(v, s.types[0]);
      if v.Str? {
        LengthsAgreeIff(v.s);
      } else if v.Arr? {
        forall k | 0 <= k < |v.items|
          ensures !Accepts(m, Compile(s.items.schema).value, v.items[k]) <==> Strays(s.items.schema, v.items[k])
        {
          NarrowerIff(m, s.items.schema, v.items[k]);
        }
        AListIsNarrowerIff(m, s, Compile(s.items.schema).value, v.items);
      }
    }
  }

  /** An ordinary value that the schema takes does not stray. */
  lemma {:induction false} OrdinaryValuesDoNotStray(m: Matcher, schema: Option<Schema>, v: Json)
    requires Compile(schema).Ok? && Holds(m, schema.value, v) && Ordinary(v)
    ensures !Strays(schema, v)
    decreases schema
  {
    var s := schema.value;
    if s.enum == [] && v.Str? {
      LengthsAgreeIff(v.s);
    } else if s.enum == [] && v.Arr? && Is(s.types, "array") {
      forall k | 0 <= k < |v.items| ensures !Strays(s.items.schema, v.items[k]) {
        OrdinaryValuesDoNotStray(m, s.items.schema, v.items[k]);
      }
    }
  }

  /**
   A value that the contract takes is taken by the form: the keywords that zodgen drops can only make
   its validator wider.
   */
  lemma NeverNarrower(m: Matcher, schema: Option<Schema>, v: Json)
    requires Compile(schema).Ok? && Ordinary(v) && Holds(m, schema.value, v)
    ensures Accepts(m, Compile(schema).value, v)
  {
    NarrowerIff(m, schema, v);
    OrdinaryValuesDoNotStray(m, schema, v);
  }

  /** Nothing of another type is ever let through: an enumeration's own values, or the one type named. */
  lemma AcceptsItsTypeOnly(m: Matcher, schema: Option<Schema>, v: Json)
    requires Compile(schema).Ok? && Accepts(m, Compile(schema).value, v)
    ensures if schema.value.enum != [] then v in schema.value.enum
            else |schema.value.types| == 1 && HasType(v, schema.value.types[0])
  {
    var s := schema.value;
    if s.enum != [] {
      var members := EnumMembers(s.enum).value;
      var k :| 0 <= k < |members| && members[k] == v.s;
      assert s.enum[k] == v;
    }
  }

  // ---------------------------------------------------------------- exactly as wide

  /**
   The condition, keyword by keyword: every listed value satisfies the rest of the schema; an array
   has no minimum, and its items are exact unless none is allowed; a free object asks for no key, and
   for nothing of the keys that it declares.
   */
  ghost predicate Exact(m: Matcher, schema: Option<Schema>)
    requires schema.Some?
  {
    var s := schema.value;
    if s.enum != [] then forall k :: 0 <= k < |s.enum| && Ordinary(s.enum[k]) ==> Holds(m, s, s.enum[k])
    else if Is(s.types, "array") then
      && s.minItems == 0
      && (s.maxItems == Some(0) || (s.items.Items? && s.items.schema.Some? ==> Exact(m, s.items.schema)))
    else if Is(s.types, "object") then
      s.minProperties == 0 && s.required == [] && forall name <- s.properties :: Trivial(m, s.properties[name])
    else true
  }

  lemma AFreeObjectHolds(m: Matcher, s: Schema, v: Json)
    requires s.types == ["object"] && s.enum == [] && s.additional == Some(true) && Exact(m, Some(s))
    requires v.Obj? && Ordinary(v)
    ensures Holds(m, s, v)
  {
    assert HasType(v, s.types[0]);
    forall name | name in v.fields && name in s.properties && s.properties[name].Some?
      ensures Holds(m, s.properties[name].value, v.fields[name])
    {
      ATrivialSchemaHolds(m, s.properties[name].value, v.fields[name]);
    }
  }

  lemma {:induction false} ExactMeansEqual(m: Matcher, schema: Option<Schema>, v: Json)
    requires Compile(schema).Ok? && Exact(m, schema) && Ordinary(v)
    ensures Accepts(m, Compile(schema).value, v) <==> Holds(m, schema.value, v)
    decreases schema
  {
    var s := schema.value;
    if Holds(m, s, v) {
      NeverNarrower(m, schema, v);
    }
    if Accepts(m, Compile(schema).value, v) {
      AcceptsItsTypeOnly(m, schema, v);
      if s.enum == [] && v.Str? {
        LengthsAgreeIff(v.s);
      } else if s.enum == [] && v.Arr? {
        forall k | 0 <= k < |v.items| ensures Holds(m, s.items.schema.value, v.items[k]) {
          ExactMeansEqual(m, s.items.schema, v.items[k]);
        }
      } else if s.enum == [] && v.Obj? {
        AFreeObjectHolds(m, s, v);
      }
    }
  }

  /** A value that the validator of an inexact schema lets through and the schema does not. */
  lemma {:induction false} AWiderValue(m: Matcher, schema: Option<Schema>) returns (v: Json)
    requires Compile(schema).Ok? && !Exact(m, schema)
    ensures Ordinary(v) && Accepts(m, Compile(schema).value, v) && !Holds(m, schema.value, v)
    decreases schema
  {
    var s := schema.value;
    if s.enum != [] {
      var k :| 0 <= k < |s.enum| && Ordinary(s.enum[k]) && !Holds(m, s, s.enum[k]);
      v := s.enum[k];
      assert EnumMembers(s.enum).value[k] == v.s;
    } else if Is(s.types, "array") {
      if s.minItems > 0 {
        v := Arr([]);
      } else {
        var w := AWiderValue(m, s.items.schema);
        v := Arr([w]);
        assert v.items[0] == w;
      }
    } else if s.minProperties > 0 || s.required != [] {
      v := Obj(map[]);
      assert s.required != [] ==> s.required[0] in s.required;
    } else {
      var name :| name in s.properties && !Trivial(m, s.properties[name]);
      var w := AnUntrivialSchemaRefuses(m, s.properties[name].value);
      APropertyIsRefused(m, s, name, w);
      v := Obj(map[name := w]);
    }
  }

  /**
   The validator means the schema, on every ordinary value, exactly when the condition holds of the
   schema: arrays of any depth, enumerations, strings, booleans, integers and free objects.
   */
  lemma ExactIff(m: Matcher, schema: Option<Schema>)
    requires Compile(schema).Ok?
    ensures Exact(m, schema) <==>
            forall v :: Ordinary(v) ==> (Accepts(m, Compile(schema).value, v) <==> Holds(m, schema.value, v))
  {
    if Exact(m, schema) {
      forall v | Ordinary(v) ensures Accepts(m, Compile(schema).value, v) <==> Holds(m, schema.value, v) {
        ExactMeansEqual(m, schema, v);
      }
    } else {
      var v := AWiderValue(m, schema);
      assert Ordinary(v);
    }
  }

  // ---------------------------------------------------------------- some value is let through

  /** Read keyword by keyword, but for a pattern, which some text of a fitting length has to match. */
  ghost predicate Inhabited(m: Matcher, z: Zod) {
    match z
    case ZString(min, max, regex) =>
      if regex == "" then AtMost(min, max) else exists text :: Bmp(text) && Accepts(m, z, Str(text))
    case ZInt(least, most) => least.None? || most.None? || least.value <= most.value
    case ZEnum(members) => exists k :: 0 <= k < |members| && Bmp(members[k])
    case _ => true
  }

  lemma AnInhabitant(m: Matcher, z: Zod) returns (w: Json)
    requires Inhabited(m, z)
    ensures Ordinary(w) && Accepts(m, z, w)
  {
    match z
    case ZString(min, _, regex) =>
      if regex == "" {
        w := Str(Repeated(min));
        LengthsAgreeIff(w.s);
      } else {
        var text :| Bmp(text) && Accepts(m, z, Str(text));
        w := Str(text);
      }
    case ZBoolean => w := Bool(true);
    case ZInt(least, most) =>
      var n := if least.Some? then least.value else if most.Some? then most.value else 0;
      w := Num(n as real);
    case ZEnum(members) =>
      var k :| 0 <= k < |members| && Bmp(members[k]);
      w := Str(members[k]);
    case ZArray(_, _) => w := Arr([]);
    case ZRecord => w := Obj(map[]);
  }

  /** A validator lets some ordinary value through iff its keywords leave room for one. */
  lemma InhabitedIff(m: Matcher, z: Zod)
    ensures Inhabited(m, z) <==> exists w :: Ordinary(w) && Accepts(m, z, w)
  {
    if Inhabited(m, z) {
      var w := AnInhabitant(m, z);
      assert Ordinary(w);
    }
    if w :| Ordinary(w) && Accepts(m, z, w) {
      match z
      case ZString(min, max, regex) =>
        LengthsAgreeIff(w.s);
        assert Bmp(w.s) && Accepts(m, z, Str(w.s));
      case ZEnum(members) =>
        var k :| 0 <= k < |members| && members[k] == w.s;
        assert Bmp(members[k]);
      case _ =>
    }
  }

  // ---------------------------------------------------------------- outside the ordinary

  /**
   Lengths are counted in code units on one side and in code points on the other: a string outside
   the basic plane can satisfy the contract and be refused by the form.
   */
  lemma AnAstralStringIsRefused(m: Matcher)
    ensures var s := ANYTHING.(types := ["string"], maxLength := Some(1));
            var v := Str(['\U{1F600}']);
            && Compile(Some(s)).Ok? && Exact(m, Some(s)) && !Ordinary(v)
            && Holds(m, s, v) && !Accepts(m, Compile(Some(s)).value, v)
  {
    var text := ['\U{1F600}'];
    assert text[1..] == "";
    assert Units(text) == 2;
    assert HasType(Str(text), "string");
  }

  /**
   The branch of the free object never reads the declared properties: an object that declares one and
   lets others through is rendered as a record, where the comment on that branch expects the refusal.
   */
  lemma ADeclaredPropertyIsDropped(m: Matcher)
    ensures var s := ANYTHING.(types := ["object"], additional := Some(true),
                               properties := map["a" := Some(ANYTHING.(types := ["string"]))]);
            var v := Obj(map["a" := Num(1.0)]);
            && Compile(Some(s)) == Ok(ZRecord) && !Exact(m, Some(s))
            && Ordinary(v) && Accepts(m, ZRecord, v) && !Holds(m, s, v)
  {
    var p := ANYTHING.(types := ["string"]);
    var s := ANYTHING.(types := ["object"], additional := Some(true), properties := map["a" := Some(p)]);
    assert !HasType(Num(1.0), p.types[0]) && !Holds(m, p, Num(1.0));
    APropertyIsRefused(m, s, "a", Num(1.0));
    assert "null" in EVERY_TYPE by { assert EVERY_TYPE[0] == "null"; }
    assert !Trivial(m, s.properties["a"]);
  }

  /** The contract's own list of scopes: an empty one is refused by the server, and not by the form. */
  lemma AMinimumOfItemsIsDropped(m: Matcher)
    ensures var item := ANYTHING.(types := ["string"], maxLength := Some(64));
            var s := ANYTHING.(types := ["array"], items := Items(Some(item)), minItems := 1, maxItems := Some(16));
            && Compile(Some(s)).Ok? && !Exact(m, Some(s))
            && Accepts(m, Compile(Some(s)).value, Arr([])) && !Holds(m, s, Arr([]))
  {
  }
}
