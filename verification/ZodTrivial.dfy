/**
 Schemas that ask for nothing: read keyword by keyword, and met by every ordinary value and only then.
 */
module ZodTrivial {
  import opened Common
  import opened Schemas

  const EVERY_TYPE: seq<string> := ["null", "boolean", "number", "string", "array", "object"]

  predicate AnyType(s: Schema) { s.types == [] || forall t <- EVERY_TYPE :: t in s.types }

  ghost predicate AnyString(m: Matcher, s: Schema) {
    s.minLength == 0 && s.maxLength.None? && (s.pattern == "" || forall text | Bmp(text) :: m(s.pattern, text))
  }

  predicate AnyNumber(s: Schema) {
    (s.minimum.None? || s.minimum.value == -SAFE) && (s.maximum.None? || s.maximum.value == SAFE)
  }

  /** Nothing is asked for: no type left out, no list of values, no bound, no key, on this value or below. */
  ghost predicate Trivial(m: Matcher, schema: Option<Schema>)
    decreases schema
  {
    schema.Some? ==>
      var s := schema.value;
      && AnyType(s) && s.enum == [] && AnyString(m, s) && AnyNumber(s)
      && s.minItems == 0 && s.maxItems.None? && (s.items.Items? ==> Trivial(m, s.items.schema))
      && s.minProperties == 0 && s.required == [] && s.additional != Some(false)
      && forall name <- s.properties :: Trivial(m, s.properties[name])
  }

  lemma ATypeIsAllowed(s: Schema, v: Json)
    requires AnyType(s)
    ensures s.types == [] || exists t <- s.types :: HasType(v, t)
  {
    var t := match v
      case Null => EVERY_TYPE[0]
      case Bool(_) => EVERY_TYPE[1]
      case Num(_) => EVERY_TYPE[2]
      case Str(_) => EVERY_TYPE[3]
      case Arr(_) => EVERY_TYPE[4]
      case Obj(_) => EVERY_TYPE[5];
    assert t in EVERY_TYPE && HasType(v, t);
  }

  lemma {:induction false} ATrivialSchemaHolds(m: Matcher, s: Schema, v: Json)
    requires Trivial(m, Some(s)) && Ordinary(v)
    ensures Holds(m, s, v)
    decreases s
  {
    ATypeIsAllowed(s, v);
    if v.Arr? && s.items.Items? && s.items.schema.Some? {
      forall k | 0 <= k < |v.items| ensures Holds(m, s.items.schema.value, v.items[k]) {
        ATrivialSchemaHolds(m, s.items.schema.value, v.items[k]);
      }
    }
    if v.Obj? {
      forall name | name in v.fields && name in s.properties && s.properties[name].Some?
        ensures Holds(m, s.properties[name].value, v.fields[name])
      {
        ATrivialSchemaHolds(m, s.properties[name].value, v.fields[name]);
      }
    }
  }

  // ---------------------------------------------------------------- what a keyword refuses

  /** An ordinary value that the schema refuses. */
  ghost predicate Refused(m: Matcher, s: Schema, v: Json) { Ordinary(v) && !Holds(m, s, v) }

  function Repeated(n: nat): (s: string)
    ensures |s| == n && Bmp(s)
  {
    seq(n, _ => 'a')
  }

  lemma ATypeIsRefused(m: Matcher, s: Schema) returns (v: Json)
    requires !AnyType(s)
    ensures Refused(m, s, v)
  {
    if "null" !in s.types {
      v := Null;
    } else if "boolean" !in s.types {
      v := Bool(false);
    } else if "number" !in s.types {
      v := Num(0.5);
      assert 0.5.Floor == 0;
    } else if "string" !in s.types {
      v := Str("");
    } else if "array" !in s.types {
      v := Arr([]);
    } else {
      v := Obj(map[]);
    }
  }

  /** A string longer than all the strings of a list. */
  function Longest(values: seq<Json>): (n: nat)
    ensures forall v <- values | v.Str? :: |v.s| <= n
  {
    if values == [] then 0 else
      var rest := Longest(values[1..]);
      assert forall v <- values :: v == values[0] || v in values[1..];
      if values[0].Str? && |values[0].s| > rest then |values[0].s| else rest
  }

  lemma AStringIsRefused(m: Matcher, s: Schema) returns (v: Json)
    requires !AnyString(m, s)
    ensures Refused(m, s, v)
  {
    if s.minLength > 0 {
      v := Str("");
    } else if s.maxLength.Some? {
      v := Str(Repeated(s.maxLength.value + 1));
    } else {
      var text :| Bmp(text) && !m(s.pattern, text);
      v := Str(text);
    }
  }

  lemma ANumberIsRefused(m: Matcher, s: Schema) returns (v: Json)
    requires !AnyNumber(s)
    ensures Refused(m, s, v)
  {
    if s.minimum.Some? && s.minimum.value > -SAFE {
      v := Num(-SAFE as real);
    } else {
      v := Num(SAFE as real);
    }
  }

  /** A key that is not among some given ones. */
  lemma AFreshKey(names: set<string>) returns (key: string)
    ensures key !in names
  {
    var bound := LongerThanAll(names);
    key := Repeated(bound + 1);
  }

  lemma {:induction false} LongerThanAll(names: set<string>) returns (n: nat)
    ensures forall name <- names :: |name| <= n
  {
    if names == {} {
      n := 0;
    } else {
      var name :| name in names;
      n := LongerThanAll(names - {name});
      if |name| > n { n := |name|; }
    }
  }

  lemma AnObjectIsRefused(m: Matcher, s: Schema) returns (v: Json)
    requires s.minProperties > 0 || s.required != [] || s.additional == Some(false)
    ensures Refused(m, s, v)
  {
    if s.minProperties > 0 || s.required != [] {
      v := Obj(map[]);
      assert s.required != [] ==> s.required[0] in s.required;
    } else {
      var key := AFreshKey(s.properties.Keys);
      v := Obj(map[key := Null]);
      assert key in v.fields.Keys;
    }
  }

  lemma AnItemIsRefused(m: Matcher, s: Schema, w: Json)
    requires s.items.Items? && s.items.schema.Some? && Refused(m, s.items.schema.value, w)
    ensures Refused(m, s, Arr([w]))
  {
    assert Arr([w]).items[0] == w;
  }

  lemma APropertyIsRefused(m: Matcher, s: Schema, name: string, w: Json)
    requires name in s.properties && s.properties[name].Some? && Refused(m, s.properties[name].value, w)
    ensures Refused(m, s, Obj(map[name := w]))
  {
    assert Obj(map[name := w]).fields[name] == w;
  }

  lemma {:induction false} AnUntrivialSchemaRefuses(m: Matcher, s: Schema) returns (v: Json)
    requires !Trivial(m, Some(s))
    ensures Refused(m, s, v)
    decreases s
  {
    if !AnyType(s) {
      v := ATypeIsRefused(m, s);
    } else if s.enum != [] {
      v := Str(Repeated(Longest(s.enum) + 1));
      assert v !in s.enum;
    } else if !AnyString(m, s) {
      v := AStringIsRefused(m, s);
    } else if !AnyNumber(s) {
      v := ANumberIsRefused(m, s);
    } else if s.minItems > 0 {
      v := Arr([]);
    } else if s.maxItems.Some? {
      v := Arr(seq(s.maxItems.value + 1, _ => Null));
    } else if s.minProperties > 0 || s.required != [] || s.additional == Some(false) {
      v := AnObjectIsRefused(m, s);
    } else if s.items.Items? && !Trivial(m, s.items.schema) {
      var w := AnUntrivialSchemaRefuses(m, s.items.schema.value);
      AnItemIsRefused(m, s, w);
      v := Arr([w]);
    } else {
      var name :| name in s.properties && !Trivial(m, s.properties[name]);
      var w := AnUntrivialSchemaRefuses(m, s.properties[name].value);
      APropertyIsRefused(m, s, name, w);
      v := Obj(map[name := w]);
    }
  }

  /** A schema holds of every ordinary value exactly when no keyword of it asks for anything. */
  lemma TrivialIff(m: Matcher, s: Schema)
    ensures Trivial(m, Some(s)) <==> forall v :: Ordinary(v) ==> Holds(m, s, v)
  {
    if Trivial(m, Some(s)) {
      forall v | Ordinary(v) ensures Holds(m, s, v) {
        ATrivialSchemaHolds(m, s, v);
      }
    } else {
      var v := AnUntrivialSchemaRefuses(m, s);
      assert Ordinary(v);
    }
  }
}
