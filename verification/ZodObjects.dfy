/**
 What a declaration means for a request body: the object validator against the object schema, never
 narrower, and exactly as wide under a condition on the schema.
 */
module ZodObjects {
  import opened Common
  import opened Names
  import opened Schemas
  import opened ZodBodies
  import opened ZodMeaning
  import opened ZodModule
  import opened ZodTrivial
  import opened Zodgen

  /** The validator that the declaration of a schema reads as. */
  ghost function Validator(schema: Schema): seq<ZField>
    requires BodyRendered(schema)
  {
    FieldsOf(schema, Fields(schema))
  }

  predicate AllCompile(schema: Schema) {
    forall name <- schema.properties :: Compile(schema.properties[name]).Ok?
  }

  /** One declared name of a body: absent and not required, or taken by its own validator. */
  predicate TakesName(m: Matcher, schema: Schema, name: string, v: map<string, Json>)
    requires name in schema.properties && Compile(schema.properties[name]).Ok?
  {
    if name in v then Accepts(m, Compile(schema.properties[name]).value, v[name]) else name !in schema.required
  }

  lemma RenderedIff(schema: Schema)
    ensures BodyRendered(schema) <==> AllCompile(schema)
  {
    var fields := Fields(schema);
    forall name | name in schema.properties ensures name in fields {
      assert name in Elements(fields);
    }
    forall k | 0 <= k < |fields| ensures fields[k] in schema.properties {
      assert fields[k] in Elements(fields);
    }
  }

  /** The list of fields is the map of properties: nothing is lost and nothing is added by sorting. */
  lemma AcceptsIff(m: Matcher, schema: Schema, v: map<string, Json>)
    requires BodyRendered(schema)
    ensures AllCompile(schema)
    ensures AcceptsObject(m, Validator(schema), v) <==>
              forall name <- schema.properties :: TakesName(m, schema, name, v)
  {
    RenderedIff(schema);
    var fields, z := Fields(schema), Validator(schema);
    if AcceptsObject(m, z, v) {
      forall name | name in schema.properties ensures TakesName(m, schema, name, v) {
        assert name in Elements(fields);
        var k :| 0 <= k < |fields| && fields[k] == name;
        assert z[k] in z;
      }
    }
    if forall name <- schema.properties :: TakesName(m, schema, name, v) {
      forall f | f in z ensures if f.name in v then Accepts(m, f.schema, v[f.name]) else f.optional {
        var k :| 0 <= k < |z| && z[k] == f;
        assert TakesName(m, schema, fields[k], v);
      }
    }
  }

  /** A body that the contract takes is refused by the form iff some value it declares strays. */
  lemma ABodyIsRefusedAloneIff(m: Matcher, schema: Schema, v: map<string, Json>)
    requires BodyRendered(schema) && Holds(m, schema, Obj(v))
    ensures !AcceptsObject(m, Validator(schema), v) <==>
            exists name :: name in v && name in schema.properties && Strays(schema.properties[name], v[name])
  {
    AcceptsIff(m, schema, v);
    forall name | name in schema.properties
      ensures TakesName(m, schema, name, v) <==> !(name in v && Strays(schema.properties[name], v[name]))
    {
      if name in v {
        NarrowerIff(m, schema.properties[name], v[name]);
      }
    }
  }

  /** A body that the server takes is taken by the form. */
  lemma ABodyIsNeverRefusedAlone(m: Matcher, schema: Schema, v: map<string, Json>)
    requires BodyRendered(schema) && Ordinary(Obj(v)) && Holds(m, schema, Obj(v))
    ensures AcceptsObject(m, Validator(schema), v)
  {
    RenderedIff(schema);
    ABodyIsRefusedAloneIff(m, schema, v);
    forall name | name in v && name in schema.properties ensures !Strays(schema.properties[name], v[name]) {
      OrdinaryValuesDoNotStray(m, schema.properties[name], v[name]);
    }
  }

  // ---------------------------------------------------------------- exactly as wide

  function RequiredNames(schema: Schema): set<string> { Elements(schema.required) }

  /** Some ordinary value can be given to every declared property that is required. */
  ghost predicate Fillable(m: Matcher, schema: Schema)
  {
    forall name <- schema.properties :: name in schema.required ==> CanBeGiven(m, schema, name)
  }

  ghost predicate CanBeGiven(m: Matcher, schema: Schema, name: string)
    requires name in schema.properties
  {
    Compile(schema.properties[name]).Ok? && Inhabited(m, Compile(schema.properties[name]).value)
  }

  /**
   The condition on a body, on keys that it declares: it is an object and no list of values, its
   required names are declared, its minimum of keys is met by them, and each property is exact.
   */
  ghost predicate ExactOnDeclared(m: Matcher, schema: Schema)
  {
    && (schema.types == [] || "object" in schema.types)
    && schema.enum == []
    && RequiredNames(schema) <= schema.properties.Keys
    && schema.minProperties <= |RequiredNames(schema)|
    && forall name <- schema.properties :: schema.properties[name].Some? && Exact(m, schema.properties[name])
  }

  /** ... and on any keys: it does not close them. */
  ghost predicate ExactBody(m: Matcher, schema: Schema)
  {
    ExactOnDeclared(m, schema) && schema.additional != Some(false)
  }

  predicate Known(schema: Schema, v: map<string, Json>) { v.Keys <= schema.properties.Keys }

  lemma {:induction false} ASubsetIsNoLarger<T>(a: set<T>, b: set<T>)
    requires a <= b
    ensures |a| <= |b|
  {
    if a != {} {
      var x :| x in a;
      ASubsetIsNoLarger(a - {x}, b - {x});
    }
  }

  lemma ExactBodyMeansEqual(m: Matcher, schema: Schema, v: map<string, Json>)
    requires BodyRendered(schema) && ExactOnDeclared(m, schema) && Ordinary(Obj(v))
    requires schema.additional == Some(false) ==> Known(schema, v)
    ensures AcceptsObject(m, Validator(schema), v) <==> Holds(m, schema, Obj(v))
  {
    AcceptsIff(m, schema, v);
    if Holds(m, schema, Obj(v)) {
      ABodyIsNeverRefusedAlone(m, schema, v);
    }
    if AcceptsObject(m, Validator(schema), v) {
      forall name | name in schema.required ensures name in v {
        assert name in RequiredNames(schema);
        assert TakesName(m, schema, name, v);
      }
      ASubsetIsNoLarger(RequiredNames(schema), v.Keys);
      forall name | name in v && name in schema.properties ensures Holds(m, schema.properties[name].value, v[name]) {
        assert TakesName(m, schema, name, v);
        ExactMeansEqual(m, schema.properties[name], v[name]);
      }
      assert HasType(Obj(v), "object");
    }
  }

  /** A required property that nothing can be given to: neither side takes any body. */
  lemma NothingIsTaken(m: Matcher, schema: Schema, v: map<string, Json>)
    requires BodyRendered(schema) && !Fillable(m, schema) && Ordinary(Obj(v))
    ensures !AcceptsObject(m, Validator(schema), v) && !Holds(m, schema, Obj(v))
  {
    var name :| name in schema.properties && name in schema.required && !CanBeGiven(m, schema, name);
    AcceptsIff(m, schema, v);
    InhabitedIff(m, Compile(schema.properties[name]).value);
    assert !TakesName(m, schema, name, v);
    if Holds(m, schema, Obj(v)) {
      ABodyIsNeverRefusedAlone(m, schema, v);
    }
  }

  // ---------------------------------------------------------------- and only then

  /** The declared names that a body has to give. */
  function DeclaredRequired(schema: Schema): (names: set<string>)
    ensures names <= schema.properties.Keys && names <= RequiredNames(schema)
  {
    RequiredNames(schema) * schema.properties.Keys
  }

  ghost function Filling(m: Matcher, schema: Schema, name: string): (w: Json)
    requires name in schema.properties && CanBeGiven(m, schema, name)
    ensures Ordinary(w) && Accepts(m, Compile(schema.properties[name]).value, w)
  {
    InhabitedIff(m, Compile(schema.properties[name]).value);
    var w :| Ordinary(w) && Accepts(m, Compile(schema.properties[name]).value, w);
    w
  }

  /** A body filled on exactly the names it has to give. */
  ghost function Filled(m: Matcher, schema: Schema): (v: map<string, Json>)
    requires Fillable(m, schema)
    ensures v.Keys == DeclaredRequired(schema) && Ordinary(Obj(v))
    ensures forall name <- v ::
              Compile(schema.properties[name]).Ok? && Accepts(m, Compile(schema.properties[name]).value, v[name])
  {
    map name | name in DeclaredRequired(schema) :: Filling(m, schema, name)
  }

  lemma FilledIsTaken(m: Matcher, schema: Schema)
    requires BodyRendered(schema) && Fillable(m, schema)
    ensures AcceptsObject(m, Validator(schema), Filled(m, schema))
  {
    var v := Filled(m, schema);
    AcceptsIff(m, schema, v);
    forall name | name in schema.properties ensures TakesName(m, schema, name, v) {
      if name in schema.required {
        assert name in DeclaredRequired(schema);
      }
    }
  }

  /** A body that the validator takes and the schema does not. */
  ghost predicate Wider(m: Matcher, schema: Schema, v: map<string, Json>)
    requires BodyRendered(schema)
  {
    Ordinary(Obj(v)) && AcceptsObject(m, Validator(schema), v) && !Holds(m, schema, Obj(v))
  }

  /** Where the schema excludes objects, requires an undeclared name or asks for more keys: the filled body. */
  lemma TheFilledBodyIsWider(m: Matcher, schema: Schema) returns (v: map<string, Json>)
    requires BodyRendered(schema) && Fillable(m, schema)
    requires || !(schema.types == [] || "object" in schema.types)
             || !(RequiredNames(schema) <= schema.properties.Keys)
             || schema.minProperties > |RequiredNames(schema)|
    ensures Wider(m, schema, v)
  {
    v := Filled(m, schema);
    FilledIsTaken(m, schema);
    if !(RequiredNames(schema) <= schema.properties.Keys) {
      var name :| name in RequiredNames(schema) && name !in schema.properties.Keys;
      assert name in schema.required && name !in v;
    } else {
      ASubsetIsNoLarger(v.Keys, RequiredNames(schema));
      assert |v| == |v.Keys|;
    }
  }

  /** An undeclared key changes nothing for the form. */
  lemma AnUnknownKeyIsTaken(m: Matcher, schema: Schema, v: map<string, Json>, key: string, value: Json)
    requires BodyRendered(schema) && AcceptsObject(m, Validator(schema), v) && key !in schema.properties
    ensures AcceptsObject(m, Validator(schema), v[key := value])
  {
    AcceptsIff(m, schema, v);
    AcceptsIff(m, schema, v[key := value]);
    forall name | name in schema.properties ensures TakesName(m, schema, name, v[key := value]) {
      assert TakesName(m, schema, name, v);
    }
  }

  /** An undeclared key is let through by the form, and refused by a closed schema. */
  lemma AnUnknownKeyIsLetThrough(m: Matcher, schema: Schema, v: map<string, Json>, key: string, value: Json)
    requires BodyRendered(schema) && AcceptsObject(m, Validator(schema), v)
    requires key !in schema.properties && schema.additional == Some(false)
    ensures AcceptsObject(m, Validator(schema), v[key := value])
    ensures !Holds(m, schema, Obj(v[key := value]))
  {
    AnUnknownKeyIsTaken(m, schema, v, key, value);
    assert key in v[key := value].Keys;
  }

  /** The keys of the objects of a list. */
  function KeysOfAll(values: seq<Json>): (keys: set<string>)
    ensures forall v <- values | v.Obj? :: v.fields.Keys <= keys
  {
    if values == [] then {} else
      var rest := KeysOfAll(values[1..]);
      assert forall v <- values :: v == values[0] || v in values[1..];
      if values[0].Obj? then values[0].fields.Keys + rest else rest
  }

  lemma StillOrdinary(v: map<string, Json>, name: string, w: Json)
    requires Ordinary(Obj(v)) && Ordinary(w)
    ensures Ordinary(Obj(v[name := w]))
  {
  }

  /** Where the schema closes its keys or lists its values: the filled body, with one key more. */
  lemma OneMoreKeyIsWider(m: Matcher, schema: Schema) returns (v: map<string, Json>)
    requires BodyRendered(schema) && Fillable(m, schema)
    requires schema.additional == Some(false) || schema.enum != []
    ensures Wider(m, schema, v)
  {
    var filled := Filled(m, schema);
    var key := AFreshKey(schema.properties.Keys + KeysOfAll(schema.enum));
    v := filled[key := Null];
    FilledIsTaken(m, schema);
    AnUnknownKeyIsTaken(m, schema, filled, key, Null);
    StillOrdinary(filled, key, Null);
    assert key in v.Keys;
  }

  /** The filled body, but for one property that holds a value wider than its schema. */
  lemma OneWiderProperty(m: Matcher, schema: Schema, name: string, w: Json) returns (v: map<string, Json>)
    requires BodyRendered(schema) && Fillable(m, schema)
    requires name in schema.properties && Ordinary(w)
    requires Accepts(m, Compile(schema.properties[name]).value, w) && !Holds(m, schema.properties[name].value, w)
    ensures Wider(m, schema, v)
  {
    var filled := Filled(m, schema);
    v := filled[name := w];
    FilledIsTaken(m, schema);
    ReplacedIsTaken(m, schema, filled, name, w);
    OnePropertyFails(m, schema, v, name);
    StillOrdinary(filled, name, w);
  }

  lemma ReplacedIsTaken(m: Matcher, schema: Schema, v: map<string, Json>, name: string, w: Json)
    requires BodyRendered(schema) && AcceptsObject(m, Validator(schema), v)
    requires name in schema.properties && Accepts(m, Compile(schema.properties[name]).value, w)
    ensures AcceptsObject(m, Validator(schema), v[name := w])
  {
    AcceptsIff(m, schema, v);
    AcceptsIff(m, schema, v[name := w]);
    forall other | other in schema.properties ensures TakesName(m, schema, other, v[name := w]) {
      assert TakesName(m, schema, other, v);
    }
  }

  lemma OnePropertyFails(m: Matcher, schema: Schema, v: map<string, Json>, name: string)
    requires name in v && name in schema.properties && schema.properties[name].Some?
    requires !Holds(m, schema.properties[name].value, v[name])
    ensures !Holds(m, schema, Obj(v))
  {
  }

  lemma AWiderBody(m: Matcher, schema: Schema) returns (v: map<string, Json>)
    requires BodyRendered(schema) && Fillable(m, schema) && !ExactBody(m, schema)
    ensures Wider(m, schema, v)
  {
    if schema.additional == Some(false) || schema.enum != [] {
      v := OneMoreKeyIsWider(m, schema);
    } else if forall name <- schema.properties :: schema.properties[name].Some? && Exact(m, schema.properties[name]) {
      v := TheFilledBodyIsWider(m, schema);
    } else {
      var name :| name in schema.properties && !Exact(m, schema.properties[name]);
      var w := AWiderValue(m, schema.properties[name]);
      v := OneWiderProperty(m, schema, name, w);
    }
  }

  /**
   On every ordinary body, the validator means the schema exactly when the condition holds of the
   schema, or a required property is such that neither side takes anything: for every object schema
   whose properties are rendered.
   */
  lemma ExactBodyIff(m: Matcher, schema: Schema)
    requires BodyRendered(schema)
    ensures ExactBody(m, schema) || !Fillable(m, schema) <==>
            forall v :: Ordinary(Obj(v)) ==> (AcceptsObject(m, Validator(schema), v) <==> Holds(m, schema, Obj(v)))
  {
    if ExactBody(m, schema) || !Fillable(m, schema) {
      forall v | Ordinary(Obj(v)) ensures AcceptsObject(m, Validator(schema), v) <==> Holds(m, schema, Obj(v)) {
        if ExactBody(m, schema) {
          ExactBodyMeansEqual(m, schema, v);
        } else {
          NothingIsTaken(m, schema, v);
        }
      }
    } else {
      var v := AWiderBody(m, schema);
      assert Ordinary(Obj(v));
    }
  }

  // ---------------------------------------------------------------- end to end

  lemma {:induction false} DeclaredAt(bodies: map<string, Schema>, names: seq<string>, k: nat)
    requires BodiesRendered(bodies, names) && k < |names|
    ensures |AllDeclared(bodies, names)| == |names| && names[k] in bodies && BodyRendered(bodies[names[k]])
    ensures AllDeclared(bodies, names)[k] == Declared(names[k], Validator(bodies[names[k]]))
  {
    if k == 0 {
      if |names| > 1 { DeclaredAt(bodies, names[1..], 0); }
    } else {
      DeclaredAt(bodies, names[1..], k - 1);
    }
  }

  /**
   From the document to the form: when the names and patterns can be written, the text that render
   returns reads back, for every collected body, as a validator that takes every ordinary body that the
   contract takes - and no other, if the schema meets the condition, on the keys that it declares and,
   unless it closes them, on any.
   */
  lemma TheTextMeansTheContract(m: Matcher, header: string, doc: Document, bodies: map<string, Schema>, text: string,
                                name: string, v: map<string, Json>, e: Engine) returns (k: nat)
    requires Collects(doc, bodies) && RenderedFrom(header, bodies, Ok(text)) && name in bodies
    requires AllWritable(bodies, Sorted(bodies.Keys), e) && Ordinary(Obj(v))
    ensures ReadModule(header, text, e).Some?
    ensures k < |ReadModule(header, text, e).value| && ReadModule(header, text, e).value[k].name == name
    ensures Holds(m, bodies[name], Obj(v)) ==> AcceptsObject(m, ReadModule(header, text, e).value[k].fields, v)
    ensures ExactOnDeclared(m, bodies[name]) && (bodies[name].additional == Some(false) ==> Known(bodies[name], v)) ==>
              (AcceptsObject(m, ReadModule(header, text, e).value[k].fields, v) <==> Holds(m, bodies[name], Obj(v)))
  {
    var names := Sorted(bodies.Keys);
    TheModuleReadsBackIff(header, bodies, text, e);
    assert name in Elements(names);
    k :| 0 <= k < |names| && names[k] == name;
    DeclaredAt(bodies, names, k);
    RenderedIff(bodies[name]);
    if Holds(m, bodies[name], Obj(v)) {
      ABodyIsNeverRefusedAlone(m, bodies[name], v);
    }
    if ExactOnDeclared(m, bodies[name]) && (bodies[name].additional == Some(false) ==> Known(bodies[name], v)) {
      ExactBodyMeansEqual(m, bodies[name], v);
    }
  }
}
