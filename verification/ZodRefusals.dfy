/**
 What zodgen refuses: which schemas it renders, read off their keywords, and which refusal a document
 meets.
 */
module ZodRefusals {
  import opened Common
  import opened Names
  import opened Schemas
  import opened Zodgen
  import opened ZodModule

  // ---------------------------------------------------------------- one property

  /** A listed value that stands between single quotes as it is. */
  predicate Quotable(v: Json) {
    v.Str? && forall c <- v.s :: c != '\'' && c != '\\' && c != '\n' && c != '\r'
  }

  /**
   The property has a schema, and that lists values that can be quoted; or lists none and has one type: a
   string, a boolean, an integer, an array of items that can be rendered, or an object open to any key.
   */
  predicate Renderable(schema: Option<Schema>) {
    && schema.Some?
    && var s := schema.value;
    if s.enum != [] then forall v <- s.enum :: Quotable(v)
    else
      || s.types == ["string"] || s.types == ["boolean"] || s.types == ["integer"]
      || (s.types == ["array"] && s.items.Items? && Renderable(s.items.schema))
      || (s.types == ["object"] && s.additional == Some(true))
  }

  /** Listed value `k` is the first that cannot be quoted, for this reason. */
  predicate FirstUnquotable(values: seq<Json>, k: nat, reason: Refusal)
    requires k < |values|
  {
    && (forall j | 0 <= j < k :: Quotable(values[j]))
    && !Quotable(values[k])
    && reason == if values[k].Str? then EnumNotCarried else EnumNotAString
  }

  /** Why a property is refused: the innermost reason of an array of arrays. */
  predicate RefusedFor(schema: Option<Schema>, reason: Refusal) {
    if schema.None? then reason == NoSchema
    else
      var s := schema.value;
      if s.enum != [] then exists k: nat :: k < |s.enum| && FirstUnquotable(s.enum, k, reason)
      else if s.types == ["array"] && s.items.Items? then RefusedFor(s.items.schema, reason)
      else
        && reason == UnknownType
        && s.types != ["string"] && s.types != ["boolean"] && s.types != ["integer"]
        && !(s.types == ["object"] && s.additional == Some(true))
  }

  lemma {:induction false} MembersAreQuotable(values: seq<Json>)
    ensures EnumMembers(values).Ok? <==> forall v <- values :: Quotable(v)
    ensures EnumMembers(values).Err? ==>
              exists k: nat :: k < |values| && FirstUnquotable(values, k, EnumMembers(values).error)
  {
    if values != [] {
      var others := values[1..];
      MembersAreQuotable(others);
      assert forall v <- others :: v in values;
      if Quotable(values[0]) {
        assert forall v <- values :: v == values[0] || v in others;
        if EnumMembers(others).Err? {
          var k: nat :| k < |others| && FirstUnquotable(others, k, EnumMembers(others).error);
          assert FirstUnquotable(values, k + 1, EnumMembers(others).error);
        }
      } else {
        assert values[0] in values && FirstUnquotable(values, 0, EnumMembers(values).error);
      }
    }
  }

  lemma TheFirstIsOne(values: seq<Json>, k: nat, a: Refusal, l: nat, b: Refusal)
    requires k < |values| && l < |values| && FirstUnquotable(values, k, a) && FirstUnquotable(values, l, b)
    ensures a == b
  {
    assert k == l;
  }

  /**
   A property is compiled, as a tree and as text, exactly when it is renderable; and it is refused exactly for
   the reason its keywords give.
   */
  lemma {:induction false} RenderedIff(schema: Option<Schema>)
    ensures Compile(schema).Ok? <==> Renderable(schema)
    ensures ZodFor(schema).Ok? <==> Renderable(schema)
    ensures forall reason :: ZodFor(schema) == Err(reason) <==> RefusedFor(schema, reason)
    decreases schema
  {
    if schema.Some? {
      var s := schema.value;
      if s.enum != [] {
        MembersAreQuotable(s.enum);
        forall reason ensures ZodFor(schema) == Err(reason) <==> RefusedFor(schema, reason) {
          AnEnumerationIsRefusedFor(s.enum, reason);
        }
      } else if s.types == ["array"] && s.items.Items? {
        RenderedIff(s.items.schema);
      }
    }
  }

  lemma AnEnumerationIsRefusedFor(values: seq<Json>, reason: Refusal)
    ensures EnumMembers(values) == Err(reason) <==>
            exists k: nat :: k < |values| && FirstUnquotable(values, k, reason)
  {
    MembersAreQuotable(values);
    if k: nat :| k < |values| && FirstUnquotable(values, k, reason) {
      assert values[k] in values && !Quotable(values[k]);
      var l: nat :| l < |values| && FirstUnquotable(values, l, EnumMembers(values).error);
      TheFirstIsOne(values, k, reason, l, EnumMembers(values).error);
    }
  }

  // ---------------------------------------------------------------- a document

  /** Every property of the body can be rendered. */
  predicate Writable(schema: Schema) {
    forall field <- schema.properties :: Renderable(schema.properties[field])
  }

  lemma ABodyIsRenderedIff(schema: Schema)
    ensures BodyRendered(schema) <==> Writable(schema)
  {
    var fields := Fields(schema);
    forall field <- schema.properties ensures Rendered(schema, field) <==> Renderable(schema.properties[field]) {
      RenderedIff(schema.properties[field]);
    }
    if BodyRendered(schema) {
      forall field <- schema.properties ensures Renderable(schema.properties[field]) {
        assert field in Elements(fields);
      }
    }
    if Writable(schema) {
      forall k | 0 <= k < |fields| ensures fields[k] in schema.properties && Rendered(schema, fields[k]) {
        assert fields[k] in Elements(fields);
      }
    }
  }

  /** Nothing is refused exactly when every property of every body can be rendered. */
  lemma NoRefusal(bodies: map<string, Schema>)
    ensures FirstRefusal(bodies, Sorted(bodies.Keys)).None? <==> forall name <- bodies :: Writable(bodies[name])
  {
    var names := Sorted(bodies.Keys);
    NoneIsRefused(bodies, names);
    if BodiesRendered(bodies, names) {
      forall name <- bodies ensures Writable(bodies[name]) {
        assert name in Elements(names);
        ABodyIsRenderedIff(bodies[name]);
      }
    }
    if forall name <- bodies :: Writable(bodies[name]) {
      forall k | 0 <= k < |names| ensures names[k] in bodies && BodyRendered(bodies[names[k]]) {
        assert names[k] in Elements(names);
        ABodyIsRenderedIff(bodies[names[k]]);
      }
    }
  }

  /** Field `k` of the list is the first that is refused, for this reason. */
  predicate FailsAt(schema: Schema, fields: seq<string>, k: nat, f: Failure)
    requires Elements(fields) <= schema.properties.Keys && k < |fields|
  {
    && fields[k] in Elements(fields) && fields[k] == f.field
    && RefusedFor(schema.properties[f.field], f.reason)
    && AllRendered(schema, fields[..k])
  }

  lemma {:induction false} AFailureStandsSomewhere(name: string, schema: Schema, fields: seq<string>) returns (k: nat)
    requires Elements(fields) <= schema.properties.Keys && FirstFailure(name, schema, fields).Some?
    ensures k < |fields| && FirstFailure(name, schema, fields).value.schema == name
    ensures FailsAt(schema, fields, k, FirstFailure(name, schema, fields).value)
  {
    var others, last := fields[..|fields| - 1], fields[|fields| - 1];
    assert forall f <- others :: f in fields;
    assert last in Elements(fields);
    if FirstFailure(name, schema, others).Some? {
      k := AFailureStandsSomewhere(name, schema, others);
      assert fields[..k] == others[..k] && fields[k] == others[k];
      assert fields[k] in Elements(fields);
    } else {
      k := |others|;
      NoFailure(name, schema, others);
      RenderedIff(schema.properties[last]);
    }
  }

  /** The body `f` names has the field `f` names, refused for that reason, and every lesser field can be rendered. */
  predicate FirstIn(schema: Schema, f: Failure) {
    && f.field in schema.properties && RefusedFor(schema.properties[f.field], f.reason)
    && forall field <- schema.properties | Less(field, f.field) :: Renderable(schema.properties[field])
  }

  lemma ABodyFailsFirst(name: string, schema: Schema)
    requires FirstFailure(name, schema, Fields(schema)).Some?
    ensures FirstIn(schema, FirstFailure(name, schema, Fields(schema)).value)
  {
    var fields, f := Fields(schema), FirstFailure(name, schema, Fields(schema)).value;
    var k := AFailureStandsSomewhere(name, schema, fields);
    forall field <- schema.properties | Less(field, f.field) ensures Renderable(schema.properties[field]) {
      assert field in Elements(fields);
      var j :| 0 <= j < |fields| && fields[j] == field;
      ALesserStandsBefore(fields, j, k);
      assert fields[..k][j] == field;
      RenderedIff(schema.properties[field]);
    }
  }

  lemma ALesserStandsBefore(names: seq<string>, j: nat, k: nat)
    requires Ascending(names) && j < |names| && k < |names| && Less(names[j], names[k])
    ensures j < k
  {
    LessIsTotal(names[j], names[k]);
  }

  lemma {:induction false} ARefusalStandsSomewhere(bodies: map<string, Schema>, names: seq<string>) returns (k: nat)
    requires Elements(names) <= bodies.Keys && FirstRefusal(bodies, names).Some?
    ensures k < |names| && names[k] in bodies && FirstRefusal(bodies, names).value.schema == names[k]
    ensures FirstIn(bodies[names[k]], FirstRefusal(bodies, names).value)
    ensures BodiesRendered(bodies, names[..k])
  {
    var others, last := names[..|names| - 1], names[|names| - 1];
    assert forall f <- others :: f in names;
    assert last in names;
    if FirstRefusal(bodies, others).Some? {
      k := ARefusalStandsSomewhere(bodies, others);
      assert names[..k] == others[..k] && names[k] == others[k];
    } else {
      k := |others|;
      NoneIsRefused(bodies, others);
      var at := AFailureStandsSomewhere(last, bodies[last], Fields(bodies[last]));
      ABodyFailsFirst(last, bodies[last]);
    }
  }

  lemma TheCollectedAreRenderedIff(header: string, bodies: map<string, Schema>, r: Result<string, Failure>)
    requires RenderedFrom(header, bodies, r)
    ensures r.Ok? <==> forall name <- bodies :: Writable(bodies[name])
    ensures r.Err? ==>
              && r.error.schema in bodies && FirstIn(bodies[r.error.schema], r.error)
              && forall name <- bodies | Less(name, r.error.schema) :: Writable(bodies[name])
  {
    NoRefusal(bodies);
    if r.Err? {
      var names := Sorted(bodies.Keys);
      var k := ARefusalStandsSomewhere(bodies, names);
      forall name <- bodies | Less(name, names[k]) ensures Writable(bodies[name]) {
        assert name in Elements(names);
        var j :| 0 <= j < |names| && names[j] == name;
        ALesserStandsBefore(names, j, k);
        assert names[..k][j] == name;
        ABodyIsRenderedIff(bodies[name]);
      }
    }
  }

  lemma WhatIsReferredToIsCollected(doc: Document, bodies: map<string, Schema>, name: string, schema: Schema)
    requires Coherent(doc) && Collects(doc, bodies)
    ensures ReferredTo(doc, name, schema) <==> name in bodies && bodies[name] == schema
  {
    if ReferredTo(doc, name, schema) {
      var path, verb :| Refers(doc, path, verb, name, schema);
      assert ReferredTo(doc, name, bodies[name]);
    }
  }

  /** If the operations of a document refer to this body, all its properties can be rendered. */
  ghost predicate WritableIn(doc: Document, name: string, schema: Schema) {
    ReferredTo(doc, name, schema) ==> Writable(schema)
  }

  /**
   What a document is rendered as: a module exactly when every property of every body its operations refer to
   can be rendered; and otherwise the refusal of the least field that cannot be, of the least body that has
   one, for the reason its keywords give.
   */
  lemma ADocumentIsRenderedIff(header: string, doc: Document, r: Result<string, Failure>)
    requires Coherent(doc) && RendersAs(header, doc, r)
    ensures r.Ok? <==> forall name, schema :: WritableIn(doc, name, schema)
    ensures r.Err? ==>
              && (exists schema :: ReferredTo(doc, r.error.schema, schema) && FirstIn(schema, r.error))
              && forall name, schema | Less(name, r.error.schema) :: WritableIn(doc, name, schema)
  {
    var bodies :| Collects(doc, bodies) && RenderedFrom(header, bodies, r);
    TheCollectedAreRenderedIff(header, bodies, r);
    forall name, schema ensures ReferredTo(doc, name, schema) <==> name in bodies && bodies[name] == schema {
      WhatIsReferredToIsCollected(doc, bodies, name, schema);
    }
    if forall name, schema :: WritableIn(doc, name, schema) {
      forall name <- bodies ensures Writable(bodies[name]) {
        assert WritableIn(doc, name, bodies[name]);
      }
    }
    if r.Err? {
      assert ReferredTo(doc, r.error.schema, bodies[r.error.schema]);
    }
  }
}
