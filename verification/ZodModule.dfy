/**
 The module that zodgen writes: which request bodies it renders, in which order, and the object
 validator of each one. Maps are enumerated in no particular order, as in Go.
 */
module ZodModule {
  import opened Builders
  import opened Common
  import opened Literals
  import opened Names
  import opened Schemas
  import opened Zodgen

  // ---------------------------------------------------------------- one declaration, as text

  datatype Failure = Failure(schema: string, field: string, reason: Refusal)

  predicate Rendered(schema: Schema, field: string)
    requires field in schema.properties
  {
    ZodFor(schema.properties[field]).Ok?
  }

  function Line(schema: Schema, field: string): string
    requires field in schema.properties && Rendered(schema, field)
  {
    var expression := ZodFor(schema.properties[field]).value;
    "  " + (field + (": " + (expression + (if field in schema.required then ",\n" else ".optional(),\n"))))
  }

  function FailureAt(name: string, schema: Schema, field: string): Option<Failure>
    requires field in schema.properties
  {
    match ZodFor(schema.properties[field])
    case Err(reason) => Some(Failure(name, field, reason))
    case Ok(_) => None
  }

  /** The first field that is refused, in the order of the list. */
  function FirstFailure(name: string, schema: Schema, fields: seq<string>): Option<Failure>
    requires Elements(fields) <= schema.properties.Keys
  {
    if fields == [] then None
    else
      var others := fields[..|fields| - 1];
      assert forall f <- others :: f in fields;
      assert fields[|fields| - 1] in fields;
      var before := FirstFailure(name, schema, others);
      if before.Some? then before else FailureAt(name, schema, fields[|fields| - 1])
  }

  predicate AllRendered(schema: Schema, fields: seq<string>) {
    forall k :: 0 <= k < |fields| ==> fields[k] in schema.properties && Rendered(schema, fields[k])
  }

  lemma {:induction false} NoFailure(name: string, schema: Schema, fields: seq<string>)
    requires Elements(fields) <= schema.properties.Keys
    ensures FirstFailure(name, schema, fields).None? <==> AllRendered(schema, fields)
  {
    if fields != [] {
      var others := fields[..|fields| - 1];
      assert forall f <- others :: f in fields;
      NoFailure(name, schema, others);
      assert fields[|fields| - 1] in Elements(fields);
    }
  }

  function Lines(schema: Schema, fields: seq<string>): (lines: seq<string>)
    requires AllRendered(schema, fields)
    ensures |lines| == |fields| && forall k :: 0 <= k < |fields| ==> lines[k] == Line(schema, fields[k])
  {
    seq(|fields|, k requires 0 <= k < |fields| => Line(schema, fields[k]))
  }

  function Declaration(name: string, lines: seq<string>): string {
    "\nexport const " + (name + (" = z.object({\n" + (Concat(lines) + "})\n")))
  }

  // ---------------------------------------------------------------- one declaration, in place

  lemma OneFailureLater(name: string, schema: Schema, fields: seq<string>, i: nat)
    requires i < |fields| && Elements(fields) <= schema.properties.Keys
    ensures Elements(fields[..i]) <= schema.properties.Keys && Elements(fields[..i + 1]) <= schema.properties.Keys
    ensures fields[i] in schema.properties
    ensures FirstFailure(name, schema, fields[..i]).None? ==>
              FirstFailure(name, schema, fields[..i + 1]) == FailureAt(name, schema, fields[i])
  {
    assert fields[i] in Elements(fields);
    assert forall f <- fields[..i + 1] :: f in Elements(fields);
    assert forall f <- fields[..i] :: f in Elements(fields);
    assert fields[..i + 1][..i] == fields[..i];
  }

  lemma {:induction false} TheFirstFailureStays(name: string, schema: Schema, fields: seq<string>, i: nat)
    requires i <= |fields| && Elements(fields) <= schema.properties.Keys
    ensures Elements(fields[..i]) <= schema.properties.Keys
    ensures FirstFailure(name, schema, fields[..i]).Some? ==>
              FirstFailure(name, schema, fields) == FirstFailure(name, schema, fields[..i])
    decreases |fields| - i
  {
    assert forall f <- fields[..i] :: f in Elements(fields);
    if i == |fields| {
      assert fields[..i] == fields;
    } else {
      assert forall f <- fields[..i + 1] :: f in Elements(fields);
      assert fields[..i + 1][..i] == fields[..i];
      TheFirstFailureStays(name, schema, fields, i + 1);
    }
  }

  lemma ALineIsNext(schema: Schema, fields: seq<string>, i: nat, lines: seq<string>)
    requires i < |fields| && fields[i] in schema.properties && Rendered(schema, fields[i])
    requires AllRendered(schema, fields[..i]) && lines == Lines(schema, fields[..i])
    ensures AllRendered(schema, fields[..i + 1])
    ensures Lines(schema, fields[..i + 1]) == lines + [Line(schema, fields[i])]
    ensures Concat(lines + [Line(schema, fields[i])]) == Concat(lines) + Line(schema, fields[i])
  {
    assert (lines + [Line(schema, fields[i])])[..|lines|] == lines;
  }

  /** The loop over the sorted fields, which the first refusal leaves. */
  method WriteFields(out: Builder, name: string, schema: Schema, fields: seq<string>) returns (refused: Option<Failure>)
    requires Elements(fields) <= schema.properties.Keys
    modifies out
    ensures refused == FirstFailure(name, schema, fields)
    ensures refused.None? ==> AllRendered(schema, fields) && out.text == old(out.text) + Concat(Lines(schema, fields))
  {
    ghost var head := out.text;
    ghost var lines: seq<string> := [];
    for i := 0 to |fields|
      invariant Elements(fields[..i]) <= schema.properties.Keys
      invariant FirstFailure(name, schema, fields[..i]).None?
      invariant AllRendered(schema, fields[..i]) && lines == Lines(schema, fields[..i])
      invariant out.text == head + Concat(lines)
    {
      OneFailureLater(name, schema, fields, i);
      var field := fields[i];
      var expression := ZodFor(schema.properties[field]);
      if expression.Err? {
        TheFirstFailureStays(name, schema, fields, i + 1);
        return Some(Failure(name, field, expression.error));
      }
      var end := if field in schema.required then ",\n" else ".optional(),\n";
      out.WriteString("  " + (field + (": " + (expression.value + end))));
      ALineIsNext(schema, fields, i, lines);
      Regroup(head, Concat(lines), Line(schema, field));
      lines := lines + [Line(schema, field)];
    }
    assert fields[..|fields|] == fields;
    return None;
  }

  /**
   The declaration of one schema, whatever order its properties came in: its fields ascending, or the
   first refusal in that order.
   */
  method WriteSchema(out: Builder, name: string, schema: Schema) returns (refused: Option<Failure>)
    modifies out
    ensures var fields := Sorted(schema.properties.Keys);
            && refused == FirstFailure(name, schema, fields)
            && (refused.None? ==> AllRendered(schema, fields) &&
                                  out.text == old(out.text) + Declaration(name, Lines(schema, fields)))
  {
    ghost var before := out.text;
    out.WriteString("\nexport const " + (name + " = z.object({\n"));
    var keys := KeysOf(schema.properties);
    var fields := SortStrings(keys);
    SortedWhateverTheOrder(schema.properties.Keys, fields);
    refused := WriteFields(out, name, schema, fields);
    if refused.Some? {
      return;
    }
    out.WriteString("})\n");
    DeclarationInPieces(before, name, Lines(schema, fields));
  }

  lemma DeclarationInPieces(before: string, name: string, lines: seq<string>)
    ensures ((before + ("\nexport const " + (name + " = z.object({\n"))) + Concat(lines)) + "})\n" ==
            before + Declaration(name, lines)
  {
    var body := Concat(lines) + "})\n";
    Regroup(before + ("\nexport const " + (name + " = z.object({\n")), Concat(lines), "})\n");
    Regroup(before, "\nexport const " + (name + " = z.object({\n"), body);
    Regroup("\nexport const ", name + " = z.object({\n", body);
    Regroup(name, " = z.object({\n", body);
  }

  // ---------------------------------------------------------------- which schemas

  /** The JSON body of an operation: the reference it was written with, and the schema it resolves to. */
  datatype Media = Media(reference: string, schema: Schema)

  /** Paths to methods to the JSON body, when the operation has one. */
  type Document = map<string, map<string, Option<Media>>>

  const COMPONENTS := "#/components/schemas/"

  /** strings.CutPrefix: the name a reference carries. */
  function NameOf(media: Media): Option<string> {
    if COMPONENTS <= media.reference then Some(media.reference[|COMPONENTS|..]) else None
  }

  /** Some operation's body refers to `name`, and resolves it to `schema`. */
  ghost predicate Refers(doc: Document, path: string, verb: string, name: string, schema: Schema) {
    && path in doc && verb in doc[path] && doc[path][verb].Some?
    && NameOf(doc[path][verb].value) == Some(name) && doc[path][verb].value.schema == schema
  }

  ghost predicate ReferredTo(doc: Document, name: string, schema: Schema) {
    exists path, verb :: Refers(doc, path, verb, name, schema)
  }

  /** A body is referred to exactly when some operation names it under the schemas of the components. */
  lemma ABodyIsReferredToIff(doc: Document, name: string, schema: Schema)
    ensures ReferredTo(doc, name, schema) <==>
            exists path, verb ::
              && path in doc && verb in doc[path]
              && doc[path][verb] == Some(Media("#/components/schemas/" + name, schema))
  {
    if ReferredTo(doc, name, schema) {
      var path, verb :| Refers(doc, path, verb, name, schema);
      assert doc[path][verb].value.reference == COMPONENTS + name;
      assert doc[path][verb] == Some(Media("#/components/schemas/" + name, schema));
    }
    if path, verb :| path in doc && verb in doc[path]
                     && doc[path][verb] == Some(Media("#/components/schemas/" + name, schema)) {
      assert (COMPONENTS + name)[|COMPONENTS|..] == name;
      assert Refers(doc, path, verb, name, schema);
    }
  }

  /** Every name that a body refers to is there, with a schema that some body resolves it to. */
  ghost predicate Collects(doc: Document, seen: map<string, Schema>) {
    && (forall name <- seen :: ReferredTo(doc, name, seen[name]))
    && (forall path, verb, name, schema :: Refers(doc, path, verb, name, schema) ==> name in seen)
  }

  /** Equal names resolve to equal schemas, as one document's references do. */
  ghost predicate Coherent(doc: Document) {
    forall name, s, t :: ReferredTo(doc, name, s) && ReferredTo(doc, name, t) ==> s == t
  }

  lemma CollectedOnce(doc: Document, a: map<string, Schema>, b: map<string, Schema>)
    requires Coherent(doc) && Collects(doc, a) && Collects(doc, b)
    ensures a == b
  {
    forall name | name in a ensures name in b && a[name] == b[name] {
      assert ReferredTo(doc, name, a[name]);
      var path, verb :| Refers(doc, path, verb, name, a[name]);
      assert ReferredTo(doc, name, b[name]);
    }
    forall name | name in b ensures name in a {
      assert ReferredTo(doc, name, b[name]);
      var path, verb :| Refers(doc, path, verb, name, b[name]);
    }
  }

  /** What has been walked: the whole of some paths, and some verbs of the current one. */
  ghost predicate CollectsSoFar(doc: Document, seen: map<string, Schema>, paths: set<string>, path: string,
                                verbs: set<string>)
  {
    && (forall name <- seen :: ReferredTo(doc, name, seen[name]))
    && (forall p, verb, name, schema ::
          Refers(doc, p, verb, name, schema) && (p in paths || (p == path && verb in verbs)) ==>
          name in seen)
  }

  lemma APathStarts(doc: Document, seen: map<string, Schema>, paths: set<string>, path: string)
    requires CollectsSoFar(doc, seen, paths, "", {})
    ensures CollectsSoFar(doc, seen, paths, path, {})
  {
  }

  lemma APathEnds(doc: Document, seen: map<string, Schema>, paths: set<string>, path: string)
    requires path in doc && CollectsSoFar(doc, seen, paths, path, doc[path].Keys)
    ensures CollectsSoFar(doc, seen, paths + {path}, "", {})
  {
    forall p, verb, name, schema | Refers(doc, p, verb, name, schema) && p in paths + {path} ensures name in seen {
    }
  }

  lemma AllPathsEnded(doc: Document, seen: map<string, Schema>)
    requires CollectsSoFar(doc, seen, doc.Keys, "", {})
    ensures Collects(doc, seen)
  {
  }

  method RequestBodySchemas(doc: Document) returns (seen: map<string, Schema>)
    ensures Collects(doc, seen)
  {
    seen := map[];
    var paths := doc.Keys;
    while paths != {}
      invariant paths <= doc.Keys
      invariant CollectsSoFar(doc, seen, doc.Keys - paths, "", {})
      decreases |paths|
    {
      var path :| path in paths;
      var verbs := doc[path].Keys;
      ghost var done := doc.Keys - paths;
      APathStarts(doc, seen, done, path);
      assert doc[path].Keys - verbs == {};
      while verbs != {}
        invariant verbs <= doc[path].Keys
        invariant CollectsSoFar(doc, seen, done, path, doc[path].Keys - verbs)
        decreases |verbs|
      {
        var verb :| verb in verbs;
        var media := doc[path][verb];
        ghost var was := seen;
        if media.Some? && NameOf(media.value).Some? {
          var name := NameOf(media.value).value;
          assert Refers(doc, path, verb, name, media.value.schema);
          seen := seen[name := media.value.schema];
        }
        OneMoreVerb(doc, was, seen, done, path, doc[path].Keys - verbs, verb);
        verbs := verbs - {verb};
        assert doc[path].Keys - verbs == (doc[path].Keys - (verbs + {verb})) + {verb};
      }
      assert doc[path].Keys - verbs == doc[path].Keys;
      APathEnds(doc, seen, done, path);
      paths := paths - {path};
      assert doc.Keys - paths == done + {path};
    }
    assert doc.Keys - paths == doc.Keys;
    AllPathsEnded(doc, seen);
  }

  lemma OneMoreVerb(doc: Document, was: map<string, Schema>, seen: map<string, Schema>, paths: set<string>,
                    path: string,
                    verbs: set<string>, verb: string)
    requires path in doc && verb in doc[path] && CollectsSoFar(doc, was, paths, path, verbs)
    requires var media := doc[path][verb];
             if media.Some? && NameOf(media.value).Some?
             then seen == was[NameOf(media.value).value := media.value.schema]
             else seen == was
    ensures CollectsSoFar(doc, seen, paths, path, verbs + {verb})
  {
    var media := doc[path][verb];
    if media.Some? && NameOf(media.value).Some? {
      assert Refers(doc, path, verb, NameOf(media.value).value, media.value.schema);
    }
    forall p, v, name, schema | Refers(doc, p, v, name, schema) && (p in paths || (p == path && v in verbs + {verb}))
      ensures name in seen
    {
    }
  }

  // ---------------------------------------------------------------- the whole module

  ghost function Fields(schema: Schema): seq<string> { Sorted(schema.properties.Keys) }

  ghost predicate BodyRendered(schema: Schema) { AllRendered(schema, Fields(schema)) }

  ghost function DeclarationOf(name: string, schema: Schema): string
    requires BodyRendered(schema)
  {
    Declaration(name, Lines(schema, Fields(schema)))
  }

  /** The first refusal, in the order of the names and then of the fields. */
  ghost function FirstRefusal(bodies: map<string, Schema>, names: seq<string>): Option<Failure>
    requires Elements(names) <= bodies.Keys
  {
    if names == [] then None
    else
      var others, last := names[..|names| - 1], names[|names| - 1];
      assert forall f <- others :: f in names;
      assert last in names;
      var before := FirstRefusal(bodies, others);
      if before.Some? then before else FirstFailure(last, bodies[last], Fields(bodies[last]))
  }

  ghost predicate BodiesRendered(bodies: map<string, Schema>, names: seq<string>) {
    forall k :: 0 <= k < |names| ==> names[k] in bodies && BodyRendered(bodies[names[k]])
  }

  ghost function Declarations(bodies: map<string, Schema>, names: seq<string>): (d: seq<string>)
    requires BodiesRendered(bodies, names)
    ensures |d| == |names| && forall k :: 0 <= k < |names| ==> d[k] == DeclarationOf(names[k], bodies[names[k]])
  {
    if names == [] then [] else
      Declarations(bodies, names[..|names| - 1]) + [DeclarationOf(names[|names| - 1], bodies[names[|names| - 1]])]
  }

  /** What render returns from the schemas it collected: a function of them, with no order left in it. */
  ghost predicate RenderedFrom(header: string, bodies: map<string, Schema>, r: Result<string, Failure>) {
    var names := Sorted(bodies.Keys);
    match FirstRefusal(bodies, names)
    case Some(refused) => r == Err(refused)
    case None => BodiesRendered(bodies, names) && r == Ok(header + Concat(Declarations(bodies, names)))
  }

  lemma RenderedFromTheBack(bodies: map<string, Schema>, names: seq<string>)
    requires names != []
    ensures var last := names[|names| - 1];
            BodiesRendered(bodies, names) <==>
              BodiesRendered(bodies, names[..|names| - 1]) && last in bodies && BodyRendered(bodies[last])
  {
    assert names == names[..|names| - 1] + [names[|names| - 1]];
  }

  /** Nothing is refused iff every body is rendered. */
  lemma {:induction false} NoneIsRefused(bodies: map<string, Schema>, names: seq<string>)
    requires Elements(names) <= bodies.Keys
    ensures FirstRefusal(bodies, names).None? <==> BodiesRendered(bodies, names)
  {
    if names != [] {
      var others, last := names[..|names| - 1], names[|names| - 1];
      assert forall f <- others :: f in names;
      assert last in names;
      NoneIsRefused(bodies, others);
      NoFailure(last, bodies[last], Fields(bodies[last]));
      RenderedFromTheBack(bodies, names);
    }
  }

  /** ... and then the module is its header and the declarations. */
  lemma RenderedWhole(header: string, bodies: map<string, Schema>) returns (text: string)
    requires BodiesRendered(bodies, Sorted(bodies.Keys))
    ensures RenderedFrom(header, bodies, Ok(text))
  {
    NoneIsRefused(bodies, Sorted(bodies.Keys));
    text := header + Concat(Declarations(bodies, Sorted(bodies.Keys)));
  }

  lemma NamesOfAPrefix(bodies: map<string, Schema>, names: seq<string>, i: nat)
    requires i < |names| && Elements(names) <= bodies.Keys
    ensures names[i] in bodies && names[..i + 1][..i] == names[..i]
    ensures Elements(names[..i]) <= bodies.Keys && Elements(names[..i + 1]) <= bodies.Keys
  {
    assert names[i] in Elements(names);
    assert forall f <- names[..i + 1] :: f in Elements(names);
    assert forall f <- names[..i] :: f in Elements(names);
  }

  lemma ADeclarationIsNext(bodies: map<string, Schema>, names: seq<string>, i: nat)
    requires i < |names| && names[i] in bodies
    requires BodiesRendered(bodies, names[..i]) && BodyRendered(bodies[names[i]])
    ensures BodiesRendered(bodies, names[..i + 1])
    ensures Concat(Declarations(bodies, names[..i + 1])) ==
              Concat(Declarations(bodies, names[..i])) + DeclarationOf(names[i], bodies[names[i]])
  {
    assert names[..i + 1][..i] == names[..i];
    var d := Declarations(bodies, names[..i + 1]);
    assert d[..i] == Declarations(bodies, names[..i]);
  }

  lemma ANameIsNext(bodies: map<string, Schema>, names: seq<string>, i: nat)
    requires i < |names| && Elements(names) <= bodies.Keys
    ensures names[i] in bodies
    ensures Elements(names[..i]) <= bodies.Keys && Elements(names[..i + 1]) <= bodies.Keys
    ensures FirstRefusal(bodies, names[..i]).None? ==>
              FirstRefusal(bodies, names[..i + 1]) == FirstFailure(names[i], bodies[names[i]], Fields(bodies[names[i]]))
    ensures BodiesRendered(bodies, names[..i]) && BodyRendered(bodies[names[i]]) ==>
              BodiesRendered(bodies, names[..i + 1]) &&
              Concat(Declarations(bodies, names[..i + 1])) ==
                Concat(Declarations(bodies, names[..i])) + DeclarationOf(names[i], bodies[names[i]])
  {
    NamesOfAPrefix(bodies, names, i);
    if BodiesRendered(bodies, names[..i]) && BodyRendered(bodies[names[i]]) {
      ADeclarationIsNext(bodies, names, i);
    }
  }

  lemma {:induction false} TheFirstRefusalStays(bodies: map<string, Schema>, names: seq<string>, i: nat)
    requires i <= |names| && Elements(names) <= bodies.Keys
    ensures Elements(names[..i]) <= bodies.Keys
    ensures FirstRefusal(bodies, names[..i]).Some? ==> FirstRefusal(bodies, names) == FirstRefusal(bodies, names[..i])
    decreases |names| - i
  {
    assert forall f <- names[..i] :: f in Elements(names);
    if i == |names| {
      assert names[..i] == names;
    } else {
      assert forall f <- names[..i + 1] :: f in Elements(names);
      assert names[..i + 1][..i] == names[..i];
      TheFirstRefusalStays(bodies, names, i + 1);
    }
  }

  /** The module of a document: rendered from schemas that its bodies refer to, all of them. */
  ghost predicate RendersAs(header: string, doc: Document, r: Result<string, Failure>) {
    exists bodies :: Collects(doc, bodies) && RenderedFrom(header, bodies, r)
  }

  method Render(header: string, doc: Document) returns (r: Result<string, Failure>)
    ensures RendersAs(header, doc, r)
  {
    var out := new Builder();
    out.WriteString(header);
    assert out.text == header + Concat([]);
    var seen := RequestBodySchemas(doc);
    ghost var bodies := seen;
    var keys := KeysOf(seen);
    var names := SortStrings(keys);
    SortedWhateverTheOrder(seen.Keys, names);
    for i := 0 to |names|
      invariant Elements(names[..i]) <= bodies.Keys
      invariant FirstRefusal(bodies, names[..i]).None?
      invariant BodiesRendered(bodies, names[..i])
      invariant out.text == header + Concat(Declarations(bodies, names[..i]))
    {
      ANameIsNext(bodies, names, i);
      ghost var d := Declarations(bodies, names[..i]);
      var refused := WriteSchema(out, names[i], seen[names[i]]);
      if refused.Some? {
        TheFirstRefusalStays(bodies, names, i + 1);
        r := Err(refused.value);
        assert RenderedFrom(header, bodies, r);
        return;
      }
      Regroup(header, Concat(d), DeclarationOf(names[i], bodies[names[i]]));
    }
    assert names[..|names|] == names;
    r := Ok(out.text);
    assert RenderedFrom(header, bodies, r);
  }

  lemma RenderedOnce(header: string, bodies: map<string, Schema>, r: Result<string, Failure>,
                     q: Result<string, Failure>)
    requires RenderedFrom(header, bodies, r) && RenderedFrom(header, bodies, q)
    ensures r == q
  {
  }

  /**
   Whatever order the paths, the operations and the properties are enumerated in, the module is the
   same text, or the same first refusal.
   */
  lemma TheOrderDoesNotMatter(header: string, doc: Document, r: Result<string, Failure>, q: Result<string, Failure>)
    requires Coherent(doc) && RendersAs(header, doc, r) && RendersAs(header, doc, q)
    ensures r == q
  {
    var a :| Collects(doc, a) && RenderedFrom(header, a, r);
    var b :| Collects(doc, b) && RenderedFrom(header, b, q);
    CollectedOnce(doc, a, b);
    RenderedOnce(header, a, r, q);
  }
}
