/**
 The object validators: the printed module reads back to one declaration per collected body, and each
 declaration means its schema - never narrower, and exactly as wide under a condition on the schema.
 */
module ZodBodies {
  import opened Builders
  import opened Common
  import opened Literals
  import opened Names
  import opened Schemas
  import opened Text
  import opened Zodgen
  import opened ZodModule
  import opened ZodReader

  // ---------------------------------------------------------------- reading a declaration

  predicate IsNameChar(c: char) {
    'a' <= c <= 'z' || 'A' <= c <= 'Z' || '0' <= c <= '9' || c == '_' || c == '$'
  }

  /** What stands for a name without quotes. */
  predicate Identifier(name: string) {
    name != "" && !IsDigit(name[0]) && forall k :: 0 <= k < |name| ==> IsNameChar(name[k])
  }

  /** The reserved words of a module, and the two names strict code cannot bind. */
  const RESERVED: set<string> := {
    "arguments", "await", "break", "case", "catch", "class", "const", "continue", "debugger", "default", "delete", "do",
    "else", "enum", "eval", "export", "extends", "false", "finally", "for", "function", "if", "implements", "import",
    "in", "instanceof", "interface", "let", "new", "null", "package", "private", "protected", "public", "return",
    "static", "super", "switch", "this", "throw", "true", "try", "typeof", "var", "void", "while", "with", "yield"}

  /** The name that the header of the module imports. */
  const IMPORTED := "z"

  /** What a declaration can be called: it cannot bind a reserved word, nor the imported name again. */
  predicate Bindable(name: string) { Identifier(name) && name !in RESERVED && name != IMPORTED }

  /** What sets the prototype of an object literal instead of declaring a key. */
  const PROTOTYPE := "__proto__"

  /** What a field can be called without quotes. */
  predicate FieldName(name: string) { Identifier(name) && name != PROTOTYPE }

  function NameRun(s: string): (n: nat)
    ensures n <= |s| && forall k :: 0 <= k < n ==> IsNameChar(s[k])
  {
    if s == "" || !IsNameChar(s[0]) then 0 else 1 + NameRun(s[1..])
  }

  function ReadName(s: string): (r: Option<Read<string>>)
    ensures r.Some? ==> |r.value.rest| < |s| && Identifier(r.value.value)
  {
    var t := Skip(s);
    var n := NameRun(t);
    if n == 0 || IsDigit(t[0]) then None else Some(Read(t[..n], t[n..]))
  }

  /** name: expression, or name: expression.optional(), */
  function ReadField(s: string, e: Engine): (r: Option<Read<ZField>>)
    ensures r.Some? ==> FieldName(r.value.value.name)
  {
    var name :- ReadName(s);
    if !FieldName(name.value) then None else
    var colon :- Accept(name.rest, ":");
    var schema :- ReadZod(colon, e);
    match Accept(schema.rest, ".optional()")
    case None =>
      var rest :- Accept(schema.rest, ",");
      Some(Read(ZField(name.value, schema.value, false), rest))
    case Some(t) =>
      var rest :- Accept(t, ",");
      Some(Read(ZField(name.value, schema.value, true), rest))
  }

  function ReadFields(s: string, e: Engine): Option<Read<seq<ZField>>>
    decreases |s|
  {
    match Accept(s, "})")
    case Some(rest) => Some(Read([], rest))
    case None =>
      var first :- ReadField(s, e);
      if |first.rest| >= |s| then None
      else
        var others :- ReadFields(first.rest, e);
        Some(Read([first.value] + others.value, others.rest))
  }

  datatype Declared = Declared(name: string, fields: seq<ZField>)

  function ReadDeclaration(s: string, e: Engine): (r: Option<Read<Declared>>)
    ensures r.Some? ==> Bindable(r.value.value.name)
  {
    var keyword :- Accept(s, "export const");
    var name :- ReadName(keyword);
    if !Bindable(name.value) then None else
    var equals :- Accept(name.rest, "=");
    var open :- Accept(equals, "z.object({");
    var fields :- ReadFields(open, e);
    Some(Read(Declared(name.value, fields.value), fields.rest))
  }

  type DeclarationReader = string -> Option<Read<Declared>>

  function DeclarationBy(e: Engine): DeclarationReader { s => ReadDeclaration(s, e) }

  /** Declarations up to the end of the text, each read by `one`. */
  function ReadAll(s: string, one: DeclarationReader): Option<seq<Declared>>
    decreases |s|
  {
    if Skip(s) == "" then Some([])
    else
      var first :- one(s);
      if |first.rest| >= |s| then None
      else
        var others :- ReadAll(first.rest, one);
        Some([first.value] + others)
  }

  function ReadDeclarations(s: string, e: Engine): Option<seq<Declared>> { ReadAll(s, DeclarationBy(e)) }

  function ReadModule(header: string, s: string, e: Engine): Option<seq<Declared>> {
    if header <= s then ReadDeclarations(s[|header|..], e) else None
  }

  // ---------------------------------------------------------------- the tree of a declaration

  function FieldOf(schema: Schema, field: string): ZField
    requires field in schema.properties && Rendered(schema, field)
  {
    ZField(field, Compile(schema.properties[field]).value, field !in schema.required)
  }

  function FieldsOf(schema: Schema, fields: seq<string>): (z: seq<ZField>)
    requires AllRendered(schema, fields)
    ensures |z| == |fields| && forall k :: 0 <= k < |fields| ==> z[k] == FieldOf(schema, fields[k])
  {
    seq(|fields|, k requires 0 <= k < |fields| => FieldOf(schema, fields[k]))
  }

  /** A name that stands for a key without quotes, and patterns that their literals can carry. */
  predicate WritableField(schema: Schema, field: string, e: Engine)
    requires field in schema.properties && Rendered(schema, field)
  {
    FieldName(field) && Carriable(Compile(schema.properties[field]).value, e)
  }

  predicate Writable(schema: Schema, fields: seq<string>, e: Engine)
    requires AllRendered(schema, fields)
  {
    forall k :: 0 <= k < |fields| ==> WritableField(schema, fields[k], e)
  }

  // ---------------------------------------------------------------- what is written is read

  lemma {:induction false} TheNameStops(name: string, rest: string)
    requires (forall k :: 0 <= k < |name| ==> IsNameChar(name[k])) && (rest == "" || !IsNameChar(rest[0]))
    ensures NameRun(name + rest) == |name|
  {
    if name == "" {
      assert name + rest == rest;
    } else {
      assert (name + rest)[1..] == name[1..] + rest;
      TheNameStops(name[1..], rest);
    }
  }

  lemma ANameIsRead(before: string, name: string, rest: string)
    requires AllBlank(before) && Identifier(name) && (rest == "" || !IsNameChar(rest[0]))
    ensures ReadName(before + (name + rest)) == Some(Read(name, rest))
  {
    assert (name + rest)[0] == name[0] && !Blank(name[0]);
    SkipBlanks(before, name + rest);
    TheNameStops(name, rest);
    assert IsNameChar(name[0]);
    assert (name + rest)[..|name|] == name && (name + rest)[|name|..] == rest;
  }

  lemma AnEndIsRead(rest: string)
    ensures Closes(",\n" + rest) && Accept(",\n" + rest, ".optional()").None?
    ensures Accept(",\n" + rest, ",") == Some("\n" + rest)
  {
    AnotherToken(",\n", rest, ".min(", 0);
    AnotherToken(",\n", rest, ".max(", 0);
    AnotherToken(",\n", rest, ".regex(/", 0);
    AnotherToken(",\n", rest, ".optional()", 0);
    assert ",\n" == "," + "\n";
    Regroup(",", "\n", rest);
    TheTokenItself(",", "\n" + rest);
  }

  lemma AnOptionIsRead(rest: string)
    ensures Closes(".optional(),\n" + rest)
    ensures Accept(".optional(),\n" + rest, ".optional()") == Some(",\n" + rest)
  {
    AnotherToken(".optional(),\n", rest, ".min(", 1);
    AnotherToken(".optional(),\n", rest, ".max(", 1);
    AnotherToken(".optional(),\n", rest, ".regex(/", 1);
    assert ".optional(),\n" == ".optional()" + ",\n";
    Regroup(".optional()", ",\n", rest);
    TheTokenItself(".optional()", ",\n" + rest);
  }

  lemma FieldFrom(s: string, name: Read<string>, colon: string, schema: Read<Zod>, optional: bool, end: string,
                  rest: string, e: Engine)
    requires ReadName(s) == Some(name) && FieldName(name.value)
    requires Accept(name.rest, ":") == Some(colon) && ReadZod(colon, e) == Some(schema)
    requires Accept(schema.rest, ".optional()") == if optional then Some(end) else None
    requires !optional ==> end == schema.rest
    requires Accept(end, ",") == Some(rest)
    ensures ReadField(s, e) == Some(Read(ZField(name.value, schema.value, optional), rest))
  {
  }

  lemma AFieldHasItsSchema(s: string, name: Read<string>, colon: string, e: Engine)
    requires ReadName(s) == Some(name) && Accept(name.rest, ":") == Some(colon) && ReadField(s, e).Some?
    ensures ReadZod(colon, e).Some? && ReadField(s, e).value.value.schema == ReadZod(colon, e).value.value
  {
  }

  function EndOf(optional: bool): string { if optional then ".optional(),\n" else ",\n" }

  lemma ZodAfterABlank(s: string, e: Engine)
    ensures ReadZod(" " + s, e) == ReadZod(s, e)
  {
    HeadAfterABlank(s);
    SameHead(" " + s, s, LeafOf(e));
  }

  lemma AcceptAfterABlank(s: string, token: string)
    ensures Accept(" " + s, token) == Accept(s, token)
  {
    assert (" " + s)[1..] == s;
  }

  lemma HeadAfterABlank(s: string)
    ensures Head(" " + s) == Head(s)
  {
    AcceptAfterABlank(s, Opening(KString));
    AcceptAfterABlank(s, Opening(KBoolean));
    AcceptAfterABlank(s, Opening(KInteger));
    AcceptAfterABlank(s, Opening(KEnum));
    AcceptAfterABlank(s, Opening(KArray));
    AcceptAfterABlank(s, Opening(KRecord));
  }

  lemma SameHead(s: string, t: string, leaf: LeafReader)
    requires Head(s) == Head(t)
    ensures ReadNested(s, leaf) == ReadNested(t, leaf)
  {
  }

  /** A line reads as its field iff the field can be written. */
  lemma ALineIsRead(before: string, schema: Schema, field: string, rest: string, e: Engine)
    requires AllBlank(before) && field in schema.properties && Rendered(schema, field)
    ensures var r := ReadField(before + (Line(schema, field) + rest), e);
            && (WritableField(schema, field, e) ==> r == Some(Read(FieldOf(schema, field), "\n" + rest)))
            && (r.Some? && r.value.value == FieldOf(schema, field) ==> WritableField(schema, field, e))
  {
    var property, optional := schema.properties[field], field !in schema.required;
    var expression, end := ZodFor(property).value, EndOf(optional);
    AnEndIsRead(rest);
    AnOptionIsRead(rest);
    TheExpressionReadsBack(property, end + rest, e);
    ALineInPieces(before, field, expression, end, rest);
    var colon := " " + (expression + (end + rest));
    if FieldName(field) {
      ANameIsRead(before + "  ", field, ":" + colon);
      TheTokenItself(":", colon);
      ZodAfterABlank(expression + (end + rest), e);
      var s := before + (Line(schema, field) + rest);
      if Carriable(Compile(property).value, e) {
        FieldFrom(s, Read(field, ":" + colon), colon, Read(Compile(property).value, end + rest), optional,
                  ",\n" + rest, "\n" + rest, e);
      } else if ReadField(s, e).Some? {
        AFieldHasItsSchema(s, Read(field, ":" + colon), colon, e);
      }
    }
  }

  lemma ALineInPieces(before: string, field: string, expression: string, end: string, rest: string)
    ensures before + (("  " + (field + (": " + (expression + end)))) + rest) ==
            (before + "  ") + (field + (":" + (" " + (expression + (end + rest)))))
  {
    Regroup(expression, end, rest);
    Regroup(": ", expression + end, rest);
    Regroup(field, ": " + (expression + end), rest);
    Regroup("  ", field + (": " + (expression + end)), rest);
    var tail := expression + (end + rest);
    assert ": " == ":" + " ";
    Regroup(":", " ", tail);
    Regroup(before, "  ", field + (": " + tail));
  }

  lemma ALineIsNoEnd(before: string, schema: Schema, field: string, rest: string)
    requires AllBlank(before) && field in schema.properties && Identifier(field) && Rendered(schema, field)
    ensures Accept(before + (Line(schema, field) + rest), "})").None?
  {
    var s := before + (Line(schema, field) + rest);
    ALineInPieces(before, field, ZodFor(schema.properties[field]).value, EndOf(field !in schema.required), rest);
    var tail := ":" + (" " + (ZodFor(schema.properties[field]).value + (EndOf(field !in schema.required) + rest)));
    assert (field + tail)[0] == field[0] && !Blank(field[0]) && field[0] != '}';
    SkipBlanks(before + "  ", field + tail);
  }

  lemma OneFieldThenOthers(s: string, first: Read<ZField>, others: Read<seq<ZField>>, e: Engine)
    requires Accept(s, "})").None? && ReadField(s, e) == Some(first) && |first.rest| < |s|
    requires ReadFields(first.rest, e) == Some(others)
    ensures ReadFields(s, e) == Some(Read([first.value] + others.value, others.rest))
  {
  }

  /** Fields that are read were read one by one. */
  lemma FieldsWereRead(s: string, first: ZField, others: seq<ZField>, e: Engine)
    requires ReadFields(s, e).Some? && ReadFields(s, e).value.value == [first] + others
    ensures ReadField(s, e).Some? && ReadField(s, e).value.value == first
    ensures var rest := ReadField(s, e).value.rest;
            ReadFields(rest, e).Some? && ReadFields(rest, e).value.value == others
  {
    assert ([first] + others)[0] == first && ([first] + others)[1..] == others;
    var rest := ReadFields(ReadField(s, e).value.rest, e).value.value;
    var found := [ReadField(s, e).value.value] + rest;
    assert found[0] == ReadField(s, e).value.value && found[1..] == rest;
  }

  lemma NoLineIsRead(before: string, rest: string, e: Engine)
    requires AllBlank(before)
    ensures ReadFields(before + ("})\n" + rest), e) == Some(Read([], "\n" + rest))
  {
    assert "})\n" == "})" + "\n";
    Regroup("})", "\n", rest);
    ATokenIsAccepted(before, "})", "\n" + rest);
  }

  lemma LinesFromTheFront(schema: Schema, fields: seq<string>, end: string)
    requires fields != [] && AllRendered(schema, fields)
    ensures Concat(Lines(schema, fields)) + end == Line(schema, fields[0]) + (Concat(Lines(schema, fields[1..])) + end)
  {
    var lines := Lines(schema, fields);
    assert lines[1..] == Lines(schema, fields[1..]);
    ConcatFromTheFront(lines);
    Regroup(lines[0], Concat(lines[1..]), end);
  }

  /** One line, and then whatever the following lines read as. */
  lemma OneMoreLineIsRead(before: string, schema: Schema, field: string, tail: string, others: Read<seq<ZField>>,
                          e: Engine)
    requires AllBlank(before) && field in schema.properties && Rendered(schema, field)
    requires WritableField(schema, field, e)
    requires ReadFields("\n" + tail, e) == Some(others)
    ensures ReadFields(before + (Line(schema, field) + tail), e) ==
            Some(Read([FieldOf(schema, field)] + others.value, others.rest))
  {
    ALineIsRead(before, schema, field, tail, e);
    ALineIsNoEnd(before, schema, field, tail);
    OneFieldThenOthers(before + (Line(schema, field) + tail), Read(FieldOf(schema, field), "\n" + tail), others, e);
  }

  /** Lines that read as their fields were writable from the first on. */
  lemma ALineWasRead(before: string, schema: Schema, field: string, tail: string, others: seq<ZField>, e: Engine)
    requires AllBlank(before) && field in schema.properties && Rendered(schema, field)
    requires var r := ReadFields(before + (Line(schema, field) + tail), e);
             r.Some? && r.value.value == [FieldOf(schema, field)] + others
    ensures WritableField(schema, field, e)
    ensures ReadFields("\n" + tail, e).Some? && ReadFields("\n" + tail, e).value.value == others
  {
    FieldsWereRead(before + (Line(schema, field) + tail), FieldOf(schema, field), others, e);
    ALineIsRead(before, schema, field, tail, e);
  }

  /** The lines of a declaration read as its fields iff every field can be written. */
  lemma {:induction false} LinesAreRead(before: string, schema: Schema, fields: seq<string>, rest: string, e: Engine)
    requires AllBlank(before) && AllRendered(schema, fields)
    ensures var r := ReadFields(before + (Concat(Lines(schema, fields)) + ("})\n" + rest)), e);
            && (Writable(schema, fields, e) ==> r == Some(Read(FieldsOf(schema, fields), "\n" + rest)))
            && (r.Some? && r.value.value == FieldsOf(schema, fields) ==> Writable(schema, fields, e))
    decreases |fields|
  {
    var end := "})\n" + rest;
    if fields == [] {
      NoBlanks(end);
      NoLineIsRead(before, rest, e);
    } else {
      var others, tail := fields[1..], Concat(Lines(schema, fields[1..])) + end;
      LinesAreRead("\n", schema, others, rest, e);
      LinesFromTheFront(schema, fields, end);
      FieldsFromTheFront(schema, fields);
      WritableFromTheFront(schema, fields, e);
      if Writable(schema, fields, e) {
        OneMoreLineIsRead(before, schema, fields[0], tail, Read(FieldsOf(schema, others), "\n" + rest), e);
      } else {
        var r := ReadFields(before + (Line(schema, fields[0]) + tail), e);
        if r.Some? && r.value.value == FieldsOf(schema, fields) {
          ALineWasRead(before, schema, fields[0], tail, FieldsOf(schema, others), e);
        }
      }
    }
  }

  lemma WritableFromTheFront(schema: Schema, fields: seq<string>, e: Engine)
    requires fields != [] && AllRendered(schema, fields)
    ensures Writable(schema, fields, e) <==> WritableField(schema, fields[0], e) && Writable(schema, fields[1..], e)
  {
    assert fields == [fields[0]] + fields[1..];
  }

  lemma FieldsFromTheFront(schema: Schema, fields: seq<string>)
    requires fields != [] && AllRendered(schema, fields)
    ensures FieldsOf(schema, fields) == [FieldOf(schema, fields[0])] + FieldsOf(schema, fields[1..])
  {
  }

  // ---------------------------------------------------------------- the whole module is read

  lemma ADeclarationInPieces(name: string, lines: seq<string>, rest: string)
    ensures Declaration(name, lines) + rest ==
            var body := "\n" + (Concat(lines) + ("})\n" + rest));
            "\n" + ("export const" + (" " + (name + (" " + ("=" + (" " + ("z.object({" + body)))))))
  {
    var body := Concat(lines) + ("})\n" + rest);
    Regroup(Concat(lines), "})\n", rest);
    Regroup(" = z.object({\n", Concat(lines) + "})\n", rest);
    Regroup(name, " = z.object({\n" + (Concat(lines) + "})\n"), rest);
    Regroup("\nexport const ", name + (" = z.object({\n" + (Concat(lines) + "})\n")), rest);
    assert " = z.object({\n" == " " + ("=" + (" " + ("z.object({" + "\n")));
    Regroup("z.object({", "\n", body);
    Regroup(" ", "z.object({" + "\n", body);
    Regroup("=", " " + ("z.object({" + "\n"), body);
    Regroup(" ", "=" + (" " + ("z.object({" + "\n")), body);
    var tail := name + (" = z.object({\n" + body);
    assert "\nexport const " == "\n" + ("export const" + " ");
    Regroup("export const", " ", tail);
    Regroup("\n", "export const" + " ", tail);
  }

  lemma DeclarationFrom(s: string, keyword: string, name: Read<string>, equals: string, open: string, e: Engine)
    requires Accept(s, "export const") == Some(keyword) && ReadName(keyword) == Some(name) && Bindable(name.value)
    requires Accept(name.rest, "=") == Some(equals) && Accept(equals, "z.object({") == Some(open)
    ensures var r, fields := ReadDeclaration(s, e), ReadFields(open, e);
            r == if fields.None? then None else Some(Read(Declared(name.value, fields.value.value), fields.value.rest))
  {
  }

  ghost function DeclaredAs(name: string, schema: Schema): Declared
    requires BodyRendered(schema)
  {
    Declared(name, FieldsOf(schema, Fields(schema)))
  }

  /** What can be read back of a body: its own name, and its fields. */
  ghost predicate WritableBody(name: string, schema: Schema, e: Engine)
    requires BodyRendered(schema)
  {
    Bindable(name) && Writable(schema, Fields(schema), e)
  }

  /** A declaration reads as its body iff the body can be written. */
  lemma ADeclarationIsRead(before: string, name: string, schema: Schema, rest: string, e: Engine)
    requires AllBlank(before) && BodyRendered(schema)
    ensures var r := ReadDeclaration(before + (DeclarationOf(name, schema) + rest), e);
            && (WritableBody(name, schema, e) ==> r == Some(Read(DeclaredAs(name, schema), "\n" + rest)))
            && (r.Some? && r.value.value == DeclaredAs(name, schema) ==> WritableBody(name, schema, e))
  {
    var lines := Lines(schema, Fields(schema));
    var s5 := "\n" + (Concat(lines) + ("})\n" + rest));
    var s4 := " " + ("z.object({" + s5);
    var s3 := " " + ("=" + s4);
    var s2 := " " + (name + s3);
    ADeclarationInPieces(name, lines, rest);
    Regroup(before, "\n", "export const" + s2);
    if Bindable(name) {
      ATokenIsAccepted(before + "\n", "export const", s2);
      ANameIsRead(" ", name, s3);
      ATokenIsAccepted(" ", "=", s4);
      ATokenIsAccepted(" ", "z.object({", s5);
      LinesAreRead("\n", schema, Fields(schema), rest, e);
      DeclarationFrom(before + (DeclarationOf(name, schema) + rest), s2, Read(name, s3), s4, s5, e);
    }
  }

  ghost predicate AllWritable(bodies: map<string, Schema>, names: seq<string>, e: Engine)
    requires BodiesRendered(bodies, names)
  {
    forall k :: 0 <= k < |names| ==> WritableBody(names[k], bodies[names[k]], e)
  }

  ghost function AllDeclared(bodies: map<string, Schema>, names: seq<string>): (d: seq<Declared>)
    requires BodiesRendered(bodies, names)
  {
    if names == [] then [] else [DeclaredAs(names[0], bodies[names[0]])] + AllDeclared(bodies, names[1..])
  }

  lemma OneDeclarationThenOthers(s: string, one: DeclarationReader, first: Read<Declared>, others: seq<Declared>)
    requires Skip(s) != "" && one(s) == Some(first) && |first.rest| < |s|
    requires ReadAll(first.rest, one) == Some(others)
    ensures ReadAll(s, one) == Some([first.value] + others)
  {
  }

  /** Declarations that are read were read one by one. */
  lemma DeclarationsWereRead(s: string, one: DeclarationReader, first: Declared, others: seq<Declared>)
    requires ReadAll(s, one) == Some([first] + others)
    ensures one(s).Some? && one(s).value.value == first && ReadAll(one(s).value.rest, one) == Some(others)
  {
    assert ([first] + others)[0] == first && ([first] + others)[1..] == others;
    var found := [one(s).value.value] + ReadAll(one(s).value.rest, one).value;
    assert found[0] == one(s).value.value && found[1..] == ReadAll(one(s).value.rest, one).value;
  }

  lemma ADeclarationIsNotBlank(before: string, name: string, lines: seq<string>, rest: string)
    requires AllBlank(before)
    ensures Skip(before + (Declaration(name, lines) + rest)) != ""
  {
    var body := Concat(lines) + ("})\n" + rest);
    var more := " " + (name + (" " + ("=" + (" " + ("z.object({" + ("\n" + body))))));
    ADeclarationInPieces(name, lines, rest);
    Regroup(before, "\n", "export const" + more);
    TheKeywordIsRead(before + "\n", more);
  }

  lemma TheKeywordIsRead(before: string, more: string)
    requires AllBlank(before)
    ensures Skip(before + ("export const" + more)) == "export const" + more
    ensures "export const" + more != ""
  {
    SkipBlanks(before, "export const" + more);
  }

  /** One declaration, and then whatever the following ones read as. */
  lemma OneMoreDeclarationIsRead(before: string, name: string, schema: Schema, rest: string, others: seq<Declared>,
                                 e: Engine)
    requires AllBlank(before) && BodyRendered(schema) && WritableBody(name, schema, e)
    requires ReadDeclarations("\n" + rest, e) == Some(others)
    ensures ReadDeclarations(before + (DeclarationOf(name, schema) + rest), e) ==
              Some([DeclaredAs(name, schema)] + others)
  {
    ADeclarationIsRead(before, name, schema, rest, e);
    ADeclarationIsNotBlank(before, name, Lines(schema, Fields(schema)), rest);
    OneDeclarationThenOthers(before + (DeclarationOf(name, schema) + rest), DeclarationBy(e),
                             Read(DeclaredAs(name, schema), "\n" + rest), others);
  }

  /** Declarations that read as their bodies were writable from the first on. */
  lemma ADeclarationWasRead(before: string, name: string, schema: Schema, rest: string, others: seq<Declared>,
                            e: Engine)
    requires AllBlank(before) && BodyRendered(schema)
    requires ReadDeclarations(before + (DeclarationOf(name, schema) + rest), e) ==
               Some([DeclaredAs(name, schema)] + others)
    ensures WritableBody(name, schema, e) && ReadDeclarations("\n" + rest, e) == Some(others)
  {
    DeclarationsWereRead(before + (DeclarationOf(name, schema) + rest), DeclarationBy(e),
                         DeclaredAs(name, schema), others);
    ADeclarationIsRead(before, name, schema, rest, e);
  }

  lemma DeclarationsFromTheFront(bodies: map<string, Schema>, names: seq<string>)
    requires names != [] && BodiesRendered(bodies, names)
    ensures Concat(Declarations(bodies, names)) ==
            DeclarationOf(names[0], bodies[names[0]]) + Concat(Declarations(bodies, names[1..]))
  {
    var d := Declarations(bodies, names);
    assert d[1..] == Declarations(bodies, names[1..]);
    ConcatFromTheFront(d);
  }

  lemma {:induction false} DeclarationsAreRead(before: string, bodies: map<string, Schema>, names: seq<string>,
                                               e: Engine)
    requires AllBlank(before) && BodiesRendered(bodies, names)
    ensures ReadDeclarations(before + Concat(Declarations(bodies, names)), e) == Some(AllDeclared(bodies, names))
       <==> AllWritable(bodies, names, e)
    decreases |names|
  {
    if names == [] {
      NothingIsDeclared(before, e);
    } else {
      var name, others := names[0], names[1..];
      var rest := Concat(Declarations(bodies, others));
      DeclarationsAreRead("\n", bodies, others, e);
      DeclarationsFromTheFront(bodies, names);
      AllWritableFromTheFront(bodies, names, e);
      if AllWritable(bodies, names, e) {
        OneMoreDeclarationIsRead(before, name, bodies[name], rest, AllDeclared(bodies, others), e);
      } else if ReadDeclarations(before + (DeclarationOf(name, bodies[name]) + rest), e) ==
          Some(AllDeclared(bodies, names)) {
        ADeclarationWasRead(before, name, bodies[name], rest, AllDeclared(bodies, others), e);
      }
    }
  }

  lemma AllWritableFromTheFront(bodies: map<string, Schema>, names: seq<string>, e: Engine)
    requires names != [] && BodiesRendered(bodies, names)
    ensures AllWritable(bodies, names, e) <==>
              WritableBody(names[0], bodies[names[0]], e) && AllWritable(bodies, names[1..], e)
  {
    assert names == [names[0]] + names[1..];
  }

  lemma NothingIsDeclared(before: string, e: Engine)
    requires AllBlank(before)
    ensures ReadDeclarations(before + Concat([]), e) == Some([])
  {
    SkipBlanks(before, "");
  }

  /**
   The module that render returns reads back to one declaration per collected body, in order of name,
   each with the trees of its fields, in order of name, iff every field can be named without quotes,
   every body can be bound and every pattern can be carried and compiled.
   */
  lemma TheModuleReadsBackIff(header: string, bodies: map<string, Schema>, text: string, e: Engine)
    requires RenderedFrom(header, bodies, Ok(text))
    ensures ReadModule(header, text, e) == Some(AllDeclared(bodies, Sorted(bodies.Keys)))
       <==> AllWritable(bodies, Sorted(bodies.Keys), e)
  {
    var names := Sorted(bodies.Keys);
    var body := Concat(Declarations(bodies, names));
    NoBlanks(body);
    DeclarationsAreRead("", bodies, names, e);
    assert (header + body)[..|header|] == header && (header + body)[|header|..] == body;
  }

  /**
   A property whose name does not stand for a key without quotes, or whose pattern cannot be carried or
   compiled, is printed all the same, and the module does not read back.
   */
  lemma AFieldThatIsNotWritable(header: string, bodies: map<string, Schema>, text: string, name: string, field: string,
                                e: Engine)
    requires RenderedFrom(header, bodies, Ok(text)) && name in bodies && field in bodies[name].properties
    requires var tree := Compile(bodies[name].properties[field]);
             !FieldName(field) || (tree.Ok? && !Carriable(tree.value, e))
    ensures ReadModule(header, text, e) != Some(AllDeclared(bodies, Sorted(bodies.Keys)))
  {
    TheModuleReadsBackIff(header, bodies, text, e);
    var names, fields := Sorted(bodies.Keys), Fields(bodies[name]);
    assert name in Elements(names) && field in Elements(fields);
    var k :| 0 <= k < |names| && names[k] == name;
    var l :| 0 <= l < |fields| && fields[l] == field;
    assert BodyRendered(bodies[names[k]]);
    assert !WritableField(bodies[name], fields[l], e);
    assert !WritableBody(names[k], bodies[names[k]], e);
  }

  /** A body whose name cannot be bound is declared all the same, and the module does not read back. */
  lemma ANameThatIsNotBound(header: string, bodies: map<string, Schema>, text: string, name: string, e: Engine)
    requires RenderedFrom(header, bodies, Ok(text)) && name in bodies && !Bindable(name)
    ensures ReadModule(header, text, e) != Some(AllDeclared(bodies, Sorted(bodies.Keys)))
  {
    TheModuleReadsBackIff(header, bodies, text, e);
    var names := Sorted(bodies.Keys);
    assert name in Elements(names);
    var k :| 0 <= k < |names| && names[k] == name;
    assert !WritableBody(names[k], bodies[names[k]], e);
  }

  /** A body of one optional text. */
  function OneText(field: string): Schema {
    ANYTHING.(types := ["object"], properties := map[field := Some(ANYTHING.(types := ["string"]))])
  }

  lemma OneTextIsRendered(header: string, name: string, field: string) returns (text: string)
    ensures RenderedFrom(header, map[name := OneText(field)], Ok(text))
  {
    var bodies := map[name := OneText(field)];
    forall k | 0 <= k < |Sorted(bodies.Keys)|
      ensures Sorted(bodies.Keys)[k] in bodies && BodyRendered(bodies[Sorted(bodies.Keys)[k]])
    {
      assert Sorted(bodies.Keys)[k] in Elements(Sorted(bodies.Keys));
      OneFieldIsRendered(field);
    }
    text := RenderedWhole(header, bodies);
  }

  lemma OneFieldIsRendered(field: string)
    ensures BodyRendered(OneText(field))
  {
    forall k | 0 <= k < |Fields(OneText(field))| ensures Fields(OneText(field))[k] == field {
      assert Fields(OneText(field))[k] in Elements(Fields(OneText(field)));
    }
  }

  /** A body called like the import of the header is not refused: the module binds that name twice. */
  lemma TheImportIsBoundTwice(header: string, e: Engine) returns (bodies: map<string, Schema>, text: string)
    ensures "z" in bodies && RenderedFrom(header, bodies, Ok(text))
    ensures ReadModule(header, text, e) != Some(AllDeclared(bodies, Sorted(bodies.Keys)))
  {
    bodies := map["z" := OneText("a")];
    text := OneTextIsRendered(header, "z", "a");
    ANameThatIsNotBound(header, bodies, text, "z", e);
  }

  /** A property called like the prototype is not refused: the form does not know of it. */
  lemma ThePrototypeIsNoField(header: string, e: Engine) returns (bodies: map<string, Schema>, text: string)
    ensures "B" in bodies && "__proto__" in bodies["B"].properties && RenderedFrom(header, bodies, Ok(text))
    ensures ReadModule(header, text, e) != Some(AllDeclared(bodies, Sorted(bodies.Keys)))
  {
    bodies := map["B" := OneText("__proto__")];
    text := OneTextIsRendered(header, "B", "__proto__");
    AFieldThatIsNotWritable(header, bodies, text, "B", "__proto__", e);
  }
}
