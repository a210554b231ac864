/**
 The expression that zodgen writes for a property reads back as the tree it stands for: every bound,
 every pattern that its literal can carry and the language of the form compiles, every member of an
 enumeration, at every depth of array.
 */
module ZodReader {
  import opened Common
  import opened Floats
  import opened Literals
  import opened Patterns
  import opened Schemas
  import opened Text
  import opened Zodgen

  /** Nothing that follows belongs to the chain of calls. */
  predicate Closes(rest: string) {
    Accept(rest, ".min(").None? && Accept(rest, ".max(").None? && Accept(rest, ".regex(/").None?
  }

  lemma AnotherToken(written: string, rest: string, token: string, k: nat)
    requires k < |written| && k < |token| && written[k] != token[k] && !Blank(written[0])
    ensures Accept(written + rest, token).None?
  {
    var s := written + rest;
    assert s[0] == written[0];
    assert Skip(s) == s;
    assert s[k] == written[k];
  }

  lemma TheTokenItself(token: string, rest: string)
    requires token != "" && !Blank(token[0])
    ensures Accept(token + rest, token) == Some(rest)
  {
    NoBlanks(token + rest);
    ATokenIsAccepted("", token, rest);
  }

  lemma ANatIsRead(n: nat, rest: string)
    requires rest == "" || !IsDigit(rest[0])
    ensures ReadNat(Decimal(n) + rest) == Some(Read(n, rest))
  {
    var d := Decimal(n);
    DigitRunStops(d, rest);
    NumberInvertsDecimal(n);
    assert (d + rest)[..|d|] == d && (d + rest)[|d|..] == rest;
  }

  lemma AParenthesisIsRead(rest: string)
    ensures Accept(")" + rest, ")") == Some(rest)
    ensures ")" + rest != "" && (")" + rest)[0] == ')'
    ensures Closes(")" + rest)
  {
    TheTokenItself(")", rest);
    AnotherToken(")", rest, ".min(", 0);
    AnotherToken(")", rest, ".max(", 0);
    AnotherToken(")", rest, ".regex(/", 0);
  }

  // ---------------------------------------------------------------- one call of the chain

  function LimitText(open: string, n: Option<nat>): string {
    if n.Some? then open + (Decimal(n.value) + ")") else ""
  }

  lemma ALimitIsRead(open: string, n: Option<nat>, rest: string)
    requires open != "" && !Blank(open[0])
    requires n.None? ==> Accept(rest, open).None?
    ensures ReadLimit(LimitText(open, n) + rest, open) == Some(Read(n, rest))
  {
    if n.None? {
      NoBlanks(rest);
    } else {
      Regroup(Decimal(n.value), ")", rest);
      Regroup(open, Decimal(n.value) + ")", rest);
      TheTokenItself(open, Decimal(n.value) + (")" + rest));
      AParenthesisIsRead(rest);
      ANatIsRead(n.value, ")" + rest);
    }
  }

  function BoundText(open: string, n: Option<Bound>): string {
    if n.Some? then open + (FloatText(n.value) + ")") else ""
  }

  lemma ABoundIsRead(open: string, n: Option<Bound>, rest: string)
    requires open != "" && !Blank(open[0])
    requires n.None? ==> Accept(rest, open).None?
    ensures ReadBound(BoundText(open, n) + rest, open) == Some(Read(n, rest))
  {
    if n.None? {
      NoBlanks(rest);
    } else {
      Regroup(FloatText(n.value), ")", rest);
      Regroup(open, FloatText(n.value) + ")", rest);
      TheTokenItself(open, FloatText(n.value) + (")" + rest));
      AParenthesisIsRead(rest);
      AFloatIsRead(n.value, ")" + rest);
    }
  }

  function RegexText(p: string): string { if p != "" then ".regex(/" + (Slashed(p) + "/)") else "" }

  /** The call denotes its pattern iff the pattern can be carried. */
  lemma ARegexIsRead(p: string, rest: string, e: Engine)
    requires p == "" ==> Accept(rest, ".regex(/").None?
    ensures var r := ReadRegex(RegexText(p) + rest, e);
            && (r.Some? && r.value.value == p <==> CarriablePattern(p, e))
            && (CarriablePattern(p, e) ==> r == Some(Read(p, rest)))
  {
    if p == "" {
      NoBlanks(rest);
    } else {
      assert "/)" == "/" + ")";
      Regroup("/", ")", rest);
      Regroup(Slashed(p), "/)", rest);
      Regroup(".regex(/", Slashed(p) + "/)", rest);
      var body := Slashed(p) + ("/" + (")" + rest));
      TheTokenItself(".regex(/", body);
      APatternIsReadIff(p, false, ")" + rest);
      AParenthesisIsRead(rest);
      assert Slashed(p) != "" && (Slashed(p)[0] == '*' <==> p[0] == '*');
      assert body[0] == Slashed(p)[0];
    }
  }

  /** What a call of the chain opens with, if it is written at all. */
  lemma NotThatCall(text: string, open: string, rest: string, token: string)
    requires text == "" || open <= text
    requires |open| > 2 && |token| > 2 && !Blank(open[0])
    requires open[1] != token[1] || open[2] != token[2]
    requires Accept(rest, token).None?
    ensures Accept(text + rest, token).None?
  {
    if text == "" {
      NoBlanks(rest);
    } else {
      AnotherToken(text, rest, token, if open[1] != token[1] then 1 else 2);
    }
  }

  // ---------------------------------------------------------------- one expression

  lemma OpeningsDiffer(k: Kind, other: Kind, rest: string)
    requires k != other
    ensures Accept(Opening(k) + rest, Opening(other)).None?
  {
    AnotherToken(Opening(k), rest, Opening(other), 2);
  }

  /** The six expressions open differently. */
  lemma TheHeadIsRead(k: Kind, rest: string)
    ensures Head(Opening(k) + rest) == Some(Read(k, rest))
  {
    TheTokenItself(Opening(k), rest);
    if k != KString { OpeningsDiffer(k, KString, rest); }
    if k != KBoolean { OpeningsDiffer(k, KBoolean, rest); }
    if k != KInteger { OpeningsDiffer(k, KInteger, rest); }
    if k != KEnum { OpeningsDiffer(k, KEnum, rest); }
    if k != KArray { OpeningsDiffer(k, KArray, rest); }
  }

  lemma TheCallsAreRead(min: Option<nat>, max: Option<nat>, p: string, rest: string)
    requires Closes(rest)
    ensures var text := RegexText(p) + rest;
            ReadLimit(LimitText(".min(", min) + (LimitText(".max(", max) + text), ".min(") ==
              Some(Read(min, LimitText(".max(", max) + text)) &&
            ReadLimit(LimitText(".max(", max) + text, ".max(") == Some(Read(max, text))
  {
    var b, c := LimitText(".max(", max), RegexText(p);
    NotThatCall(c, ".regex(/", rest, ".max(");
    NotThatCall(c, ".regex(/", rest, ".min(");
    ALimitIsRead(".max(", max, c + rest);
    NotThatCall(b, ".max(", c + rest, ".min(");
    ALimitIsRead(".min(", min, b + (c + rest));
  }

  lemma AStringIsRead(s: Schema, rest: string, e: Engine)
    requires Closes(rest)
    ensures var r, z := ReadZod(StringExpression(s) + rest, e), ZString(s.minLength, s.maxLength, s.pattern);
            && (r.Some? && r.value.value == z <==> CarriablePattern(s.pattern, e))
            && (CarriablePattern(s.pattern, e) ==> r == Some(Read(z, rest)))
  {
    var min := if s.minLength != 0 then Some(s.minLength) else None;
    var a, b, c := LimitText(".min(", min), LimitText(".max(", s.maxLength), RegexText(s.pattern);
    var t2 := b + (c + rest);
    ARegexIsRead(s.pattern, rest, e);
    TheCallsAreRead(min, s.maxLength, s.pattern, rest);
    Regroup(b, c, rest);
    Regroup(a, b + c, rest);
    Regroup("z.string()", a + (b + c), rest);
    AnotherIsRead(KString, a + t2, e);
  }

  lemma BoundsAreRead(least: Option<Bound>, most: Option<Bound>, rest: string)
    requires Closes(rest)
    ensures ReadInteger(BoundText(".min(", least) + (BoundText(".max(", most) + rest)) ==
              Some(Read(ZInt(least, most), rest))
  {
    var b := BoundText(".max(", most);
    ABoundIsRead(".max(", most, rest);
    NotThatCall(b, ".max(", rest, ".min(");
    ABoundIsRead(".min(", least, b + rest);
  }

  lemma AnIntegerIsRead(s: Schema, rest: string, e: Engine)
    requires Closes(rest)
    ensures ReadZod(IntegerExpression(s) + rest, e) == Some(Read(ZInt(s.minimum, s.maximum), rest))
  {
    var a, b := BoundText(".min(", s.minimum), BoundText(".max(", s.maximum);
    Regroup(a, b, rest);
    Regroup("z.number().int()", a + b, rest);
    BoundsAreRead(s.minimum, s.maximum, rest);
    AnotherIsRead(KInteger, a + (b + rest), e);
  }

  /** What follows the first member of a list, and the text after the list. */
  function ListTail(members: seq<string>, rest: string): string
    requires members != []
  {
    if |members| == 1 then rest else ", " + (Listed(members[1..]) + rest)
  }

  lemma ListedInPieces(members: seq<string>, rest: string)
    requires members != []
    ensures Listed(members) + rest == "'" + (members[0] + ("'" + ListTail(members, rest)))
  {
    if |members| == 1 {
      Regroup(members[0], "'", rest);
      Regroup("'", members[0] + "'", rest);
    } else {
      var others := Listed(members[1..]);
      Regroup(", ", others, rest);
      Regroup("'", ", " + others, rest);
      Regroup(members[0], "'" + (", " + others), rest);
      Regroup("'", members[0] + ("'" + (", " + others)), rest);
    }
  }

  lemma ALiteralIsRead(before: string, value: string, tail: string)
    requires AllBlank(before) && Clean(value)
    ensures Literal(before + ("'" + (value + ("'" + tail)))) == Some(Read(value, tail))
  {
    ATokenIsAccepted(before, "'", value + ("'" + tail));
    ACleanValueIsRead(value, tail);
  }

  lemma ACommaIsRead(rest: string)
    ensures Accept(", " + rest, ",") == Some(" " + rest)
  {
    assert ", " == "," + " ";
    Regroup(",", " ", rest);
    TheTokenItself(",", " " + rest);
  }

  lemma OneOfAList(s: string, value: string, tail: string)
    requires Literal(s) == Some(Read(value, tail))
    requires Accept(tail, ",").None?
    ensures ReadList(s) == Some(Read([value], tail))
  {
  }

  lemma MoreOfAList(s: string, value: string, tail: string, after: string, others: seq<string>, rest: string)
    requires Literal(s) == Some(Read(value, tail)) && Accept(tail, ",") == Some(after)
    requires ReadList(after) == Some(Read(others, rest))
    ensures ReadList(s) == Some(Read([value] + others, rest))
  {
  }

  lemma TheLastMemberIsRead(before: string, members: seq<string>, rest: string)
    requires |members| == 1 && AllBlank(before) && Clean(members[0]) && Accept(rest, ",").None?
    ensures ReadList(before + (Listed(members) + rest)) == Some(Read(members, rest))
  {
    ListedInPieces(members, rest);
    ALiteralIsRead(before, members[0], rest);
    OneOfAList(before + (Listed(members) + rest), members[0], rest);
    assert [members[0]] == members;
  }

  lemma AMemberThenOthers(before: string, members: seq<string>, rest: string)
    requires |members| > 1 && AllBlank(before) && Clean(members[0])
    requires ReadList(" " + (Listed(members[1..]) + rest)) == Some(Read(members[1..], rest))
    ensures ReadList(before + (Listed(members) + rest)) == Some(Read(members, rest))
  {
    var tail := ListTail(members, rest);
    ListedInPieces(members, rest);
    ALiteralIsRead(before, members[0], tail);
    ACommaIsRead(Listed(members[1..]) + rest);
    MoreOfAList(before + (Listed(members) + rest), members[0], tail, " " + (Listed(members[1..]) + rest),
                members[1..], rest);
    assert [members[0]] + members[1..] == members;
  }

  lemma {:induction false} AListIsRead(before: string, members: seq<string>, rest: string)
    requires members != [] && AllBlank(before) && (forall k :: 0 <= k < |members| ==> Clean(members[k]))
    requires Accept(rest, ",").None?
    ensures ReadList(before + (Listed(members) + rest)) == Some(Read(members, rest))
    decreases |members|
  {
    if |members| == 1 {
      TheLastMemberIsRead(before, members, rest);
    } else {
      AListIsRead(" ", members[1..], rest);
      AMemberThenOthers(before, members, rest);
    }
  }

  lemma TheListCloses(rest: string)
    ensures Accept("])" + rest, "])") == Some(rest) && Accept("])" + rest, ",").None?
  {
    TheTokenItself("])", rest);
    AnotherToken("])", rest, ",", 0);
  }

  lemma MembersAreRead(members: seq<string>, rest: string)
    requires members != [] && forall k :: 0 <= k < |members| ==> Clean(members[k])
    ensures ReadEnum(Listed(members) + ("])" + rest)) == Some(Read(ZEnum(members), rest))
  {
    TheListCloses(rest);
    NoBlanks(Listed(members) + ("])" + rest));
    AListIsRead("", members, "])" + rest);
  }

  lemma AnEnumOpens(body: string, members: seq<string>, rest: string, e: Engine)
    requires ReadEnum(body) == Some(Read(ZEnum(members), rest))
    ensures ReadZod(Opening(KEnum) + body, e) == Some(Read(ZEnum(members), rest))
  {
    AnotherIsRead(KEnum, body, e);
  }

  lemma AnEnumInPieces(list: string, rest: string)
    ensures ("z.enum([" + (list + "])")) + rest == Opening(KEnum) + (list + ("])" + rest))
  {
    Regroup(list, "])", rest);
    Regroup("z.enum([", list + "])", rest);
  }

  lemma AnEnumIsRead(members: seq<string>, rest: string, e: Engine)
    requires members != [] && forall k :: 0 <= k < |members| ==> Clean(members[k])
    ensures ReadZod(("z.enum([" + (Listed(members) + "])")) + rest, e) == Some(Read(ZEnum(members), rest))
  {
    AnEnumInPieces(Listed(members), rest);
    MembersAreRead(members, rest);
    AnEnumOpens(Listed(members) + ("])" + rest), members, rest, e);
  }

  /** What an array writes after its items, before `rest`. */
  function ArrayEnd(max: Option<nat>, rest: string): string { ")" + (LimitText(".max(", max) + rest) }

  lemma AnArrayInPieces(items: string, max: Option<nat>, rest: string)
    ensures ("z.array(" + (items + (")" + LimitText(".max(", max)))) + rest ==
            Opening(KArray) + (items + ArrayEnd(max, rest))
  {
    var m := LimitText(".max(", max);
    Regroup(")", m, rest);
    Regroup(items, ")" + m, rest);
    Regroup("z.array(", items + (")" + m), rest);
  }

  /** An array is read as its items are. */
  lemma AnArrayIsRead(items: string, element: Zod, max: Option<nat>, rest: string, e: Engine)
    requires Closes(rest)
    ensures var item := ReadZod(items + ArrayEnd(max, rest), e);
            var r := ReadZod(("z.array(" + (items + (")" + LimitText(".max(", max)))) + rest, e);
            && (item == Some(Read(element, ArrayEnd(max, rest))) ==> r == Some(Read(ZArray(element, max), rest)))
            && (r.Some? && r.value.value == ZArray(element, max) ==> item.Some? && item.value.value == element)
  {
    var m, body := LimitText(".max(", max), items + ArrayEnd(max, rest);
    AnArrayInPieces(items, max, rest);
    TheHeadIsRead(KArray, body);
    TheEndIsRead(max, rest);
    AnArrayReads(Opening(KArray) + body, body, element, ArrayEnd(max, rest), m + rest, max, rest, LeafOf(e));
    AnArrayReadsItsItems(Opening(KArray) + body, body, LeafOf(e));
  }

  lemma AnArrayReadsItsItems(s: string, body: string, leaf: LeafReader)
    requires Head(s) == Some(Read(KArray, body))
    ensures var r, item := ReadNested(s, leaf), ReadNested(body, leaf);
            r.Some? ==> item.Some? && r.value.value.ZArray? && r.value.value.element == item.value.value
  {
  }

  lemma TheEndIsRead(max: Option<nat>, rest: string)
    requires Closes(rest)
    ensures var limit := LimitText(".max(", max) + rest;
            Accept(ArrayEnd(max, rest), ")") == Some(limit) && ReadLimit(limit, ".max(") == Some(Read(max, rest))
    ensures Closes(ArrayEnd(max, rest))
  {
    AParenthesisIsRead(LimitText(".max(", max) + rest);
    ALimitIsRead(".max(", max, rest);
  }

  lemma AnArrayReads(s: string, body: string, element: Zod, end: string, limit: string, max: Option<nat>, rest: string,
                     leaf: LeafReader)
    requires Head(s) == Some(Read(KArray, body))
    requires Accept(end, ")") == Some(limit) && ReadLimit(limit, ".max(") == Some(Read(max, rest))
    ensures ReadNested(body, leaf) == Some(Read(element, end)) ==>
              ReadNested(s, leaf) == Some(Read(ZArray(element, max), rest))
  {
  }

  lemma ALeafReads(s: string, head: Read<Kind>, leaf: LeafReader)
    requires Head(s) == Some(head) && head.value != KArray
    ensures ReadNested(s, leaf) == leaf(head)
  {
  }

  lemma AnotherIsRead(k: Kind, after: string, e: Engine)
    requires k != KArray
    ensures ReadZod(Opening(k) + after, e) == ReadLeaf(Read(k, after), e)
  {
    TheHeadIsRead(k, after);
    ALeafReads(Opening(k) + after, Read(k, after), LeafOf(e));
  }

  lemma ABooleanIsRead(rest: string, e: Engine)
    ensures ReadZod("z.boolean()" + rest, e) == Some(Read(ZBoolean, rest))
  {
    AnotherIsRead(KBoolean, rest, e);
  }

  lemma ARecordIsRead(rest: string, e: Engine)
    ensures ReadZod("z.record(z.string(), z.unknown())" + rest, e) == Some(Read(ZRecord, rest))
  {
    AnotherIsRead(KRecord, rest, e);
  }

  /** The text of a tree reads as the tree iff its patterns survive, and then the rest follows. */
  predicate ReadsAs(text: string, z: Zod, rest: string, e: Engine) {
    var r := ReadZod(text + rest, e);
    && (r.Some? && r.value.value == z <==> Carriable(z, e))
    && (Carriable(z, e) ==> r == Some(Read(z, rest)))
  }

  predicate ReadsBack(schema: Option<Schema>, rest: string, e: Engine) {
    match ZodFor(schema)
    case Err(reason) => Compile(schema) == Err(reason)
    case Ok(text) => Compile(schema).Ok? && ReadsAs(text, Compile(schema).value, rest, e)
  }

  predicate IsArray(s: Schema) { s.enum == [] && Is(s.types, "array") && s.items.Items? }

  lemma AnotherReadsBack(schema: Option<Schema>, rest: string, e: Engine)
    requires Closes(rest) && (schema.Some? ==> !IsArray(schema.value))
    ensures ReadsBack(schema, rest, e)
  {
    if schema.None? { return; }
    var s := schema.value;
    if s.enum != [] {
      if EnumMembers(s.enum).Ok? {
        AnEnumIsRead(EnumMembers(s.enum).value, rest, e);
      }
    } else if Is(s.types, "string") {
      AStringIsRead(s, rest, e);
    } else if Is(s.types, "boolean") {
      ABooleanIsRead(rest, e);
    } else if Is(s.types, "integer") {
      AnIntegerIsRead(s, rest, e);
    } else {
      ARecordIsRead(rest, e);
    }
  }

  lemma AnArrayReadsBack(s: Schema, rest: string, e: Engine)
    requires Closes(rest) && IsArray(s) && ReadsBack(s.items.schema, ArrayEnd(s.maxItems, rest), e)
    ensures ReadsBack(Some(s), rest, e)
  {
    var items := s.items.schema;
    if Compile(items).Ok? {
      AnArrayIsRead(ZodFor(items).value, Compile(items).value, s.maxItems, rest, e);
    }
  }

  /**
   The text and the tree are refused alike; and the text, wherever it stands, reads back as the tree
   iff its patterns can be carried and compiled.
   */
  lemma {:induction false} TheExpressionReadsBack(schema: Option<Schema>, rest: string, e: Engine)
    requires Closes(rest)
    ensures ReadsBack(schema, rest, e)
    decreases schema
  {
    if schema.Some? && IsArray(schema.value) {
      var s := schema.value;
      TheEndIsRead(s.maxItems, rest);
      TheExpressionReadsBack(s.items.schema, ArrayEnd(s.maxItems, rest), e);
      AnArrayReadsBack(s, rest, e);
    } else {
      AnotherReadsBack(schema, rest, e);
    }
  }
}
