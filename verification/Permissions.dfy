/**
 The catalogue printer of cmd/permissionsgen/main.go: a builder that methods append to, what they
 append, and the refusal of every character a single-quoted literal cannot carry. Text is a sequence
 of code points. The opening comment and the interface declaration are fixed texts, given as a
 template.
 */
module Permissions {
  import opened Builders
  import opened Common
  import opened Literals

  const LINE_WIDTH := 100
  const PROPERTY_INDENT := "    "
  const CONTINUED_INDENT := "      "

  datatype Entry = Entry(key: string, category: string, description: string)

  datatype Field = KeyField | CategoryField | DescriptionField

  datatype Refusal = Refusal(key: string, field: Field, offending: char)

  datatype Template = Template(header: string, entryType: string)

  // ---------------------------------------------------------------- what is refused

  function FaultOf(e: Entry): Option<Refusal> {
    if FirstForbidden(e.key).Some? then Some(Refusal(e.key, KeyField, FirstForbidden(e.key).value))
    else if FirstForbidden(e.category).Some? then Some(Refusal(e.key, CategoryField, FirstForbidden(e.category).value))
    else if FirstForbidden(e.description).Some? then
      Some(Refusal(e.key, DescriptionField, FirstForbidden(e.description).value))
    else None
  }

  function FirstFault(entries: seq<Entry>): Option<Refusal> {
    if entries == [] then None
    else if FaultOf(entries[0]).Some? then FaultOf(entries[0])
    else FirstFault(entries[1..])
  }

  predicate CleanEntry(e: Entry) { Clean(e.key) && Clean(e.category) && Clean(e.description) }

  // ---------------------------------------------------------------- what is written, before `rest`

  /** indent, name, colon, gap, quoted value, comma. */
  function FieldText(indent: string, name: string, gap: string, value: string, rest: string): string {
    indent + (name + (":" + (gap + ("'" + (value + ("'" + (",\n" + rest)))))))
  }

  /** On its own line after the name when the one-line form would exceed the width. */
  function DescriptionText(description: string, rest: string): string {
    if |description| <= 80 then FieldText(PROPERTY_INDENT, "description", " ", description, rest)
    else FieldText(PROPERTY_INDENT, "description", "\n" + CONTINUED_INDENT, description, rest)
  }

  function EntryText(e: Entry, rest: string): string {
    "  {\n" + FieldText(PROPERTY_INDENT, "key", " ", e.key,
      FieldText(PROPERTY_INDENT, "category", " ", e.category,
        DescriptionText(e.description, "  },\n" + rest)))
  }

  function EntriesText(entries: seq<Entry>, rest: string): string {
    if entries == [] then rest else EntryText(entries[0], EntriesText(entries[1..], rest))
  }

  function MembersText(members: seq<string>, rest: string): string {
    if members == [] then rest else "  | '" + (members[0] + ("'\n" + MembersText(members[1..], rest)))
  }

  function UnionText(name: string, members: seq<string>, rest: string): string {
    "export type " + (name + (" =\n" + MembersText(members, "\n" + rest)))
  }

  const ARRAY_NAME := " PERMISSIONS: readonly Permission[] = [\n"
  const ARRAY_OPEN := "export const" + ARRAY_NAME

  function Keys(entries: seq<Entry>): (keys: seq<string>)
    ensures |keys| == |entries| && forall k :: 0 <= k < |keys| ==> keys[k] == entries[k].key
  {
    seq(|entries|, k requires 0 <= k < |entries| => entries[k].key)
  }

  function ModuleText(t: Template, entries: seq<Entry>, categories: seq<string>): string {
    t.header + UnionText("PermissionKey", Keys(entries),
      UnionText("PermissionCategory", categories,
        t.entryType + (ARRAY_OPEN + EntriesText(entries, "]\n"))))
  }

  // ---------------------------------------------------------------- the text before `rest` is a prefix

  lemma FieldThenRest(indent: string, name: string, gap: string, value: string, rest: string)
    ensures FieldText(indent, name, gap, value, rest) ==
            (indent + (name + (":" + (gap + ("'" + (value + ("'" + ",\n"))))))) + rest
    ensures FieldText(indent, name, gap, value, rest) == FieldText(indent, name, gap, value, "") + rest
  {
    Regroup("'", ",\n", rest);
    var s1 := "'" + ",\n";
    Regroup(value, s1, rest);
    var s2 := value + s1;
    Regroup("'", s2, rest);
    var s3 := "'" + s2;
    Regroup(gap, s3, rest);
    var s4 := gap + s3;
    Regroup(":", s4, rest);
    var s5 := ":" + s4;
    Regroup(name, s5, rest);
    Regroup(indent, name + s5, rest);
    assert ",\n" + "" == ",\n";
  }

  lemma DescriptionThenRest(description: string, rest: string)
    ensures DescriptionText(description, rest) == DescriptionText(description, "") + rest
  {
    FieldThenRest(PROPERTY_INDENT, "description", " ", description, rest);
    FieldThenRest(PROPERTY_INDENT, "description", "\n" + CONTINUED_INDENT, description, rest);
  }

  lemma EntryInPieces(e: Entry, rest: string)
    ensures EntryText(e, rest) ==
            "  {\n" + (FieldText(PROPERTY_INDENT, "key", " ", e.key, "") +
              (FieldText(PROPERTY_INDENT, "category", " ", e.category, "") +
                (DescriptionText(e.description, "") + ("  },\n" + rest))))
  {
    DescriptionThenRest(e.description, "  },\n" + rest);
    var d := DescriptionText(e.description, "  },\n" + rest);
    FieldThenRest(PROPERTY_INDENT, "category", " ", e.category, d);
    FieldThenRest(PROPERTY_INDENT, "key", " ", e.key, FieldText(PROPERTY_INDENT, "category", " ", e.category, d));
  }

  lemma EntryThenRest(e: Entry, rest: string)
    ensures EntryText(e, rest) == EntryText(e, "") + rest
  {
    EntryInPieces(e, rest);
    EntryInPieces(e, "");
    assert "  },\n" + "" == "  },\n";
    FourThenRest("  {\n", FieldText(PROPERTY_INDENT, "key", " ", e.key, ""),
      FieldText(PROPERTY_INDENT, "category", " ", e.category, ""), DescriptionText(e.description, ""), "  },\n", rest);
  }

  lemma FourThenRest(o: string, a: string, b: string, c: string, z: string, rest: string)
    ensures o + (a + (b + (c + (z + rest)))) == (o + (a + (b + (c + z)))) + rest
  {
    Regroup(c, z, rest);
    Regroup(b, c + z, rest);
    Regroup(a, b + (c + z), rest);
    Regroup(o, a + (b + (c + z)), rest);
  }

  lemma EntriesFromTheFront(entries: seq<Entry>, rest: string)
    requires entries != []
    ensures EntriesText(entries, rest) == EntryText(entries[0], "") + EntriesText(entries[1..], rest)
  {
    EntryThenRest(entries[0], EntriesText(entries[1..], rest));
  }

  lemma {:induction false} EntriesThenRest(entries: seq<Entry>, rest: string)
    ensures EntriesText(entries, rest) == EntriesText(entries, "") + rest
  {
    if entries != [] {
      EntriesThenRest(entries[1..], rest);
      EntriesFromTheFront(entries, rest);
      EntriesFromTheFront(entries, "");
      LongerAtTheEnd(EntryText(entries[0], ""), EntriesText(entries[1..], ""), rest,
        EntriesText(entries, ""), EntriesText(entries[1..], rest), EntriesText(entries, rest));
    }
  }

  lemma OnlyOneEntry(e: Entry)
    ensures EntriesText([e], "") == EntryText(e, "")
  {
    assert [e][1..] == [];
  }

  lemma OneEntryBefore(e: Entry, entries: seq<Entry>)
    ensures EntriesText([e] + entries, "") == EntryText(e, "") + EntriesText(entries, "")
  {
    assert ([e] + entries)[1..] == entries;
    EntriesFromTheFront([e] + entries, "");
  }

  lemma OneMoreBehind(first: Entry, others: seq<Entry>, e: Entry)
    requires EntriesText(others + [e], "") == EntriesText(others, "") + EntryText(e, "")
    ensures EntriesText([first] + (others + [e]), "") == EntriesText([first] + others, "") + EntryText(e, "")
  {
    OneEntryBefore(first, others);
    OneEntryBefore(first, others + [e]);
    Regroup(EntryText(first, ""), EntriesText(others, ""), EntryText(e, ""));
  }

  lemma TheFirstEntry(e: Entry)
    ensures EntriesText([] + [e], "") == EntriesText([], "") + EntryText(e, "")
  {
    assert [] + [e] == [e];
    OnlyOneEntry(e);
    NoBlanks(EntryText(e, ""));
  }

  lemma TakenApart(entries: seq<Entry>, e: Entry)
    requires entries != []
    ensures entries == [entries[0]] + entries[1..]
    ensures entries + [e] == [entries[0]] + (entries[1..] + [e])
  {
  }

  lemma {:induction false} OneMoreEntry(entries: seq<Entry>, e: Entry)
    ensures EntriesText(entries + [e], "") == EntriesText(entries, "") + EntryText(e, "")
  {
    if entries == [] {
      TheFirstEntry(e);
    } else {
      var first, others := entries[0], entries[1..];
      OneMoreEntry(others, e);
      OneMoreBehind(first, others, e);
      TakenApart(entries, e);
    }
  }

  lemma LongerAtTheEnd(head: string, tail: string, last: string, all: string, longerTail: string, longer: string)
    requires all == head + tail && longerTail == tail + last && longer == head + longerTail
    ensures longer == all + last
  {
  }

  lemma {:induction false} MembersThenRest(members: seq<string>, rest: string)
    ensures MembersText(members, rest) == MembersText(members, "") + rest
  {
    if members != [] {
      var tail := MembersText(members[1..], "");
      MembersThenRest(members[1..], rest);
      Regroup("'\n", tail, rest);
      Regroup(members[0], "'\n" + tail, rest);
      Regroup("  | '", members[0] + ("'\n" + tail), rest);
    }
  }

  lemma {:induction false} OneMoreMember(members: seq<string>, m: string)
    ensures MembersText(members + [m], "") == MembersText(members, "") + ("  | '" + (m + "'\n"))
  {
    if members == [] {
      assert members + [m] == [m];
      assert [m][1..] == [];
      assert "'\n" + "" == "'\n";
    } else {
      var tail := MembersText(members[1..], "");
      var last := "  | '" + (m + "'\n");
      OneMoreMember(members[1..], m);
      assert (members + [m])[1..] == members[1..] + [m];
      Regroup("'\n", tail, last);
      Regroup(members[0], "'\n" + tail, last);
      Regroup("  | '", members[0] + ("'\n" + tail), last);
    }
  }

  // ---------------------------------------------------------------- the printer in place

  method WriteUnion(out: Builder, name: string, members: seq<string>)
    modifies out
    ensures out.text == old(out.text) + UnionText(name, members, "")
  {
    ghost var before := out.text;
    out.WriteString("export type " + (name + " =\n"));
    ghost var lead := out.text;
    for i := 0 to |members|
      invariant out.text == lead + MembersText(members[..i], "")
    {
      OneMoreMember(members[..i], members[i]);
      assert members[..i] + [members[i]] == members[..i + 1];
      out.WriteString("  | '" + (members[i] + "'\n"));
      Regroup(lead, MembersText(members[..i], ""), "  | '" + (members[i] + "'\n"));
    }
    assert members[..|members|] == members;
    out.WriteString("\n");
    var body := MembersText(members, "");
    MembersThenRest(members, "\n");
    assert "\n" + "" == "\n";
    Regroup(lead, body, "\n");
    Regroup(before, "export type " + (name + " =\n"), body + "\n");
    Regroup("export type ", name + " =\n", body + "\n");
    Regroup(name, " =\n", body + "\n");
  }

  method WriteDescription(out: Builder, description: string)
    modifies out
    ensures out.text == old(out.text) + DescriptionText(description, "")
  {
    var line := PROPERTY_INDENT + ("description: '" + (description + "',"));
    if |line| <= LINE_WIDTH {
      OneLine(description);
      out.WriteString(line + "\n");
      return;
    }
    TwoLines(description);
    ghost var before := out.text;
    out.WriteString(PROPERTY_INDENT + "description:\n");
    out.WriteString(CONTINUED_INDENT + ("'" + (description + "',\n")));
    Regroup(before, PROPERTY_INDENT + "description:\n", CONTINUED_INDENT + ("'" + (description + "',\n")));
  }

  lemma OneLine(description: string)
    ensures (PROPERTY_INDENT + ("description: '" + (description + "',"))) + "\n" ==
            FieldText(PROPERTY_INDENT, "description", " ", description, "")
  {
    ALineIsAField("description", description);
    Regroup(description, "',", "\n");
    assert "'," + "\n" == "',\n";
    Regroup("description: '", description + "',", "\n");
    Regroup(PROPERTY_INDENT, "description: '" + (description + "',"), "\n");
    assert "description: '" == "description" + ": '";
    Regroup("description", ": '", description + "',\n");
  }

  /** The one-line form the printer writes for a property. */
  lemma ALineIsAField(name: string, value: string)
    ensures PROPERTY_INDENT + (name + (": '" + (value + "',\n"))) == FieldText(PROPERTY_INDENT, name, " ", value, "")
  {
    assert "'" + ",\n" == "',\n";
    assert ",\n" + "" == ",\n";
    Regroup(" ", "'", value + "',\n");
    assert " " + "'" == " '";
    Regroup(":", " '", value + "',\n");
    assert ":" + " '" == ": '";
  }

  lemma TwoLines(description: string)
    ensures (PROPERTY_INDENT + "description:\n") + (CONTINUED_INDENT + ("'" + (description + "',\n"))) ==
            FieldText(PROPERTY_INDENT, "description", "\n" + CONTINUED_INDENT, description, "")
  {
    var value := "'" + (description + "',\n");
    assert "'" + ",\n" == "',\n";
    assert ",\n" + "" == ",\n";
    Regroup("\n", CONTINUED_INDENT, value);
    Regroup(":", "\n", CONTINUED_INDENT + value);
    Regroup("description", ":" + "\n", CONTINUED_INDENT + value);
    assert "description" + (":" + "\n") == "description:\n";
    Regroup(PROPERTY_INDENT, "description:\n", CONTINUED_INDENT + value);
  }

  method WriteEntry(out: Builder, e: Entry) returns (refused: Option<Refusal>)
    modifies out
    ensures refused == FaultOf(e)
    ensures out.text == if refused.Some? then old(out.text) else old(out.text) + EntryText(e, "")
  {
    var fields := [(KeyField, e.key), (CategoryField, e.category), (DescriptionField, e.description)];
    for i := 0 to 3
      invariant out.text == old(out.text)
      invariant forall j :: 0 <= j < i ==> FirstForbidden(fields[j].1).None?
    {
      var offending := FirstForbidden(fields[i].1);
      if offending.Some? {
        assert i == 0 || i == 1 || i == 2;
        assert i > 0 ==> FirstForbidden(fields[0].1).None?;
        assert i > 1 ==> FirstForbidden(fields[1].1).None?;
        return Some(Refusal(e.key, fields[i].0, offending.value));
      }
    }
    assert FirstForbidden(fields[0].1).None? && FirstForbidden(fields[1].1).None? && FirstForbidden(fields[2].1).None?;
    ghost var before := out.text;
    out.WriteString("  {\n");
    out.WriteString(PROPERTY_INDENT + ("key" + (": '" + (e.key + "',\n"))));
    out.WriteString(PROPERTY_INDENT + ("category" + (": '" + (e.category + "',\n"))));
    WriteDescription(out, e.description);
    out.WriteString("  },\n");
    ALineIsAField("key", e.key);
    ALineIsAField("category", e.category);
    EntryInPieces(e, "");
    assert "  },\n" + "" == "  },\n";
    FivePieces(before, "  {\n", FieldText(PROPERTY_INDENT, "key", " ", e.key, ""),
      FieldText(PROPERTY_INDENT, "category", " ", e.category, ""), DescriptionText(e.description, ""), "  },\n");
    return None;
  }

  lemma FivePieces(before: string, o: string, a: string, b: string, c: string, z: string)
    ensures ((((before + o) + a) + b) + c) + z == before + (o + (a + (b + (c + z))))
  {
    Regroup(((before + o) + a) + b, c, z);
    Regroup((before + o) + a, b, c + z);
    Regroup(before + o, a, b + (c + z));
    Regroup(before, o, a + (b + (c + z)));
  }

  /** The categories of a catalogue, each where it first appears. */
  function CategoriesOf(entries: seq<Entry>): (ordered: seq<string>) {
    if entries == [] then [] else
      var before, last := CategoriesOf(entries[..|entries| - 1]), entries[|entries| - 1].category;
      if last in before then before else before + [last]
  }

  method Categories(catalogue: seq<Entry>) returns (ordered: seq<string>)
    ensures ordered == CategoriesOf(catalogue)
    ensures forall i, j | 0 <= i < j < |ordered| :: ordered[i] != ordered[j]
    ensures forall e <- catalogue :: e.category in ordered
  {
    ordered := [];
    for i := 0 to |catalogue|
      invariant ordered == CategoriesOf(catalogue[..i])
      invariant forall k, l | 0 <= k < l < |ordered| :: ordered[k] != ordered[l]
      invariant forall k | 0 <= k < i :: catalogue[k].category in ordered
    {
      assert catalogue[..i + 1][..i] == catalogue[..i];
      if catalogue[i].category !in ordered {
        ordered := ordered + [catalogue[i].category];
      }
    }
    assert catalogue[..|catalogue|] == catalogue;
  }

  /** The loop over the entries, which the first refusal leaves. */
  method WriteEntries(out: Builder, entries: seq<Entry>) returns (refused: Option<Refusal>)
    modifies out
    ensures refused == FirstFault(entries)
    ensures refused.None? ==> out.text == old(out.text) + EntriesText(entries, "")
  {
    ghost var before := out.text;
    for i := 0 to |entries|
      invariant FirstFault(entries) == FirstFault(entries[i..])
      invariant out.text == before + EntriesText(entries[..i], "")
    {
      AFaultIsNext(entries, i);
      refused := WriteEntry(out, entries[i]);
      if refused.Some? {
        return;
      }
      AnEntryIsNext(entries, i);
      Regroup(before, EntriesText(entries[..i], ""), EntryText(entries[i], ""));
    }
    assert entries[..|entries|] == entries;
    return None;
  }

  /** The whole module, or the first refusal in the order of the entries and of their fields. */
  method Render(t: Template, entries: seq<Entry>, categories: seq<string>) returns (r: Result<string, Refusal>)
    ensures r == if FirstFault(entries).Some? then Err(FirstFault(entries).value)
                 else Ok(ModuleText(t, entries, categories))
  {
    var out := new Builder();
    out.WriteString(t.header);
    var keys: seq<string> := [];
    for i := 0 to |entries|
      invariant keys == Keys(entries)[..i]
    {
      keys := keys + [entries[i].key];
    }
    assert keys == Keys(entries);
    WriteUnion(out, "PermissionKey", keys);
    WriteUnion(out, "PermissionCategory", categories);
    out.WriteString(t.entryType);
    out.WriteString(ARRAY_OPEN);
    var refused := WriteEntries(out, entries);
    if refused.Some? {
      return Err(refused.value);
    }
    out.WriteString("]\n");
    TheModuleInPieces(t, entries, categories);
    return Ok(out.text);
  }

  lemma AFaultIsNext(entries: seq<Entry>, i: nat)
    requires i < |entries|
    ensures FirstFault(entries[i..]) ==
            if FaultOf(entries[i]).Some? then FaultOf(entries[i]) else FirstFault(entries[i + 1..])
  {
    assert entries[i..][0] == entries[i] && entries[i..][1..] == entries[i + 1..];
  }

  lemma AnEntryIsNext(entries: seq<Entry>, i: nat)
    requires i < |entries|
    ensures EntriesText(entries[..i + 1], "") == EntriesText(entries[..i], "") + EntryText(entries[i], "")
  {
    assert entries[..i] + [entries[i]] == entries[..i + 1];
    OneMoreEntry(entries[..i], entries[i]);
  }

  lemma UnionThenRest(name: string, members: seq<string>, rest: string)
    ensures UnionText(name, members, rest) == UnionText(name, members, "") + rest
  {
    MembersThenRest(members, "\n" + rest);
    MembersThenRest(members, "\n" + "");
    assert "\n" + "" == "\n";
    Regroup(MembersText(members, ""), "\n", rest);
    var body := MembersText(members, "") + "\n";
    Regroup(" =\n", body, rest);
    Regroup(name, " =\n" + body, rest);
    Regroup("export type ", name + (" =\n" + body), rest);
  }

  lemma TheModuleInPieces(t: Template, entries: seq<Entry>, categories: seq<string>)
    ensures ModuleText(t, entries, categories) ==
            ((((("" + t.header) + UnionText("PermissionKey", Keys(entries), "")) +
              UnionText("PermissionCategory", categories, "")) + t.entryType) + ARRAY_OPEN +
              EntriesText(entries, "")) + "]\n"
  {
    var k, c := UnionText("PermissionKey", Keys(entries), ""), UnionText("PermissionCategory", categories, "");
    var body := EntriesText(entries, "]\n");
    UnionThenRest("PermissionCategory", categories, t.entryType + (ARRAY_OPEN + body));
    UnionThenRest("PermissionKey", Keys(entries), c + (t.entryType + (ARRAY_OPEN + body)));
    assert "" + t.header == t.header;
    FivePieces(t.header, k, c, t.entryType, ARRAY_OPEN, body);
    EntriesThenRest(entries, "]\n");
    Regroup((((t.header + k) + c) + t.entryType) + ARRAY_OPEN, EntriesText(entries, ""), "]\n");
  }
}
