/**
 A reader of the printed catalogue, and the round trip: the printed text is read back exactly when
 nothing in it holds a refused character.
 */
module PermissionsReader {
  import opened Common
  import opened Literals
  import opened Permissions

  /** name : literal , */
  function Property(s: string, name: string): (r: Option<Read<string>>)
    ensures r.Some? ==> |r.value.rest| < |s|
  {
    var colon :- Accept(s, name);
    var value :- Accept(colon, ":");
    var literal :- Literal(value);
    var rest :- Accept(literal.rest, ",");
    Some(Read(literal.value, rest))
  }

  function ReadEntry(s: string): (r: Option<Read<Entry>>)
    ensures r.Some? ==> |r.value.rest| < |s|
  {
    var inside :- Accept(s, "{");
    var key :- Property(inside, "key");
    var category :- Property(key.rest, "category");
    var description :- Property(category.rest, "description");
    var closed :- Accept(description.rest, "}");
    var rest :- Accept(closed, ",");
    Some(Read(Entry(key.value, category.value, description.value), rest))
  }

  /** Entries up to the bracket that closes the array; what follows it is not read. */
  function ReadEntries(s: string): Option<seq<Entry>>
    decreases |s|
  {
    if Accept(s, "]").Some? then Some([])
    else
      var first :- ReadEntry(s);
      var others :- ReadEntries(first.rest);
      Some([first.value] + others)
  }

  /** | literal | literal ... */
  function ReadMembers(s: string): Option<Read<seq<string>>>
    decreases |s|
  {
    match Accept(s, "|")
    case None => Some(Read([], s))
    case Some(bar) =>
      var first :- Literal(bar);
      var others :- ReadMembers(first.rest);
      Some(Read([first.value] + others.value, others.rest))
  }

  function ReadUnion(s: string, name: string): Option<Read<seq<string>>> {
    var afterKeyword :- Accept(s, "export type");
    var afterName :- Accept(afterKeyword, name);
    var members :- Accept(afterName, "=");
    ReadMembers(members)
  }

  datatype Catalogue = Catalogue(keys: seq<string>, categories: seq<string>, entries: seq<Entry>)

  function ReadArray(t: Template, s: string): Option<seq<Entry>> {
    var afterType :- Accept(s, t.entryType);
    var body :- Accept(afterType, ARRAY_OPEN);
    ReadEntries(body)
  }

  function ReadAfterKeys(t: Template, keys: seq<string>, s: string): (r: Option<Catalogue>)
    ensures r.Some? ==> r.value.keys == keys
  {
    var categories :- ReadUnion(s, "PermissionCategory");
    var entries :- ReadArray(t, categories.rest);
    Some(Catalogue(keys, categories.value, entries))
  }

  function ReadModule(t: Template, s: string): Option<Catalogue> {
    var afterHeader :- Accept(s, t.header);
    var keys :- ReadUnion(afterHeader, "PermissionKey");
    ReadAfterKeys(t, keys.value, keys.rest)
  }

  // ---------------------------------------------------------------- properties and entries

  /** What a reader makes of a printed property is what it makes of the inside of its literal. */
  lemma APropertyOpens(indent: string, name: string, gap: string, inside: string)
    requires AllBlank(indent) && AllBlank(gap) && name != "" && !Blank(name[0])
    ensures var r, v := Property(indent + (name + (":" + (gap + ("'" + inside)))), name), Inside(inside);
            && (r.Some? ==> v.Some? && r.value.value == v.value.value)
            && (v.Some? && Accept(v.value.rest, ",").Some? ==>
                  r == Some(Read(v.value.value, Accept(v.value.rest, ",").value)))
  {
    var s2 := ":" + (gap + ("'" + inside));
    ATokenIsAccepted(indent, name, s2);
    ATokenIsAccepted("", ":", gap + ("'" + inside));
    NoBlanks(s2);
    ATokenIsAccepted(gap, "'", inside);
  }

  lemma AFieldInPieces(before: string, indent: string, name: string, gap: string, value: string, rest: string)
    ensures before + FieldText(indent, name, gap, value, rest) ==
            (before + indent) + (name + (":" + (gap + ("'" + (value + ("'" + ("," + ("\n" + rest))))))))
  {
    var s := ":" + (gap + ("'" + (value + ("'" + ("," + ("\n" + rest))))));
    assert ",\n" == "," + "\n";
    Regroup(",", "\n", rest);
    Regroup(before, indent, name + s);
  }

  /** A printed property reads as its value iff the value is clean. */
  lemma AFieldIsRead(before: string, indent: string, name: string, gap: string, value: string, rest: string)
    requires AllBlank(before) && AllBlank(indent) && AllBlank(gap) && name != "" && !Blank(name[0])
    ensures var r := Property(before + FieldText(indent, name, gap, value, rest), name);
            && (Clean(value) ==> r == Some(Read(value, "\n" + rest)))
            && (!Clean(value) && r.Some? ==> r.value.value != value)
  {
    var s4 := "," + ("\n" + rest);
    AFieldInPieces(before, indent, name, gap, value, rest);
    APropertyOpens(before + indent, name, gap, value + ("'" + s4));
    if Clean(value) {
      ACleanValueIsRead(value, s4);
      ATokenIsAccepted("", ",", "\n" + rest);
      NoBlanks(s4);
    } else {
      ADirtyValueIsNotRead(value, s4);
    }
  }

  lemma ADescriptionIsRead(before: string, description: string, rest: string)
    requires AllBlank(before)
    ensures var r := Property(before + DescriptionText(description, rest), "description");
            && (Clean(description) ==> r == Some(Read(description, "\n" + rest)))
            && (!Clean(description) && r.Some? ==> r.value.value != description)
  {
    var gap := if |description| <= 80 then " " else "\n" + CONTINUED_INDENT;
    AFieldIsRead(before, PROPERTY_INDENT, "description", gap, description, rest);
  }

  lemma OpeningIsRead(before: string, rest: string)
    requires AllBlank(before)
    ensures Accept(before + ("  {\n" + rest), "{") == Some("\n" + rest)
  {
    assert "  {\n" == "  " + ("{" + "\n");
    Regroup("{", "\n", rest);
    Regroup("  ", "{" + "\n", rest);
    Regroup(before, "  ", "{" + ("\n" + rest));
    ATokenIsAccepted(before + "  ", "{", "\n" + rest);
  }

  /** A printed entry reads as itself iff its fields are clean. */
  lemma AnEntryIsRead(before: string, e: Entry, rest: string)
    requires AllBlank(before)
    ensures var r := ReadEntry(before + EntryText(e, rest));
            && (CleanEntry(e) ==> r == Some(Read(e, "\n" + rest)))
            && (!CleanEntry(e) && r.Some? ==> r.value.value != e)
  {
    var d := DescriptionText(e.description, "  },\n" + rest);
    var c := FieldText(PROPERTY_INDENT, "category", " ", e.category, d);
    var k := FieldText(PROPERTY_INDENT, "key", " ", e.key, c);
    OpeningIsRead(before, k);
    AFieldIsRead("\n", PROPERTY_INDENT, "key", " ", e.key, c);
    AFieldIsRead("\n", PROPERTY_INDENT, "category", " ", e.category, d);
    ADescriptionIsRead("\n", e.description, "  },\n" + rest);
    ClosingIsRead(rest);
  }

  lemma ClosingIsRead(rest: string)
    ensures Accept("\n" + ("  },\n" + rest), "}") == Some(",\n" + rest)
    ensures Accept(",\n" + rest, ",") == Some("\n" + rest)
  {
    assert "\n" + ("  },\n" + rest) == "\n  " + ("}" + (",\n" + rest));
    ATokenIsAccepted("\n  ", "}", ",\n" + rest);
    assert ",\n" + rest == "" + ("," + ("\n" + rest));
    ATokenIsAccepted("", ",", "\n" + rest);
  }

  // ---------------------------------------------------------------- the whole module

  predicate CleanEntries(entries: seq<Entry>) { forall e <- entries :: CleanEntry(e) }

  lemma {:induction false} EntriesAreRead(before: string, entries: seq<Entry>)
    requires AllBlank(before)
    ensures ReadEntries(before + EntriesText(entries, "]\n")) == Some(entries) <==> CleanEntries(entries)
    decreases |entries|
  {
    if entries == [] {
      assert "]\n" == "]" + "\n";
      ATokenIsAccepted(before, "]", "\n");
    } else {
      var e, others, rest := entries[0], entries[1..], EntriesText(entries[1..], "]\n");
      AnEntryIsRead(before, e, rest);
      AnEntryIsNoBracket(before, e, rest);
      EntriesAreRead("\n", others);
      OneEntryThenOthers(before + EntriesText(entries, "]\n"), e, "\n" + rest, others);
      CleanFromTheFront(entries);
    }
  }

  lemma CleanFromTheFront(entries: seq<Entry>)
    requires entries != []
    ensures entries == [entries[0]] + entries[1..]
    ensures CleanEntries(entries) <==> CleanEntry(entries[0]) && CleanEntries(entries[1..])
  {
    assert forall x <- entries :: x == entries[0] || x in entries[1..];
  }

  lemma OneEntryThenOthers(s: string, e: Entry, rest: string, others: seq<Entry>)
    requires Accept(s, "]").None?
    ensures ReadEntry(s) == Some(Read(e, rest)) ==>
              (ReadEntries(s) == Some([e] + others) <==> ReadEntries(rest) == Some(others))
    ensures ReadEntry(s).None? || ReadEntry(s).value.value != e ==> ReadEntries(s) != Some([e] + others)
  {
    if ReadEntry(s).Some? && ReadEntries(ReadEntry(s).value.rest).Some? {
      var found := ReadEntries(ReadEntry(s).value.rest).value;
      assert ([ReadEntry(s).value.value] + found)[1..] == found && ([e] + others)[1..] == others;
      assert ([ReadEntry(s).value.value] + found)[0] == ReadEntry(s).value.value && ([e] + others)[0] == e;
    }
  }

  lemma AnEntryIsNoBracket(before: string, e: Entry, rest: string)
    requires AllBlank(before)
    ensures Accept(before + EntryText(e, rest), "]").None?
  {
    var body := EntryText(e, rest);
    var inner := body[3..];
    assert body == "  " + ("{" + inner);
    Regroup(before, "  ", "{" + inner);
    SkipBlanks(before + "  ", "{" + inner);
  }

  predicate CleanMembers(members: seq<string>) { forall m <- members :: Clean(m) }

  /** What a reader makes of a printed member is what it makes of the inside of its literal. */
  lemma AMemberOpens(before: string, member: string, tail: string)
    requires AllBlank(before)
    ensures var s := before + ("  | '" + (member + ("'\n" + tail)));
            && Accept(s, "|").Some?
            && Literal(Accept(s, "|").value) == Inside(member + ("'" + ("\n" + tail)))
  {
    var s1 := member + ("'" + ("\n" + tail));
    assert "'\n" == "'" + "\n";
    Regroup("'", "\n", tail);
    assert "  | '" == "  " + ("|" + (" " + "'"));
    Regroup(" ", "'", s1);
    Regroup("|", " " + "'", s1);
    Regroup("  ", "|" + (" " + "'"), s1);
    Regroup(before, "  ", "|" + (" " + ("'" + s1)));
    ATokenIsAccepted(before + "  ", "|", " " + ("'" + s1));
    ATokenIsAccepted(" ", "'", s1);
  }

  /** A printed union reads as its members iff they are clean; then reading stops after them. */
  lemma {:induction false} MembersAreRead(before: string, members: seq<string>, rest: string)
    requires AllBlank(before)
    requires Accept(before + rest, "|").None? && Accept("\n" + rest, "|").None?
    ensures var r := ReadMembers(before + MembersText(members, rest));
            && (CleanMembers(members) ==> r == Some(Read(members, (if members == [] then before else "\n") + rest)))
            && (!CleanMembers(members) && r.Some? ==> r.value.value != members)
    decreases |members|
  {
    if members != [] {
      var m, others, tail := members[0], members[1..], MembersText(members[1..], rest);
      AMemberOpens(before, m, tail);
      if Clean(m) {
        ACleanValueIsRead(m, "\n" + tail);
        MembersAreRead("\n", others, rest);
      } else {
        ADirtyValueIsNotRead(m, "\n" + tail);
      }
      assert members == [m] + others && ([m] + others)[1..] == others;
      assert forall x <- members :: x == m || x in others;
      OneMemberThenOthers(before + MembersText(members, rest), members);
    }
  }

  lemma OneMemberThenOthers(s: string, members: seq<string>)
    requires Accept(s, "|").Some? && members != []
    ensures var r := ReadMembers(s);
            match Literal(Accept(s, "|").value)
            case None => r.None?
            case Some(first) =>
              (match ReadMembers(first.rest)
               case None => r.None?
               case Some(found) =>
                 && r == Some(Read([first.value] + found.value, found.rest))
                 && (first.value == members[0] && found.value == members[1..] <==> r.value.value == members))
  {
    var first := Literal(Accept(s, "|").value);
    if first.Some? && ReadMembers(first.value.rest).Some? {
      var found := ReadMembers(first.value.rest).value;
      var all := [first.value.value] + found.value;
      assert all[0] == first.value.value && all[1..] == found.value;
      assert [members[0]] + members[1..] == members;
    }
  }

  lemma OtherwiseThanABar(blanks: string, s: string)
    requires AllBlank(blanks) && s != "" && !Blank(s[0]) && s[0] != '|'
    ensures Accept(blanks + s, "|").None?
  {
    SkipBlanks(blanks, s);
  }

  lemma AUnionIsRead(before: string, name: string, members: seq<string>, rest: string)
    requires AllBlank(before) && name != "" && !Blank(name[0])
    requires rest != "" && !Blank(rest[0]) && rest[0] != '|'
    ensures var r := ReadUnion(before + UnionText(name, members, rest), name);
            && (CleanMembers(members) ==> r == Some(Read(members, "\n\n" + rest)))
            && (!CleanMembers(members) && r.Some? ==> r.value.value != members)
  {
    var body := MembersText(members, "\n" + rest);
    assert "export type " == "export type" + " " && " =\n" == " " + ("=" + "\n");
    Regroup("export type", " ", name + (" =\n" + body));
    ATokenIsAccepted(before, "export type", " " + (name + (" =\n" + body)));
    ATokenIsAccepted(" ", name, " =\n" + body);
    Regroup("=", "\n", body);
    Regroup(" ", "=" + "\n", body);
    ATokenIsAccepted(" ", "=", "\n" + body);
    assert "\n\n" == "\n" + "\n";
    Regroup("\n", "\n", rest);
    OtherwiseThanABar("\n\n", rest);
    MembersAreRead("\n", members, "\n" + rest);
  }

  /** The two fixed texts start with something the reader can tell from a blank and from a bar. */
  predicate Readable(t: Template) {
    && t.header != "" && !Blank(t.header[0])
    && t.entryType != "" && !Blank(t.entryType[0]) && t.entryType[0] != '|'
  }

  /** A catalogue is printed iff no field of any entry holds a refused character. */
  lemma {:induction false} RefusesIff(entries: seq<Entry>)
    ensures FirstFault(entries).None? <==> forall e <- entries :: CleanEntry(e)
  {
    if entries != [] {
      RefusesIff(entries[1..]);
      assert forall e <- entries :: e == entries[0] || e in entries[1..];
      assert entries[0] in entries;
    }
  }

  /** A refusal names the first entry at fault. */
  lemma {:induction false} TheFirstFaultIsNamed(entries: seq<Entry>) returns (k: nat)
    requires FirstFault(entries).Some?
    ensures k < |entries| && FaultOf(entries[k]) == FirstFault(entries) && forall e <- entries[..k] :: CleanEntry(e)
  {
    if FaultOf(entries[0]).Some? {
      k := 0;
    } else {
      k := TheFirstFaultIsNamed(entries[1..]);
      assert entries[..k + 1] == [entries[0]] + entries[1..][..k];
      k := k + 1;
    }
  }

  lemma {:induction false} KeysAreClean(entries: seq<Entry>)
    requires CleanEntries(entries)
    ensures CleanMembers(Keys(entries))
  {
    forall m <- Keys(entries) ensures Clean(m) {
      var k :| 0 <= k < |entries| && Keys(entries)[k] == m;
      assert entries[k] in entries;
    }
  }

  lemma TheArrayOpens(body: string)
    ensures Accept(ARRAY_OPEN + body, ARRAY_OPEN) == Some(body)
  {
    assert ARRAY_OPEN[0] == "export const"[0];
    NoBlanks(ARRAY_OPEN + body);
    ATokenIsAccepted("", ARRAY_OPEN, body);
  }

  lemma TheEndIsRead(t: Template, entries: seq<Entry>)
    requires Readable(t)
    ensures ReadArray(t, "\n\n" + (t.entryType + (ARRAY_OPEN + EntriesText(entries, "]\n")))) == Some(entries)
       <==> CleanEntries(entries)
  {
    var body := EntriesText(entries, "]\n");
    ATokenIsAccepted("\n\n", t.entryType, ARRAY_OPEN + body);
    TheArrayOpens(body);
    NoBlanks(body);
    EntriesAreRead("", entries);
  }

  lemma TheKeysAreRead(t: Template, keys: seq<string>, s: string)
    requires Readable(t) && s != "" && !Blank(s[0]) && s[0] != '|'
    ensures var r := ReadModule(t, t.header + UnionText("PermissionKey", keys, s));
            && (CleanMembers(keys) ==> r == ReadAfterKeys(t, keys, "\n\n" + s))
            && (!CleanMembers(keys) && r.Some? ==> r.value.keys != keys)
  {
    var s0 := UnionText("PermissionKey", keys, s);
    NoBlanks(t.header + s0);
    ATokenIsAccepted("", t.header, s0);
    NoBlanks(s0);
    AUnionIsRead("", "PermissionKey", keys, s);
  }

  lemma TheRestIsRead(t: Template, keys: seq<string>, categories: seq<string>, s: string)
    requires s != "" && !Blank(s[0]) && s[0] != '|'
    ensures var r := ReadAfterKeys(t, keys, "\n\n" + UnionText("PermissionCategory", categories, s));
            && (r.Some? ==> r.value.keys == keys)
            && (!CleanMembers(categories) && r.Some? ==> r.value.categories != categories)
            && (CleanMembers(categories) ==>
                  var entries := ReadArray(t, "\n\n" + s);
                  r == if entries.None? then None else Some(Catalogue(keys, categories, entries.value)))
  {
    AUnionIsRead("\n\n", "PermissionCategory", categories, s);
  }

  /**
   The round trip, for every catalogue and every list of categories: the text reads back to the same
   keys, categories and entries, in order, iff no field of an entry and no category holds a refused
   character. The printer checks the fields, so it prints a text that does not read back iff a category
   that no entry carries is at fault.
   */
  lemma TheModuleReadsBackIff(t: Template, entries: seq<Entry>, categories: seq<string>)
    requires Readable(t)
    ensures ReadModule(t, ModuleText(t, entries, categories)) == Some(Catalogue(Keys(entries), categories, entries))
       <==> FirstFault(entries).None? && CleanMembers(categories)
  {
    var end := t.entryType + (ARRAY_OPEN + EntriesText(entries, "]\n"));
    RefusesIff(entries);
    TheKeysAreRead(t, Keys(entries), UnionText("PermissionCategory", categories, end));
    TheRestIsRead(t, Keys(entries), categories, end);
    TheEndIsRead(t, entries);
    if CleanEntries(entries) {
      KeysAreClean(entries);
    }
  }

  // ---------------------------------------------------------------- the categories the caller passes

  lemma {:induction false} CategoriesBelong(entries: seq<Entry>)
    ensures forall c :: c in CategoriesOf(entries) <==> exists e :: e in entries && e.category == c
  {
    if entries != [] {
      var before, last := entries[..|entries| - 1], entries[|entries| - 1];
      CategoriesBelong(before);
      assert entries == before + [last] && last in entries;
    }
  }

  /** Each category once, in the order in which the catalogue first shows them. */
  lemma {:induction false} CategoriesAppearInOrder(entries: seq<Entry>, i: nat, j: nat)
    requires i < j < |CategoriesOf(entries)|
    ensures var ordered := CategoriesOf(entries);
            && ordered[i] != ordered[j]
            && (exists k: nat :: k < |entries| && entries[k].category == ordered[i]
                                 && forall l | 0 <= l <= k :: entries[l].category != ordered[j])
  {
    var before, last := entries[..|entries| - 1], entries[|entries| - 1];
    var ordered, was := CategoriesOf(entries), CategoriesOf(before);
    if j < |was| {
      CategoriesAppearInOrder(before, i, j);
      var k: nat :| k < |before| && before[k].category == was[i]
                    && forall l | 0 <= l <= k :: before[l].category != was[j];
      assert forall l | 0 <= l <= k :: entries[l] == before[l];
    } else {
      CategoriesBelong(before);
      assert was[i] in was;
      var e :| e in before && e.category == was[i];
      var k :| 0 <= k < |before| && before[k] == e;
      forall l | 0 <= l <= k ensures entries[l].category != ordered[j] {
        assert entries[l] == before[l] && before[l] in before;
      }
    }
  }

  /**
   With the categories the catalogue itself yields, as the only caller passes them, what is printed
   always reads back.
   */
  lemma AnAcceptedCatalogueReadsBack(t: Template, entries: seq<Entry>)
    requires Readable(t) && FirstFault(entries).None?
    ensures var categories := CategoriesOf(entries);
            ReadModule(t, ModuleText(t, entries, categories)) == Some(Catalogue(Keys(entries), categories, entries))
  {
    RefusesIff(entries);
    CategoriesBelong(entries);
    TheModuleReadsBackIff(t, entries, CategoriesOf(entries));
  }

  /** The one-line form is used iff its line is at most a hundred code points long. */
  lemma TheOneLineFormIff(description: string)
    ensures var line := PROPERTY_INDENT + ("description: '" + (description + "',"));
            DescriptionText(description, "") == line + "\n" <==> |line| <= LINE_WIDTH
  {
    var line := PROPERTY_INDENT + ("description: '" + (description + "',"));
    if |line| <= LINE_WIDTH {
      OneLine(description);
    } else {
      assert (line + "\n")[16] == ' ';
      assert DescriptionText(description, "")[16] == '\n';
    }
  }
}
