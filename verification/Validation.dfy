/**
 The flattening of a validator's error tree into refused fields (internal/bff/validation.go). The
 rule stands for the message it chooses; a reason is read as the regular expressions of the source
 read it.
 */
module Validation {
  import opened Common
  import opened Text

  datatype Rule = Required | Unexpected | OutOfEnum | TooLarge | TooSmall | Malformed

  datatype FieldError = FieldError(field: string, rule: Rule)

  datatype Err =
    | Multi(errors: seq<Err>)
    | Request(parameter: Option<string>, cause: Option<Err>)
    | Schema(reason: string, origin: Option<Err>)
    | Wrapping(inner: Err)
    | Other

  // ---------------------------------------------------------------- reading a reason

  /** How many characters precede the first quote, or the end. */
  function UpToQuote(s: string): (n: nat)
    ensures n <= |s|
    ensures '\'' !in s[..n]
    ensures n < |s| ==> s[n] == '\''
  {
    if s == "" || s[0] == '\'' then 0
    else
      var n := UpToQuote(s[1..]);
      assert s[..n + 1] == [s[0]] + s[1..][..n];
      n + 1
  }

  function UpToDoubleQuote(s: string): (n: nat)
    ensures n <= |s|
    ensures '"' !in s[..n]
  {
    if s == "" || s[0] == '"' then 0
    else
      var n := UpToDoubleQuote(s[1..]);
      assert s[..n + 1] == [s[0]] + s[1..][..n];
      n + 1
  }

  function After(prefix: string, s: string): Option<string> {
    if prefix <= s then Some(s[|prefix|..]) else None
  }

  /** The optional opening `error at "...": ` of a reason. */
  function WithoutOpening(reason: string): string {
    match After("error at \"", reason)
    case None => reason
    case Some(s) =>
      match After("\": ", s[UpToDoubleQuote(s)..])
      case None => reason
      case Some(rest) => rest
  }

  /** at 'location': failure, the failure on one line. */
  function Locate(reason: string): Option<(string, string)> {
    var s :- After("at '", WithoutOpening(reason));
    var n := UpToQuote(s);
    var failure :- After("': ", s[n..]);
    if '\n' in failure then None else Some((s[..n], failure))
  }

  function MissingNames(failure: string): Option<string> {
    match After("missing property ", failure)
    case Some(names) => Some(names)
    case None => After("missing properties ", failure)
  }

  function UnwantedNames(failure: string): Option<string> {
    var named := if After("additional property ", failure).Some? then After("additional property ", failure)
                 else After("additional properties ", failure);
    var s :- named;
    var n := |s| - |" not allowed"|;
    if n >= 0 && s[n..] == " not allowed" then Some(s[..n]) else None
  }

  /** Every non-empty stretch between two quotes, left to right, none overlapping. */
  function QuotedNames(list: string): (names: seq<string>)
    ensures forall name <- names :: name != "" && '\'' !in name
    decreases |list|
  {
    if list == "" then []
    else if list[0] != '\'' then QuotedNames(list[1..])
    else
      var n := UpToQuote(list[1..]);
      if n > 0 && n + 1 < |list| then [list[1..n + 1]] + QuotedNames(list[n + 2..])
      else QuotedNames(list[1..])
  }

  function TrimSlashes(s: string): string {
    if s == "" then s
    else if s[0] == '/' then TrimSlashes(s[1..])
    else if s[|s| - 1] == '/' then TrimSlashes(s[..|s| - 1])
    else s
  }

  function Dotted(s: string): (t: string)
    ensures |t| == |s| && forall k :: 0 <= k < |s| ==> t[k] == if s[k] == '/' then '.' else s[k]
  {
    seq(|s|, k requires 0 <= k < |s| => if s[k] == '/' then '.' else s[k])
  }

  function BaseOf(location: string, parameter: string): string {
    var base := Dotted(TrimSlashes(location));
    if base == "" then parameter else base
  }

  function Located(base: string, name: string): string {
    if base == "" then name else if name == "" then base else base + "." + name
  }

  function RuleOf(failure: string): Rule {
    if "value must be one of" <= failure then OutOfEnum
    else if "maxLength:" <= failure || "maximum:" <= failure then TooLarge
    else if "minLength:" <= failure || "minimum:" <= failure then TooSmall
    else Malformed
  }

  // ---------------------------------------------------------------- the fields of one leaf

  function AllLocated(base: string, names: seq<string>): (fields: seq<string>)
    ensures |fields| == |names|
    ensures forall k :: 0 <= k < |names| ==> fields[k] == Located(base, names[k])
  {
    seq(|names|, k requires 0 <= k < |names| => Located(base, names[k]))
  }

  function Named(fields: seq<string>, rule: Rule): seq<FieldError> {
    if fields == [] then []
    else
      var last := fields[|fields| - 1];
      Named(fields[..|fields| - 1], rule) + if last == "" then [] else [FieldError(last, rule)]
  }

  function FieldsOfReason(reason: string, parameter: string): seq<FieldError> {
    match Locate(reason)
    case None => Named([parameter], Malformed)
    case Some((location, failure)) =>
      var base := BaseOf(location, parameter);
      if MissingNames(failure).Some? then
        Named(AllLocated(base, QuotedNames(MissingNames(failure).value)), Required)
      else if UnwantedNames(failure).Some? then
        Named(AllLocated(base, QuotedNames(UnwantedNames(failure).value)), Unexpected)
      else Named(AllLocated(base, [""]), RuleOf(failure))
  }

  method LocatedFields(location: string, parameter: string, names: seq<string>) returns (fields: seq<string>)
    ensures fields == AllLocated(BaseOf(location, parameter), names)
  {
    var base := Dotted(TrimSlashes(location));
    if base == "" {
      base := parameter;
    }
    fields := [];
    for i := 0 to |names|
      invariant fields == AllLocated(base, names)[..i]
    {
      if base == "" {
        fields := fields + [names[i]];
      } else if names[i] == "" {
        fields := fields + [base];
      } else {
        fields := fields + [base + "." + names[i]];
      }
    }
  }

  method NamedFields(fields: seq<string>, rule: Rule) returns (named: seq<FieldError>)
    ensures named == Named(fields, rule)
  {
    named := [];
    for i := 0 to |fields|
      invariant named == Named(fields[..i], rule)
    {
      assert fields[..i + 1][..i] == fields[..i];
      if fields[i] != "" {
        named := named + [FieldError(fields[i], rule)];
      }
    }
    assert fields[..|fields|] == fields;
  }

  method ReadReason(reason: string, parameter: string) returns (named: seq<FieldError>)
    ensures named == FieldsOfReason(reason, parameter)
  {
    var located := Locate(reason);
    if located.None? {
      named := NamedFields([parameter], Malformed);
      return;
    }
    var (location, failure) := located.value;
    var fields: seq<string>;
    if MissingNames(failure).Some? {
      fields := LocatedFields(location, parameter, QuotedNames(MissingNames(failure).value));
      named := NamedFields(fields, Required);
    } else if UnwantedNames(failure).Some? {
      fields := LocatedFields(location, parameter, QuotedNames(UnwantedNames(failure).value));
      named := NamedFields(fields, Unexpected);
    } else {
      fields := LocatedFields(location, parameter, [""]);
      named := NamedFields(fields, RuleOf(failure));
    }
  }

  // ---------------------------------------------------------------- the leaves of the tree

  /** A leaf: a reason to read, or nothing more than the parameter it stands under. */
  datatype Leaf = Reason(text: string) | Bare

  /** A leaf with the parameters named on the way down to it, outermost first. */
  datatype Path = Path(parameters: seq<string>, leaf: Leaf)

  function Under(parameter: Option<string>, paths: seq<Path>): seq<Path> {
    if parameter.None? then paths
    else seq(|paths|, k requires 0 <= k < |paths| => Path([parameter.value] + paths[k].parameters, paths[k].leaf))
  }

  /** Every leaf of the tree, in order. */
  function Paths(e: Err): seq<Path> {
    match e
    case Multi(errors) => AllPaths(errors)
    case Request(parameter, None) => Under(parameter, [Path([], Bare)])
    case Request(parameter, Some(cause)) => Under(parameter, Paths(cause))
    case Schema(reason, None) => [Path([], Reason(reason))]
    case Schema(_, Some(origin)) => Paths(origin)
    case Wrapping(inner) => Paths(inner)
    case Other => [Path([], Bare)]
  }

  function AllPaths(errors: seq<Err>): seq<Path> {
    if errors == [] then [] else AllPaths(errors[..|errors| - 1]) + Paths(errors[|errors| - 1])
  }

  /** The nearest enclosing parameter of a leaf. */
  function Nearest(p: Path, inherited: string): string {
    if p.parameters == [] then inherited else p.parameters[|p.parameters| - 1]
  }

  function FieldsAt(p: Path, inherited: string): seq<FieldError> {
    match p.leaf
    case Reason(text) => FieldsOfReason(text, Nearest(p, inherited))
    case Bare => Named([Nearest(p, inherited)], Malformed)
  }

  /** The fields of a list of leaves, each under its nearest enclosing parameter. */
  function Gather(paths: seq<Path>, inherited: string): seq<FieldError> {
    if paths == [] then []
    else Gather(paths[..|paths| - 1], inherited) + FieldsAt(paths[|paths| - 1], inherited)
  }

  lemma {:induction false} GatherBoth(a: seq<Path>, b: seq<Path>, inherited: string)
    ensures Gather(a + b, inherited) == Gather(a, inherited) + Gather(b, inherited)
  {
    if b == [] {
      assert a + b == a;
    } else {
      GatherBoth(a, b[..|b| - 1], inherited);
      assert (a + b)[..|a + b| - 1] == a + b[..|b| - 1];
      Associative(Gather(a, inherited), Gather(b[..|b| - 1], inherited), FieldsAt(b[|b| - 1], inherited));
    }
  }

  lemma Associative(a: seq<FieldError>, b: seq<FieldError>, c: seq<FieldError>)
    ensures (a + b) + c == a + (b + c)
  {
  }

  lemma NearestUnder(parameter: string, p: Path, inherited: string)
    ensures Nearest(Path([parameter] + p.parameters, p.leaf), inherited) == Nearest(p, parameter)
  {
  }

  lemma SameLeaf(p: Path, q: Path, a: string, b: string)
    requires p.leaf == q.leaf && Nearest(p, a) == Nearest(q, b)
    ensures FieldsAt(p, a) == FieldsAt(q, b)
  {
  }

  lemma FieldsUnder(parameter: string, p: Path, inherited: string)
    ensures FieldsAt(Path([parameter] + p.parameters, p.leaf), inherited) == FieldsAt(p, parameter)
  {
    NearestUnder(parameter, p, inherited);
    SameLeaf(Path([parameter] + p.parameters, p.leaf), p, inherited, parameter);
  }

  lemma UnderAllButTheLast(parameter: string, paths: seq<Path>)
    requires paths != []
    ensures var under, n := Under(Some(parameter), paths), |paths| - 1;
            && under != [] && under[..|under| - 1] == Under(Some(parameter), paths[..n])
            && under[|under| - 1] == Path([parameter] + paths[n].parameters, paths[n].leaf)
  {
  }

  lemma {:induction false} GatherUnder(parameter: string, paths: seq<Path>, inherited: string)
    ensures Gather(Under(Some(parameter), paths), inherited) == Gather(paths, parameter)
  {
    if paths != [] {
      GatherUnder(parameter, paths[..|paths| - 1], inherited);
      UnderAllButTheLast(parameter, paths);
      FieldsUnder(parameter, paths[|paths| - 1], inherited);
    }
  }

  lemma OneLeaf(p: Path, inherited: string)
    ensures Gather([p], inherited) == FieldsAt(p, inherited)
  {
    assert [p][..0] == [];
  }

  /**
   The recursion of the source, which carries the parameter down and appends what comes back: the
   result is the list of the leaves, in order, each under its nearest enclosing parameter.
   */
  method RefusedFieldsOf(e: Err, field: string) returns (fields: seq<FieldError>)
    ensures fields == Gather(Paths(e), field)
    decreases e
  {
    var parameter := field;
    match e
    case Multi(errors) =>
      fields := [];
      for i := 0 to |errors|
        invariant fields == Gather(AllPaths(errors[..i]), field)
      {
        var each := RefusedFieldsOf(errors[i], field);
        assert errors[..i + 1][..i] == errors[..i];
        GatherBoth(AllPaths(errors[..i]), Paths(errors[i]), field);
        fields := fields + each;
      }
      assert errors[..|errors|] == errors;
    case Request(named, cause) =>
      ghost var inside := if cause.None? then [Path([], Bare)] else Paths(cause.value);
      if named.Some? {
        parameter := named.value;
        GatherUnder(named.value, inside, field);
      }
      if cause.None? {
        OneLeaf(Path([], Bare), parameter);
        fields := NamedFields([parameter], Malformed);
      } else {
        fields := RefusedFieldsOf(cause.value, parameter);
      }
    case Schema(reason, origin) =>
      if origin.Some? {
        fields := RefusedFieldsOf(origin.value, field);
      } else {
        OneLeaf(Path([], Reason(reason)), field);
        fields := ReadReason(reason, field);
      }
    case Wrapping(inner) =>
      fields := RefusedFieldsOf(inner, field);
    case Other =>
      OneLeaf(Path([], Bare), field);
      fields := NamedFields([field], Malformed);
  }

  // ---------------------------------------------------------------- nesting does not matter

  /** Every list of errors with the lists directly inside it spliced in, however deep. */
  function Spliced(e: Err): Err {
    match e
    case Multi(errors) => Multi(AllSpliced(errors))
    case Request(parameter, Some(cause)) => Request(parameter, Some(Spliced(cause)))
    case Schema(reason, Some(origin)) => Schema(reason, Some(Spliced(origin)))
    case Wrapping(inner) => Wrapping(Spliced(inner))
    case _ => e
  }

  function AllSpliced(errors: seq<Err>): seq<Err> {
    if errors == [] then []
    else
      var last := Spliced(errors[|errors| - 1]);
      AllSpliced(errors[..|errors| - 1]) + if last.Multi? then last.errors else [last]
  }

  lemma {:induction false} AllPathsOfBoth(a: seq<Err>, b: seq<Err>)
    ensures AllPaths(a + b) == AllPaths(a) + AllPaths(b)
  {
    if b == [] {
      assert a + b == a;
    } else {
      AllPathsOfBoth(a, b[..|b| - 1]);
      assert (a + b)[..|a + b| - 1] == a + b[..|b| - 1];
      PathsRegroup(AllPaths(a), AllPaths(b[..|b| - 1]), Paths(b[|b| - 1]));
    }
  }

  lemma PathsRegroup(a: seq<Path>, b: seq<Path>, c: seq<Path>)
    ensures (a + b) + c == a + (b + c)
  {
  }

  lemma OneError(e: Err)
    ensures AllPaths([e]) == Paths(e)
  {
    assert [e][..0] == [];
  }

  lemma {:induction false} SplicingKeepsThePaths(e: Err)
    ensures Paths(Spliced(e)) == Paths(e)
    decreases e
  {
    match e
    case Multi(errors) => SplicingKeepsAllPaths(errors);
    case Request(_, Some(cause)) => SplicingKeepsThePaths(cause);
    case Schema(_, Some(origin)) => SplicingKeepsThePaths(origin);
    case Wrapping(inner) => SplicingKeepsThePaths(inner);
    case _ =>
  }

  lemma {:induction false} SplicingKeepsAllPaths(errors: seq<Err>)
    ensures AllPaths(AllSpliced(errors)) == AllPaths(errors)
    decreases errors
  {
    if errors != [] {
      var before, last := errors[..|errors| - 1], errors[|errors| - 1];
      SplicingKeepsAllPaths(before);
      SplicingKeepsThePaths(last);
      AllPathsOfBoth(AllSpliced(before), if Spliced(last).Multi? then Spliced(last).errors else [Spliced(last)]);
      OneError(Spliced(last));
    }
  }

  /**
   Two trees that differ only in how their lists of errors are nested, at any depth, refuse the same
   fields in the same order.
   */
  lemma NestingDoesNotMatter(a: Err, b: Err, inherited: string)
    requires Spliced(a) == Spliced(b)
    ensures Gather(Paths(a), inherited) == Gather(Paths(b), inherited)
  {
    SplicingKeepsThePaths(a);
    SplicingKeepsThePaths(b);
  }

  // ---------------------------------------------------------------- reasons are read as they are written

  /** A step of a path: a slash would make two of it. */
  predicate Segments(path: seq<string>) {
    forall k :: 0 <= k < |path| ==> path[k] != "" && '\'' !in path[k] && '/' !in path[k]
  }

  /** Names that quotes can hold on one line, slashes included. */
  predicate Quotable(names: seq<string>) {
    forall k :: 0 <= k < |names| ==> names[k] != "" && '\'' !in names[k] && '\n' !in names[k]
  }

  /** The JSON pointer of a path, as the validator writes it. */
  function Pointer(segments: seq<string>): string {
    if segments == [] then "" else "/" + Join(segments, '/')
  }

  function Quoted(names: seq<string>): string
    requires names != []
  {
    if |names| == 1 then "'" + (names[0] + "'")
    else "'" + (names[0] + ("'" + (", " + Quoted(names[1..]))))
  }

  /** The path of a refused field, with dots. */
  function FieldPath(segments: seq<string>, parameter: string, name: string): string {
    Located(if segments == [] then parameter else Join(segments, '.'), name)
  }

  lemma {:induction false} TheQuoteIsFound(s: string, rest: string)
    requires '\'' !in s
    ensures UpToQuote(s + ("'" + rest)) == |s|
  {
    var all := s + ("'" + rest);
    if s == "" {
      assert all == "'" + rest;
    } else {
      assert all[0] == s[0] && s[0] in s;
      assert all[1..] == s[1..] + ("'" + rest);
      TheQuoteIsFound(s[1..], rest);
    }
  }

  lemma OneNameIsRead(name: string, rest: string)
    requires name != "" && '\'' !in name
    ensures QuotedNames("'" + (name + ("'" + rest))) == [name] + QuotedNames(rest)
  {
    var s := name + ("'" + rest);
    var list := "'" + s;
    assert list[1..] == s;
    TheQuoteIsFound(name, rest);
    assert list[1..|name| + 1] == name && list[|name| + 2..] == rest;
  }

  lemma TheCommaIsSkipped(rest: string)
    ensures QuotedNames(", " + rest) == QuotedNames(rest)
  {
    assert (", " + rest)[1..] == " " + rest;
    assert (" " + rest)[1..] == rest;
  }

  lemma {:induction false} NamesAreRead(names: seq<string>)
    requires names != [] && Quotable(names)
    ensures QuotedNames(Quoted(names)) == names
  {
    if |names| == 1 {
      assert "'" + "" == "'";
      OneNameIsRead(names[0], "");
      assert [names[0]] + [] == names;
    } else {
      var rest := Quoted(names[1..]);
      OneNameIsRead(names[0], ", " + rest);
      TheCommaIsSkipped(rest);
      NamesAreRead(names[1..]);
      assert [names[0]] + names[1..] == names;
    }
  }

  lemma {:induction false} NamesStandOnOneLine(names: seq<string>)
    requires names != [] && Quotable(names)
    ensures '\n' !in Quoted(names)
  {
    if |names| > 1 {
      NamesStandOnOneLine(names[1..]);
    }
  }

  lemma {:induction false} JoinedSegments(segments: seq<string>)
    requires segments != [] && Segments(segments)
    ensures var j := Join(segments, '/');
            && j != "" && j[0] != '/' && j[|j| - 1] != '/' && '\'' !in j
            && Dotted(j) == Join(segments, '.')
  {
    var j, first := Join(segments, '/'), segments[0];
    assert first[0] in first && first[|first| - 1] in first;
    assert Dotted(first) == first by {
      assert forall k :: 0 <= k < |first| ==> first[k] in first;
    }
    if |segments| > 1 {
      JoinedSegments(segments[1..]);
      var tail := Join(segments[1..], '/');
      assert j == first + ['/'] + tail;
      assert Dotted(j) == Dotted(first) + ['.'] + Dotted(tail);
    }
  }

  lemma APointerIsDotted(segments: seq<string>, parameter: string)
    requires Segments(segments)
    ensures BaseOf(Pointer(segments), parameter) == if segments == [] then parameter else Join(segments, '.')
    ensures '\'' !in Pointer(segments)
  {
    if segments != [] {
      JoinedSegments(segments);
      var j := Join(segments, '/');
      assert ("/" + j)[1..] == j;
      assert TrimSlashes(j) == j;
    }
  }

  /** A reason as the validator writes it, with its opening when it names where the value stood. */
  function ReasonText(where: Option<string>, location: string, failure: string): string {
    var reason := "at '" + (location + ("'" + (": " + failure)));
    if where.None? then reason else "error at \"" + (where.value + ("\"" + (": " + reason)))
  }

  lemma {:induction false} TheDoubleQuoteIsFound(s: string, rest: string)
    requires '"' !in s
    ensures UpToDoubleQuote(s + ("\"" + rest)) == |s|
  {
    var all := s + ("\"" + rest);
    if s == "" {
      assert all == "\"" + rest;
    } else {
      assert all[0] == s[0] && s[0] in s;
      assert all[1..] == s[1..] + ("\"" + rest);
      TheDoubleQuoteIsFound(s[1..], rest);
    }
  }

  lemma AnOpeningIsSkipped(where: string, rest: string)
    requires '"' !in where
    ensures WithoutOpening("error at \"" + (where + ("\"" + (": " + rest)))) == rest
  {
    var s := where + ("\"" + (": " + rest));
    var reason := "error at \"" + s;
    assert reason[..10] == "error at \"" && reason[10..] == s;
    TheDoubleQuoteIsFound(where, ": " + rest);
    assert s[|where|..] == "\": " + rest;
    assert ("\": " + rest)[3..] == rest;
  }

  lemma NoOpeningIsSkipped(rest: string)
    ensures WithoutOpening("at '" + rest) == "at '" + rest
  {
    assert ("at '" + rest)[0] == 'a' && "error at \""[0] == 'e';
  }

  lemma AReasonIsLocated(where: Option<string>, location: string, failure: string)
    requires (where.Some? ==> '"' !in where.value) && '\'' !in location && '\n' !in failure
    ensures Locate(ReasonText(where, location, failure)) == Some((location, failure))
  {
    var s := location + ("'" + (": " + failure));
    var reason := "at '" + s;
    if where.Some? {
      AnOpeningIsSkipped(where.value, reason);
    } else {
      NoOpeningIsSkipped(s);
    }
    assert reason[4..] == s;
    TheQuoteIsFound(location, ": " + failure);
    assert s[..|location|] == location;
    assert s[|location|..] == "': " + failure;
    assert ("': " + failure)[3..] == failure;
  }

  lemma WhatIsTaken(word: string, s: string)
    requires After(word, s).Some?
    ensures s == word + After(word, s).value
  {
  }

  lemma CutInTwo(s: string, n: nat, end: string)
    requires n <= |s| && s[n..] == end
    ensures s == s[..n] + end
  {
  }

  lemma TheOpeningEnds(rest: string)
    ensures "\": " + rest == "\"" + (": " + rest)
  {
    var whole := "\": " + rest;
    assert whole[0] == '"' && whole[1..] == ": " + rest;
  }

  lemma WhatIsSkipped(reason: string) returns (where: string)
    requires WithoutOpening(reason) != reason
    ensures '"' !in where && reason == "error at \"" + (where + ("\"" + (": " + WithoutOpening(reason))))
  {
    var s := After("error at \"", reason).value;
    var n := UpToDoubleQuote(s);
    where := s[..n];
    WhatIsTaken("error at \"", reason);
    WhatIsTaken("\": ", s[n..]);
    TheOpeningEnds(WithoutOpening(reason));
    CutInTwo(s, n, "\"" + (": " + WithoutOpening(reason)));
  }

  /** A reason is located exactly when it is written as the validator writes one, on one line. */
  lemma LocatedIff(reason: string, location: string, failure: string)
    ensures Locate(reason) == Some((location, failure)) <==>
            && '\'' !in location && '\n' !in failure
            && exists where: Option<string> ::
                 (where.Some? ==> '"' !in where.value) && reason == ReasonText(where, location, failure)
  {
    if Locate(reason) == Some((location, failure)) {
      ALocatedReason(reason, location, failure);
    }
    if '\'' !in location && '\n' !in failure {
      if where: Option<string> :| (where.Some? ==> '"' !in where.value)
                                  && reason == ReasonText(where, location, failure) {
        AReasonIsLocated(where, location, failure);
      }
    }
  }

  lemma TheLocationEnds(failure: string)
    ensures "': " + failure == "'" + (": " + failure)
  {
    var whole := "': " + failure;
    assert whole[0] == '\'' && whole[1..] == ": " + failure;
  }

  lemma AQuotedLocation(s: string, location: string, failure: string)
    requires location == s[..UpToQuote(s)] && After("': ", s[UpToQuote(s)..]) == Some(failure)
    ensures s == location + ("'" + (": " + failure)) && '\'' !in location
  {
    WhatIsTaken("': ", s[UpToQuote(s)..]);
    TheLocationEnds(failure);
    CutInTwo(s, UpToQuote(s), "'" + (": " + failure));
  }

  lemma ALocatedReason(reason: string, location: string, failure: string)
    requires Locate(reason) == Some((location, failure))
    ensures '\'' !in location && '\n' !in failure
    ensures exists where: Option<string> ::
              (where.Some? ==> '"' !in where.value) && reason == ReasonText(where, location, failure)
  {
    var bare := WithoutOpening(reason);
    var s := After("at '", bare).value;
    WhatIsTaken("at '", bare);
    AQuotedLocation(s, location, failure);
    assert bare == ReasonText(None, location, failure);
    if bare != reason {
      var where := WhatIsSkipped(reason);
      assert reason == ReasonText(Some(where), location, failure);
    }
  }

  /** How a failure lists names that are missing, or not allowed; in the singular or in the plural. */
  function Listing(missing: bool, plural: bool, names: string): string {
    if missing then (if plural then "missing properties " else "missing property ") + names
    else (if plural then "additional properties " else "additional property ") + (names + " not allowed")
  }

  function ListText(missing: bool, plural: bool, names: seq<string>): string
    requires names != []
  {
    Listing(missing, plural, Quoted(names))
  }

  lemma AWordIsTaken(word: string, rest: string)
    ensures After(word, word + rest) == Some(rest)
  {
    assert (word + rest)[..|word|] == word && (word + rest)[|word|..] == rest;
  }

  lemma AnotherWordIsNot(word: string, other: string, rest: string, k: nat)
    requires k < |word| && k < |other| && word[k] != other[k]
    ensures After(word, other + rest) == None
  {
    assert (other + rest)[k] == other[k];
  }

  lemma MissingNamesFollow(plural: bool, names: string)
    ensures MissingNames((if plural then "missing properties " else "missing property ") + names) == Some(names)
  {
    if plural {
      AWordIsTaken("missing properties ", names);
      AnotherWordIsNot("missing property ", "missing properties ", names, 15);
    } else {
      AWordIsTaken("missing property ", names);
    }
  }

  lemma UnwantedNamesFollow(plural: bool, names: string)
    ensures var word := if plural then "additional properties " else "additional property ";
            var failure := word + (names + " not allowed");
            MissingNames(failure) == None && UnwantedNames(failure) == Some(names)
  {
    var list := names + " not allowed";
    if plural {
      AWordIsTaken("additional properties ", list);
      AnotherWordIsNot("additional property ", "additional properties ", list, 18);
      AnotherWordIsNot("missing property ", "additional properties ", list, 0);
      AnotherWordIsNot("missing properties ", "additional properties ", list, 0);
    } else {
      AWordIsTaken("additional property ", list);
      AnotherWordIsNot("missing property ", "additional property ", list, 0);
      AnotherWordIsNot("missing properties ", "additional property ", list, 0);
    }
    assert list[|names|..] == " not allowed" && list[..|names|] == names;
  }

  lemma AListStandsOnOneLine(missing: bool, plural: bool, names: seq<string>)
    requires names != [] && Quotable(names)
    ensures '\n' !in ListText(missing, plural, names)
  {
    NamesStandOnOneLine(names);
  }

  /**
   The refused fields of a reason that lists names, whether missing or not allowed, in the singular or
   in the plural, with or without an opening: the names, in order, under the dotted pointer, or under
   the parameter when the pointer is the root.
   */
  lemma ListedNamesAreRead(where: Option<string>, segments: seq<string>, missing: bool, plural: bool,
                           names: seq<string>, parameter: string)
    requires (where.Some? ==> '"' !in where.value) && Segments(segments) && names != [] && Quotable(names)
    ensures var reason := ReasonText(where, Pointer(segments), ListText(missing, plural, names));
            var fields, rule := FieldsOfReason(reason, parameter), if missing then Required else Unexpected;
            && |fields| == |names|
            && forall k :: 0 <= k < |names| ==>
                 fields[k] == FieldError(FieldPath(segments, parameter, names[k]), rule)
  {
    var list := ListText(missing, plural, names);
    APointerIsDotted(segments, parameter);
    NamesAreRead(names);
    AListStandsOnOneLine(missing, plural, names);
    AReasonIsLocated(where, Pointer(segments), list);
    if missing {
      MissingNamesFollow(plural, Quoted(names));
    } else {
      UnwantedNamesFollow(plural, Quoted(names));
    }
    var fields := AllLocated(BaseOf(Pointer(segments), parameter), names);
    AllNamed(fields, if missing then Required else Unexpected);
  }

  lemma {:induction false} AllNamed(fields: seq<string>, rule: Rule)
    requires forall k :: 0 <= k < |fields| ==> fields[k] != ""
    ensures |Named(fields, rule)| == |fields|
    ensures forall k :: 0 <= k < |fields| ==> Named(fields, rule)[k] == FieldError(fields[k], rule)
  {
    if fields != [] {
      AllNamed(fields[..|fields| - 1], rule);
    }
  }

  /** A name stands between quotes at `i`, `n` characters long: at least one, and none of them a quote. */
  predicate NameAt(list: string, i: nat, n: nat) {
    && n > 0 && i + n + 1 < |list| && list[i] == '\'' && list[i + n + 1] == '\''
    && '\'' !in list[i + 1..i + n + 1]
  }

  /** The names of a list are those of its leftmost match, and of what follows it. */
  lemma {:induction false} TheFirstNameIsRead(list: string, i: nat, n: nat)
    requires NameAt(list, i, n) && forall j: nat, m: nat | j < i :: !NameAt(list, j, m)
    ensures QuotedNames(list) == [list[i + 1..i + n + 1]] + QuotedNames(list[i + n + 2..])
  {
    if i == 0 {
      ANameHereIsRead(list, n);
    } else {
      var rest := list[1..];
      OneFurther(list, i - 1, n);
      forall j: nat, m: nat | j < i - 1 ensures !NameAt(rest, j, m) {
        OneFurther(list, j, m);
      }
      TheFirstNameIsRead(rest, i - 1, n);
      Shifted(list, i, n);
      NoNameHere(list);
    }
  }

  lemma Shifted(list: string, i: nat, n: nat)
    requires i > 0 && i + n + 1 < |list|
    ensures list[1..][i..i + n] == list[i + 1..i + n + 1]
    ensures list[1..][i + n + 1..] == list[i + n + 2..]
  {
  }

  lemma ANameHereIsRead(list: string, n: nat)
    requires NameAt(list, 0, n)
    ensures QuotedNames(list) == [list[1..n + 1]] + QuotedNames(list[n + 2..])
  {
    CutInTwo(list[1..], n, "'" + list[n + 2..]);
    assert list[1..][..n] == list[1..n + 1];
    CutInTwo(list, 1, list[1..]);
    assert list[..1] == "'";
    OneNameIsRead(list[1..n + 1], list[n + 2..]);
  }

  lemma OneFurther(list: string, i: nat, n: nat)
    requires list != ""
    ensures NameAt(list[1..], i, n) <==> NameAt(list, i + 1, n)
  {
    if i + n + 2 < |list| {
      assert list[1..][i + 1..i + n + 1] == list[i + 2..i + n + 2];
    }
  }

  lemma NoNameHere(list: string)
    requires list != "" && forall m: nat :: !NameAt(list, 0, m)
    ensures QuotedNames(list) == QuotedNames(list[1..])
  {
    if list[0] == '\'' {
      var n := UpToQuote(list[1..]);
      assert !NameAt(list, 0, n);
      assert list[1..n + 1] == list[1..][..n];
    }
  }

  /** Without a match there is no name. */
  lemma {:induction false} NoNameIsRead(list: string)
    requires forall i: nat, n: nat :: !NameAt(list, i, n)
    ensures QuotedNames(list) == []
  {
    if list != "" {
      NoNameHere(list);
      forall i: nat, n: nat ensures !NameAt(list[1..], i, n) {
        OneFurther(list, i, n);
      }
      NoNameIsRead(list[1..]);
    }
  }

  predicate Slashes(s: string) { forall c :: c in s ==> c == '/' }

  /** A pointer loses the slashes on both sides and nothing else. */
  lemma {:induction false} WhatTrimSlashesLeaves(s: string) returns (left: string, right: string)
    ensures s == left + TrimSlashes(s) + right && Slashes(left) && Slashes(right)
    ensures var core := TrimSlashes(s); core != "" ==> core[0] != '/' && core[|core| - 1] != '/'
  {
    left, right := "", "";
    if s != "" && s[0] == '/' {
      left, right := WhatTrimSlashesLeaves(s[1..]);
      left := ['/'] + left;
      assert s == ['/'] + s[1..];
    } else if s != "" && s[|s| - 1] == '/' {
      left, right := WhatTrimSlashesLeaves(s[..|s| - 1]);
      right := right + ['/'];
      assert s == s[..|s| - 1] + ['/'];
    }
  }

  /** The failure is written as one that lists names, missing or not allowed. */
  ghost predicate ListsNames(failure: string) {
    exists missing: bool, plural: bool, names: string :: failure == Listing(missing, plural, names)
  }

  lemma NamesAreListedIff(failure: string)
    ensures ListsNames(failure) <==> MissingNames(failure).Some? || UnwantedNames(failure).Some?
  {
    if missing: bool, plural: bool, names: string :| failure == Listing(missing, plural, names) {
      if missing {
        MissingNamesFollow(plural, names);
      } else {
        UnwantedNamesFollow(plural, names);
      }
    }
    if MissingNames(failure).Some? {
      var plural := After("missing property ", failure).None?;
      WhatIsTaken(if plural then "missing properties " else "missing property ", failure);
      assert failure == Listing(true, plural, MissingNames(failure).value);
    } else if UnwantedNames(failure).Some? {
      var plural := After("additional property ", failure).None?;
      var word := if plural then "additional properties " else "additional property ";
      WhatIsTaken(word, failure);
      var s := After(word, failure).value;
      CutInTwo(s, |s| - |" not allowed"|, " not allowed");
      assert failure == Listing(false, plural, UnwantedNames(failure).value);
    }
  }

  /**
   The refused field of a reason that lists no names: the dotted pointer itself, or the parameter when the
   pointer is the root, and none when there is neither; with the rule that the failure starts with, a list of
   values, an upper bound, a lower bound, or none of them.
   */
  lemma ABoundIsRead(where: Option<string>, segments: seq<string>, failure: string, parameter: string)
    requires (where.Some? ==> '"' !in where.value) && Segments(segments)
    requires '\n' !in failure && !ListsNames(failure)
    ensures var fields := FieldsOfReason(ReasonText(where, Pointer(segments), failure), parameter);
            var field := if segments == [] then parameter else Join(segments, '.');
            if field == "" then fields == []
            else
              && |fields| == 1 && fields[0].field == field
              && (fields[0].rule == OutOfEnum <==> "value must be one of" <= failure)
              && (fields[0].rule == TooLarge <==> "maxLength:" <= failure || "maximum:" <= failure)
              && (fields[0].rule == TooSmall <==> "minLength:" <= failure || "minimum:" <= failure)
              && fields[0].rule != Required && fields[0].rule != Unexpected
  {
    APointerIsDotted(segments, parameter);
    AReasonIsLocated(where, Pointer(segments), failure);
    NamesAreListedIff(failure);
    OneNamed(Located(BaseOf(Pointer(segments), parameter), ""), RuleOf(failure));
    assert AllLocated(BaseOf(Pointer(segments), parameter), [""]) ==
        [Located(BaseOf(Pointer(segments), parameter), "")];
    WhichRule(failure);
  }

  lemma OneNamed(field: string, rule: Rule)
    ensures Named([field], rule) == if field == "" then [] else [FieldError(field, rule)]
  {
    assert [field][..0] == [];
  }

  lemma WhichRule(failure: string)
    ensures RuleOf(failure) == OutOfEnum <==> "value must be one of" <= failure
    ensures RuleOf(failure) == TooLarge <==> "maxLength:" <= failure || "maximum:" <= failure
    ensures RuleOf(failure) == TooSmall <==> "minLength:" <= failure || "minimum:" <= failure
    ensures RuleOf(failure) != Required && RuleOf(failure) != Unexpected
  {
    var word, most, least := "value must be one of", "maxLength:", "minLength:";
    assert word[0] == 'v' && most[0] == 'm' && least[0] == 'm' && "maximum:"[0] == 'm' && "minimum:"[0] == 'm';
    assert most[1] == 'a' && "maximum:"[1] == 'a' && least[1] == 'i' && "minimum:"[1] == 'i';
  }

  /** A reason that is not written so names the parameter it stands under, without a rule. */
  lemma AnotherReasonIsMalformed(reason: string, parameter: string)
    requires forall where: Option<string>, location, failure |
               (where.Some? ==> '"' !in where.value) && '\'' !in location && '\n' !in failure ::
               reason != ReasonText(where, location, failure)
    ensures FieldsOfReason(reason, parameter) == if parameter == "" then [] else [FieldError(parameter, Malformed)]
  {
    if Locate(reason).Some? {
      ALocatedReason(reason, Locate(reason).value.0, Locate(reason).value.1);
    }
    OneNamed(parameter, Malformed);
  }
}
