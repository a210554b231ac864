/**
 Single-quoted TypeScript literals, as the two generators write them and as a reader takes them:
 blanks between tokens do not matter, a literal runs to the next straight quote, a backslash stands
 for the character after it, and a line break inside a literal is an error.
 */
module Literals {
  import opened Common

  predicate Forbidden(c: char) { c == '\'' || c == '\\' || c == '\n' || c == '\r' }

  predicate Clean(s: string) { forall c <- s :: !Forbidden(c) }

  /** strings.IndexAny over the forbidden characters. */
  function FirstForbidden(s: string): (c: Option<char>)
    ensures c.None? <==> Clean(s)
    ensures c.Some? ==> c.value in s && Forbidden(c.value)
  {
    if s == "" then None else if Forbidden(s[0]) then Some(s[0]) else FirstForbidden(s[1..])
  }

  predicate Blank(c: char) { c == ' ' || c == '\n' || c == '\r' || c == '\t' }

  predicate AllBlank(s: string) { forall c <- s :: Blank(c) }

  function Skip(s: string): (t: string)
    ensures |t| <= |s|
  {
    if s != "" && Blank(s[0]) then Skip(s[1..]) else s
  }

  /** Blanks, then exactly `token`. */
  function Accept(s: string, token: string): (rest: Option<string>)
    ensures rest.Some? ==> |rest.value| + |token| <= |s|
  {
    var t := Skip(s);
    if token <= t then Some(t[|token|..]) else None
  }

  datatype Read<+T> = Read(value: T, rest: string)

  /** The inside of a literal, up to its closing quote. */
  function Inside(s: string): (r: Option<Read<string>>)
    ensures r.Some? ==> |r.value.rest| < |s|
  {
    if s == "" || s[0] == '\n' || s[0] == '\r' then None
    else if s[0] == '\'' then Some(Read("", s[1..]))
    else if s[0] == '\\' then
      if |s| == 1 then None
      else
        var tail :- Inside(s[2..]);
        Some(Read([s[1]] + tail.value, tail.rest))
    else
      var tail :- Inside(s[1..]);
      Some(Read([s[0]] + tail.value, tail.rest))
  }

  function Literal(s: string): (r: Option<Read<string>>)
    ensures r.Some? ==> |r.value.rest| < |s|
  {
    var inside :- Accept(s, "'");
    Inside(inside)
  }

  // ---------------------------------------------------------------- tokens

  lemma Regroup(a: string, b: string, c: string)
    ensures a + (b + c) == (a + b) + c
  {
  }

  lemma {:induction false} SkipBlanks(blanks: string, s: string)
    requires AllBlank(blanks) && (s == "" || !Blank(s[0]))
    ensures Skip(blanks + s) == s
  {
    if blanks == "" {
      assert blanks + s == s;
    } else {
      assert (blanks + s)[0] == blanks[0] && blanks[0] in blanks;
      assert (blanks + s)[1..] == blanks[1..] + s;
      SkipBlanks(blanks[1..], s);
    }
  }

  lemma ATokenIsAccepted(blanks: string, token: string, rest: string)
    requires AllBlank(blanks) && token != "" && !Blank(token[0])
    ensures Accept(blanks + (token + rest), token) == Some(rest)
  {
    SkipBlanks(blanks, token + rest);
    assert (token + rest)[..|token|] == token && (token + rest)[|token|..] == rest;
  }

  lemma NoBlanks(s: string)
    ensures "" + s == s
  {
  }

  lemma {:induction false} ACleanValueIsRead(value: string, rest: string)
    requires Clean(value)
    ensures Inside(value + ("'" + rest)) == Some(Read(value, rest))
  {
    var s := value + ("'" + rest);
    if value == "" {
      assert s == "'" + rest;
      assert s[1..] == rest;
    } else {
      assert value[0] in value && s[0] == value[0];
      assert s[1..] == value[1..] + ("'" + rest);
      ACleanValueIsRead(value[1..], rest);
      assert [value[0]] + value[1..] == value;
    }
  }

  function Slashes(n: nat): (s: string)
    ensures |s| == n && forall c <- s :: c == '\\'
  {
    seq(n, _ => '\\')
  }

  lemma OneMoreSlash(n: nat, s: string)
    requires s != "" && s[0] == '\\'
    ensures Slashes(n) + s == Slashes(n + 1) + s[1..]
    ensures (Slashes(n) + s)[0] == '\\' && (Slashes(n) + s)[1..] == Slashes(n) + s[1..]
  {
    assert Slashes(n + 1) == Slashes(n) + [s[0]] == [s[0]] + Slashes(n);
    Regroup(Slashes(n), [s[0]], s[1..]);
    assert [s[0]] + s[1..] == s;
  }

  /**
   A backslash only shortens what is read: a value that holds a refused character, or that is looked
   for behind further backslashes, is never what its quoted text reads as.
   */
  lemma {:induction false} NeverReadsAsItself(slashes: nat, value: string, rest: string)
    requires slashes > 0 || !Clean(value)
    ensures var r := Inside(value + ("'" + rest)); r.Some? ==> r.value.value != Slashes(slashes) + value
    decreases |value|
  {
    var s, wanted := value + ("'" + rest), Slashes(slashes) + value;
    if value == "" {
      assert s == "'" + rest;
    } else if value[0] == '\\' {
      OneMoreSlash(slashes, value);
      if |value| > 1 {
        assert s[2..] == value[2..] + ("'" + rest) && s[1] == value[1];
        if value[1] == '\\' {
          OneMoreSlash(slashes, value[1..]);
          assert value[1..][1..] == value[2..];
          NeverReadsAsItself(slashes + 1, value[2..], rest);
        }
      }
    } else if !Forbidden(value[0]) {
      assert s[0] == value[0] && s[1..] == value[1..] + ("'" + rest);
      if slashes == 0 {
        assert wanted == value;
        assert forall c <- value :: c == value[0] || c in value[1..];
        NeverReadsAsItself(0, value[1..], rest);
        assert Slashes(0) + value[1..] == value[1..];
      } else {
        assert wanted[0] == '\\';
      }
    } else {
      assert s[0] == value[0] && wanted != "";
    }
  }

  /** A value that holds a refused character never reads as itself. */
  lemma ADirtyValueIsNotRead(value: string, rest: string)
    requires !Clean(value)
    ensures var r := Inside(value + ("'" + rest)); r.Some? ==> r.value.value != value
  {
    NeverReadsAsItself(0, value, rest);
    assert Slashes(0) + value == value;
  }

  /**
   The four refused characters are exactly the ones that keep a value from being read back: between
   straight quotes a value reads as itself iff it holds none of them, and then with the right text
   after it.
   */
  lemma ReadBackIff(value: string, rest: string)
    ensures var r := Literal("'" + (value + ("'" + rest)));
            && (r.Some? && r.value.value == value <==> FirstForbidden(value).None?)
            && (FirstForbidden(value).None? ==> r == Some(Read(value, rest)))
  {
    var body := value + ("'" + rest);
    ATokenIsAccepted("", "'", body);
    NoBlanks("'" + body);
    if Clean(value) {
      ACleanValueIsRead(value, rest);
    } else {
      ADirtyValueIsNotRead(value, rest);
    }
  }
}
