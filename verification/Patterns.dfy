/**
 A pattern written as a JavaScript regular-expression literal: every slash is escaped, nothing else.
 The reader follows the lexer of the language: a backslash takes the next character with it, a slash
 ends the literal unless it stands in a class, a line terminator is an error; and an escaped slash
 denotes a slash.
 */
module Patterns {
  import opened Common
  import opened Literals

  predicate LineTerminator(c: char) {
    c == '\n' || c == '\r' || c as int == 0x2028 || c as int == 0x2029
  }

  /** strings.ReplaceAll of a slash by a backslash and a slash. */
  function Slashed(p: string): string {
    if p == "" then ""
    else if p[0] == '/' then ['\\', '/'] + Slashed(p[1..])
    else [p[0]] + Slashed(p[1..])
  }

  /** The pattern a literal denotes, from inside it to its closing slash. */
  function ReadPattern(s: string, inClass: bool): (r: Option<Read<string>>)
    ensures r.Some? ==> |r.value.rest| < |s|
  {
    if s == "" || LineTerminator(s[0]) then None
    else if s[0] == '\\' then
      if |s| == 1 || LineTerminator(s[1]) then None
      else
        var tail :- ReadPattern(s[2..], inClass);
        Some(Read((if s[1] == '/' then "/" else [s[0], s[1]]) + tail.value, tail.rest))
    else if s[0] == '/' && !inClass then Some(Read("", s[1..]))
    else
      var tail :- ReadPattern(s[1..], s[0] == '[' || (inClass && s[0] != ']'));
      Some(Read([s[0]] + tail.value, tail.rest))
  }

  /**
   What a literal can carry as it stands: no line terminator, no slash that is escaped already, no
   class left open, no backslash left alone.
   */
  predicate Carried(p: string, inClass: bool) {
    if p == "" then !inClass
    else if LineTerminator(p[0]) then false
    else if p[0] == '\\' then
      |p| > 1 && !LineTerminator(p[1]) && p[1] != '/' && Carried(p[2..], inClass)
    else Carried(p[1..], p[0] == '[' || (inClass && p[0] != ']'))
  }

  lemma SlashedStep(p: string, rest: string)
    requires p != ""
    ensures Slashed(p) + ("/" + rest) ==
            (if p[0] == '/' then ['\\', '/'] else [p[0]]) + (Slashed(p[1..]) + ("/" + rest))
  {
  }

  lemma TwoCharacters(a: char, b: char, rest: string)
    ensures [a] + ([b] + rest) == [a, b] + rest
  {
  }

  lemma SlashedPair(p: string, rest: string)
    requires |p| > 1 && p[0] == '\\' && p[1] != '/'
    ensures Slashed(p) + ("/" + rest) == [p[0], p[1]] + (Slashed(p[2..]) + ("/" + rest))
  {
    SlashedStep(p, rest);
    SlashedStep(p[1..], rest);
    assert p[1..][1..] == p[2..];
    TwoCharacters(p[0], p[1], Slashed(p[2..]) + ("/" + rest));
  }

  /** The literal denotes the pattern iff the pattern is carried, and then the right text follows it. */
  lemma {:induction false} APatternIsReadIff(p: string, inClass: bool, rest: string)
    ensures var r := ReadPattern(Slashed(p) + ("/" + rest), inClass);
            && (r.Some? && r.value.value == p <==> Carried(p, inClass))
            && (Carried(p, inClass) ==> r == Some(Read(p, rest)))
    decreases |p|
  {
    var s := Slashed(p) + ("/" + rest);
    if p == "" {
      assert s == "/" + rest;
      assert s[1..] == rest;
    } else if p[0] == '\\' {
      if |p| == 1 {
        ALoneBackslash(rest, inClass);
        assert p == "\\";
      } else if p[1] == '/' {
        AnEscapedSlash(p, rest, inClass);
      } else {
        SlashedPair(p, rest);
        assert s[2..] == Slashed(p[2..]) + ("/" + rest);
        APatternIsReadIff(p[2..], inClass, rest);
        assert [p[0], p[1]] + p[2..] == p;
        SamePair(p, ReadPattern(s[2..], inClass));
      }
    } else if p[0] == '/' {
      SlashedStep(p, rest);
      assert s[2..] == Slashed(p[1..]) + ("/" + rest);
      APatternIsReadIff(p[1..], inClass, rest);
      SameFirst(p, ReadPattern(s[2..], inClass));
    } else {
      SlashedStep(p, rest);
      assert s[1..] == Slashed(p[1..]) + ("/" + rest);
      var after := p[0] == '[' || (inClass && p[0] != ']');
      APatternIsReadIff(p[1..], after, rest);
      SameFirst(p, ReadPattern(s[1..], after));
    }
  }

  lemma SameFirst(p: string, tail: Option<Read<string>>)
    requires p != ""
    ensures tail.Some? ==> ([p[0]] + tail.value.value == p <==> tail.value.value == p[1..])
  {
    if tail.Some? {
      assert ([p[0]] + tail.value.value)[1..] == tail.value.value;
      assert [p[0]] + p[1..] == p;
    }
  }

  lemma SamePair(p: string, tail: Option<Read<string>>)
    requires |p| > 1
    ensures tail.Some? ==> ([p[0], p[1]] + tail.value.value == p <==> tail.value.value == p[2..])
  {
    if tail.Some? {
      assert ([p[0], p[1]] + tail.value.value)[2..] == tail.value.value;
      assert [p[0], p[1]] + p[2..] == p;
    }
  }

  /** A lone backslash takes the closing slash with it. */
  lemma ALoneBackslash(rest: string, inClass: bool)
    ensures var r := ReadPattern(Slashed("\\") + ("/" + rest), inClass);
            r.Some? ==> r.value.value != "\\"
  {
    var s := Slashed("\\") + ("/" + rest);
    assert s == ['\\', '/'] + rest;
    assert s[2..] == rest;
    var r := ReadPattern(s, inClass);
    if r.Some? {
      assert r.value.value[0] == '/';
    }
  }

  /** A slash escaped twice is a backslash, and then a slash on its own. */
  lemma AnEscapedSlash(p: string, rest: string, inClass: bool)
    requires |p| > 1 && p[0] == '\\' && p[1] == '/'
    ensures var r := ReadPattern(Slashed(p) + ("/" + rest), inClass);
            r.Some? ==> r.value.value != p
  {
    var s := Slashed(p) + ("/" + rest);
    SlashedStep(p, rest);
    SlashedStep(p[1..], rest);
    assert s[0] == '\\' && s[1] == '\\';
    var r := ReadPattern(s, inClass);
    if r.Some? {
      assert r.value.value[1] == '\\';
    }
  }
}
