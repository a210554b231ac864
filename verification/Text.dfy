/** Decimal text and separated fields, as the printers and scanners of the Go library treat them. */
module Text {
  // ---------------------------------------------------------------- decimal text

  predicate IsDigit(c: char) { '0' <= c <= '9' }

  function Decimal(n: nat): (s: string)
    ensures |s| > 0
    ensures forall c :: c in s ==> IsDigit(c)
  {
    if n < 10 then ['0' + n as char] else Decimal(n / 10) + ['0' + (n % 10) as char]
  }

  function DigitValue(c: char): nat
    requires IsDigit(c)
  {
    (c as int) - ('0' as int)
  }

  function Number(s: string): nat
    requires forall c :: c in s ==> IsDigit(c)
  {
    if s == "" then 0 else Number(s[..|s| - 1]) * 10 + DigitValue(s[|s| - 1])
  }

  lemma {:induction false} NumberInvertsDecimal(n: nat)
    ensures Number(Decimal(n)) == n
  {
    var s := Decimal(n);
    if n < 10 {
      assert s[..|s| - 1] == "";
    } else {
      NumberInvertsDecimal(n / 10);
      assert s[..|s| - 1] == Decimal(n / 10);
    }
  }

  lemma {:induction false} NoNeedlessZero(n: nat)
    ensures Decimal(n)[0] == '0' ==> n == 0 && Decimal(n) == "0"
  {
    if n >= 10 {
      NoNeedlessZero(n / 10);
    }
  }

  lemma {:induction false} ANumberIsPositive(s: string)
    requires s != "" && (forall c :: c in s ==> IsDigit(c)) && s[0] != '0'
    ensures Number(s) > 0
  {
    var front := s[..|s| - 1];
    if front != "" {
      assert front[0] == s[0];
      ANumberIsPositive(front);
    }
  }

  predicate Spelling(s: string) {
    s != "" && (forall c :: c in s ==> IsDigit(c)) && (s[0] == '0' ==> s == "0")
  }

  lemma {:induction false} ASpellingIsDecimal(s: string)
    requires Spelling(s)
    ensures Decimal(Number(s)) == s
  {
    var front, last := s[..|s| - 1], s[|s| - 1];
    assert s == front + [last] && last in s;
    if front == "" {
      assert Number(front) == 0;
    } else {
      assert front[0] == s[0];
      ASpellingIsDecimal(front);
      ANumberIsPositive(front);
      TheLastDigit(Number(front), DigitValue(last));
    }
  }

  lemma TheLastDigit(n: nat, digit: nat)
    requires n > 0 && digit < 10
    ensures Decimal(10 * n + digit) == Decimal(n) + ['0' + digit as char]
  {
  }

  /** The text of a number is its one spelling without a needless zero. */
  lemma DecimalIff(n: nat, s: string)
    ensures s == Decimal(n) <==> Spelling(s) && Number(s) == n
  {
    NumberInvertsDecimal(n);
    NoNeedlessZero(n);
    if Spelling(s) {
      ASpellingIsDecimal(s);
    }
  }

  /** The length of the longest run of digits a text starts with. */
  function DigitRun(s: string): (n: nat)
    ensures n <= |s|
    ensures forall k :: 0 <= k < n ==> IsDigit(s[k])
    ensures n < |s| ==> !IsDigit(s[n])
  {
    if s == "" || !IsDigit(s[0]) then 0 else 1 + DigitRun(s[1..])
  }

  lemma {:induction false} DigitRunStops(digits: string, rest: string)
    requires forall c :: c in digits ==> IsDigit(c)
    requires rest == "" || !IsDigit(rest[0])
    ensures DigitRun(digits + rest) == |digits|
  {
    var s := digits + rest;
    assert forall k :: 0 <= k < |digits| ==> s[k] == digits[k] && digits[k] in digits;
    assert rest != "" ==> s[|digits|] == rest[0];
  }

  // ---------------------------------------------------------------- spaces

  /** unicode.IsSpace, which the scanner of the fmt package tables as well. */
  predicate IsSpace(c: char) {
    var v := c as int;
    0x09 <= v <= 0x0d || v == 0x20 || v == 0x85 || v == 0xa0 || v == 0x1680 || 0x2000 <= v <= 0x200a ||
    v == 0x2028 || v == 0x2029 || v == 0x202f || v == 0x205f || v == 0x3000
  }

  function TrimLeft(s: string): string {
    if s == "" || !IsSpace(s[0]) then s else TrimLeft(s[1..])
  }

  function TrimRight(s: string): string {
    if s == "" || !IsSpace(s[|s| - 1]) then s else TrimRight(s[..|s| - 1])
  }

  function TrimSpace(s: string): string { TrimRight(TrimLeft(s)) }

  predicate Blanks(s: string) { forall c :: c in s ==> IsSpace(c) }

  /** What is left once the blanks on both sides are gone: it starts and ends with none. */
  lemma Trimmed(left: string, core: string, right: string)
    requires Blanks(left) && Blanks(right)
    requires core != "" ==> !IsSpace(core[0]) && !IsSpace(core[|core| - 1])
    ensures TrimSpace(left + core + right) == core
  {
    assert left + core + right == left + (core + right);
    TrimsLeft(left, core + right);
    if core == "" {
      assert core + right == right && right + "" == right;
      TrimsLeft(right, "");
      assert TrimLeft(core + right) == "" && TrimLeft(left + (core + right)) == TrimLeft(core + right);
    } else {
      assert (core + right)[0] == core[0];
      TrimsRight(core, right);
    }
  }

  lemma {:induction false} TrimsLeft(left: string, rest: string)
    requires Blanks(left)
    ensures TrimLeft(left + rest) == TrimLeft(rest)
  {
    if left == "" {
      assert left + rest == rest;
    } else {
      assert left[0] in left && (left + rest)[1..] == left[1..] + rest;
      assert forall c :: c in left[1..] ==> c in left;
      TrimsLeft(left[1..], rest);
    }
  }

  lemma {:induction false} TrimsRight(rest: string, right: string)
    requires Blanks(right) && (rest == "" || !IsSpace(rest[|rest| - 1]))
    ensures TrimRight(rest + right) == rest
  {
    if right == "" {
      assert rest + right == rest;
    } else {
      var front := right[..|right| - 1];
      assert right[|right| - 1] in right && (rest + right)[..|rest + right| - 1] == rest + front;
      assert forall c :: c in front ==> c in right;
      TrimsRight(rest, front);
    }
  }

  /** Any text stands so between blanks. */
  lemma {:induction false} EveryTextIsTrimmed(s: string) returns (left: string, core: string, right: string)
    ensures s == left + core + right && Blanks(left) && Blanks(right)
    ensures core != "" ==> !IsSpace(core[0]) && !IsSpace(core[|core| - 1])
  {
    if s != "" && IsSpace(s[0]) {
      left, core, right := EveryTextIsTrimmed(s[1..]);
      left := [s[0]] + left;
      assert s == [s[0]] + s[1..];
    } else if s != "" && IsSpace(s[|s| - 1]) {
      left, core, right := EveryTextIsTrimmed(s[..|s| - 1]);
      right := right + [s[|s| - 1]];
      assert s == s[..|s| - 1] + [s[|s| - 1]];
    } else {
      left, core, right := "", s, "";
    }
  }

  /** Trimming takes the blanks on both sides and nothing else. */
  lemma WhatTrimSpaceLeaves(s: string) returns (left: string, right: string)
    ensures s == left + TrimSpace(s) + right && Blanks(left) && Blanks(right)
    ensures var core := TrimSpace(s); core != "" ==> !IsSpace(core[0]) && !IsSpace(core[|core| - 1])
  {
    var core;
    left, core, right := EveryTextIsTrimmed(s);
    Trimmed(left, core, right);
  }

  // ---------------------------------------------------------------- separated fields

  /** strings.Split on a one-character separator. */
  function Split(s: string, sep: char): (fields: seq<string>)
    ensures |fields| > 0
    ensures forall k :: 0 <= k < |fields| ==> sep !in fields[k]
  {
    if s == "" then [""]
    else
      var rest := Split(s[1..], sep);
      if s[0] == sep then [""] + rest else [[s[0]] + rest[0]] + rest[1..]
  }

  function Join(fields: seq<string>, sep: char): string
    requires |fields| > 0
  {
    if |fields| == 1 then fields[0] else fields[0] + [sep] + Join(fields[1..], sep)
  }

  lemma {:induction false} SplitInvertsJoin(fields: seq<string>, sep: char)
    requires |fields| > 0
    requires forall k :: 0 <= k < |fields| ==> sep !in fields[k]
    ensures Split(Join(fields, sep), sep) == fields
    decreases |fields|, |fields[0]|
  {
    var s := Join(fields, sep);
    if fields[0] == "" {
      if |fields| > 1 {
        SplitInvertsJoin(fields[1..], sep);
        assert s[1..] == Join(fields[1..], sep);
        assert [""] + fields[1..] == fields;
      } else {
        assert fields == [""];
      }
    } else {
      var head := fields[0];
      var shorter := [head[1..]] + fields[1..];
      SplitInvertsJoin(shorter, sep);
      assert s[1..] == Join(shorter, sep) by {
        assert shorter[1..] == fields[1..];
      }
      assert s[0] == head[0] && head[0] in head;
      assert [head[0]] + head[1..] == head;
      assert [head] + fields[1..] == fields;
    }
  }

  lemma {:induction false} JoinInvertsSplit(s: string, sep: char)
    ensures Join(Split(s, sep), sep) == s
  {
    if s != "" {
      JoinInvertsSplit(s[1..], sep);
      var rest := Split(s[1..], sep);
      if s[0] == sep {
        assert ([""] + rest)[1..] == rest;
      } else {
        assert ([[s[0]] + rest[0]] + rest[1..])[1..] == rest[1..];
      }
    }
  }
}
