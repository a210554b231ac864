/**
 The verb %v on a whole double (shortest form of the strconv package): plain decimal up to six digits,
 a mantissa and an exponent of at least two digits beyond; and a JavaScript reader of both forms.
 */
module Floats {
  import opened Common
  import opened Literals
  import opened Text

  /** n times ten to the power z. */
  function Shifted(n: nat, z: nat): nat { if z == 0 then n else 10 * Shifted(n, z - 1) }

  function TrimZeros(d: string): (t: string)
    ensures |t| <= |d| && t == d[..|t|]
    ensures d != "" && d[0] != '0' ==> t != ""
  {
    if d != "" && d[|d| - 1] == '0' then TrimZeros(d[..|d| - 1]) else d
  }

  function TwoDigits(exponent: nat): string { (if exponent < 10 then "0" else "") + Decimal(exponent) }

  function GapOf(mantissa: string): string
    requires mantissa != ""
  {
    if |mantissa| > 1 then "." + mantissa[1..] else ""
  }

  function Scientific(mantissa: string, exponent: nat): string
    requires mantissa != ""
  {
    [mantissa[0]] + (GapOf(mantissa) + ("e+" + TwoDigits(exponent)))
  }

  lemma {:induction false} NoLeadingZero(m: nat)
    requires m > 0
    ensures Decimal(m)[0] != '0'
  {
    if m >= 10 {
      NoLeadingZero(m / 10);
      assert Decimal(m)[0] == Decimal(m / 10)[0];
    }
  }

  function Shortest(m: nat): string {
    var d := Decimal(m);
    if |d| <= 6 then d
    else
      NoLeadingZeroOfALongOne(m);
      Scientific(TrimZeros(d), |d| - 1)
  }

  lemma NoLeadingZeroOfALongOne(m: nat)
    requires |Decimal(m)| > 1
    ensures Decimal(m)[0] != '0'
  {
    NoLeadingZero(m);
  }

  function FloatText(n: int): string {
    if n < 0 then "-" + Shortest(-n) else Shortest(n)
  }

  // ---------------------------------------------------------------- reading

  datatype ReadInt = ReadInt(value: int, rest: string)

  /** The digits a text starts with. */
  function Digits(s: string): (d: string)
    ensures forall c :: c in d ==> IsDigit(c)
    ensures |d| == DigitRun(s)
  {
    s[..DigitRun(s)]
  }

  /** A point and digits, or nothing. */
  function Fraction(s: string): (r: Read<string>)
    ensures |r.rest| <= |s|
    ensures forall c :: c in r.value ==> IsDigit(c)
  {
    if s == "" || s[0] != '.' || DigitRun(s[1..]) == 0 then Read("", s)
    else Read(Digits(s[1..]), s[1..][DigitRun(s[1..])..])
  }

  /** e+ and digits. */
  function Exponent(s: string): (r: Option<ReadInt>)
    ensures r.Some? ==> |r.value.rest| < |s| && r.value.value >= 0
  {
    if !("e+" <= s) || DigitRun(s[2..]) == 0 then None
    else Some(ReadInt(Number(Digits(s[2..])), s[2..][DigitRun(s[2..])..]))
  }

  /** digits, then possibly a fraction, then possibly an exponent that makes the value whole. */
  function ReadMagnitude(s: string): (r: Option<ReadInt>)
    ensures r.Some? ==> |r.value.rest| < |s| && r.value.value >= 0
  {
    var whole, after := Digits(s), s[DigitRun(s)..];
    if whole == "" then None
    else
      var fraction := Fraction(after);
      match Exponent(fraction.rest)
      case None => if fraction.value == "" then Some(ReadInt(Number(whole), after)) else None
      case Some(e) =>
        if e.value < |fraction.value| then None
        else Some(ReadInt(Shifted(Number(whole + fraction.value), e.value - |fraction.value|), e.rest))
  }

  function ReadFloat(s: string): (r: Option<ReadInt>)
    ensures r.Some? ==> |r.value.rest| < |s|
  {
    if s != "" && s[0] == '-' then
      match ReadMagnitude(s[1..])
      case None => None
      case Some(m) => Some(ReadInt(-m.value, m.rest))
    else ReadMagnitude(s)
  }

  lemma {:induction false} TrimmedZerosAreAShift(d: string)
    requires forall c :: c in d ==> IsDigit(c)
    ensures var t := TrimZeros(d);
            (forall c :: c in t ==> IsDigit(c)) && Number(d) == Shifted(Number(t), |d| - |t|)
  {
    if d != "" && d[|d| - 1] == '0' {
      TrimmedZerosAreAShift(d[..|d| - 1]);
    }
  }

  /** The text ends where nothing of a number follows. */
  predicate NotANumber(rest: string) {
    rest == "" || (!IsDigit(rest[0]) && rest[0] != '.' && rest[0] != 'e')
  }

  lemma PlainIsRead(d: string, rest: string)
    requires d != "" && (forall c :: c in d ==> IsDigit(c)) && NotANumber(rest)
    ensures ReadMagnitude(d + rest) == Some(ReadInt(Number(d), rest))
  {
    DigitRunStops(d, rest);
    assert (d + rest)[..|d|] == d && (d + rest)[|d|..] == rest;
    assert Fraction(rest) == Read("", rest);
    assert Exponent(rest).None?;
  }

  lemma {:induction false} LeadingZero(d: string)
    requires forall c :: c in d ==> IsDigit(c)
    ensures forall c :: c in "0" + d ==> IsDigit(c)
    ensures Number("0" + d) == Number(d)
  {
    var z := "0" + d;
    if d == "" {
      assert z[..0] == "";
    } else {
      LeadingZero(d[..|d| - 1]);
      assert z[..|z| - 1] == "0" + d[..|d| - 1];
    }
  }

  lemma ExponentIsRead(exponent: nat, rest: string)
    requires rest == "" || !IsDigit(rest[0])
    ensures Exponent("e+" + (TwoDigits(exponent) + rest)) == Some(ReadInt(exponent, rest))
  {
    var x := TwoDigits(exponent);
    NumberInvertsDecimal(exponent);
    LeadingZero(Decimal(exponent));
    assert "" + Decimal(exponent) == Decimal(exponent);
    DigitRunStops(x, rest);
    assert ("e+" + (x + rest))[2..] == x + rest;
    assert (x + rest)[..|x|] == x && (x + rest)[|x|..] == rest;
  }

  lemma FractionIsRead(digits: string, rest: string)
    requires digits != "" && (forall c :: c in digits ==> IsDigit(c)) && (rest == "" || !IsDigit(rest[0]))
    ensures Fraction("." + (digits + rest)) == Read(digits, rest)
  {
    DigitRunStops(digits, rest);
    assert ("." + (digits + rest))[1..] == digits + rest;
    assert (digits + rest)[..|digits|] == digits && (digits + rest)[|digits|..] == rest;
  }

  lemma MagnitudeFrom(s: string, mantissa: string, tail: string, e: ReadInt)
    requires mantissa != "" && (forall c :: c in mantissa ==> IsDigit(c))
    requires Digits(s) == [mantissa[0]] && Fraction(s[DigitRun(s)..]) == Read(mantissa[1..], tail)
    requires Exponent(tail) == Some(e) && e.value >= |mantissa| - 1
    ensures ReadMagnitude(s) == Some(ReadInt(Shifted(Number(mantissa), e.value - (|mantissa| - 1)), e.rest))
  {
    assert [mantissa[0]] + mantissa[1..] == mantissa;
  }

  lemma GapIsRead(fraction: string, gap: string, tail: string)
    requires forall c :: c in fraction ==> IsDigit(c)
    requires tail != "" && tail[0] == 'e'
    requires gap == if fraction == "" then "" else "." + fraction
    ensures Fraction(gap + tail) == Read(fraction, tail)
    ensures gap + tail != "" && !IsDigit((gap + tail)[0])
  {
    if fraction == "" {
      assert gap + tail == tail;
    } else {
      FractionIsRead(fraction, tail);
      Regroup(".", fraction, tail);
    }
  }

  lemma FirstDigitIsRead(first: char, after: string)
    requires IsDigit(first) && after != "" && !IsDigit(after[0])
    ensures var s := [first] + after; DigitRun(s) == 1 && Digits(s) == [first] && s[1..] == after
  {
    DigitRunStops([first], after);
    assert ([first] + after)[..1] == [first];
  }

  /** One digit, what follows it up to the exponent, and the exponent. */
  lemma ScaledIsRead(mantissa: string, tail: string, e: ReadInt)
    requires mantissa != "" && (forall c :: c in mantissa ==> IsDigit(c))
    requires tail != "" && tail[0] == 'e' && Exponent(tail) == Some(e) && e.value >= |mantissa| - 1
    ensures ReadMagnitude([mantissa[0]] + (GapOf(mantissa) + tail)) ==
            Some(ReadInt(Shifted(Number(mantissa), e.value - (|mantissa| - 1)), e.rest))
  {
    var after := GapOf(mantissa) + tail;
    var s := [mantissa[0]] + after;
    assert forall c :: c in mantissa[1..] ==> c in mantissa;
    GapIsRead(mantissa[1..], GapOf(mantissa), tail);
    assert DigitRun(s) == 1 && Digits(s) == [mantissa[0]] && s[1..] == after by {
      assert mantissa[0] in mantissa;
      FirstDigitIsRead(mantissa[0], after);
    }
    MagnitudeFrom(s, mantissa, tail, e);
  }

  lemma ScientificInPieces(mantissa: string, exponent: nat, rest: string)
    requires mantissa != ""
    ensures Scientific(mantissa, exponent) + rest ==
            [mantissa[0]] + (GapOf(mantissa) + ("e+" + (TwoDigits(exponent) + rest)))
  {
    var gap := GapOf(mantissa);
    Regroup("e+", TwoDigits(exponent), rest);
    Regroup(gap, "e+" + TwoDigits(exponent), rest);
    Regroup([mantissa[0]], gap + ("e+" + TwoDigits(exponent)), rest);
  }

  lemma ScientificIsRead(mantissa: string, exponent: nat, rest: string)
    requires mantissa != "" && (forall c :: c in mantissa ==> IsDigit(c))
    requires exponent >= |mantissa| - 1 && (rest == "" || !IsDigit(rest[0]))
    ensures ReadMagnitude(Scientific(mantissa, exponent) + rest) ==
            Some(ReadInt(Shifted(Number(mantissa), exponent - (|mantissa| - 1)), rest))
  {
    var tail := "e+" + (TwoDigits(exponent) + rest);
    ExponentIsRead(exponent, rest);
    ScientificInPieces(mantissa, exponent, rest);
    ScaledIsRead(mantissa, tail, ReadInt(exponent, rest));
  }

  lemma AMagnitudeIsRead(m: nat, rest: string)
    requires NotANumber(rest)
    ensures ReadMagnitude(Shortest(m) + rest) == Some(ReadInt(m, rest))
  {
    var d := Decimal(m);
    NumberInvertsDecimal(m);
    if |d| <= 6 {
      PlainIsRead(d, rest);
    } else {
      NoLeadingZeroOfALongOne(m);
      ALongOneIsRead(d, rest);
    }
  }

  lemma ALongOneIsRead(d: string, rest: string)
    requires d != "" && d[0] != '0' && (forall c :: c in d ==> IsDigit(c)) && (rest == "" || !IsDigit(rest[0]))
    ensures ReadMagnitude(Scientific(TrimZeros(d), |d| - 1) + rest) == Some(ReadInt(Number(d), rest))
  {
    TrimmedZerosAreAShift(d);
    ScientificIsRead(TrimZeros(d), |d| - 1, rest);
  }

  /** Every whole bound the printer writes is read back, in either form, with its sign. */
  lemma AFloatIsRead(n: int, rest: string)
    requires NotANumber(rest)
    ensures ReadFloat(FloatText(n) + rest) == Some(ReadInt(n, rest))
  {
    if n < 0 {
      AMagnitudeIsRead(-n, rest);
      Regroup("-", Shortest(-n), rest);
      ASignIsRead(Shortest(-n) + rest);
    } else {
      AMagnitudeIsRead(n, rest);
      NoSignIsRead(Shortest(n) + rest);
    }
  }

  lemma ASignIsRead(s: string)
    requires ReadMagnitude(s).Some?
    ensures ReadFloat("-" + s) == Some(ReadInt(-ReadMagnitude(s).value.value, ReadMagnitude(s).value.rest))
  {
    assert ("-" + s)[1..] == s;
  }

  lemma NoSignIsRead(s: string)
    requires ReadMagnitude(s).Some?
    ensures ReadFloat(s) == ReadMagnitude(s)
  {
    assert DigitRun(s) > 0;
  }
}
