/**
 The stored form of an argon2id hash (internal/auth/argon2.go): a printer, a lenient scanner whose
 result is printed back and compared, and the bounds. Text is a sequence of code points; argon2 itself
 is a function of its inputs that returns as many octets as it is asked for.
 */
module Phc {
  import opened Common
  import opened Base64
  import opened Text

  const MINIMUM_SALT := 8
  const SALT_LENGTH := 16
  const KEY_LENGTH := 32
  const MAXIMUM_KEY := 4096
  const MAXIMUM_MEMORY := 1024 * 1024
  const MAXIMUM_TIME := 16

  type Uint32 = x: int | 0 <= x < 0x1_0000_0000
  type Uint8 = x: int | 0 <= x < 0x100

  datatype Params = Params(memory: Uint32, time: Uint32, parallelism: Uint8)

  datatype Phc = Phc(params: Params, salt: seq<Byte>, key: seq<Byte>)

  /** The reasons of MalformedHashError. */
  datatype Malformed =
    | NotPhc
    | NotArgon2id
    | OtherVersion
    | UnreadableParams
    | MoreThanThreeNumbers
    | NoPass
    | NoLane
    | NoMemory
    | TooMuchMemory
    | TooManyPasses
    | SaltNotBase64
    | SaltTooShort
    | KeyNotBase64
    | ImplausibleKey

  // ---------------------------------------------------------------- parameters

  function Refusal(p: Params): Option<Malformed> {
    if p.time == 0 then Some(NoPass)
    else if p.parallelism == 0 then Some(NoLane)
    else if p.memory == 0 then Some(NoMemory)
    else if p.memory > MAXIMUM_MEMORY then Some(TooMuchMemory)
    else if p.time > MAXIMUM_TIME then Some(TooManyPasses)
    else None
  }

  /** The bounds on the three costs, in one line. */
  lemma WithinBoundsIff(p: Params)
    ensures Refusal(p).None? <==>
            1 <= p.time <= 16 && 1 <= p.parallelism && 1 <= p.memory <= 1048576
  {
  }

  function Format(p: Params): string {
    "m=" + (Decimal(p.memory) + (",t=" + (Decimal(p.time) + (",p=" + Decimal(p.parallelism)))))
  }

  /** The spaces before a number; a newline among them is an error. */
  function SkipSpace(s: string): Option<string> {
    if s == "" || !IsSpace(s[0]) then Some(s)
    else if s[0] == '\n' then None
    else SkipSpace(s[1..])
  }

  datatype Scanned = Scanned(value: nat, rest: string)

  /** The verb %d on an unsigned integer below `width`: digits as far as they go, no sign. */
  function ScanUint(s: string, width: nat): (r: Option<Scanned>)
    ensures r.Some? ==> r.value.value < width
  {
    match SkipSpace(s)
    case None => None
    case Some(t) =>
      var n := DigitRun(t);
      if n == 0 then None
      else
        var v := Number(t[..n]);
        if v >= 0x1_0000_0000_0000_0000 then None   // strconv.ParseUint: out of range
        else if v >= width then None                 // unsigned integer overflow
        else Some(Scanned(v, t[n..]))
  }

  /** Blanks that no newline breaks, then digits as far as they go. */
  predicate Spaced(s: string, blanks: string, digits: string, rest: string) {
    && s == blanks + (digits + rest) && Blanks(blanks) && '\n' !in blanks
    && digits != "" && (forall c :: c in digits ==> IsDigit(c)) && (rest == "" || !IsDigit(rest[0]))
  }

  lemma {:induction false} BlanksAreSkipped(blanks: string, rest: string)
    requires Blanks(blanks) && '\n' !in blanks && (rest == "" || !IsSpace(rest[0]))
    ensures SkipSpace(blanks + rest) == Some(rest)
  {
    if blanks == "" {
      assert blanks + rest == rest;
    } else {
      assert blanks[0] in blanks && (blanks + rest)[1..] == blanks[1..] + rest;
      assert forall c :: c in blanks[1..] ==> c in blanks;
      BlanksAreSkipped(blanks[1..], rest);
    }
  }

  lemma {:induction false} WhatIsSkipped(s: string) returns (blanks: string)
    requires SkipSpace(s).Some?
    ensures s == blanks + SkipSpace(s).value && Blanks(blanks) && '\n' !in blanks
  {
    if s == "" || !IsSpace(s[0]) {
      blanks := "";
    } else {
      blanks := WhatIsSkipped(s[1..]);
      blanks := [s[0]] + blanks;
      assert s == [s[0]] + s[1..];
    }
  }

  lemma TheDigitsAreScanned(digits: string, rest: string)
    requires digits != "" && (forall c :: c in digits ==> IsDigit(c)) && (rest == "" || !IsDigit(rest[0]))
    ensures var t := digits + rest;
            !IsSpace(t[0]) && DigitRun(t) == |digits| && t[..|digits|] == digits && t[|digits|..] == rest
  {
    DigitRunStops(digits, rest);
    assert (digits + rest)[0] in digits;
  }

  /** A number is scanned exactly where blanks and digits of a fitting value stand; what follows is left. */
  lemma ANumberIsScannedIff(s: string, width: nat, v: nat, rest: string)
    requires width <= 0x1_0000_0000_0000_0000
    ensures ScanUint(s, width) == Some(Scanned(v, rest)) <==>
            v < width && exists blanks, digits :: Spaced(s, blanks, digits, rest) && Number(digits) == v
  {
    if ScanUint(s, width) == Some(Scanned(v, rest)) {
      var blanks, digits := AScannedNumber(s, width);
    }
    if blanks, digits :| Spaced(s, blanks, digits, rest) && Number(digits) == v {
      ASpacedNumberIsScanned(s, width, blanks, digits, rest);
    }
  }

  lemma AScannedNumber(s: string, width: nat) returns (blanks: string, digits: string)
    requires width <= 0x1_0000_0000_0000_0000 && ScanUint(s, width).Some?
    ensures Spaced(s, blanks, digits, ScanUint(s, width).value.rest)
    ensures Number(digits) == ScanUint(s, width).value.value
  {
    blanks := WhatIsSkipped(s);
    var t := SkipSpace(s).value;
    digits := t[..DigitRun(t)];
    TheRunIsDigits(t);
  }

  lemma TheRunIsDigits(t: string)
    ensures var digits, rest := t[..DigitRun(t)], t[DigitRun(t)..];
            && t == digits + rest && (forall c :: c in digits ==> IsDigit(c)) && (rest == "" || !IsDigit(rest[0]))
  {
  }

  lemma ASpacedNumberIsScanned(s: string, width: nat, blanks: string, digits: string, rest: string)
    requires width <= 0x1_0000_0000_0000_0000 && Spaced(s, blanks, digits, rest)
    ensures ScanUint(s, width) ==
            if Number(digits) < width then Some(Scanned(Number(digits), rest)) else None
  {
    TheDigitsAreScanned(digits, rest);
    BlanksAreSkipped(blanks, digits + rest);
  }

  /** A literal of the format, then a number. */
  function ScanField(literal: string, s: string, width: nat): (r: Option<Scanned>)
    ensures r.Some? ==> r.value.value < width
  {
    if literal <= s then ScanUint(s[|literal|..], width) else None
  }

  /** Sscanf of "m=%d,t=%d,p=%d"; what follows the last number is not looked at. */
  function Scan(s: string): Option<Params> {
    match ScanField("m=", s, 0x1_0000_0000)
    case None => None
    case Some(m) =>
      match ScanField(",t=", m.rest, 0x1_0000_0000)
      case None => None
      case Some(t) =>
        match ScanField(",p=", t.rest, 0x100)
        case None => None
        case Some(p) => Some(Params(m.value, t.value, p.value))
  }

  function ReadParams(field: string): Result<Params, Malformed> {
    match Scan(field)
    case None => Err(UnreadableParams)
    case Some(p) =>
      if Format(p) != field then Err(MoreThanThreeNumbers)
      else
        match Refusal(p)
        case Some(reason) => Err(reason)
        case None => Ok(p)
  }

  lemma ANumberIsScannedBack(literal: string, n: nat, rest: string, width: nat)
    requires n < width <= 0x1_0000_0000
    requires rest == "" || !IsDigit(rest[0])
    ensures ScanField(literal, literal + (Decimal(n) + rest), width) == Some(Scanned(n, rest))
  {
    var d := Decimal(n);
    assert (literal + (d + rest))[|literal|..] == d + rest;
    assert (d + rest)[0] == d[0] && d[0] in d;
    assert IsDigit(d[0]);
    DigitRunStops(d, rest);
    assert (d + rest)[..|d|] == d && (d + rest)[|d|..] == rest;
    NumberInvertsDecimal(n);
  }

  /** The scanner reads back whatever the printer writes, at every width. */
  lemma ScanInvertsFormat(p: Params)
    ensures Scan(Format(p)) == Some(p)
  {
    var lanes := ",p=" + (Decimal(p.parallelism) + "");
    var time := ",t=" + (Decimal(p.time) + lanes);
    assert lanes[0] == ',' && time[0] == ',';
    ANumberIsScannedBack("m=", p.memory, time, 0x1_0000_0000);
    ANumberIsScannedBack(",t=", p.time, lanes, 0x1_0000_0000);
    ANumberIsScannedBack(",p=", p.parallelism, "", 0x100);
    assert Decimal(p.parallelism) + "" == Decimal(p.parallelism);
  }

  /**
   Lenient scan and print-back together are an exact parser: a field reads as `p` iff it is the
   printed form of `p` and `p` is within the bounds. Nothing is read from a field with a space, a
   sign, a leading zero, a tail or an overflow.
   */
  lemma ParamsAreReadIff(field: string, p: Params)
    ensures ReadParams(field) == Ok(p) <==> field == Format(p) && Refusal(p).None?
  {
    ScanInvertsFormat(p);
  }

  // ---------------------------------------------------------------- the whole string

  function Fields(h: Phc): seq<string> {
    ["", "argon2id", "v=19", Format(h.params), Encode(Standard, h.salt), Encode(Standard, h.key)]
  }

  function Print(h: Phc): string {
    "$argon2id$v=19$" +
    (Format(h.params) + ("$" + (Encode(Standard, h.salt) + ("$" + Encode(Standard, h.key)))))
  }

  function Parse(encoded: string): Result<Phc, Malformed> { ParseFields(Split(encoded, '$')) }

  function ParseFields(fields: seq<string>): Result<Phc, Malformed> {
    if |fields| != 6 || fields[0] != "" then Err(NotPhc)
    else if fields[1] != "argon2id" then Err(NotArgon2id)
    else if fields[2] != "v=19" then Err(OtherVersion)
    else
      match ReadParams(fields[3])
      case Err(reason) => Err(reason)
      case Ok(params) => ReadOctets(params, fields[4], fields[5])
  }

  function ReadOctets(params: Params, saltField: string, keyField: string): Result<Phc, Malformed> {
    match Decode(Standard, saltField, false)
    case None => Err(SaltNotBase64)
    case Some(salt) =>
      if |salt| < MINIMUM_SALT then Err(SaltTooShort)
      else
        match Decode(Standard, keyField, false)
        case None => Err(KeyNotBase64)
        case Some(key) =>
          if |key| == 0 || |key| > MAXIMUM_KEY then Err(ImplausibleKey) else Ok(Phc(params, salt, key))
  }

  /** One to sixteen passes, a lane, up to a gibibyte, eight octets of salt, and a key of up to 4096. */
  predicate Plausible(h: Phc) {
    && 1 <= h.params.time <= 16 && 1 <= h.params.parallelism && 1 <= h.params.memory <= 1048576
    && |h.salt| >= 8 && 1 <= |h.key| <= 4096
  }

  /** Why fields are refused: the first thing wrong, from left to right. */
  lemma WhyFieldsAreRefused(f: seq<string>)
    ensures var r := ParseFields(f);
            if |f| != 6 || f[0] != "" then r == Err(NotPhc)
            else if f[1] != "argon2id" then r == Err(NotArgon2id)
            else if f[2] != "v=19" then r == Err(OtherVersion)
            else if Scan(f[3]).None? then r == Err(UnreadableParams)
            else if f[3] != Format(Scan(f[3]).value) then r == Err(MoreThanThreeNumbers)
            else
              WhyCostsOrOctets(Scan(f[3]).value, Decode(Standard, f[4], false), Decode(Standard, f[5], false), r)
  {
    if |f| == 6 && f[0] == "" && f[1] == "argon2id" && f[2] == "v=19" {
      WhyTheRestIsRefused(f[3], f[4], f[5]);
    }
  }

  lemma WhyTheRestIsRefused(field: string, saltField: string, keyField: string)
    ensures var r := match ReadParams(field)
                     case Err(reason) => Err(reason)
                     case Ok(params) => ReadOctets(params, saltField, keyField);
            if Scan(field).None? then r == Err(UnreadableParams)
            else if field != Format(Scan(field).value) then r == Err(MoreThanThreeNumbers)
            else
              WhyCostsOrOctets(Scan(field).value, Decode(Standard, saltField, false), Decode(Standard, keyField, false),
                               r)
  {
  }

  /** The costs, in the order they are looked at; then the salt, then the key. */
  predicate WhyCostsOrOctets(p: Params, salt: Option<seq<Byte>>, key: Option<seq<Byte>>, r: Result<Phc, Malformed>) {
    if p.time == 0 then r == Err(NoPass)
    else if p.parallelism == 0 then r == Err(NoLane)
    else if p.memory == 0 then r == Err(NoMemory)
    else if p.memory >= 1048577 then r == Err(TooMuchMemory)
    else if p.time >= 17 then r == Err(TooManyPasses)
    else if salt.None? then r == Err(SaltNotBase64)
    else if |salt.value| <= 7 then r == Err(SaltTooShort)
    else if key.None? then r == Err(KeyNotBase64)
    else if |key.value| == 0 || |key.value| >= 4097 then r == Err(ImplausibleKey)
    else r == Ok(Phc(p, salt.value, key.value))
  }

  lemma FormatHoldsNoSeparator(p: Params)
    ensures '$' !in Format(p)
  {
    assert forall c | c in Decimal(p.memory) :: IsDigit(c);
    assert forall c | c in Decimal(p.time) :: IsDigit(c);
    assert forall c | c in Decimal(p.parallelism) :: IsDigit(c);
  }

  lemma SixFields(params: string, salt: string, key: string)
    ensures Join(["", "argon2id", "v=19", params, salt, key], '$') ==
            "$argon2id$v=19$" + (params + ("$" + (salt + ("$" + key))))
  {
    assert Join([salt, key], '$') == salt + ("$" + key);
    assert [params, salt, key][1..] == [salt, key];
    var last := Join([params, salt, key], '$');
    assert last == params + ("$" + (salt + ("$" + key)));
    assert ["v=19", params, salt, key][1..] == [params, salt, key];
    assert Join(["v=19", params, salt, key], '$') == "v=19$" + last;
    assert ["argon2id", "v=19", params, salt, key][1..] == ["v=19", params, salt, key];
    assert Join(["argon2id", "v=19", params, salt, key], '$') == "argon2id$v=19$" + last;
    assert ["", "argon2id", "v=19", params, salt, key][1..] == ["argon2id", "v=19", params, salt, key];
  }

  lemma NoFieldHoldsASeparator(h: Phc)
    ensures forall k :: 0 <= k < 6 ==> '$' !in Fields(h)[k]
  {
    FormatHoldsNoSeparator(h.params);
    EncodingHoldsSymbolsOnly(Standard, h.salt);
    EncodingHoldsSymbolsOnly(Standard, h.key);
    assert Value(Standard, '$').None?;
  }

  lemma APrintedHashIsItsFields(encoded: string, h: Phc)
    ensures encoded == Print(h) <==> Split(encoded, '$') == Fields(h)
  {
    NoFieldHoldsASeparator(h);
    SixFields(Format(h.params), Encode(Standard, h.salt), Encode(Standard, h.key));
    SplitInvertsJoin(Fields(h), '$');
    JoinInvertsSplit(encoded, '$');
  }

  /** What fields are read: the three literals, the printed parameters, two base64 fields in bounds. */
  lemma FieldsAreReadIff(f: seq<string>, h: Phc)
    ensures ParseFields(f) == Ok(h) <==>
            |f| == 6 && f[0] == "" && f[1] == "argon2id" && f[2] == "v=19" && f[3] == Format(h.params) &&
            Decode(Standard, f[4], false) == Some(h.salt) &&
            Decode(Standard, f[5], false) == Some(h.key) && Plausible(h)
  {
    if |f| == 6 {
      ParamsAreReadIff(f[3], h.params);
      if ReadParams(f[3]).Ok? {
        OctetsAreReadIff(ReadParams(f[3]).value, f[4], f[5], h);
      }
    }
  }

  lemma OctetsAreReadIff(params: Params, saltField: string, keyField: string, h: Phc)
    ensures ReadOctets(params, saltField, keyField) == Ok(h) <==>
            params == h.params && Decode(Standard, saltField, false) == Some(h.salt) &&
            Decode(Standard, keyField, false) == Some(h.key) &&
            |h.salt| >= 8 && 1 <= |h.key| <= 4096
  {
  }

  /** The round trip: a printed hash reads back exactly, and it is read at all iff it is plausible. */
  lemma ParseInvertsPrint(h: Phc)
    ensures Parse(Print(h)) == Ok(h) <==> Plausible(h)
    ensures Parse(Print(h)).Ok? ==> Parse(Print(h)) == Ok(h)
  {
    APrintedHashIsItsFields(Print(h), h);
    DecodeInvertsEncode(Standard, h.salt, false);
    DecodeInvertsEncode(Standard, h.key, false);
    FieldsAreReadIff(Fields(h), h);
    if ParseFields(Fields(h)).Ok? {
      var g := ParseFields(Fields(h)).value;
      FieldsAreReadIff(Fields(h), g);
      FormatIsInjective(g.params, h.params);
    }
  }

  lemma FormatIsInjective(p: Params, q: Params)
    ensures Format(p) == Format(q) <==> p == q
  {
    ScanInvertsFormat(p);
    ScanInvertsFormat(q);
  }

  /** Whatever is read is plausible, and its printed form reads as the same triple. */
  lemma WhatIsReadIsPlausible(encoded: string)
    requires Parse(encoded).Ok?
    ensures Plausible(Parse(encoded).value)
    ensures Parse(Print(Parse(encoded).value)) == Parse(encoded)
  {
    FieldsAreReadIff(Split(encoded, '$'), Parse(encoded).value);
    ParseInvertsPrint(Parse(encoded).value);
  }

  /**
   A string that reads as `h` differs from the printed form of `h` at most in its two base64 fields:
   it is that form iff both would be accepted strictly and hold no line break.
   */
  lemma ReadsAsItWasPrintedIff(encoded: string)
    requires Parse(encoded).Ok?
    ensures var f := Split(encoded, '$');
            |f| == 6 &&
            (encoded == Print(Parse(encoded).value) <==>
             Decode(Standard, f[4], true).Some? && Unbroken(f[4]) == f[4] &&
             Decode(Standard, f[5], true).Some? && Unbroken(f[5]) == f[5])
  {
    var f := Split(encoded, '$');
    var h := Parse(encoded).value;
    APrintedHashIsItsFields(encoded, h);
    FieldsAreReadIff(f, h);
    OnlyTheOctetsMayDiffer(f, h);
    CanonicalIff(f[4], h.salt);
    CanonicalIff(f[5], h.key);
  }

  lemma OnlyTheOctetsMayDiffer(f: seq<string>, h: Phc)
    requires |f| == 6 && f[0] == "" && f[1] == "argon2id" && f[2] == "v=19" && f[3] == Format(h.params)
    ensures f == Fields(h) <==> f[4] == Encode(Standard, h.salt) && f[5] == Encode(Standard, h.key)
  {
    assert f == [f[0], f[1], f[2], f[3], f[4], f[5]];
  }

  lemma CanonicalIff(field: string, b: seq<Byte>)
    requires Decode(Standard, field, false) == Some(b)
    ensures field == Encode(Standard, b) <==>
            Decode(Standard, field, true).Some? && Unbroken(field) == field
  {
    StrictOnlyRefuses(field);
    StrictDecodesIff(Standard, field, b);
    EncodingHoldsSymbolsOnly(Standard, b);
  }

  lemma StrictOnlyRefuses(field: string)
    ensures Decode(Standard, field, true).Some? ==>
              Decode(Standard, field, true) == Decode(Standard, field, false)
  {
    if Decode(Standard, field, true).Some? {
      StrictIsNarrower(Read(Standard, field).value);
    }
  }

  lemma {:induction false} StrictIsNarrower(s: seq<Sextet>)
    ensures Unpack(s, true).Some? ==> Unpack(s, true) == Unpack(s, false)
  {
    if |s| >= 4 {
      StrictIsNarrower(s[4..]);
    }
  }

  // ---------------------------------------------------------------- hashing

  /** argon2.IDKey: secret, salt, time, memory, lanes, length. */
  type Kdf = (string, seq<Byte>, nat, nat, nat, nat) -> seq<Byte>

  ghost predicate Derives(kdf: Kdf) {
    forall secret, salt, time, memory, lanes, length ::
      |kdf(secret, salt, time, memory, lanes, length)| == length
  }

  /** The salt is the one drawn from the source of randomness. */
  function HashWith(kdf: Kdf, params: Params, secret: string, salt: seq<Byte>): Result<string, Malformed>
    requires |salt| == SALT_LENGTH
  {
    match Refusal(params)
    case Some(reason) => Err(reason)
    case None =>
      Ok(Print(Phc(params, salt,
        kdf(secret, salt, params.time, params.memory, params.parallelism, KEY_LENGTH))))
  }

  function VerifyHeld(kdf: Kdf, encoded: string, secret: string): Result<bool, Malformed> {
    match Parse(encoded)
    case Err(reason) => Err(reason)
    case Ok(h) =>
      Ok(h.key ==
         kdf(secret, h.salt, h.params.time, h.params.memory, h.params.parallelism, |h.key|))
  }

  /**
   A produced hash verifies under the cost it was produced with, whatever cost is current when it is
   verified: it accepts its own secret, and another secret iff both derive the same key.
   */
  lemma AHashVerifiesUnderItsOwnCost(kdf: Kdf, params: Params, secret: string, salt: seq<Byte>, other: string)
    requires Derives(kdf) && |salt| == 16
    ensures HashWith(kdf, params, secret, salt).Ok? <==>
            1 <= params.time <= 16 && 1 <= params.parallelism && 1 <= params.memory <= 1048576
    ensures HashWith(kdf, params, secret, salt).Ok? ==>
              var encoded := HashWith(kdf, params, secret, salt).value;
              var derive := s => kdf(s, salt, params.time, params.memory, params.parallelism, 32);
              VerifyHeld(kdf, encoded, secret) == Ok(true) &&
              VerifyHeld(kdf, encoded, other) == Ok(derive(other) == derive(secret))
  {
    WithinBoundsIff(params);
    if Refusal(params).None? {
      var key := kdf(secret, salt, params.time, params.memory, params.parallelism, KEY_LENGTH);
      ParseInvertsPrint(Phc(params, salt, key));
    }
  }
}
