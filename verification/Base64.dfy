/**
 Unpadded base64 (sections 3.2, 3.5, 4 and 5 of RFC 4648) as the two callers of internal/auth use it:
 the standard alphabet read leniently for a stored hash, the URL alphabet read strictly for a
 challenge. The decoder skips carriage returns and line feeds wherever they stand, in strict mode too.
 */
module Base64 {
  import opened Common

  type Byte = x: int | 0 <= x < 256
  type Sextet = x: int | 0 <= x < 64

  datatype Alphabet = Standard | Url

  // ---------------------------------------------------------------- one symbol

  function Symbol(a: Alphabet, v: Sextet): (c: char)
    ensures Value(a, c) == Some(v)
  {
    if v < 26 then 'A' + v as char
    else if v < 52 then 'a' + (v - 26) as char
    else if v < 62 then '0' + (v - 52) as char
    else if a.Standard? then (if v == 62 then '+' else '/')
    else if v == 62 then '-' else '_'
  }

  function Value(a: Alphabet, c: char): (v: Option<Sextet>) {
    if 'A' <= c <= 'Z' then Some((c - 'A') as int)
    else if 'a' <= c <= 'z' then Some(26 + (c - 'a') as int)
    else if '0' <= c <= '9' then Some(52 + (c - '0') as int)
    else if c == (if a.Standard? then '+' else '-') then Some(62)
    else if c == (if a.Standard? then '/' else '_') then Some(63)
    else None
  }

  predicate LineBreak(c: char) { c == '\r' || c == '\n' }

  // ---------------------------------------------------------------- sextets and octets

  /** The encoder: three octets to four sextets, and a short last group padded with zero bits. */
  function Pack(b: seq<Byte>): (s: seq<Sextet>)
    ensures |s| == (4 * |b| + 2) / 3
  {
    if |b| == 0 then []
    else if |b| == 1 then [b[0] / 4, b[0] % 4 * 16]
    else if |b| == 2 then [b[0] / 4, b[0] % 4 * 16 + b[1] / 16, b[1] % 16 * 4]
    else [b[0] / 4, b[0] % 4 * 16 + b[1] / 16, b[1] % 16 * 4 + b[2] / 64, b[2] % 64] + Pack(b[3..])
  }

  function First(x: Sextet, y: Sextet): Byte { x as int * 4 + y as int / 16 }

  function Second(y: Sextet, z: Sextet): Byte { y as int % 16 * 16 + z as int / 4 }

  function Third(z: Sextet, w: Sextet): Byte { z as int % 4 * 64 + w as int }

  /** The decoder: a lone last sextet is refused; strict refuses non-zero bits left over. */
  function Unpack(s: seq<Sextet>, strict: bool): (b: Option<seq<Byte>>)
    ensures b.Some? ==> |b.value| == 3 * |s| / 4
  {
    if |s| == 0 then Some([])
    else if |s| == 1 then None
    else if |s| == 2 then
      if strict && s[1] % 16 != 0 then None else Some([First(s[0], s[1])])
    else if |s| == 3 then
      if strict && s[2] % 4 != 0 then None
      else Some([First(s[0], s[1]), Second(s[1], s[2])])
    else
      match Unpack(s[4..], strict)
      case None => None
      case Some(rest) =>
        Some([First(s[0], s[1]), Second(s[1], s[2]), Third(s[2], s[3])] + rest)
  }

  /** Octets survive the cut into sextets, at each of the three lengths of a group. */
  lemma GroupIsRestored(x: Byte, y: Byte, z: Byte)
    ensures First(x / 4, x % 4 * 16) == x && x % 4 * 16 % 16 == 0
    ensures First(x / 4, x % 4 * 16 + y / 16) == x
    ensures Second(x % 4 * 16 + y / 16, y % 16 * 4) == y && y % 16 * 4 % 4 == 0
    ensures Second(x % 4 * 16 + y / 16, y % 16 * 4 + z / 64) == y
    ensures Third(y % 16 * 4 + z / 64, z % 64) == z
  {
  }

  lemma OneGroupPacked(b: seq<Byte>)
    requires |b| >= 3
    ensures |Pack(b)| >= 4 && Pack(b)[4..] == Pack(b[3..])
    ensures Pack(b)[0] == b[0] / 4 && Pack(b)[1] == b[0] % 4 * 16 + b[1] / 16
    ensures Pack(b)[2] == b[1] % 16 * 4 + b[2] / 64 && Pack(b)[3] == b[2] % 64
  {
  }

  lemma OneGroupUnpacked(s: seq<Sextet>, strict: bool, rest: seq<Byte>)
    requires |s| >= 4 && Unpack(s[4..], strict) == Some(rest)
    ensures Unpack(s, strict) == Some([First(s[0], s[1]), Second(s[1], s[2]), Third(s[2], s[3])] + rest)
  {
  }

  lemma {:induction false} UnpackInvertsPack(b: seq<Byte>, strict: bool)
    ensures Unpack(Pack(b), strict) == Some(b)
  {
    if |b| == 1 {
      GroupIsRestored(b[0], 0, 0);
      assert b == [b[0]];
    } else if |b| == 2 {
      GroupIsRestored(b[0], b[1], 0);
      assert b == [b[0], b[1]];
    } else if |b| >= 3 {
      UnpackInvertsPack(b[3..], strict);
      GroupIsRestored(b[0], b[1], b[2]);
      OneGroupPacked(b);
      OneGroupUnpacked(Pack(b), strict, b[3..]);
      assert [b[0], b[1], b[2]] + b[3..] == b;
    }
  }

  lemma GroupIsKept(x: Sextet, y: Sextet, z: Sextet, w: Sextet)
    ensures var p, q, r := First(x, y), Second(y, z), Third(z, w);
            p / 4 == x && p % 4 * 16 + q / 16 == y && q % 16 * 4 + r / 64 == z && r % 64 == w
    ensures y % 16 == 0 ==> First(x, y) / 4 == x && First(x, y) % 4 * 16 == y
    ensures z % 4 == 0 ==> Second(y, z) % 16 * 4 == z
  {
  }

  /** Strict decoding accepts nothing but what the encoder writes. */
  lemma {:induction false} PackInvertsStrictUnpack(s: seq<Sextet>)
    requires Unpack(s, true).Some?
    ensures Pack(Unpack(s, true).value) == s
  {
    var b := Unpack(s, true).value;
    if |s| == 2 {
      GroupIsKept(s[0], s[1], 0, 0);
    } else if |s| == 3 {
      GroupIsKept(s[0], s[1], s[2], 0);
    } else if |s| >= 4 {
      PackInvertsStrictUnpack(s[4..]);
      GroupIsKept(s[0], s[1], s[2], s[3]);
      assert b[3..] == Unpack(s[4..], true).value;
      assert s == [s[0], s[1], s[2], s[3]] + s[4..];
    }
  }

  /** The bits a last group of `|s| % 4` sextets leaves over. */
  function SpareBits(s: seq<Sextet>): nat {
    if |s| % 4 == 2 then s[|s| - 1] % 16 else if |s| % 4 == 3 then s[|s| - 1] % 4 else 0
  }

  lemma {:induction false} UnpackAcceptsIff(s: seq<Sextet>, strict: bool)
    ensures Unpack(s, strict).Some? <==> |s| % 4 != 1 && (strict ==> SpareBits(s) == 0)
  {
    if |s| >= 4 {
      UnpackAcceptsIff(s[4..], strict);
    }
  }

  // ---------------------------------------------------------------- text

  function Encode(a: Alphabet, b: seq<Byte>): (text: string)
    ensures |text| == (4 * |b| + 2) / 3
  {
    Spell(a, Pack(b))
  }

  function Spell(a: Alphabet, s: seq<Sextet>): (text: string)
    ensures |text| == |s|
    ensures forall k :: 0 <= k < |s| ==> text[k] == Symbol(a, s[k])
  {
    seq(|s|, k requires 0 <= k < |s| => Symbol(a, s[k]))
  }

  function Decode(a: Alphabet, text: string, strict: bool): Option<seq<Byte>> {
    match Read(a, text)
    case None => None
    case Some(s) => Unpack(s, strict)
  }

  /** The symbols of a text in order, line breaks skipped; nothing when a character is neither. */
  function Read(a: Alphabet, text: string): Option<seq<Sextet>> {
    if text == "" then Some([])
    else if LineBreak(text[0]) then Read(a, text[1..])
    else
      match (Value(a, text[0]), Read(a, text[1..]))
      case (Some(v), Some(rest)) => Some([v] + rest)
      case _ => None
  }

  function Unbroken(text: string): (t: string)
    ensures forall c :: c in t <==> c in text && !LineBreak(c)
  {
    if text == "" then ""
    else if LineBreak(text[0]) then Unbroken(text[1..])
    else
      assert forall c :: c in text <==> c == text[0] || c in text[1..];
      [text[0]] + Unbroken(text[1..])
  }

  lemma {:induction false} WhatIsSpelledIsRead(a: Alphabet, s: seq<Sextet>)
    ensures Read(a, Spell(a, s)) == Some(s)
  {
    if |s| > 0 {
      WhatIsSpelledIsRead(a, s[1..]);
      assert Spell(a, s)[1..] == Spell(a, s[1..]);
      assert [s[0]] + s[1..] == s;
    }
  }

  lemma {:induction false} WhatIsReadIsSpelled(a: Alphabet, text: string)
    requires Read(a, text).Some?
    ensures Spell(a, Read(a, text).value) == Unbroken(text)
  {
    if |text| > 0 {
      WhatIsReadIsSpelled(a, text[1..]);
      if !LineBreak(text[0]) {
        var rest := Read(a, text[1..]).value;
        assert Symbol(a, Value(a, text[0]).value) == text[0];
        assert Spell(a, [Value(a, text[0]).value] + rest) == [text[0]] + Spell(a, rest);
      }
    }
  }

  lemma {:induction false} LineBreaksDoNotMatter(a: Alphabet, text: string)
    ensures Read(a, text) == Read(a, Unbroken(text))
  {
    if |text| > 0 {
      LineBreaksDoNotMatter(a, text[1..]);
      if !LineBreak(text[0]) {
        assert Unbroken(text)[1..] == Unbroken(text[1..]);
      }
    }
  }

  lemma {:induction false} ReadsIff(a: Alphabet, text: string)
    ensures Read(a, text).Some? <==> forall c :: c in text ==> LineBreak(c) || Value(a, c).Some?
  {
    if |text| > 0 {
      ReadsIff(a, text[1..]);
      assert forall c :: c in text <==> c == text[0] || c in text[1..];
    }
  }

  /** Both readers invert the printer, on every sequence of octets. */
  lemma DecodeInvertsEncode(a: Alphabet, b: seq<Byte>, strict: bool)
    ensures Decode(a, Encode(a, b), strict) == Some(b)
  {
    WhatIsSpelledIsRead(a, Pack(b));
    UnpackInvertsPack(b, strict);
  }

  /** Strict decoding is exact up to line breaks: a text denotes `b` iff it is the encoding of `b`. */
  lemma StrictDecodesIff(a: Alphabet, text: string, b: seq<Byte>)
    ensures Decode(a, text, true) == Some(b) <==> Unbroken(text) == Encode(a, b)
  {
    LineBreaksDoNotMatter(a, text);
    if Decode(a, text, true) == Some(b) {
      PackInvertsStrictUnpack(Read(a, text).value);
      WhatIsReadIsSpelled(a, text);
    }
    if Unbroken(text) == Encode(a, b) {
      DecodeInvertsEncode(a, b, true);
    }
  }

  /** An encoding holds symbols only: no line break, and none of the separators around it. */
  lemma EncodingHoldsSymbolsOnly(a: Alphabet, b: seq<Byte>)
    ensures forall c :: c in Encode(a, b) ==> Value(a, c).Some?
    ensures Unbroken(Encode(a, b)) == Encode(a, b)
  {
    WhatIsSpelledIsRead(a, Pack(b));
    WhatIsReadIsSpelled(a, Encode(a, b));
  }
}
