/**
 The challenge format of internal/auth/authenticator.go: thirty-two random octets, written in
 unpadded URL base64 and read back strictly. `sha` stands for SHA-256.
 */
module Challenge {
  import opened Common
  import opened Base64

  const TOKEN_BYTES := 32

  function Token(presented: string): Option<seq<Byte>> {
    match Decode(Url, presented, true)
    case None => None
    case Some(token) => if |token| == TOKEN_BYTES then Some(token) else None
  }

  function ChallengeDigest(sha: seq<Byte> -> seq<Byte>, presented: string): Option<seq<Byte>> {
    match Token(presented)
    case None => None
    case Some(token) => Some(sha(token))
  }

  /** What `challenge` hands out for a drawn token, or nothing where it returns errChallengeEncoding. */
  function Issued(sha: seq<Byte> -> seq<Byte>, token: seq<Byte>): Option<(string, seq<Byte>)> {
    var challenge := Encode(Url, token);
    match ChallengeDigest(sha, challenge)
    case None => None
    case Some(digest) => Some((challenge, digest))
  }

  predicate Unbreaking(text: string) { forall c :: c in text ==> !LineBreak(c) }

  lemma {:induction false} NothingToSkip(text: string)
    ensures Unbroken(text) == text <==> Unbreaking(text)
  {
    if |text| > 0 {
      NothingToSkip(text[1..]);
      assert forall c :: c in text <==> c == text[0] || c in text[1..];
    }
  }

  /** errChallengeEncoding is unreachable: every token issued is accepted, with its own digest. */
  lemma EveryIssuedChallengeIsAccepted(sha: seq<Byte> -> seq<Byte>, token: seq<Byte>)
    requires |token| == TOKEN_BYTES
    ensures Issued(sha, token) == Some((Encode(Url, token), sha(token)))
    ensures |Encode(Url, token)| == 43 && Unbreaking(Encode(Url, token))
  {
    DecodeInvertsEncode(Url, token, true);
    EncodingHoldsSymbolsOnly(Url, token);
    NothingToSkip(Encode(Url, token));
  }

  lemma ATokenIsFortyThreeSextets(s: seq<Sextet>)
    ensures Unpack(s, true).Some? && |Unpack(s, true).value| == TOKEN_BYTES <==>
            |s| == 43 && s[42] % 4 == 0
  {
    UnpackAcceptsIff(s, true);
    assert 3 * |s| / 4 == 32 ==> |s| == 43;
  }

  /**
   What is accepted: line breaks aside, forty-three symbols of the URL alphabet whose last one
   carries no bit beyond the thirty-second octet.
   */
  lemma AcceptedIff(sha: seq<Byte> -> seq<Byte>, presented: string)
    ensures ChallengeDigest(sha, presented).Some? <==>
            var t := Unbroken(presented);
            |t| == 43 && (forall c :: c in t ==> Value(Url, c).Some?) &&
            Value(Url, t[42]).value % 4 == 0
  {
    LineBreaksDoNotMatter(Url, presented);
    ReadsIff(Url, Unbroken(presented));
    if Read(Url, presented).Some? {
      var s := Read(Url, presented).value;
      WhatIsReadIsSpelled(Url, presented);
      ATokenIsFortyThreeSextets(s);
    }
  }

  /** Two accepted strings carry the same token exactly when they agree once line breaks are dropped. */
  lemma SameTokenIff(p: string, q: string)
    requires Token(p).Some? && Token(q).Some?
    ensures Token(p) == Token(q) <==> Unbroken(p) == Unbroken(q)
  {
    StrictDecodesIff(Url, p, Token(p).value);
    StrictDecodesIff(Url, q, Token(q).value);
    StrictDecodesIff(Url, p, Token(q).value);
  }

  /** So the codec is a bijection between the tokens and the accepted strings without a line break. */
  lemma BijectionWithoutLineBreaks(presented: string, token: seq<Byte>)
    requires |token| == TOKEN_BYTES
    ensures Token(presented) == Some(token) && Unbreaking(presented) <==> presented == Encode(Url, token)
  {
    StrictDecodesIff(Url, presented, token);
    NothingToSkip(presented);
    EveryIssuedChallengeIsAccepted(x => x, token);
  }

  /**
   With line breaks it is not: strict reading still skips them, so every accepted string has another
   one, accepted for the same row.
   */
  lemma {:induction false} ALineFeedMakesAnotherSpelling(sha: seq<Byte> -> seq<Byte>, presented: string)
    requires ChallengeDigest(sha, presented).Some?
    ensures ChallengeDigest(sha, "\n" + presented) == ChallengeDigest(sha, presented)
    ensures "\n" + presented != presented
  {
    assert ("\n" + presented)[1..] == presented;
    assert Unbroken("\n" + presented) == Unbroken(presented);
    LineBreaksDoNotMatter(Url, "\n" + presented);
    LineBreaksDoNotMatter(Url, presented);
  }
}
