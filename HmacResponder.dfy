/** The SHA-256 challenge responder of bticino.py (`hmacChallenge`).
    hashlib stands outside the model: SHA-256 is any function of type
    `Sha256` (IsSha256: it returns 64 lower-case hex characters, as `hexdigest()` does);
    no digest value is computed here. Texts are ASCII, so `str.encode()`
    is the identity on them. */
module HmacResponder {
  import opened Wrappers
  import opened Text
  import opened NibbleCodec

  predicate IsHexDigest(h: string)
  {
    |h| == 64 && forall i :: 0 <= i < |h| ==> IsLowerHexDigit(h[i])
  }

  /** `hashlib.sha256(data).hexdigest()`, left abstract. */
  type Sha256 = string -> string

  /** What is known of hexdigest(): 64 lower-case hex characters. */
  ghost predicate IsSha256(sha: Sha256)
  {
    forall s :: IsHexDigest(sha(s))
  }

  /** The two fixed hex constants of the digest input ("sope>" and "cope>"). */
  const SOPE: string := "736F70653E"
  const COPE: string := "636F70653E"

  /** The placeholder hashed in place of a random nonce. */
  const NONCE_SEED: string := "xx"

  /** The text whose SHA-256 is the response digest. */
  function DigestInput(challengeHex: string, nonceHex: string, passwordDigest: string): string
  {
    challengeHex + nonceHex + SOPE + COPE + passwordDigest
  }

  /** The nibble form of a digest: 128 digits that decode back to it. */
  lemma {:induction false} DigestNibbles(h: string)
    requires IsHexDigest(h)
    ensures NumsOfHex(h).Some?
    ensures |NumsOfHex(h).value| == 128 && IsNibbleString(NumsOfHex(h).value)
    ensures HexOfNums(NumsOfHex(h).value) == Some(h)
  {
    assert AllHex(h);
    NumsOfHexShape(h);
    HexRoundTrip(h);
    assert Lower(h) == h;
  }

  /** hmacChallenge(frame, password, randnumsdigest): the pair (echoed
      nonce, digest), both nibble strings. None stands for the ValueError
      nums2hex raises on the challenge digits or on a supplied nonce. */
  function HmacChallenge(frame: string, password: int, randNumsDigest: Option<string>, sha: Sha256)
    : (r: Option<(string, string)>)
    ensures r.Some? ==> HexOfNums(PySlice(frame, 2, |frame|)).Some?
  {
    var inhex := HexOfNums(PySlice(frame, 2, |frame|));
    var hexPwdDigest := sha(IntToDecimal(password));
    var nonce: Option<(string, string)> :=
      if randNumsDigest.None? then
        var hexRndDigest := sha(NONCE_SEED);
        match NumsOfHex(hexRndDigest)
        case None => None
        case Some(n) => Some((hexRndDigest, n))
      else match HexOfNums(randNumsDigest.value)
        case None => None
        case Some(h) => Some((h, randNumsDigest.value));
    if inhex.None? || nonce.None? then None
    else
      var uuid := DigestInput(inhex.value, nonce.value.0, hexPwdDigest);
      match NumsOfHex(sha(uuid))
      case None => None
      case Some(n) => Some((nonce.value.1, n))
  }

  /** The nibble form of the nonce echoed back when none is supplied. */
  function DefaultNonce(sha: Sha256): string
    requires IsSha256(sha)
  {
    DigestNibbles(sha(NONCE_SEED));
    NumsOfHex(sha(NONCE_SEED)).value
  }

  /** hmacChallenge raises only where nums2hex does; it echoes a supplied
      nonce, or the nibble form of SHA-256("xx"); the second component is the
      nibble form of SHA-256 over the challenge, the nonce, the two constants
      and the password's digest, and decodes back to that digest. */
  lemma {:induction false} HmacChallengeSpec(frame: string, password: int, randNumsDigest: Option<string>, sha: Sha256)
    requires IsSha256(sha)
    ensures var r := HmacChallenge(frame, password, randNumsDigest, sha);
      && (r.Some? <==>
            HexOfNums(PySlice(frame, 2, |frame|)).Some? &&
            (randNumsDigest.Some? ==> HexOfNums(randNumsDigest.value).Some?))
      && (r.Some? && randNumsDigest.Some? ==> r.value.0 == randNumsDigest.value)
      && (r.Some? && randNumsDigest.None? ==>
            r.value.0 == DefaultNonce(sha) &&
            |r.value.0| == 128 && IsNibbleString(r.value.0) && HexOfNums(r.value.0) == Some(sha(NONCE_SEED)))
      && (r.Some? ==>
            var nonceHex := if randNumsDigest.Some? then HexOfNums(randNumsDigest.value).value else sha(NONCE_SEED);
            var digestHex := sha(DigestInput(HexOfNums(PySlice(frame, 2, |frame|)).value, nonceHex,
                                             sha(IntToDecimal(password))));
            Some(r.value.1) == NumsOfHex(digestHex) &&
            |r.value.1| == 128 && IsNibbleString(r.value.1) && HexOfNums(r.value.1) == Some(digestHex))
  {
    DigestNibbles(sha(NONCE_SEED));
    var inhex := HexOfNums(PySlice(frame, 2, |frame|));
    if inhex.Some? && (randNumsDigest.Some? ==> HexOfNums(randNumsDigest.value).Some?) {
      var nonceHex := if randNumsDigest.Some? then HexOfNums(randNumsDigest.value).value else sha(NONCE_SEED);
      DigestNibbles(sha(DigestInput(inhex.value, nonceHex, sha(IntToDecimal(password)))));
    }
  }
}
