/** The legacy challenge-response cipher of bticino.py (`rshift` and the
    accumulator arithmetic of `answerChallenge`), on Python's unbounded
    integers. The loop that computes it is `Bticino.AnswerChallenge` in
    Session.dfy. Python's bit operations are written out:
      x << n            ==  x * 2^n
      x >> n            ==  x / 2^n          (floor division)
      x & 0xFFFFFFFF    ==  x % 2^32         (for every x, negative ones too)
      x & (m << lo)     ==  ((x / 2^lo) % (m + 1)) * 2^lo   for m == 2^w - 1
      x ^ -1            ==  -x - 1 */
module LegacyCipher {
  import opened Text

  const TWO32: int := 0x1_0000_0000
  const MASK32: int := 0xFFFF_FFFF

  function Pow2(n: nat): (r: nat)
    ensures r >= 1
  {
    if n == 0 then 1 else 2 * Pow2(n - 1)
  }

  lemma {:induction false} Pow2Add(a: nat, b: nat)
    ensures Pow2(a + b) == Pow2(a) * Pow2(b)
    decreases a
  {
    if a > 0 {
      Pow2Add(a - 1, b);
    }
  }

  lemma {:induction false} Pow2Is32()
    ensures Pow2(32) == TWO32
  {
    assert Pow2(8) == 256;
    assert Pow2(16) == 256 * 256 by { Pow2Add(8, 8); }
    assert Pow2(32) == Pow2(16) * Pow2(16) by { Pow2Add(16, 16); }
  }

  lemma {:induction false} DivBelow(x: int, p: int, q: int)
    requires 0 <= x < p * q && p > 0 && q > 0
    ensures x / p < q
  {
  }

  lemma {:induction false} ModSmall(x: int, m: int)
    requires 0 <= x < m
    ensures x % m == x
  {
  }

  /** `x & 0xFFFFFFFF`. */
  function Mask32(x: int): (r: int)
    ensures 0 <= r < TWO32
    ensures 0 <= x < TWO32 ==> r == x
    ensures (x - r) % TWO32 == 0
  {
    x % TWO32
  }

  /** `x << n`. */
  function Shl(x: int, n: nat): int
  {
    x * Pow2(n)
  }

  /** `rshift(val, bits) = (val >> bits) & ((1 << (32 - bits)) - 1)`. Python
      rejects a negative shift count, hence the bounds on `bits`. */
  function RShift(val: int, bits: int): (r: int)
    requires 0 <= bits <= 32
    ensures 0 <= r < Pow2(32 - bits)
    ensures 0 <= val < TWO32 ==> r == val / Pow2(bits)
  {
    ShiftFits(val, bits);
    (val / Pow2(bits)) % Pow2(32 - bits)
  }

  lemma {:induction false} FitsBelow(val: int, p: int, q: int)
    requires p > 0 && q > 0 && p * q == TWO32 && 0 <= val < TWO32
    ensures (val / p) % q == val / p
  {
    DivBelow(val, p, q);
    ModSmall(val / p, q);
  }

  lemma {:induction false} Pow2Split(bits: nat)
    requires bits <= 32
    ensures Pow2(bits) * Pow2(32 - bits) == TWO32
  {
    Pow2Add(bits, 32 - bits);
    Pow2Is32();
  }

  lemma {:induction false} ShiftFits(val: int, bits: nat)
    requires bits <= 32
    ensures 0 <= val < TWO32 ==> (val / Pow2(bits)) % Pow2(32 - bits) == val / Pow2(bits)
  {
    if 0 <= val < TWO32 {
      Pow2Split(bits);
      FitsBelow(val, Pow2(bits), Pow2(32 - bits));
    }
  }

  /** `x & mask`, where `mask` is `width` one-bits starting at bit `lo`. */
  function AndField(x: int, lo: nat, width: nat): int
  {
    ((x / Pow2(lo)) % Pow2(width)) * Pow2(lo)
  }

  /** One step of the accumulator `j2` for challenge character `c`, applied to
      the already truncated value `a`; characters other than '1'..'9' leave
      it as it is. The result may exceed 32 bits (or be negative, for '9'). */
  function DigitStep(c: char, a: int): int
  {
    match c
    case '1' => Shl(a, 25) + RShift(a, 7)
    case '2' => Shl(a, 28) + RShift(a, 4)
    case '3' => Shl(a, 29) + RShift(a, 3)
    case '4' => RShift(a, 31) + Shl(a, 1)
    case '5' => RShift(a, 27) + Shl(a, 5)
    case '6' => RShift(a, 20) + Shl(a, 12)
    // 4278190080 = 0xFF000000, 65280 = 0xFF00, 255 = 0xFF, 16711680 = 0xFF0000
    case '7' => RShift(AndField(a, 24, 8), 8)
                + ((AndField(a, 8, 8) + Shl(AndField(a, 0, 8), 24)) + RShift(AndField(a, 16, 8), 16))
    // 16711680 = 0xFF0000, 65535 = 0xFFFF
    case '8' => RShift(AndField(a, 16, 8), 8) + (Shl(AndField(a, 0, 16), 16) + RShift(a, 24))
    case '9' => -a - 1
    case _ => a
  }

  /** The value of `j2` after the characters of `challenge`, starting from the
      password: each step truncates to 32 bits and then applies `DigitStep`. */
  function Accumulate(challenge: string, password: int): int
    decreases |challenge|
  {
    if challenge == [] then password
    else DigitStep(challenge[|challenge| - 1], Mask32(Accumulate(challenge[..|challenge| - 1], password)))
  }

  /** One more character: one more step on the truncated accumulator. */
  lemma {:induction false} AccumulateSnoc(s: string, c: char, password: int)
    ensures Accumulate(s + [c], password) == DigitStep(c, Mask32(Accumulate(s, password)))
  {
    assert (s + [c])[..|s|] == s;
  }

  /** The final value of `j`: 0 when the challenge is empty (j is only set
      inside the loop), otherwise the last `j2` truncated to 32 bits. */
  function Response(challenge: string, password: int): (r: int)
    ensures 0 <= r < TWO32
  {
    if challenge == [] then 0 else Mask32(Accumulate(challenge, password))
  }

  /** answerChallenge(frame, password): the decimal text of the response to
      `frame[2:]`. */
  function LegacyAnswer(frame: string, password: int): (r: string)
    ensures 1 <= |r| && AllDigits(r) && (|r| > 1 ==> r[0] != '0')
  {
    NatToDecimal(Response(PySlice(frame, 2, |frame|), password))
  }

  // ---------------------------------------------------------------- properties

  /** For 0 < n < 32, rshift(v, n) is v >> n cut to its low 32 - n bits. */
  lemma {:induction false} RShiftBelow(v: int, n: int)
    requires 0 < n < 32
    ensures 0 <= RShift(v, n) < Pow2(32 - n)
    ensures RShift(v, n) == (v / Pow2(n)) % Pow2(32 - n)
  {
  }

  /** The answer is always the decimal text of a 32-bit unsigned value. */
  lemma {:induction false} AnswerIsUnsigned32(frame: string, password: int)
    ensures AllDigits(LegacyAnswer(frame, password))
    ensures DecimalValue(LegacyAnswer(frame, password)) < TWO32
    ensures NatToDecimal(DecimalValue(LegacyAnswer(frame, password))) == LegacyAnswer(frame, password)
  {
    DecimalRoundTrip(Response(PySlice(frame, 2, |frame|), password));
  }

  /** A frame of at most two characters has an empty challenge: the answer is
      "0", whatever the password. */
  lemma {:induction false} ShortFrameAnswersZero(frame: string, password: int)
    requires |frame| <= 2
    ensures LegacyAnswer(frame, password) == "0"
  {
    assert PySlice(frame, 2, |frame|) == [];
  }

  /** Only the low 32 bits of the password matter. */
  lemma {:induction false} PasswordModulo32(challenge: string, password: int)
    ensures Mask32(Accumulate(challenge, password)) == Mask32(Accumulate(challenge, Mask32(password))) ||
            challenge == []
    ensures Response(challenge, password) == Response(challenge, Mask32(password))
    decreases |challenge|
  {
    if |challenge| > 1 {
      PasswordModulo32(challenge[..|challenge| - 1], password);
    }
  }

  /** Two challenges that leave the same truncated accumulator keep doing so
      whatever characters follow. */
  lemma {:induction false} SameAccumulator(x: string, y: string, t: string, password: int)
    requires Mask32(Accumulate(x, password)) == Mask32(Accumulate(y, password))
    ensures Mask32(Accumulate(x + t, password)) == Mask32(Accumulate(y + t, password))
    decreases |t|
  {
    if t == [] {
      assert x + t == x && y + t == y;
    } else {
      var t' := t[..|t| - 1];
      SameAccumulator(x, y, t', password);
      assert (x + t)[..|x + t| - 1] == x + t' && (x + t)[|x + t| - 1] == t[|t| - 1];
      assert (y + t)[..|y + t| - 1] == y + t' && (y + t)[|y + t| - 1] == t[|t| - 1];
    }
  }

  predicate IsCipherDigit(c: char) { '1' <= c <= '9' }

  /** A character other than '1'..'9' is a no-op wherever it stands, as long
      as the challenge does not become empty. */
  lemma {:induction false} NonDigitIsNoOp(s: string, c: char, t: string, password: int)
    requires !IsCipherDigit(c)
    requires s + t != []
    ensures Response(s + [c] + t, password) == Response(s + t, password)
  {
    var x := s + [c];
    AccumulateSnoc(s, c, password);
    NonDigitStep(c, Mask32(Accumulate(s, password)));
    SameAccumulator(x, s, t, password);
  }

  lemma {:induction false} NonDigitStep(c: char, a: int)
    requires !IsCipherDigit(c)
    ensures DigitStep(c, a) == a
  {
  }

  /** Digit '9' complements the 32-bit accumulator. */
  lemma {:induction false} NineComplements(s: string, password: int)
    ensures Response(s + ['9'], password) == MASK32 - Mask32(Accumulate(s, password))
  {
    var a := Mask32(Accumulate(s, password));
    AccumulateSnoc(s, '9', password);
    assert DigitStep('9', a) == -a - 1;
    ComplementMask(a);
  }

  lemma {:induction false} ComplementMask(a: int)
    requires 0 <= a < TWO32
    ensures Mask32(-a - 1) == MASK32 - a
  {
    assert -a - 1 == (MASK32 - a) - TWO32;
  }

  /** The worked example: password 710299916, frame "*#9". */
  lemma {:induction false} NineExample()
    ensures LegacyAnswer("*#9", 710299916) == "3584667379"
  {
    assert PySlice("*#9", 2, 3) == "9";
    NineComplements([], 710299916);
    assert [] + ['9'] == "9";
    assert Response("9", 710299916) == 3584667379;
    DecimalOf3584667379();
  }

  lemma {:induction false} DecimalOf3584667379()
    ensures NatToDecimal(3584667379) == "3584667379"
  {
    assert NatToDecimal(3) == "3";
    assert NatToDecimal(35) == "35";
    assert NatToDecimal(358) == "358";
    assert NatToDecimal(3584) == "3584";
    assert NatToDecimal(35846) == "35846";
    assert NatToDecimal(358466) == "358466";
    assert NatToDecimal(3584667) == "3584667";
    assert NatToDecimal(35846673) == "35846673";
    assert NatToDecimal(358466737) == "358466737";
  }
}
