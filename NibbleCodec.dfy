/** The nibble codec of bticino.py: hexadecimal text <-> "nibble strings",
    in which every 4-bit value is written as two decimal digits "00".."15".
    The functions here are the reference definitions; the loops that compute
    them are `Bticino.Nums2Hex` and `Bticino.HexStr2Nums` in Session.dfy. */
module NibbleCodec {
  import opened Wrappers
  import opened Text

  /** `int(a + b)` for a two-character string: Python accepts two digits, or
      one digit with a leading sign or a leading or trailing blank;
      anything else raises ValueError (None). */
  function PairValue(a: char, b: char): Option<int>
  {
    if IsDigit(a) && IsDigit(b) then Some(10 * DigitVal(a) + DigitVal(b))
    else if IsSpace(a) && IsDigit(b) then Some(DigitVal(b))
    else if IsDigit(a) && IsSpace(b) then Some(DigitVal(a))
    else if a == '+' && IsDigit(b) then Some(DigitVal(b))
    else if a == '-' && IsDigit(b) then Some(-(DigitVal(b) as int))
    else None
  }

  /** `"%1x" % v`: lower-case hex, at least one digit, a minus sign for negatives. */
  function FormatHex(v: int): string
  {
    if v < 0 then "-" + NatToLowerHex(-v) else NatToLowerHex(v)
  }

  /** nums2hex: read the input two characters at a time, render each pair's
      value in hex; a trailing odd character is never read. None stands for
      the ValueError raised by the first pair `int()` rejects. */
  function HexOfNums(s: string): (r: Option<string>)
    ensures r.Some? ==> forall i :: 0 <= i < |r.value| ==> IsLowerHexDigit(r.value[i]) || r.value[i] == '-'
  {
    if |s| < 2 then Some("")
    else match PairValue(s[0], s[1])
      case None => None
      case Some(v) =>
        match HexOfNums(s[2..])
        case None => None
        case Some(t) => Some(FormatHex(v) + t)
  }

  /** hexstr2nums: every hex character becomes its value as two decimal digits
      ("%02d"); the first non-hex character raises ValueError (None). */
  function NumsOfHex(h: string): (r: Option<string>)
    ensures r.Some? ==> |r.value| == 2 * |h| && AllDigits(r.value)
  {
    if h == [] then Some("")
    else if !IsHexDigit(h[0]) then None
    else match NumsOfHex(h[1..])
      case None => None
      case Some(t) => Some(TwoDigits(HexVal(h[0])) + t)
  }

  /** The text produced so far in front of whatever the rest produces. */
  function Prefixed(acc: string, rest: Option<string>): Option<string>
  {
    match rest
    case None => None
    case Some(t) => Some(acc + t)
  }

  lemma {:induction false} PrefixedAssoc(acc: string, step: string, rest: Option<string>)
    ensures Prefixed(acc, Prefixed(step, rest)) == Prefixed(acc + step, rest)
  {
    if rest.Some? {
      assert acc + (step + rest.value) == acc + step + rest.value;
    }
  }

  lemma {:induction false} PrefixedEmpty(rest: Option<string>)
    ensures Prefixed("", rest) == rest
  {
    if rest.Some? {
      assert "" + rest.value == rest.value;
    }
  }

  /** One pair of nums2hex: its hex in front of the rest, or the error. */
  lemma {:induction false} HexOfNumsStep(s: string)
    requires |s| >= 2
    ensures HexOfNums(s) == match PairValue(s[0], s[1])
      case None => None
      case Some(v) => Prefixed(FormatHex(v), HexOfNums(s[2..]))
  {
  }

  /** One character of hexstr2nums: its two digits in front of the rest, or the error. */
  lemma {:induction false} NumsOfHexStep(h: string)
    requires h != []
    ensures NumsOfHex(h) == if IsHexDigit(h[0]) then Prefixed(TwoDigits(HexVal(h[0])), NumsOfHex(h[1..])) else None
  {
  }

  predicate AllHex(h: string) { forall i :: 0 <= i < |h| ==> IsHexDigit(h[i]) }

  /** A well-formed nibble string: pairs of decimal digits, each pair 00..15. */
  predicate IsNibbleString(s: string)
  {
    |s| % 2 == 0 &&
    forall k :: 0 <= k < |s| / 2 ==>
      IsDigit(s[2 * k]) && IsDigit(s[2 * k + 1]) &&
      10 * DigitVal(s[2 * k]) + DigitVal(s[2 * k + 1]) < 16
  }

  // ---------------------------------------------------------------- properties

  /** hexstr2nums succeeds exactly on hex text, and then writes exactly two
      decimal digits per input character, forming a nibble string. */
  lemma {:induction false} NumsOfHexShape(h: string)
    ensures NumsOfHex(h).Some? <==> AllHex(h)
    ensures AllHex(h) ==> |NumsOfHex(h).value| == 2 * |h| && IsNibbleString(NumsOfHex(h).value)
    decreases |h|
  {
    if h != [] {
      NumsOfHexShape(h[1..]);
      assert AllHex(h) <==> IsHexDigit(h[0]) && AllHex(h[1..]);
      if AllHex(h) {
        var t := NumsOfHex(h[1..]).value;
        var s := NumsOfHex(h).value;
        var d := TwoDigits(HexVal(h[0]));
        assert s == d + t;
        forall k | 0 <= k < |s| / 2
          ensures IsDigit(s[2 * k]) && IsDigit(s[2 * k + 1]) &&
                  10 * DigitVal(s[2 * k]) + DigitVal(s[2 * k + 1]) < 16
        {
          if k > 0 {
            assert s[2 * k] == t[2 * (k - 1)] && s[2 * k + 1] == t[2 * (k - 1) + 1];
          }
        }
      }
    }
  }

  /** Decoding what hexstr2nums wrote gives back the hex text, in lower case:
      nums2hex(hexstr2nums(h)) == h.lower(). */
  lemma {:induction false} HexRoundTrip(h: string)
    requires AllHex(h)
    ensures NumsOfHex(h).Some?
    ensures HexOfNums(NumsOfHex(h).value) == Some(Lower(h))
    decreases |h|
  {
    if h != [] {
      HexRoundTrip(h[1..]);
      var t := NumsOfHex(h[1..]).value;
      var d := TwoDigits(HexVal(h[0]));
      var s := d + t;
      assert NumsOfHex(h) == Some(s);
      assert s[2..] == t;
      assert PairValue(s[0], s[1]) == Some(HexVal(h[0]));
      assert FormatHex(HexVal(h[0])) == [LowerChar(h[0])];
      assert Lower(h) == [LowerChar(h[0])] + Lower(h[1..]);
    }
  }

  lemma {:induction false} NibbleTail(s: string)
    requires IsNibbleString(s) && |s| >= 2
    ensures IsNibbleString(s[2..])
  {
    var t := s[2..];
    forall k | 0 <= k < |t| / 2
      ensures IsDigit(t[2 * k]) && IsDigit(t[2 * k + 1]) &&
              10 * DigitVal(t[2 * k]) + DigitVal(t[2 * k + 1]) < 16
    {
      assert t[2 * k] == s[2 * (k + 1)] && t[2 * k + 1] == s[2 * (k + 1) + 1];
    }
  }

  /** One nibble pair: reading it and writing its hex digit back restores it. */
  lemma {:induction false} NibblePair(a: char, b: char)
    requires IsDigit(a) && IsDigit(b) && 10 * DigitVal(a) + DigitVal(b) < 16
    ensures PairValue(a, b) == Some(10 * DigitVal(a) + DigitVal(b))
    ensures FormatHex(10 * DigitVal(a) + DigitVal(b)) == [LowerHexChar(10 * DigitVal(a) + DigitVal(b))]
    ensures TwoDigits(10 * DigitVal(a) + DigitVal(b)) == [a, b]
  {
    var v := 10 * DigitVal(a) + DigitVal(b);
    assert DigitVal(DigitChar(v / 10)) == DigitVal(a);
    assert DigitVal(DigitChar(v % 10)) == DigitVal(b);
  }

  /** Encoding what nums2hex read gives back the nibble string:
      hexstr2nums(nums2hex(s)) == s for pairs 00..15. */
  lemma {:induction false} NumsRoundTrip(s: string)
    requires IsNibbleString(s)
    ensures HexOfNums(s).Some?
    ensures |HexOfNums(s).value| == |s| / 2
    ensures NumsOfHex(HexOfNums(s).value) == Some(s)
    decreases |s|
  {
    if |s| >= 2 {
      assert IsDigit(s[2 * 0]) && IsDigit(s[2 * 0 + 1]) &&
             10 * DigitVal(s[2 * 0]) + DigitVal(s[2 * 0 + 1]) < 16;
      NibblePair(s[0], s[1]);
      NibbleTail(s);
      NumsRoundTrip(s[2..]);
      var v := 10 * DigitVal(s[0]) + DigitVal(s[1]);
      var t := HexOfNums(s[2..]).value;
      var c := LowerHexChar(v);
      assert HexOfNums(s) == Some([c] + t);
      assert ([c] + t)[1..] == t;
      assert NumsOfHex([c] + t) == Some(TwoDigits(v) + s[2..]);
      assert s == [s[0], s[1]] + s[2..];
    }
  }

  /** nums2hex never reads a trailing odd character. */
  lemma {:induction false} OddTailIgnored(s: string, c: char)
    requires |s| % 2 == 0
    ensures HexOfNums(s + [c]) == HexOfNums(s)
    decreases |s|
  {
    if |s| >= 2 {
      assert (s + [c])[2..] == s[2..] + [c];
      OddTailIgnored(s[2..], c);
    }
  }

  /** The doc-comment example of hexstr2nums: '2A' -> '0210'. */
  lemma {:induction false} DocExample()
    ensures NumsOfHex("2A") == Some("0210")
  {
    assert NumsOfHex("") == Some("");
    assert "A"[1..] == "" && "A"[0] == 'A';
    assert TwoDigits(HexVal('A')) == "10";
    assert NumsOfHex("A") == Some("10" + "");
    assert "10" + "" == "10";
    assert "2A"[1..] == "A" && "2A"[0] == '2';
    assert TwoDigits(HexVal('2')) == "02";
    assert NumsOfHex("2A") == Some("02" + "10");
    assert "02" + "10" == "0210";
  }
}
