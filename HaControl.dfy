/** The pure classifiers of ha_config/ha_control.py (`parse_cmd`,
    `parse_packet`, `parse_packet2`, `get_router_ip`) and class `Control`'s
    `create_vars`, which fills in the device identity from the hostname and
    the network card's address. Packets are byte sequences; the hostname,
    the node number of `uuid.getnode()` and the local address are
    parameters. */
module HaControl {
  import opened Wrappers
  import opened Text

  // ---------------------------------------------------------------- parse_cmd

  /** The prefix of the two labels that repeat the frame. */
  const NO_IDEA: string := "(no idea) what is this? "

  /** parse_cmd: the label of each known OpenWebNet frame, None otherwise. */
  function ParseCmd(cmd: string): (r: Option<string>)
    ensures r.Some? ==> |cmd| >= 6 && cmd[0] == '*' && cmd[|cmd| - 1] == '#' && r.value != []
  {
    if cmd == "*7*73#1#100*##" then Some("display ON")
    else if cmd == "*7*73#1#10*##" then Some("display OFF")
    else if cmd == "*#8**33*0##" then Some("bell OFF")
    else if cmd == "*#8**#33*0##" then Some("bell OFF event?")
    else if cmd == "*#8**33*1##" then Some("bell ON")
    else if cmd == "*#8**#33*1##" then Some("bell ON event?")
    else if cmd == "*8*92##" then Some("voicemail OFF")
    else if cmd == "*#8**40*0*0*9815*1*25##" then Some("voicemail OFF using App")
    else if cmd == "*8*91##" then Some("voicemail ON")
    else if cmd == "*#8**40*1*0*9815*1*25##" then Some("voicemail ON using App")
    else if cmd == "*8*19*20##" then Some("door open button press")
    else if cmd == "*8*20*20##" then Some("door open button release")
    else if cmd == "*8*21*16##" then Some("light ON button press")
    else if cmd == "*8*22*16##" then Some("light ON button release")
    else if cmd == "*#*1##" then Some("ACK")
    else if cmd == "*#*0##" then Some("NACK")
    else if cmd == "*8*3#6#2*416##" then Some(NO_IDEA + cmd)
    else if cmd == "*8*80#6#2*16##" then Some(NO_IDEA + cmd)
    else if cmd == "*#130**1##" then Some("status request")
    else None
  }

  /** The frames parse_cmd knows, as a dictionary from frame to label. */
  const LABELS: map<string, string> := map[
    "*7*73#1#100*##" := "display ON",
    "*7*73#1#10*##" := "display OFF",
    "*#8**33*0##" := "bell OFF",
    "*#8**#33*0##" := "bell OFF event?",
    "*#8**33*1##" := "bell ON",
    "*#8**#33*1##" := "bell ON event?",
    "*8*92##" := "voicemail OFF",
    "*#8**40*0*0*9815*1*25##" := "voicemail OFF using App",
    "*8*91##" := "voicemail ON",
    "*#8**40*1*0*9815*1*25##" := "voicemail ON using App",
    "*8*19*20##" := "door open button press",
    "*8*20*20##" := "door open button release",
    "*8*21*16##" := "light ON button press",
    "*8*22*16##" := "light ON button release",
    "*#*1##" := "ACK",
    "*#*0##" := "NACK",
    "*8*3#6#2*416##" := NO_IDEA + "*8*3#6#2*416##",
    "*8*80#6#2*16##" := NO_IDEA + "*8*80#6#2*16##",
    "*#130**1##" := "status request"
  ]

  /** parse_cmd answers exactly for the catalogued frames. */
  lemma {:induction false} ParseCmdDomain(cmd: string)
    ensures ParseCmd(cmd).Some? <==> cmd in LABELS
  {
  }

  /** ... and with their catalogued labels. */
  lemma {:induction false} ParseCmdLabels(cmd: string)
    requires cmd in LABELS
    ensures ParseCmd(cmd) == Some(LABELS[cmd])
  {
  }

  /** The two frames every client checks for. */
  lemma {:induction false} AckNackLabels()
    ensures ParseCmd("*#*1##") == Some("ACK")
    ensures ParseCmd("*#*0##") == Some("NACK")
  {
  }

  /** The two unexplained frames are labelled by themselves. */
  lemma {:induction false} NoIdeaEchoesFrame(cmd: string)
    requires cmd == "*8*3#6#2*416##" || cmd == "*8*80#6#2*16##"
    ensures ParseCmd(cmd) == Some(NO_IDEA + cmd)
    ensures |NO_IDEA| <= |ParseCmd(cmd).value| && ParseCmd(cmd).value[|NO_IDEA|..] == cmd
  {
    assert (NO_IDEA + cmd)[|NO_IDEA|..] == cmd;
  }

  // ---------------------------------------------------------------- bytes as hex text

  /** `bytes.hex()`: two lower-case hex digits per byte, in order. */
  function Hex(b: seq<byte>): (h: string)
    ensures |h| == 2 * |b|
    ensures forall i :: 0 <= i < |h| ==> IsLowerHexDigit(h[i]) && IsHexDigit(h[i])
  {
    if b == [] then [] else [LowerHexChar(b[0] / 16), LowerHexChar(b[0] % 16)] + Hex(b[1..])
  }

  lemma {:induction false} HexConcat(a: seq<byte>, b: seq<byte>)
    ensures Hex(a + b) == Hex(a) + Hex(b)
  {
    if a == [] {
      assert a + b == b;
    } else {
      assert (a + b)[1..] == a[1..] + b;
      HexConcat(a[1..], b);
    }
  }

  /** The hex text of a run of bytes is the matching run of the hex text. */
  lemma {:induction false} HexSlice(b: seq<byte>, i: nat, j: nat)
    requires i <= j <= |b|
    ensures Hex(b)[2 * i..2 * j] == Hex(b[i..j])
  {
    assert b == b[..i] + b[i..j] + b[j..];
    HexConcat(b[..i] + b[i..j], b[j..]);
    HexConcat(b[..i], b[i..j]);
  }

  /** `bytes.fromhex(h)` for an even number of hex digits. */
  function FromHex(h: string): (b: seq<byte>)
    requires forall i :: 0 <= i < |h| ==> IsHexDigit(h[i])
    requires |h| % 2 == 0
    ensures |b| == |h| / 2
  {
    if h == [] then [] else [HexVal(h[0]) * 16 + HexVal(h[1])] + FromHex(h[2..])
  }

  lemma {:induction false} LowerHexOfVal(c: char)
    requires IsHexDigit(c)
    ensures LowerHexChar(HexVal(c)) == LowerChar(c)
  {
  }

  /** fromhex undoes hex ... */
  lemma {:induction false} FromHexOfHex(b: seq<byte>)
    ensures FromHex(Hex(b)) == b
  {
    if b != [] {
      var h := Hex(b);
      assert h[2..] == Hex(b[1..]);
      FromHexOfHex(b[1..]);
      assert HexVal(h[0]) * 16 + HexVal(h[1]) == b[0];
    }
  }

  lemma {:induction false} LowerTwo(h: string)
    requires |h| >= 2
    ensures Lower(h) == [LowerChar(h[0]), LowerChar(h[1])] + Lower(h[2..])
  {
    var r := [LowerChar(h[0]), LowerChar(h[1])] + Lower(h[2..]);
    forall i | 0 <= i < |h| ensures r[i] == Lower(h)[i] {
      if i >= 2 {
        assert r[i] == Lower(h[2..])[i - 2];
      }
    }
    assert r == Lower(h);
  }

  /** The hex text of the byte two hex digits denote is those digits in lower case. */
  lemma {:induction false} HexOfPair(a: char, c: char)
    requires IsHexDigit(a) && IsHexDigit(c)
    ensures Hex([HexVal(a) * 16 + HexVal(c)]) == [LowerChar(a), LowerChar(c)]
  {
    var x: byte := HexVal(a) * 16 + HexVal(c);
    assert [x][1..] == [];
    assert x / 16 == HexVal(a) && x % 16 == HexVal(c);
    LowerHexOfVal(a);
    LowerHexOfVal(c);
  }

  /** ... and hex undoes fromhex, up to the case of the digits. */
  lemma {:induction false} HexOfFromHex(h: string)
    requires forall i :: 0 <= i < |h| ==> IsHexDigit(h[i])
    requires |h| % 2 == 0
    ensures Hex(FromHex(h)) == Lower(h)
  {
    if h != [] {
      var x: byte := HexVal(h[0]) * 16 + HexVal(h[1]);
      assert FromHex(h) == [x] + FromHex(h[2..]);
      HexConcat([x], FromHex(h[2..]));
      HexOfFromHex(h[2..]);
      HexOfPair(h[0], h[1]);
      LowerTwo(h);
    }
  }

  /** A one-byte hex text determines its byte. */
  lemma {:induction false} HexByteInjective(x: byte, v: byte)
    requires Hex([x]) == Hex([v])
    ensures x == v
  {
    assert [x][1..] == [] && [v][1..] == [];
    var hx := Hex([x]);
    assert hx[0] == LowerHexChar(x / 16) && hx[1] == LowerHexChar(x % 16);
    assert hx[0] == LowerHexChar(v / 16) && hx[1] == LowerHexChar(v % 16);
    assert x / 16 == v / 16 && x % 16 == v % 16;
  }

  lemma {:induction false} HexPairOf(b: seq<byte>, i: nat)
    requires i < |b|
    ensures Hex(b)[2 * i..2 * i + 2] == Hex([b[i]])
  {
    HexSlice(b, i, i + 1);
    assert b[i..i + 1] == [b[i]];
  }

  /** A byte boundary of the hex text holds the pair of a byte exactly
      when that byte is there. */
  lemma {:induction false} HexPairAt(b: seq<byte>, i: nat, v: byte)
    requires i < |b|
    ensures OccursAt(Hex(b), Hex([v]), 2 * i) <==> b[i] == v
  {
    HexPairOf(b, i);
    if OccursAt(Hex(b), Hex([v]), 2 * i) {
      HexByteInjective(b[i], v);
    }
  }

  // ---------------------------------------------------------------- ASCII text as bytes

  predicate IsAscii(s: string) { forall i :: 0 <= i < |s| ==> s[i] as int < 128 }

  /** `s.encode()` on ASCII text. */
  function AsciiBytes(s: string): (b: seq<byte>)
    requires IsAscii(s)
    ensures |b| == |s| && forall i :: 0 <= i < |s| ==> b[i] == s[i] as int
  {
    if s == [] then []
    else
      var c: byte := s[0] as int;
      [c] + AsciiBytes(s[1..])
  }

  /** `b.decode('utf-8', errors='ignore')` on the ASCII range: bytes below
      0x80 become characters, the others are dropped. */
  function DecodeAscii(b: seq<byte>): (s: string)
    ensures |s| <= |b| && IsAscii(s)
  {
    if b == [] then [] else (if b[0] < 128 then [b[0] as char] else []) + DecodeAscii(b[1..])
  }

  lemma {:induction false} DecodeAsciiBytes(s: string)
    requires IsAscii(s)
    ensures DecodeAscii(AsciiBytes(s)) == s
  {
    if s != [] {
      assert AsciiBytes(s)[1..] == AsciiBytes(s[1..]);
      DecodeAsciiBytes(s[1..]);
    }
  }

  // ---------------------------------------------------------------- parse_packet2

  /** The slice of the hex text parse_packet2 keeps: from the first "2a"
      ('*') to the first "2323" ("##") plus four. */
  function FrameSlice(h: string): (d: string)
    ensures |d| <= |h|
    ensures d == [] || Contains(h, d)
  {
    var d := PySlice(h, Find(h, "2a"), Find(h, "2323") + 4);
    if d == [] then d else ContainsAt(h, d, Clamp(Find(h, "2a"), |h|)); d
  }

  /** parse_packet2: the frame slice of the packet's hex text, decoded when
      its length is even. */
  function ParsePacket2(packet: seq<byte>): (r: Option<string>)
    ensures r.Some? ==> IsAscii(r.value) && |r.value| <= |packet|
  {
    var d := FrameSlice(Hex(packet));
    if |d| % 2 == 0 then Some(DecodeAscii(FromHex(d))) else None
  }

  /** The first "2a" and the first "2323" both lie inside `h`. */
  lemma {:induction false} FoundFits(h: string, a: nat, e: nat)
    requires Find(h, "2a") == a && Find(h, "2323") == e
    ensures a + 2 <= |h| && e + 4 <= |h|
  {
    assert OccursAt(h, "2a", a) && OccursAt(h, "2323", e);
  }

  /** With the first "2a" at `a` and the first "2323" at `e`, the slice runs
      from `a` through the "2323", or is empty when the "2323" comes first. */
  lemma {:induction false} FrameSliceFound(h: string, a: nat, e: nat)
    requires Find(h, "2a") == a && Find(h, "2323") == e
    ensures a + 2 <= |h| && e + 4 <= |h|
    ensures FrameSlice(h) == if a <= e + 4 then h[a..e + 4] else []
  {
    assert OccursAt(h, "2a", a) && OccursAt(h, "2323", e);
  }

  /** Without "2323" the end index is 3, so the slice has at most three digits. */
  lemma {:induction false} FrameSliceUnterminated(h: string)
    requires Find(h, "2323") < 0
    ensures |FrameSlice(h)| <= 3
  {
  }

  /** The first '*' and the first "##" lie inside the packet. */
  lemma {:induction false} FrameBounds(packet: seq<byte>, s: nat, e: nat)
    requires Find(Hex(packet), "2a") == 2 * s
    requires Find(Hex(packet), "2323") == 2 * e
    ensures s < |packet| && e + 2 <= |packet|
  {
    FoundFits(Hex(packet), 2 * s, 2 * e);
  }

  /** When the first '*' and the first "##" of the hex text fall on byte
      boundaries, parse_packet2 decodes exactly the bytes from the '*'
      through the "##" ... */
  lemma {:induction false} ParsePacket2Aligned(packet: seq<byte>, s: nat, e: nat)
    requires Find(Hex(packet), "2a") == 2 * s
    requires Find(Hex(packet), "2323") == 2 * e
    requires s <= e + 2
    ensures e + 2 <= |packet|
    ensures ParsePacket2(packet) == Some(DecodeAscii(packet[s..e + 2]))
  {
    FrameBounds(packet, s, e);
    var d := packet[s..e + 2];
    HexSlice(packet, s, e + 2);
    SliceTransfer(Hex(packet), 2 * s, 2 * e, 2 * (e + 2), Hex(d));
    ParsePacket2Of(packet, d);
  }

  /** ... and nothing when the "##" comes first. */
  lemma {:induction false} ParsePacket2Crossed(packet: seq<byte>, s: nat, e: nat)
    requires Find(Hex(packet), "2a") == 2 * s
    requires Find(Hex(packet), "2323") == 2 * e
    requires s > e + 2
    ensures ParsePacket2(packet) == Some("")
  {
    SliceTransfer(Hex(packet), 2 * s, 2 * e, 2 * (e + 2), Hex([]));
    ParsePacket2Of(packet, []);
  }

  lemma {:induction false} SliceTransfer(h: string, a: nat, e: nat, b: nat, x: string)
    requires Find(h, "2a") == a && Find(h, "2323") == e && b == e + 4
    requires if a <= b then b <= |h| && h[a..b] == x else x == []
    ensures FrameSlice(h) == x
  {
    FrameSliceFound(h, a, e);
  }

  lemma {:induction false} ParsePacket2Of(packet: seq<byte>, d: seq<byte>)
    requires FrameSlice(Hex(packet)) == Hex(d)
    ensures ParsePacket2(packet) == Some(DecodeAscii(d))
  {
    FromHexOfHex(d);
  }

  /** Without "##" at most one character comes out. */
  lemma {:induction false} ParsePacket2Unterminated(packet: seq<byte>)
    requires Find(Hex(packet), "2323") < 0
    ensures ParsePacket2(packet).Some? ==> |ParsePacket2(packet).value| <= 1
  {
    FrameSliceUnterminated(Hex(packet));
  }

  /** An odd slice (a "2a" or "2323" found across a byte boundary) gives None. */
  lemma {:induction false} ParsePacket2Odd(packet: seq<byte>)
    ensures ParsePacket2(packet).None? <==> |FrameSlice(Hex(packet))| % 2 == 1
  {
  }

  // ---------------------------------------------------------------- parse_packet

  /** The IndexError of reading past the end of a packet. */
  datatype PacketFault = IndexError

  const DOORBELL: string := "*8*1#1#4#21*16##"
  const OPEN_PRESS: string := "*8*19*20##"
  const OPEN_RELEASE: string := "*8*20*20##"

  /** `frame.encode().hex()`. */
  function FrameHex(frame: string): string
    requires IsAscii(frame)
  {
    Hex(AsciiBytes(frame))
  }

  /** The three frames' ASCII bytes ... */
  const DOORBELL_BYTES: seq<byte> := [42, 56, 42, 49, 35, 49, 35, 52, 35, 50, 49, 42, 49, 54, 35, 35]
  const OPEN_PRESS_BYTES: seq<byte> := [42, 56, 42, 49, 57, 42, 50, 48, 35, 35]
  const OPEN_RELEASE_BYTES: seq<byte> := [42, 56, 42, 50, 48, 42, 50, 48, 35, 35]

  /** ... and their hex text, which parse_packet searches for. That these are
      `frame.encode()` and `frame.encode().hex()` is DoorbellEncoding,
      OpenPressEncoding and OpenReleaseEncoding. */
  const DOORBELL_HEX: string := "2a382a31233123342332312a31362323"
  const OPEN_PRESS_HEX: string := "2a382a31392a32302323"
  const OPEN_RELEASE_HEX: string := "2a382a32302a32302323"

  /** The hex text of one byte is its two lower-case hex digits. */
  lemma {:induction false} HexOfByte(x: byte)
    ensures Hex([x]) == [LowerHexChar(x / 16), LowerHexChar(x % 16)]
  {
    assert [x][1..] == [];
  }

  /** Text whose characters are, position by position, ASCII codes `b` with
      hex digits `h` encodes as `b` and has hex text `h`. */
  lemma {:induction false} FrameEncoding(f: string, b: seq<byte>, h: string)
    requires |b| == |f| && |h| == 2 * |f|
    requires forall i :: 0 <= i < |f| ==>
      f[i] as int == b[i] < 128 && LowerHexChar(b[i] / 16) == h[2 * i] && LowerHexChar(b[i] % 16) == h[2 * i + 1]
    ensures IsAscii(f) && AsciiBytes(f) == b && Hex(b) == h && FrameHex(f) == h
  {
    assert IsAscii(f);
    var a := AsciiBytes(f);
    assert forall i :: 0 <= i < |f| ==> a[i] == b[i];
    assert a == b;
    forall k | 0 <= k < |h| ensures Hex(b)[k] == h[k] {
      var i := k / 2;
      HexPairOf(b, i);
      HexOfByte(b[i]);
      assert Hex(b)[2 * i] == LowerHexChar(b[i] / 16) && Hex(b)[2 * i + 1] == LowerHexChar(b[i] % 16);
    }
  }

  /** The doorbell constants are `DOORBELL.encode()` and its `.hex()`. */
  lemma {:induction false} DoorbellEncoding()
    ensures IsAscii(DOORBELL) && AsciiBytes(DOORBELL) == DOORBELL_BYTES && FrameHex(DOORBELL) == DOORBELL_HEX
  {
    var f, b, h := DOORBELL, DOORBELL_BYTES, DOORBELL_HEX;
    forall i | 0 <= i < |f|
      ensures f[i] as int == b[i] < 128 && LowerHexChar(b[i] / 16) == h[2 * i] && LowerHexChar(b[i] % 16) == h[2 * i + 1]
    {}
    FrameEncoding(f, b, h);
  }

  /** The press constants are `OPEN_PRESS.encode()` and its `.hex()`. */
  lemma {:induction false} OpenPressEncoding()
    ensures IsAscii(OPEN_PRESS) && AsciiBytes(OPEN_PRESS) == OPEN_PRESS_BYTES && FrameHex(OPEN_PRESS) == OPEN_PRESS_HEX
  {
    var f, b, h := OPEN_PRESS, OPEN_PRESS_BYTES, OPEN_PRESS_HEX;
    forall i | 0 <= i < |f|
      ensures f[i] as int == b[i] < 128 && LowerHexChar(b[i] / 16) == h[2 * i] && LowerHexChar(b[i] % 16) == h[2 * i + 1]
    {}
    FrameEncoding(f, b, h);
  }

  /** The release constants are `OPEN_RELEASE.encode()` and its `.hex()`. */
  lemma {:induction false} OpenReleaseEncoding()
    ensures IsAscii(OPEN_RELEASE) && AsciiBytes(OPEN_RELEASE) == OPEN_RELEASE_BYTES
    ensures FrameHex(OPEN_RELEASE) == OPEN_RELEASE_HEX
  {
    var f, b, h := OPEN_RELEASE, OPEN_RELEASE_BYTES, OPEN_RELEASE_HEX;
    forall i | 0 <= i < |f|
      ensures f[i] as int == b[i] < 128 && LowerHexChar(b[i] / 16) == h[2 * i] && LowerHexChar(b[i] % 16) == h[2 * i + 1]
    {}
    FrameEncoding(f, b, h);
  }

  /** A big-endian 16-bit port at offset `i`. */
  function Port(p: seq<byte>, i: nat): nat
    requires i + 1 < |p|
  {
    (p[i] as int) * 256 + (p[i + 1] as int)
  }

  const EXCLUDED_DST: set<int> := {5007, 5060, 20000, 30006}
  const EXCLUDED_SRC: set<int> := {5007, 5060, 20000}

  /** A TCP (byte 23 is 6), non-ICMP (byte 20 is not 1) packet long enough
      for both ports, neither of them excluded. */
  predicate Admitted(p: seq<byte>)
  {
    |p| > 37 && p[23] == 6 && p[20] != 1 &&
    Port(p, 36) !in EXCLUDED_DST && Port(p, 34) !in EXCLUDED_SRC
  }

  /** parse_packet on the packet's data: Err for the IndexError of a short
      packet, Ok(None) when nothing is recognised. */
  function ParsePacket(p: seq<byte>): (r: Result<Option<string>, PacketFault>)
    ensures r.Err? ==> |p| <= 37
    ensures r.Ok? && r.value.Some? ==> |p| > 37 && p[23] == 6
  {
    if |p| <= 23 then Err(IndexError)
    else if p[23] != 6 || p[20] == 1 then Ok(None)
    else if |p| <= 37 then Err(IndexError)
    else if Port(p, 36) in EXCLUDED_DST || Port(p, 34) in EXCLUDED_SRC then Ok(None)
    else
      var h := Hex(p);
      if Contains(h, DOORBELL_HEX) then Ok(Some("DOORBELL"))
      else if Contains(h, OPEN_PRESS_HEX) then Ok(Some("PRESS"))
      else if Contains(h, OPEN_RELEASE_HEX) then Ok(Some("RELEASE"))
      else Ok(None)
  }

  /** The IndexError cases: a packet too short for the protocol byte, or a
      TCP packet too short for the ports. */
  lemma {:induction false} ParsePacketErrors(p: seq<byte>)
    ensures ParsePacket(p).Err? <==> |p| <= 23 || (|p| <= 37 && p[23] == 6 && p[20] != 1)
  {
  }

  /** Something is recognised only in an admitted packet, only one of the
      three events, and in priority order DOORBELL, PRESS, RELEASE. */
  lemma {:induction false} ParsePacketPriority(p: seq<byte>)
    ensures var r := ParsePacket(p);
      && (r.Ok? && r.value.Some? ==> Admitted(p))
      && (Admitted(p) ==> r.Ok?)
      && (r == Ok(Some("DOORBELL")) <==> Admitted(p) && Contains(Hex(p), DOORBELL_HEX))
      && (r == Ok(Some("PRESS")) <==>
            Admitted(p) && !Contains(Hex(p), DOORBELL_HEX) && Contains(Hex(p), OPEN_PRESS_HEX))
      && (r == Ok(Some("RELEASE")) <==>
            Admitted(p) && !Contains(Hex(p), DOORBELL_HEX) && !Contains(Hex(p), OPEN_PRESS_HEX) &&
            Contains(Hex(p), OPEN_RELEASE_HEX))
      && (r.Ok? && r.value.Some? ==> r.value.value in {"DOORBELL", "PRESS", "RELEASE"})
  {
  }

  /** Bytes carried anywhere in a packet show up in its hex text ... */
  lemma {:induction false} EmbeddedBytesFound(pre: seq<byte>, x: seq<byte>, post: seq<byte>)
    ensures Contains(Hex(pre + x + post), Hex(x))
  {
    HexConcat(pre + x, post);
    HexConcat(pre, x);
    var h := Hex(pre + x + post);
    assert OccursAt(h, Hex(x), |Hex(pre)|);
    ContainsAt(h, Hex(x), |Hex(pre)|);
  }

  /** ... and so does a frame sent as ASCII text. */
  lemma {:induction false} EmbeddedFrameFound(pre: seq<byte>, frame: string, post: seq<byte>)
    requires IsAscii(frame)
    ensures Contains(Hex(pre + AsciiBytes(frame) + post), FrameHex(frame))
  {
    EmbeddedBytesFound(pre, AsciiBytes(frame), post);
  }

  /** An admitted packet carrying the doorbell frame `*8*1#1#4#21*16##`
      anywhere is a DOORBELL ... */
  lemma {:induction false} DoorbellPacket(pre: seq<byte>, post: seq<byte>)
    requires Admitted(pre + DOORBELL_BYTES + post)
    ensures ParsePacket(pre + DOORBELL_BYTES + post) == Ok(Some("DOORBELL"))
  {
    DoorbellEncoding();
    EmbeddedBytesFound(pre, DOORBELL_BYTES, post);
  }

  /** ... one carrying the door-open press frame `*8*19*20##` is a PRESS
      unless it also carries the doorbell ... */
  lemma {:induction false} OpenPressPacket(pre: seq<byte>, post: seq<byte>)
    requires Admitted(pre + OPEN_PRESS_BYTES + post)
    requires !Contains(Hex(pre + OPEN_PRESS_BYTES + post), DOORBELL_HEX)
    ensures ParsePacket(pre + OPEN_PRESS_BYTES + post) == Ok(Some("PRESS"))
  {
    OpenPressEncoding();
    EmbeddedBytesFound(pre, OPEN_PRESS_BYTES, post);
  }

  /** ... and one carrying the release frame `*8*20*20##` is a RELEASE unless
      it also carries one of the other two. */
  lemma {:induction false} OpenReleasePacket(pre: seq<byte>, post: seq<byte>)
    requires Admitted(pre + OPEN_RELEASE_BYTES + post)
    requires !Contains(Hex(pre + OPEN_RELEASE_BYTES + post), DOORBELL_HEX)
    requires !Contains(Hex(pre + OPEN_RELEASE_BYTES + post), OPEN_PRESS_HEX)
    ensures ParsePacket(pre + OPEN_RELEASE_BYTES + post) == Ok(Some("RELEASE"))
  {
    OpenReleaseEncoding();
    EmbeddedBytesFound(pre, OPEN_RELEASE_BYTES, post);
  }

  // ---------------------------------------------------------------- get_router_ip

  /** get_router_ip: the local address up to its last '.', then ".1".
      None stands for the AttributeError of calling `rfind` on a missing address. */
  function RouterIp(localIp: Option<string>): (r: Option<string>)
    ensures r.Some? <==> localIp.Some?
    ensures r.Some? ==> |r.value| >= 2 && r.value[|r.value| - 2..] == ".1"
  {
    match localIp
    case None => None
    case Some(ip) => Some(PySlice(ip, 0, RFind(ip, '.')) + ".1")
  }

  /** For a dotted address the network part is kept, the host part becomes
      1, and so the router's address is its own router address. */
  lemma {:induction false} RouterIpDotted(ip: string)
    requires RFind(ip, '.') >= 0
    ensures RouterIp(Some(ip)) == Some(ip[..RFind(ip, '.')] + ".1")
    ensures RFind(RouterIp(Some(ip)).value, '.') == RFind(ip, '.')
    ensures RouterIp(RouterIp(Some(ip))) == RouterIp(Some(ip))
  {
    var k := RFind(ip, '.');
    var r := ip[..k] + ".1";
    assert r[k] == '.' && r[k + 1] == '1' && |r| == k + 2;
    assert r[..k] == ip[..k];
  }

  /** Without a '.', rfind gives -1 and the slice drops the last character. */
  lemma {:induction false} RouterIpUndotted(ip: string)
    requires RFind(ip, '.') < 0
    ensures RouterIp(Some(ip)) == Some((if ip == [] then [] else ip[..|ip| - 1]) + ".1")
  {
    var k := RFind(ip, '.');
    assert k == -1;
    assert PySlice(ip, 0, k) == if ip == [] then [] else ip[..|ip| - 1];
  }

  lemma {:induction false} RouterIpExample()
    ensures RouterIp(Some("192.168.1.37")) == Some("192.168.1.1")
  {
    var ip := "192.168.1.37";
    assert RFind(ip, '.') == 9;
    RouterIpDotted(ip);
    assert ip[..9] + ".1" == "192.168.1.1";
  }

  // ---------------------------------------------------------------- create_vars

  function Zeros(k: nat): (s: string)
    ensures |s| == k && forall i :: 0 <= i < k ==> s[i] == '0'
  {
    seq(k, _ => '0')
  }

  /** `"%012X" % n`: upper-case hex, zero-padded to twelve digits. */
  function Hex12(n: nat): (s: string)
    ensures |s| >= 12 && forall i :: 0 <= i < |s| ==> IsUpperHexDigit(s[i])
  {
    var h := NatToUpperHex(n);
    if |h| < 12 then Zeros(12 - |h|) + h else h
  }

  /** `':'.join(t[i:i + 2] for i in range(i, 12, 2))`. */
  function JoinPairs(t: string, i: nat): string
    requires |t| >= 12 && i % 2 == 0 && i <= 10
    decreases 10 - i
  {
    if i == 10 then t[10..12] else t[i..i + 2] + ":" + JoinPairs(t, i + 2)
  }

  /** The MAC text: the first twelve digits of `"%012X"`, in six pairs joined by ':'. */
  function MacText(n: nat): (m: string)
    ensures |m| == 17
  {
    JoinPairsShape(Hex12(n), 0);
    JoinPairs(Hex12(n), 0)
  }

  /** Hostname fields: MODEL-MAC-SERIAL, with the MAC's pairs joined by '-'. */
  function HostModel(r: string): string { PySlice(r, 0, 3) }
  function HostSerial(r: string): string { PySlice(r, 22, 29) }
  function HostMac(r: string): string { ReplaceChar(Upper(PySlice(r, 4, 21)), '-', ':') }
  function DeviceId(r: string): string { HostModel(r) + "-" + HostSerial(r) }

  /** 16^k. */
  function Pow16(k: nat): (p: nat)
    ensures p >= 1
  {
    if k == 0 then 1 else 16 * Pow16(k - 1)
  }

  /** `"%X"` reads back as the number it was made from ... */
  lemma {:induction false} UpperHexValue(n: nat)
    ensures HexValue(NatToUpperHex(n)) == n
    decreases n
  {
    if n >= 16 {
      var s := NatToUpperHex(n);
      assert s[..|s| - 1] == NatToUpperHex(n / 16);
      UpperHexValue(n / 16);
    }
  }

  /** ... and a number below 16^k takes at most k digits. */
  lemma {:induction false} UpperHexLength(n: nat, k: nat)
    requires 1 <= k && n < Pow16(k)
    ensures |NatToUpperHex(n)| <= k
    decreases n
  {
    if n >= 16 {
      UpperHexLength(n / 16, k - 1);
    }
  }

  /** Leading zeros do not change the value. */
  lemma {:induction false} HexValueZeros(k: nat, h: string)
    requires forall i :: 0 <= i < |h| ==> IsHexDigit(h[i])
    ensures forall i :: 0 <= i < |Zeros(k) + h| ==> IsHexDigit((Zeros(k) + h)[i])
    ensures HexValue(Zeros(k) + h) == HexValue(h)
    decreases |h| + k
  {
    var z := Zeros(k) + h;
    if h == [] {
      if k > 0 {
        assert z[..|z| - 1] == Zeros(k - 1) + h;
        HexValueZeros(k - 1, h);
      } else {
        assert z == [];
      }
    } else {
      assert z[..|z| - 1] == Zeros(k) + h[..|h| - 1];
      HexValueZeros(k, h[..|h| - 1]);
    }
  }

  /** For a 48-bit node, `"%012X"` is exactly twelve digits worth the node. */
  lemma {:induction false} Hex12Value(n: nat)
    requires n < Pow16(12)
    ensures |Hex12(n)| == 12 && HexValue(Hex12(n)) == n
  {
    var h := NatToUpperHex(n);
    UpperHexLength(n, 12);
    UpperHexValue(n);
    if |h| < 12 {
      HexValueZeros(12 - |h|, h);
    }
  }

  /** Six upper-case hex pairs separated by ':'. */
  predicate MacShaped(m: string)
  {
    |m| == 17 && forall i :: 0 <= i < 17 ==> if i % 3 == 2 then m[i] == ':' else IsUpperHexDigit(m[i])
  }

  /** `m.replace(':', '')`: the digits of a MAC text. */
  function StripColons(m: string): (d: string)
    ensures |d| <= |m|
  {
    if m == [] then [] else (if m[0] == ':' then [] else [m[0]]) + StripColons(m[1..])
  }

  lemma {:induction false} StripColonsConcat(a: string, b: string)
    ensures StripColons(a + b) == StripColons(a) + StripColons(b)
  {
    if a != [] {
      assert (a + b)[1..] == a[1..] + b;
      StripColonsConcat(a[1..], b);
    } else {
      assert a + b == b;
    }
  }

  /** Removing the separators from the joined pairs gives back the digits. */
  lemma {:induction false} JoinPairsDigits(t: string, i: nat)
    requires |t| >= 12 && i % 2 == 0 && i <= 10
    requires forall k :: 0 <= k < |t| ==> t[k] != ':'
    ensures StripColons(JoinPairs(t, i)) == t[i..12]
    decreases 10 - i
  {
    var p := t[i..i + 2];
    assert StripColons(p) == p by {
      assert p[1..][1..] == [];
    }
    if i < 10 {
      JoinPairsDigits(t, i + 2);
      StripColonsConcat(p + ":", JoinPairs(t, i + 2));
      StripColonsConcat(p, ":");
      assert StripColons(":") == [] by { assert ":"[1..] == []; }
      assert t[i..12] == p + t[i + 2..12];
    }
  }

  /** The pairs from `i` on, joined: every third character is ':', the
      others are the digits of `t` from `i` on, in order. */
  lemma {:induction false} JoinPairsShape(t: string, i: nat)
    requires |t| >= 12 && i % 2 == 0 && i <= 10
    ensures var m := JoinPairs(t, i);
      && |m| == 3 * ((12 - i) / 2) - 1
      && forall j :: 0 <= j < |m| ==> m[j] == if j % 3 == 2 then ':' else t[i + j - j / 3]
    decreases 10 - i
  {
    var m := JoinPairs(t, i);
    if i == 10 {
      forall j | 0 <= j < |m| ensures m[j] == if j % 3 == 2 then ':' else t[i + j - j / 3] {
        SmallByThree(j);
      }
    } else {
      JoinPairsShape(t, i + 2);
      var head := t[i..i + 2] + ":";
      var rest := JoinPairs(t, i + 2);
      assert |head| == 3 && m == head + rest;
      PairsLength(i);
      forall j | 0 <= j < |m| ensures m[j] == if j % 3 == 2 then ':' else t[i + j - j / 3] {
        if j < 3 {
          SmallByThree(j);
        } else {
          assert m[j] == rest[j - 3];
          ShiftByThree(j);
        }
      }
    }
  }

  lemma {:induction false} PairsLength(i: nat)
    requires i % 2 == 0 && i < 10
    ensures 3 * ((12 - i) / 2) - 1 == 3 + (3 * ((12 - (i + 2)) / 2) - 1)
  {
  }

  lemma {:induction false} SmallByThree(j: int)
    requires 0 <= j < 3
    ensures j % 3 == j && j / 3 == 0
  {
  }

  lemma {:induction false} ShiftByThree(j: int)
    requires j >= 3
    ensures (j - 3) % 3 == j % 3 && (j - 3) / 3 == j / 3 - 1
  {
  }

  /** The MAC text is six pairs separated by ':', whose digits are the first
      twelve of `"%012X"`. */
  lemma {:induction false} MacTextShape(n: nat)
    ensures MacShaped(MacText(n)) && StripColons(MacText(n)) == Hex12(n)[..12]
  {
    var t := Hex12(n);
    JoinPairsShape(t, 0);
    JoinPairsDigits(t, 0);
  }

  /** For a 48-bit node the MAC text reads back as the node. */
  lemma {:induction false} MacRoundTrip(n: nat)
    requires n < Pow16(12)
    ensures MacShaped(MacText(n))
    ensures var d := StripColons(MacText(n));
      (forall i :: 0 <= i < |d| ==> IsHexDigit(d[i])) && HexValue(d) == n
  {
    MacTextShape(n);
    Hex12Value(n);
    assert Hex12(n)[..12] == Hex12(n);
  }

  /** The hostname a device with this model, MAC text and serial carries:
      MODEL-MAC-SERIAL with the MAC's ':' written as '-'. */
  function HostnameOf(model: string, mac: string, serial: string): (r: string)
    ensures |r| == |model| + |mac| + |serial| + 2
  {
    model + "-" + ReplaceChar(mac, ':', '-') + "-" + serial
  }

  /** create_vars takes such a hostname apart into its three fields ... */
  lemma {:induction false} HostnameParts(model: string, mac: string, serial: string)
    requires |model| == 3 && MacShaped(mac) && |serial| == 7
    ensures var r := HostnameOf(model, mac, serial);
      HostModel(r) == model && HostMac(r) == mac && HostSerial(r) == serial &&
      DeviceId(r) == model + "-" + serial
  {
    var r := HostnameOf(model, mac, serial);
    var dashed := ReplaceChar(mac, ':', '-');
    assert r[0..3] == model;
    assert r[4..21] == dashed;
    assert r[22..29] == serial;
    assert Upper(dashed) == dashed by {
      forall i | 0 <= i < 17 ensures Upper(dashed)[i] == dashed[i] {
        assert i % 3 != 2 ==> IsUpperHexDigit(mac[i]);
      }
    }
    var back := ReplaceChar(dashed, '-', ':');
    forall i | 0 <= i < 17 ensures back[i] == mac[i] {
      assert i % 3 != 2 ==> IsUpperHexDigit(mac[i]);
    }
  }

  /** ... so a hostname carrying the node's own MAC text is reported as a match. */
  lemma {:induction false} HostnameOfNodeMatches(model: string, node: nat, serial: string)
    requires |model| == 3 && |serial| == 7
    ensures MacText(node) == HostMac(HostnameOf(model, MacText(node), serial))
  {
    MacTextShape(node);
    HostnameParts(model, MacText(node), serial);
  }

  /** The sample hostname of create_vars and its three fields. */
  const SAMPLE_HOSTNAME: string := "C3X-" + "00-03-50-00-00-00" + "-9999999"
  const SAMPLE_MAC: string := "00:03:50:00:00:00"

  lemma {:induction false} SampleMacShaped()
    ensures MacShaped(SAMPLE_MAC)
  {
    var m := SAMPLE_MAC;
    assert m[0] == '0' && m[1] == '0' && m[2] == ':' && m[3] == '0' && m[4] == '3' && m[5] == ':';
    assert m[6] == '5' && m[7] == '0' && m[8] == ':' && m[9] == '0' && m[10] == '0' && m[11] == ':';
    assert m[12] == '0' && m[13] == '0' && m[14] == ':' && m[15] == '0' && m[16] == '0';
    forall i | 0 <= i < 17 ensures if i % 3 == 2 then m[i] == ':' else IsUpperHexDigit(m[i]) {
    }
  }

  /** A hostname whose characters 4..20 are a MAC text with '-' for ':'
      yields that MAC text. */
  lemma {:induction false} HostMacOf(r: string, mac: string)
    requires |r| >= 21 && MacShaped(mac)
    requires forall i :: 0 <= i < 17 ==> r[4 + i] == if mac[i] == ':' then '-' else mac[i]
    ensures HostMac(r) == mac
  {
    var sl := PySlice(r, 4, 21);
    assert sl == r[4..21];
    forall i | 0 <= i < 17 ensures HostMac(r)[i] == mac[i] {
      assert sl[i] == r[4 + i];
      assert i % 3 != 2 ==> IsUpperHexDigit(mac[i]);
    }
  }

  /** The sample hostname: model C3X, MAC text 00:03:50:00:00:00, serial
      9999999 and device id C3X-9999999. */
  lemma {:induction false} SampleHostname()
    ensures HostModel(SAMPLE_HOSTNAME) == "C3X"
    ensures HostMac(SAMPLE_HOSTNAME) == SAMPLE_MAC
    ensures HostSerial(SAMPLE_HOSTNAME) == "9999999"
    ensures DeviceId(SAMPLE_HOSTNAME) == "C3X-9999999"
  {
    var r := SAMPLE_HOSTNAME;
    var m := SAMPLE_MAC;
    SampleMacShaped();
    assert |r| == 29;
    assert r[0..3] == "C3X";
    assert r[22..29] == "9999999";
    forall i | 0 <= i < 17 ensures r[4 + i] == if m[i] == ':' then '-' else m[i] {
    }
    HostMacOf(r, m);
  }

  class Control {
    /** The hostname (`self.r`). */
    var r: string
    var macAddress: string
    var serialNumber: string
    var model: string
    var id: string

    /** The identity part of `__init__`, which calls create_vars. */
    constructor (hostname: string, node: nat)
      ensures r == hostname && macAddress == MacText(node)
      ensures serialNumber == HostSerial(hostname) && model == HostModel(hostname) && id == DeviceId(hostname)
    {
      new;
      var matches := CreateVars(hostname, node);
    }

    /** create_vars: the identity taken from the hostname and the MAC text of
        the node number; `macMatches` tells which of the two log lines is
        written. */
    method CreateVars(hostname: string, node: nat) returns (macMatches: bool)
      modifies this
      ensures r == hostname && macAddress == MacText(node)
      ensures serialNumber == HostSerial(hostname) && model == HostModel(hostname) && id == DeviceId(hostname)
      ensures macMatches <==> MacText(node) == HostMac(hostname)
    {
      r := hostname;
      macAddress := MacText(node);
      var macExtract := HostMac(r);
      serialNumber := PySlice(r, 22, 29);
      model := PySlice(r, 0, 3);
      macMatches := macAddress == macExtract;
      id := model + "-" + serialNumber;
    }
  }
}
