/** The session bootstrap of bticino.py: class `Bticino` with the loops of
    `nums2hex`, `hexstr2nums`, `answerChallenge` and the `runPrepare` state
    machine. The socket is replaced by a script: `chunks[k]` is what the k-th
    `reader.read(150)` returns (the empty text means the peer closed, and so
    does reading past the end of the script), and the frames the client
    writes are returned as the log `sent`. */
module Session {
  import opened Wrappers
  import opened Text
  import opened NibbleCodec
  import opened LegacyCipher
  import opened HmacResponder

  /** Acknowledge, as compared after the `##` has been split off. */
  const ACK: string := "*#*1"
  /** Not-acknowledge. */
  const NACK: string := "*#*0"
  /** Request for a monitor session (the default mode command). */
  const MONITOR: string := "*99*1##"
  /** The acknowledgement frame the client sends. */
  const ACK_FRAME: string := "*#*1##"
  /** The gateway's request for SHA-256 authentication. */
  const AUTH_REQUEST: string := "*98*2"

  /** How runPrepare ends: it returns, or raises one of its exceptions
      (ValueError comes out of nums2hex inside hmacChallenge). */
  datatype Outcome =
    | Authenticated
    | NoInitAck(frame: string)
    | Disconnected
    | WrongToken(frame: string)
    | ValueError

  /** The values of runPrepare's `state` variable. */
  datatype State = Init | Unauth | AuthHmac | AuthResp | AuthAck

  /** `chunk.split('##')[0]`: the text before the first `##`. */
  function FirstFrame(chunk: string): (f: string)
    ensures |f| <= |chunk| && chunk[..|f|] == f
  {
    if |chunk| < 2 then chunk
    else if chunk[0] == '#' && chunk[1] == '#' then ""
    else [chunk[0]] + FirstFrame(chunk[1..])
  }

  /** Every `#` is followed within `s` by another character: `s` holds no
      `##` and still holds none once `##` is appended to it. */
  predicate LoneHashes(s: string)
  {
    forall i :: 0 <= i < |s| && s[i] == '#' ==> i + 1 < |s| && s[i + 1] != '#'
  }

  /** Such a body followed by the terminator is the first frame, whatever
      follows the terminator. */
  lemma {:induction false} FirstFrameOf(body: string, rest: string)
    requires LoneHashes(body)
    ensures FirstFrame(body + "##" + rest) == body
  {
    var chunk := body + "##" + rest;
    if body == [] {
      assert chunk[0] == '#' && chunk[1] == '#';
    } else {
      assert chunk[1..] == body[1..] + "##" + rest;
      assert !(chunk[0] == '#' && chunk[1] == '#') by {
        if body[0] == '#' { assert chunk[1] == body[1]; }
      }
      FirstFrameOf(body[1..], rest);
      assert [body[0]] + body[1..] == body;
    }
  }

  /** The first frame is the chunk cut at the first index where `##` is found. */
  lemma {:induction false} FirstFrameIsCut(chunk: string)
    ensures var k := Find(chunk, "##");
      FirstFrame(chunk) == if k < 0 then chunk else chunk[..k]
  {
    if |chunk| >= 2 {
      assert chunk[..2] == "##" <==> chunk[0] == '#' && chunk[1] == '#';
      if chunk[..2] != "##" {
        FirstFrameIsCut(chunk[1..]);
        var k := Find(chunk[1..], "##");
        if k >= 0 {
          assert [chunk[0]] + chunk[1..][..k] == chunk[..k + 1];
        } else {
          assert [chunk[0]] + chunk[1..] == chunk;
        }
      }
    }
  }

  /** The first frame is the whole chunk when it holds no terminator, and is
      otherwise followed by the first `##`; it never holds a terminator. */
  lemma {:induction false} FirstFrameSplits(chunk: string)
    ensures var f := FirstFrame(chunk);
      && |f| <= |chunk| && chunk[..|f|] == f
      && (!Contains(chunk, "##") ==> f == chunk)
      && (Contains(chunk, "##") ==> |f| + 2 <= |chunk| && chunk[|f|..|f| + 2] == "##")
      && !Contains(f, "##")
  {
    FirstFrameIsCut(chunk);
    var f := FirstFrame(chunk);
    forall i | OccursAt(f, "##", i) ensures OccursAt(chunk, "##", i) {
      assert chunk[i..i + 2] == f[i..i + 2];
    }
  }

  /** What the k-th read returns: the empty text once the script is over. */
  function Read(chunks: seq<string>, k: nat): string
  {
    if k < |chunks| then chunks[k] else ""
  }

  /** The k-th read returns no data. */
  predicate Eof(chunks: seq<string>, k: nat)
  {
    Read(chunks, k) == ""
  }

  /** The frame of the legacy answer. */
  function LegacyFrame(challengeFrame: string, password: int): string
  {
    "*#" + LegacyAnswer(challengeFrame, password) + "##"
  }

  /** The frame of the SHA-256 answer. */
  function HmacFrame(answer: (string, string)): string
  {
    "*#" + answer.0 + "*" + answer.1 + "##"
  }

  /** What a run of the handshake produced: how it ended, the frames sent in
      order, and how many reads it made (the last one may have been empty). */
  datatype Run = Run(outcome: Outcome, sent: seq<string>, nreads: nat)

  /** The handshake as a reference for runPrepare: read ACK, send the mode;
      then either ACK (no password), the SHA-256 request (ACK, challenge,
      answer, final ACK), or a legacy challenge (answer, then the gateway's
      verdict). Each turn after the first is a function of its own, taking
      the frames sent so far. */
  function Handshake(chunks: seq<string>, mode: string, password: int, sha: Sha256): (r: Run)
    ensures r.outcome == Authenticated ==> r.sent != [] && r.sent[0] == mode
  {
    if Eof(chunks, 0) then Run(Disconnected, [], 1)
    else if FirstFrame(Read(chunks, 0)) != ACK then Run(NoInitAck(FirstFrame(Read(chunks, 0))), [], 1)
    else UnauthTurn(chunks, [mode], password, sha)
  }

  /** Second read: the gateway asks for SHA-256, accepts, or sends a legacy challenge. */
  function UnauthTurn(chunks: seq<string>, sent: seq<string>, password: int, sha: Sha256): Run
  {
    if Eof(chunks, 1) then Run(Disconnected, sent, 2)
    else
      var frame := FirstFrame(Read(chunks, 1));
      if frame == AUTH_REQUEST then HmacTurn(chunks, sent + [ACK_FRAME], password, sha)
      else if frame == ACK then Run(Authenticated, sent, 2)
      else AckTurn(chunks, sent + [LegacyFrame(frame, password)], 2)
  }

  /** Third read of the SHA-256 branch: the challenge to answer. */
  function HmacTurn(chunks: seq<string>, sent: seq<string>, password: int, sha: Sha256): Run
  {
    if Eof(chunks, 2) then Run(Disconnected, sent, 3)
    else match HmacChallenge(FirstFrame(Read(chunks, 2)), password, None, sha)
      case None => Run(ValueError, sent, 3)
      case Some(answer) => RespTurn(chunks, sent + [HmacFrame(answer)])
  }

  /** Fourth read of the SHA-256 branch: any data is acknowledged unread. */
  function RespTurn(chunks: seq<string>, sent: seq<string>): Run
  {
    if Eof(chunks, 3) then Run(Disconnected, sent, 4)
    else Run(Authenticated, sent + [ACK_FRAME], 4)
  }

  /** The read after the legacy answer: the gateway's verdict. */
  function AckTurn(chunks: seq<string>, sent: seq<string>, k: nat): Run
  {
    if Eof(chunks, k) then Run(Disconnected, sent, k + 1)
    else if FirstFrame(Read(chunks, k)) != ACK then Run(WrongToken(FirstFrame(Read(chunks, k))), sent, k + 1)
    else Run(Authenticated, sent, k + 1)
  }

  class Bticino {
    const host: string
    const port: int
    /** The shared secret, fixed by the constructor. */
    const password: int
    /** The session mode frame sent after the first ACK. */
    const modeCommand: string

    constructor (modeCommand: string, host: string, port: int)
      ensures this.modeCommand == modeCommand && this.host == host && this.port == port
      ensures password == 710299916
    {
      this.modeCommand := modeCommand;
      this.host := host;
      this.port := port;
      this.password := 710299916;
    }

    /** `Bticino()` with its default arguments. */
    constructor Default()
      ensures modeCommand == MONITOR && host == "localhost" && port == 20000
      ensures password == 710299916
    {
      modeCommand := MONITOR;
      host := "localhost";
      port := 20000;
      password := 710299916;
    }

    /** nums2hex: append the hex of each two-character group. */
    static method Nums2Hex(indata: string) returns (hexstr: Option<string>)
      ensures hexstr == HexOfNums(indata)
    {
      var acc := "";
      var k := 0;
      assert indata[0..] == indata;
      PrefixedEmpty(HexOfNums(indata));
      while k + 1 < |indata|
        invariant 0 <= k <= |indata|
        invariant HexOfNums(indata) == Prefixed(acc, HexOfNums(indata[k..]))
      {
        var v := PairValue(indata[k], indata[k + 1]);
        HexOfNumsStep(indata[k..]);
        assert indata[k..][2..] == indata[k + 2..];
        if v.None? {
          return None;
        }
        PrefixedAssoc(acc, FormatHex(v.value), HexOfNums(indata[k + 2..]));
        acc := acc + FormatHex(v.value);
        k := k + 2;
      }
      assert acc + "" == acc;
      return Some(acc);
    }

    /** hexstr2nums: append the two-digit decimal value of each hex character. */
    static method HexStr2Nums(hexstr: string) returns (numstr: Option<string>)
      ensures numstr == NumsOfHex(hexstr)
    {
      var acc := "";
      var i := 0;
      assert hexstr[0..] == hexstr;
      PrefixedEmpty(NumsOfHex(hexstr));
      while i < |hexstr|
        invariant 0 <= i <= |hexstr|
        invariant NumsOfHex(hexstr) == Prefixed(acc, NumsOfHex(hexstr[i..]))
      {
        NumsOfHexStep(hexstr[i..]);
        assert hexstr[i..][1..] == hexstr[i + 1..];
        if !IsHexDigit(hexstr[i]) {
          return None;
        }
        PrefixedAssoc(acc, TwoDigits(HexVal(hexstr[i])), NumsOfHex(hexstr[i + 1..]));
        acc := acc + TwoDigits(HexVal(hexstr[i]));
        i := i + 1;
      }
      assert hexstr[i..] == [] && acc + "" == acc;
      return Some(acc);
    }

    /** The if-chain of answerChallenge on one character `c`, applied to the
        truncated accumulator `a`; other characters leave it unchanged. */
    static method Scramble(c: char, a: int) returns (r: int)
      ensures r == DigitStep(c, a)
    {
      r := a;
      if c == '1' {
        r := Shl(a, 25) + RShift(a, 7);
      } else if c == '2' {
        r := Shl(a, 28) + RShift(a, 4);
      } else if c == '3' {
        r := Shl(a, 29) + RShift(a, 3);
      } else if c == '4' {
        r := RShift(a, 31) + Shl(a, 1);
      } else if c == '5' {
        r := RShift(a, 27) + Shl(a, 5);
      } else if c == '6' {
        r := RShift(a, 20) + Shl(a, 12);
      } else if c == '7' {
        r := RShift(AndField(a, 24, 8), 8)
              + ((AndField(a, 8, 8) + Shl(AndField(a, 0, 8), 24)) + RShift(AndField(a, 16, 8), 16));
      } else if c == '8' {
        r := RShift(AndField(a, 16, 8), 8) + (Shl(AndField(a, 0, 16), 16) + RShift(a, 24));
      } else if c == '9' {
        r := -a - 1;
      }
    }

    /** answerChallenge: run the accumulators `j`, `j2` over `frame[2:]`. */
    method AnswerChallenge(frame: string, password: int) returns (ans: string)
      ensures ans == LegacyAnswer(frame, password)
    {
      var challenge := PySlice(frame, 2, |frame|);
      var j := 0;
      var j3 := password;
      var j2 := j3;
      var i := 0;
      while i < |challenge|
        invariant 0 <= i <= |challenge|
        invariant j2 == Accumulate(challenge[..i], password)
        invariant j == if i == 0 then 0 else j2
      {
        var c := challenge[i];
        j := Mask32(j);
        j2 := Mask32(j2);
        assert challenge[..i + 1] == challenge[..i] + [c];
        AccumulateSnoc(challenge[..i], c, password);
        j2 := Scramble(c, j2);
        j := j2;
        i := i + 1;
      }
      assert challenge[..i] == challenge;
      j := Mask32(j);
      ans := NatToDecimal(j);
    }

    /** runPrepare: one read per turn, only the text before the first `##`
        is looked at, at most one frame is sent per turn. */
    method RunPrepare(chunks: seq<string>, sha: Sha256) returns (outcome: Outcome, sent: seq<string>, nreads: nat)
      ensures Run(outcome, sent, nreads) == Handshake(chunks, modeCommand, password, sha)
    {
      ghost var run := Handshake(chunks, modeCommand, password, sha);
      var state := Init;
      sent := [];
      nreads := 0;
      while true
        invariant nreads <= |chunks|
        invariant state == Init ==> nreads == 0 && sent == []
        invariant state == Unauth ==>
          nreads == 1 && run == UnauthTurn(chunks, sent, password, sha)
        invariant state == AuthHmac ==>
          nreads == 2 && run == HmacTurn(chunks, sent, password, sha)
        invariant state == AuthResp ==>
          nreads == 3 && run == RespTurn(chunks, sent)
        invariant state == AuthAck ==>
          nreads == 2 && run == AckTurn(chunks, sent, 2)
        decreases |chunks| - nreads
      {
        var k := nreads;
        nreads := nreads + 1;
        if k >= |chunks| || chunks[k] == "" {
          return Disconnected, sent, nreads;
        }
        var frame := FirstFrame(chunks[k]);

        if state == Init {
          if frame != ACK {
            return NoInitAck(frame), sent, nreads;
          }
          state := Unauth;
          sent := sent + [modeCommand];
          assert sent == [modeCommand];
          assert run == UnauthTurn(chunks, [modeCommand], password, sha);
          continue;
        }
        if state == Unauth {
          if frame == AUTH_REQUEST {
            sent := sent + [ACK_FRAME];
            state := AuthHmac;
          } else if frame == ACK {
            state := AuthAck;
            return Authenticated, sent, nreads;
          } else {
            var ans := AnswerChallenge(frame, password);
            sent := sent + ["*#" + ans + "##"];
            state := AuthAck;
          }
          continue;
        }
        if state == AuthHmac {
          var ans := HmacChallenge(frame, password, None, sha);
          if ans.None? {
            return ValueError, sent, nreads;
          }
          sent := sent + ["*#" + ans.value.0 + "*" + ans.value.1 + "##"];
          state := AuthResp;
          continue;
        }
        if state == AuthResp {
          sent := sent + [ACK_FRAME];
          state := AuthAck;
          return Authenticated, sent, nreads;
        }
        assert state == AuthAck;
        if frame != ACK {
          return WrongToken(frame), sent, nreads;
        }
        return Authenticated, sent, nreads;
      }
    }
  }

  // ---------------------------------------------------------------- properties

  /** An empty read ends the run at once: a run ends Disconnected exactly when
      its last read returned no data, and every earlier read returned data. */
  lemma {:induction false} DisconnectedIffLastReadEmpty(chunks: seq<string>, mode: string, password: int, sha: Sha256)
    ensures var r := Handshake(chunks, mode, password, sha);
      && r.nreads >= 1
      && (r.outcome == Disconnected <==> Eof(chunks, r.nreads - 1))
      && (forall k :: 0 <= k < r.nreads - 1 ==> !Eof(chunks, k))
  {
  }

  /** No more than four reads and four sends, and never more sends than reads. */
  lemma {:induction false} RunIsShort(chunks: seq<string>, mode: string, password: int, sha: Sha256)
    ensures var r := Handshake(chunks, mode, password, sha);
      1 <= r.nreads <= 4 && |r.sent| <= r.nreads
  {
  }

  /** The handshake does not look past its last read: scripts that agree on
      the reads it made give the same run. */
  lemma {:induction false} NoReadAhead(chunks: seq<string>, other: seq<string>, mode: string, password: int, sha: Sha256)
    requires forall k :: 0 <= k < Handshake(chunks, mode, password, sha).nreads ==> Read(other, k) == Read(chunks, k)
    ensures Handshake(other, mode, password, sha) == Handshake(chunks, mode, password, sha)
  {
    var r := Handshake(chunks, mode, password, sha);
    assert Read(other, 0) == Read(chunks, 0);
    if r.nreads >= 2 {
      assert Read(other, 1) == Read(chunks, 1);
    }
    if r.nreads >= 3 {
      assert Read(other, 2) == Read(chunks, 2);
    }
    if r.nreads >= 4 {
      assert Read(other, 3) == Read(chunks, 3);
    }
  }

  /** Nothing is sent before the gateway's first ACK; once it has come, the
      mode command is the first frame sent. */
  lemma {:induction false} ModeSentFirst(chunks: seq<string>, mode: string, password: int, sha: Sha256)
    ensures var r := Handshake(chunks, mode, password, sha);
      && (r.sent != [] <==> !Eof(chunks, 0) && FirstFrame(Read(chunks, 0)) == ACK)
      && (r.sent != [] ==> r.sent[0] == mode)
      && (r.outcome.NoInitAck? <==> !Eof(chunks, 0) && FirstFrame(Read(chunks, 0)) != ACK)
      && (r.outcome.NoInitAck? ==> r.outcome.frame == FirstFrame(Read(chunks, 0)) && r.nreads == 1)
  {
  }

  /** The frame ends in the terminator `##`. */
  predicate Terminated(f: string)
  {
    |f| >= 2 && f[|f| - 2..] == "##"
  }

  lemma {:induction false} FramesAreTerminated(challengeFrame: string, password: int, answer: (string, string))
    ensures Terminated(LegacyFrame(challengeFrame, password))
    ensures Terminated(HmacFrame(answer))
    ensures Terminated(ACK_FRAME)
  {
    var l := LegacyFrame(challengeFrame, password);
    assert l[|l| - 2..] == "##";
    var h := HmacFrame(answer);
    assert h[|h| - 2..] == "##";
  }

  /** Every frame the client sends after the mode command ends in `##`. */
  lemma {:induction false} SentFramesTerminated(chunks: seq<string>, mode: string, password: int, sha: Sha256)
    ensures var r := Handshake(chunks, mode, password, sha);
      forall i :: 1 <= i < |r.sent| ==> Terminated(r.sent[i])
  {
    var r := Handshake(chunks, mode, password, sha);
    var second := FirstFrame(Read(chunks, 1));
    FramesAreTerminated(second, password, ("", ""));
    if !Eof(chunks, 0) && FirstFrame(Read(chunks, 0)) == ACK && !Eof(chunks, 1) {
      if second == AUTH_REQUEST {
        var answer := HmacChallenge(FirstFrame(Read(chunks, 2)), password, None, sha);
        if !Eof(chunks, 2) && answer.Some? {
          FramesAreTerminated(second, password, answer.value);
          var h := HmacFrame(answer.value);
          if Eof(chunks, 3) {
            assert r.sent == [mode, ACK_FRAME, h];
          } else {
            assert r.sent == [mode, ACK_FRAME, h, ACK_FRAME];
          }
        } else {
          assert r.sent == [mode, ACK_FRAME];
        }
      } else if second != ACK {
        assert r.sent == [mode, LegacyFrame(second, password)];
      } else {
        assert r.sent == [mode];
      }
    } else {
      assert |r.sent| <= 1;
    }
  }

  /** The answer to a bare ACK prompt (no password set on the gateway). */
  lemma {:induction false} AlreadyAuthorized(chunks: seq<string>, mode: string, password: int, sha: Sha256)
    requires FirstFrame(Read(chunks, 0)) == ACK && FirstFrame(Read(chunks, 1)) == ACK
    ensures Handshake(chunks, mode, password, sha) == Run(Authenticated, [mode], 2)
  {
  }

  /** The legacy branch: any other second frame is a challenge; the client
      answers with the decimal response and succeeds exactly when the
      gateway's next frame is ACK. */
  lemma {:induction false} LegacyBranch(chunks: seq<string>, mode: string, password: int, sha: Sha256)
    requires FirstFrame(Read(chunks, 0)) == ACK
    requires !Eof(chunks, 1)
    requires FirstFrame(Read(chunks, 1)) != ACK && FirstFrame(Read(chunks, 1)) != AUTH_REQUEST
    ensures var r := Handshake(chunks, mode, password, sha);
      && r.sent == [mode, "*#" + LegacyAnswer(FirstFrame(Read(chunks, 1)), password) + "##"]
      && r.nreads == 3
      && (r.outcome == Authenticated <==> FirstFrame(Read(chunks, 2)) == ACK)
      && (r.outcome.WrongToken? <==> !Eof(chunks, 2) && FirstFrame(Read(chunks, 2)) != ACK)
      && (r.outcome.WrongToken? ==> r.outcome.frame == FirstFrame(Read(chunks, 2)))
  {
    assert ACK != "";
  }

  /** The SHA-256 branch: the client acknowledges the request, answers the
      challenge with hmacChallenge's pair (raising when nums2hex does), and
      acknowledges whatever the gateway sends next without looking at it. */
  lemma {:induction false} HmacBranch(chunks: seq<string>, mode: string, password: int, sha: Sha256)
    requires FirstFrame(Read(chunks, 0)) == ACK && FirstFrame(Read(chunks, 1)) == AUTH_REQUEST
    requires !Eof(chunks, 2)
    requires IsSha256(sha)
    ensures var r := Handshake(chunks, mode, password, sha);
      var challenge := FirstFrame(Read(chunks, 2));
      var answer := HmacChallenge(challenge, password, None, sha);
      && (r.outcome == ValueError <==> HexOfNums(PySlice(challenge, 2, |challenge|)).None?)
      && (r.outcome == ValueError ==> r.sent == [mode, ACK_FRAME])
      && (answer.Some? ==> r.sent[..3] == [mode, ACK_FRAME, HmacFrame(answer.value)])
      && (answer.Some? ==> r.nreads == 4 && (r.outcome == Authenticated <==> !Eof(chunks, 3)))
      && (r.outcome == Authenticated ==> r.sent == [mode, ACK_FRAME, HmacFrame(answer.value), ACK_FRAME])
  {
    HmacChallengeSpec(FirstFrame(Read(chunks, 2)), password, None, sha);
  }

  /** The frame the client sends in the legacy branch is `*#`, the decimal
      text of a 32-bit unsigned response, and `##`. */
  lemma {:induction false} LegacyFrameShape(frame: string, password: int)
    ensures var f := LegacyFrame(frame, password);
      var digits := f[2..|f| - 2];
      && |f| >= 5 && f[..2] == "*#" && f[|f| - 2..] == "##"
      && AllDigits(digits) && DecimalValue(digits) < TWO32
  {
    var f := LegacyFrame(frame, password);
    AnswerIsUnsigned32(frame, password);
    assert f[2..|f| - 2] == LegacyAnswer(frame, password);
  }

  // ---------------------------------------------------------------- scenarios

  lemma {:induction false} AckChunk()
    ensures FirstFrame("*#*1##") == ACK
  {
    assert "*#*1##" == ACK + "##" + "";
    FirstFrameOf(ACK, "");
  }

  /** ACK, ACK: the gateway lets a monitor session in without a password. */
  lemma {:induction false} OpenGatewayScenario(sha: Sha256)
    ensures Handshake(["*#*1##", "*#*1##"], MONITOR, 710299916, sha) == Run(Authenticated, [MONITOR], 2)
  {
    AckChunk();
  }

  /** A first frame other than ACK is reported with the `##` removed. */
  lemma {:induction false} GarbageGreetingScenario(mode: string, sha: Sha256)
    ensures Handshake(["*garbage##"], mode, 710299916, sha) == Run(NoInitAck("*garbage"), [], 1)
  {
    assert "*garbage##" == "*garbage" + "##" + "";
    FirstFrameOf("*garbage", "");
  }

  lemma {:induction false} NackChunk()
    ensures FirstFrame("*#*0##") == NACK
  {
    assert "*#*0##" == NACK + "##" + "";
    FirstFrameOf(NACK, "");
  }

  lemma {:induction false} NineChunk()
    ensures FirstFrame("*#9##") == "*#9"
  {
    assert "*#9##" == "*#9" + "##" + "";
    FirstFrameOf("*#9", "");
  }

  lemma {:induction false} NineAnswerFrame()
    ensures LegacyFrame("*#9", 710299916) == "*#3584667379##"
  {
    NineExample();
    assert "*#" + "3584667379" + "##" == "*#3584667379##";
  }

  /** A legacy challenge `*#9` with the default password is answered with
      `*#3584667379##`; a NACK afterwards means the password is wrong. */
  lemma {:induction false} WrongPasswordScenario(sha: Sha256)
    ensures Handshake(["*#*1##", "*#9##", "*#*0##"], MONITOR, 710299916, sha)
         == Run(WrongToken(NACK), [MONITOR, "*#3584667379##"], 3)
  {
    var chunks := ["*#*1##", "*#9##", "*#*0##"];
    assert Read(chunks, 0) == "*#*1##" && Read(chunks, 1) == "*#9##" && Read(chunks, 2) == "*#*0##";
    AckChunk();
    NackChunk();
    NineChunk();
    NineAnswerFrame();
    LegacyBranch(chunks, MONITOR, 710299916, sha);
  }
}
