# BTicino gateway tools, modelled in Dafny

This project models three parts of a toolkit for BTicino/Legrand door-entry units (C300X and C100X) and proves properties of the model.

- **The OpenWebNet session bootstrap client (`bticino.py`).**
  - `runPrepare` is the handshake state machine. It reads the gateway's greeting, sends the session mode, and answers one of two challenges. The first is the legacy 32-bit numeric challenge (`answerChallenge` with `rshift`). The second is the SHA-256 challenge (`hmacChallenge`).
  - The SHA-256 answer relies on the nibble codec `nums2hex` / `hexstr2nums`; the legacy answer does not use it. The codec converts between hex text and "nibble strings", in which every 4-bit value is written as two decimal digits.
- **The frame and packet classifiers of the Home Assistant bridge (`ha_config/ha_control.py`).**
  - `parse_cmd` is an exact-match catalogue of OpenWebNet frames.
  - `parse_packet2` cuts a `*…##` frame out of a datagram's hex text.
  - `parse_packet` admits TCP packets by fixed byte offsets and ports, then classifies them by a prioritised substring search.
  - `get_router_ip` rewrites the local address into the router's address.
  - `create_vars` takes the device identity apart from the hostname and formats the MAC address.
- **The firmware-preparation wizard (`main.py`).**
  - It covers the version carried by the download URL (`getVersionFromURL`) and the archive names derived from it.
  - It covers the two line edits made to files of the firmware image (`saveVersion`, `addHostandIP`) and the choice of image inside the archive (`listFilesZIP`, `selectFirmwareFile`).
  - It covers the question-by-question `step` wizard of `main`.

## Files and modules

- `Wrappers.dfy` (`Wrappers`): `Option` and `Result`. They stand for Python's `None` and for raised exceptions.
- `Text.dfy` (`Text`): the Python string operations the code uses:
  - `lower`, `upper`, `lstrip`, `replace`, `find` and `rfind`;
  - slicing with negative and out-of-range bounds;
  - `str(n)`, `"%02d"`, `"%x"` and `"%X"`.
  All text is ASCII. A byte is an integer in [0, 256).
- `NibbleCodec.dfy` (`NibbleCodec`): reference functions for `nums2hex` and `hexstr2nums`, with both round trips.
- `LegacyCipher.dfy` (`LegacyCipher`): `rshift` and the accumulator arithmetic of `answerChallenge`, on unbounded integers. Python's `&`, `>>`, `<<` and `^ -1` are written out as arithmetic.
- `HmacResponder.dfy` (`HmacResponder`): `hmacChallenge`, with SHA-256 passed in as a parameter.
- `Session.dfy` (`Session`):
  - class `Bticino`, whose loops are proved against the reference functions above;
  - `runPrepare`, proved against `Handshake`, a turn-by-turn reference function of the handshake;
  - lemmas about every branch of the handshake.
- `HaControl.dfy` (`HaControl`): the classifiers, and class `Control` with `create_vars`.
- `PrepareFirmware.dfy` (`PrepareFirmware`): the wizard's text and list logic, and class `Prepare`, whose methods are the wizard's questions.

## How the program's environment is modelled

- **Socket.** The socket of `runPrepare` is a script. `chunks[k]` is what the k-th `reader.read(150)` returns. The empty text means the peer closed, as does reading past the end of the script. The frames the client writes come back as the log `sent`.
- **Exceptions and outcomes.** `ExNoInitAck`, `ExDisconnected`, `ExWrongToken` and the `ValueError` of `nums2hex` become the `Outcome` constructors. `UnboundLocalError` and `IndexError` in `getVersionFromURL` become `VersionError`. The `IndexError` of a short packet in `parse_packet` becomes `PacketFault`.
- **SHA-256.** `hashlib.sha256(...).hexdigest()` is any function of type `Sha256`. Where a property needs it, the function is assumed to return 64 lower-case hex digits (`IsSha256`). No digest value is computed.
- **Hostname, node number and local address.** `socket.gethostname()`, `uuid.getnode()` and `get_local_ip()` become parameters. A `None` local address stands for its socket error.
- **Keyboard.** The answers to `input()` are a scripted sequence. File contents are sequences of lines, and a zip archive is its list of names.
- **Cross-module names.** The names of the modules' members follow the Python names (`AnswerChallenge` for `answerChallenge`, `ParsePacket2` for `parse_packet2`).

Two points of the code are worth stating, because the model follows them as written:

- OpenWebNet's ACK frame is `*#*1##`. The code compares the text before the first `##` with `*#*1` (bticino.py:238-242), so `Session.ACK` is `*#*1`.
- `j` is only assigned inside the loop of `answerChallenge`, so an empty challenge answers `0`, not the password (bticino.py:331-362). See `LegacyCipher.ShortFrameAnswersZero`.

## Model

| member | source | states |
|---|---|---|
| LegacyCipher.RShift | bticino.py:175-176 | rshift(v, n) lies in [0, 2^(32-n)), and for a 32-bit unsigned v it is v shifted right by n |
| LegacyCipher.Mask32 | bticino.py:336-337 | `x & 0xFFFFFFFF` is in [0, 2^32), keeps a value already in range, and differs from x by a multiple of 2^32 |
| LegacyCipher.Response | bticino.py:331-362 | the final value of j is a 32-bit unsigned number |
| LegacyCipher.LegacyAnswer | bticino.py:326-362 | answerChallenge's result is the canonical decimal text of a natural number: digits only, at least one, no leading zero (AnswerIsUnsigned32 bounds the number below 2^32) |
| LegacyCipher.AnswerIsUnsigned32 | bticino.py:326-362 | the answer is all decimal digits, denotes a value below 2^32, and is the canonical decimal text of that value |
| LegacyCipher.ShortFrameAnswersZero | bticino.py:331-362 | a frame of at most two characters leaves the challenge empty, and the answer is "0" whatever the password |
| LegacyCipher.PasswordModulo32 | bticino.py:332-337 | only the low 32 bits of the password affect the answer |
| LegacyCipher.SameAccumulator | bticino.py:335-357 | two challenge prefixes that leave the same truncated accumulator keep agreeing whatever characters follow |
| LegacyCipher.NonDigitIsNoOp | bticino.py:339-357 | a character other than '1'..'9' can be removed anywhere in a non-empty challenge without changing the answer |
| LegacyCipher.NineComplements | bticino.py:355-356 | digit '9' turns the truncated accumulator a into 2^32 - 1 - a |
| LegacyCipher.NineExample | bticino.py:355-362 | with password 710299916, frame "*#9" is answered "3584667379" |
| NibbleCodec.HexOfNums | bticino.py:276-280 | nums2hex writes only lower-case hex digits and minus signs; NumsRoundTrip and OddTailIgnored state what it inverts and what it skips |
| NibbleCodec.NumsOfHex | bticino.py:283-292 | hexstr2nums writes exactly two decimal digits per input character; NumsOfHexShape and HexRoundTrip state when it succeeds and what it inverts |
| NibbleCodec.NumsOfHexShape | bticino.py:283-292 | hexstr2nums succeeds exactly on hex text, and then writes two digits per character, forming pairs 00..15 |
| NibbleCodec.HexRoundTrip | bticino.py:276-292 | nums2hex(hexstr2nums(h)) is h in lower case for every hex text h |
| NibbleCodec.NibblePair | bticino.py:279-291 | a decimal pair 00..15 reads as its value, which formats as one hex digit and back as the same pair |
| NibbleCodec.NumsRoundTrip | bticino.py:276-292 | hexstr2nums(nums2hex(s)) == s for every string of pairs 00..15, and nums2hex halves its length |
| NibbleCodec.OddTailIgnored | bticino.py:278-280 | a trailing odd character is never read by nums2hex |
| NibbleCodec.DocExample | bticino.py:284-287 | hexstr2nums('2A') == '0210' |
| HmacResponder.DigestNibbles | bticino.py:317-320 | a 64-digit digest has a 128-digit nibble form that decodes back to it |
| HmacResponder.HmacChallenge | bticino.py:294-324 | hmacChallenge succeeds only when nums2hex accepts the challenge digits |
| HmacResponder.HmacChallengeSpec | bticino.py:294-324 | raises exactly where nums2hex does; echoes a supplied nonce, or the nibble form of SHA-256("xx"); the second component is the nibble form of SHA-256 over challenge hex + nonce hex + "736F70653E" + "636F70653E" + SHA-256(str(password)), and decodes back to that digest |
| Session.FirstFrame | bticino.py:238-239 | `split('##')[0]` is a prefix of the chunk |
| Session.FirstFrameOf | bticino.py:238-239 | a body without `##` followed by `##` is the first frame, whatever comes after |
| Session.FirstFrameIsCut | bticino.py:238-239 | the first frame is the chunk cut at the first index where `##` is found, or the whole chunk |
| Session.FirstFrameSplits | bticino.py:238-239 | the first frame is followed by `##` when the chunk holds one, is the chunk otherwise, and never holds `##` |
| Session.Bticino.constructor | bticino.py:188-195 | keeps the mode command, host and port given, and fixes the password 710299916 |
| Session.Bticino.Default | bticino.py:188-195 | the default session is a monitor session (`*99*1##`) to localhost:20000 |
| Session.Bticino.Nums2Hex | bticino.py:276-280 | the append loop computes nums2hex, error included |
| Session.Bticino.HexStr2Nums | bticino.py:283-292 | the append loop computes hexstr2nums, error included |
| Session.Bticino.Scramble | bticino.py:339-356 | the if-chain on the challenge character is one accumulator step |
| Session.Bticino.AnswerChallenge | bticino.py:326-362 | the loop over frame[2:] computes the decimal text of the 32-bit response |
| Session.Bticino.RunPrepare | bticino.py:228-273 | the state-machine loop over the scripted reads produces exactly the outcome, sent frames and read count of the handshake reference |
| Session.Handshake | bticino.py:228-273 | a run authenticates only after sending the mode command, as its first frame; the lemmas below state its reads, branches and outcomes |
| Session.DisconnectedIffLastReadEmpty | bticino.py:231-234 | an empty read ends the run at once, in every state: the run is Disconnected exactly when its last read returned no data, and every earlier read returned data |
| Session.RunIsShort | bticino.py:231-273 | a run makes at most four reads and never sends more frames than it reads |
| Session.NoReadAhead | bticino.py:231-273 | scripts that agree on the reads a run made give the same run |
| Session.ModeSentFirst | bticino.py:241-246 | nothing is sent unless the first frame is ACK, and then the mode command is sent first; a first frame other than ACK raises ExNoInitAck with that frame after one read |
| Session.FramesAreTerminated | bticino.py:258-267 | the legacy answer, the SHA-256 answer and the ACK all end in `##` |
| Session.SentFramesTerminated | bticino.py:245-269 | every frame sent after the mode command ends in `##` |
| Session.AlreadyAuthorized | bticino.py:252-255 | ACK then ACK authenticates with only the mode frame sent, after two reads |
| Session.LegacyBranch | bticino.py:256-273 | any other second frame is answered with `*#` + answerChallenge + `##`; the run authenticates exactly when the next frame is ACK and otherwise raises ExWrongToken with that frame |
| Session.HmacBranch | bticino.py:249-269 | `*98*2` is acknowledged; the challenge is answered `*#r0*r1##` or raises ValueError where nums2hex does; the next non-empty read is acknowledged without being looked at |
| Session.LegacyFrameShape | bticino.py:257-258 | the legacy answer frame is `*#`, the decimal text of a 32-bit unsigned value, then `##` |
| Session.NineAnswerFrame | bticino.py:257-258 | the frame answering "*#9" with the default password is `*#3584667379##` |
| Session.OpenGatewayScenario | bticino.py:241-255 | a gateway without a password (ACK, ACK) lets the monitor session in with one frame sent |
| Session.GarbageGreetingScenario | bticino.py:241-243 | a greeting other than ACK raises ExNoInitAck with the text before `##` |
| Session.WrongPasswordScenario | bticino.py:256-273 | ACK, `*#9`, NACK: the client answers `*#3584667379##` and then raises ExWrongToken with NACK |
| HaControl.ParseCmd | ha_config/ha_control.py:345-391 | every frame that gets a label is at least six characters long, starts with '*' and ends with '#', and its label is non-empty; ParseCmdDomain and ParseCmdLabels give the whole table |
| HaControl.ParseCmdDomain | ha_config/ha_control.py:345-391 | parse_cmd gives a label exactly for the catalogued frames and None for every other input |
| HaControl.ParseCmdLabels | ha_config/ha_control.py:345-391 | each catalogued frame gets its catalogued label |
| HaControl.AckNackLabels | ha_config/ha_control.py:381-384 | `*#*1##` is ACK and `*#*0##` is NACK |
| HaControl.NoIdeaEchoesFrame | ha_config/ha_control.py:385-388 | the two unexplained frames get "(no idea) what is this? " followed by the frame itself |
| HaControl.Hex | ha_config/ha_control.py:323 | `bytes.hex()` writes two lower-case hex digits per byte |
| HaControl.HexConcat | ha_config/ha_control.py:323 | the hex text of two byte runs is the concatenation of their hex texts |
| HaControl.HexSlice | ha_config/ha_control.py:323-331 | the hex text of a run of bytes is the matching run of the hex text |
| HaControl.FromHex | ha_config/ha_control.py:336 | `bytes.fromhex` of an even number of digits gives half as many bytes |
| HaControl.FromHexOfHex | ha_config/ha_control.py:323-336 | fromhex undoes hex |
| HaControl.HexOfFromHex | ha_config/ha_control.py:323-336 | hex undoes fromhex, up to the case of the digits |
| HaControl.HexPairAt | ha_config/ha_control.py:326-328 | at a byte boundary, the hex text shows a byte's digit pair exactly when that byte is there |
| HaControl.AsciiBytes | ha_config/ha_control.py:397-401 | `str.encode()` of ASCII text keeps each character's code as its byte |
| HaControl.DecodeAscii | ha_config/ha_control.py:337 | decoding with errors ignored produces ASCII text no longer than the bytes |
| HaControl.DecodeAsciiBytes | ha_config/ha_control.py:337 | decoding the encoding of ASCII text gives the text back |
| HaControl.FoundFits | ha_config/ha_control.py:326-328 | the first "2a" and the first "2323" both lie inside the hex text |
| HaControl.FrameSlice | ha_config/ha_control.py:326-331 | the kept slice is empty or a piece of the packet's hex text, never longer than it; FrameSliceFound says which piece |
| HaControl.FrameSliceFound | ha_config/ha_control.py:326-331 | the slice runs from the first "2a" through the first "2323", or is empty when the "2323" comes first |
| HaControl.FrameSliceUnterminated | ha_config/ha_control.py:328-331 | without "2323" the end index is 3, so at most three digits are kept |
| HaControl.ParsePacket2 | ha_config/ha_control.py:320-343 | a decoded frame is ASCII text no longer than the packet |
| HaControl.ParsePacket2Aligned | ha_config/ha_control.py:320-343 | when the first '*' and the first "##" fall on byte boundaries, the result is the decoding of exactly the bytes from the '*' through the "##" |
| HaControl.ParsePacket2Crossed | ha_config/ha_control.py:326-338 | when the "##" comes before the '*', the result is the empty text |
| HaControl.ParsePacket2Unterminated | ha_config/ha_control.py:328-338 | without "##" at most one character comes out |
| HaControl.ParsePacket2Odd | ha_config/ha_control.py:333-343 | the result is None exactly when the hex slice has odd length |
| HaControl.ParsePacket | ha_config/ha_control.py:393-443 | an IndexError comes only from a packet of at most 37 bytes, and an event only from a TCP packet longer than that; ParsePacketErrors and ParsePacketPriority give both directions |
| HaControl.ParsePacketErrors | ha_config/ha_control.py:403-413 | an IndexError is raised exactly for a packet too short for byte 23, or a TCP, non-ICMP packet too short for the ports |
| HaControl.ParsePacketPriority | ha_config/ha_control.py:393-443 | something is recognised only in a TCP, non-ICMP packet whose big-endian ports are not excluded; DOORBELL, then PRESS, then RELEASE, each exactly when the earlier ones are absent and its hex is contained; nothing else is returned |
| HaControl.EmbeddedBytesFound | ha_config/ha_control.py:404-420 | bytes carried anywhere in a packet are found in its hex text |
| HaControl.EmbeddedFrameFound | ha_config/ha_control.py:396-420 | an ASCII frame carried anywhere in a packet is found by the hex of its encoding |
| HaControl.FrameEncoding | ha_config/ha_control.py:396-401 | a frame given with its bytes and their hex digit pairs, index by index, is ASCII, encodes to those bytes, and the hex of its encoding is that text |
| HaControl.DoorbellEncoding | ha_config/ha_control.py:396-397 | `'*8*1#1#4#21*16##'.encode()` is the listed bytes and its hex is the text searched for as the doorbell |
| HaControl.OpenPressEncoding | ha_config/ha_control.py:398-399 | `'*8*19*20##'.encode()` is the listed bytes and its hex is the text searched for as the press |
| HaControl.OpenReleaseEncoding | ha_config/ha_control.py:400-401 | `'*8*20*20##'.encode()` is the listed bytes and its hex is the text searched for as the release |
| HaControl.DoorbellPacket | ha_config/ha_control.py:396-426 | an admitted packet carrying the ASCII bytes of the doorbell frame `*8*1#1#4#21*16##` anywhere is a DOORBELL |
| HaControl.OpenPressPacket | ha_config/ha_control.py:398-433 | an admitted packet carrying the ASCII bytes of the press frame `*8*19*20##` anywhere, and not the doorbell's hex, is a PRESS |
| HaControl.OpenReleasePacket | ha_config/ha_control.py:400-440 | an admitted packet carrying the ASCII bytes of the release frame `*8*20*20##` anywhere, and neither the doorbell's nor the press's hex, is a RELEASE |
| HaControl.RouterIp | ha_config/ha_control.py:913-918 | there is a router address exactly when there is a local address, and it ends in ".1" |
| HaControl.RouterIpDotted | ha_config/ha_control.py:913-918 | for a dotted address the part before the last '.' is kept and ".1" appended; the router address is its own router address |
| HaControl.RouterIpUndotted | ha_config/ha_control.py:917 | without a '.', rfind gives -1 and the last character is dropped before ".1" |
| HaControl.RouterIpExample | ha_config/ha_control.py:917 | 192.168.1.37 gives 192.168.1.1 |
| HaControl.Hex12 | ha_config/ha_control.py:264 | `"%012X"` gives at least twelve upper-case hex digits |
| HaControl.MacText | ha_config/ha_control.py:264-265 | the MAC text is 17 characters long |
| HaControl.UpperHexValue | ha_config/ha_control.py:264 | `"%X"` reads back as the number it was made from |
| HaControl.UpperHexLength | ha_config/ha_control.py:264 | a number below 16^k takes at most k hex digits |
| HaControl.Hex12Value | ha_config/ha_control.py:263-264 | for a 48-bit node, `"%012X"` is exactly twelve digits worth the node |
| HaControl.JoinPairsShape | ha_config/ha_control.py:264-265 | in the joined pairs, every third character is ':' and the others are the digits in order |
| HaControl.JoinPairsDigits | ha_config/ha_control.py:264-265 | removing the ':' separators gives back the twelve digits |
| HaControl.MacTextShape | ha_config/ha_control.py:264-265 | the MAC text is six upper-case hex pairs joined by ':', whose digits are the first twelve of `"%012X"` |
| HaControl.MacRoundTrip | ha_config/ha_control.py:263-265 | for a 48-bit node, the MAC text without its separators reads back as the node |
| HaControl.HostnameOf | ha_config/ha_control.py:261-262 | a MODEL-MAC-SERIAL hostname is two characters longer than its three fields |
| HaControl.HostnameParts | ha_config/ha_control.py:260-279 | create_vars' slices give back the model, the MAC text (':' restored, upper case) and the serial of such a hostname, and the id MODEL-SERIAL |
| HaControl.HostMacOf | ha_config/ha_control.py:266 | characters 4..20 of the hostname, upper-cased with '-' written as ':', are the MAC text they carry |
| HaControl.SampleHostname | ha_config/ha_control.py:261-279 | the sample hostname C3X-00-03-50-00-00-00-9999999 gives model C3X, MAC 00:03:50:00:00:00, serial 9999999 and id C3X-9999999 |
| HaControl.HostnameOfNodeMatches | ha_config/ha_control.py:263-270 | a hostname carrying the node's own MAC text is reported as a match |
| HaControl.Control.constructor | ha_config/ha_control.py:189-197 | the identity fields `__init__` sets through create_vars |
| HaControl.Control.CreateVars | ha_config/ha_control.py:258-279 | sets the hostname, the MAC text of the node, serial, model and id from the hostname's slices; reports a match exactly when the MAC texts agree |
| Text.Find | ha_config/ha_control.py:326-328 | `find` gives the first index where the pattern occurs, or -1 when it occurs nowhere |
| Text.RFind | ha_config/ha_control.py:917 | `rfind` gives the last index holding the character, or -1 |
| Text.PySlice | ha_config/ha_control.py:331 | a slice with bounds in range is the plain subsequence, and never longer than the text |
| Text.LStrip | main.py:262-266 | `lstrip` keeps a suffix that does not start with the character, after dropping only that character |
| Text.Lower | main.py:250 | `lower` maps every character to its lower case, position by position |
| Text.DecimalRoundTrip | bticino.py:362 | `str(n)` reads back as n |
| PrepareFirmware.Split | main.py:257 | `split` gives at least one field, more than one exactly when the separator occurs, and the whole text otherwise |
| PrepareFirmware.SplitJoin | main.py:257 | joining the fields of `split` with the separator gives back the text |
| PrepareFirmware.SplitFieldsFree | main.py:257 | no field of `split` contains the separator |
| PrepareFirmware.VersionFromUrl | main.py:247-269 | a version is only found for C300X or C100X, and is at most six characters, or eight in human form |
| PrepareFirmware.VersionFromUrlErrors | main.py:247-257 | getVersionFromURL raises UnboundLocalError exactly for a model other than C300X/C100X, and IndexError exactly when the lower-cased URL lacks the model's name or no '_' follows it |
| PrepareFirmware.VersionOfShapedUrl | main.py:247-269 | every URL of the shape head + model + '_' + digits + ('_' ...) yields those digits, cut to six or in human form |
| PrepareFirmware.HumanVersion | main.py:262-268 | the human form is two to eight characters: three stripped fields of at most two and the two dots |
| PrepareFirmware.StripTwo | main.py:262-266 | stripping zeros from a two-character field drops the first zero, and the second only if it follows a zero |
| PrepareFirmware.HumanFields | main.py:262-268 | the human version is the three two-character fields, each stripped of leading zeros, joined by '.' |
| PrepareFirmware.StripZerosValue | main.py:262-266 | stripping leading zeros keeps a field's number, and only an all-zero field becomes empty |
| PrepareFirmware.DigitsLead | main.py:250-268 | lower-casing does not change a field of six digits, in either form |
| PrepareFirmware.VersionC300X | main.py:247-269 | the built-in C300X URL (lines 55-57) gives 010719, and 1.7.19 in human form |
| PrepareFirmware.VersionC100X | main.py:247-269 | the built-in C100X URL (lines 58-61) gives 010501, and 1.5.1 in human form |
| PrepareFirmware.KnownVersionOfUrl | main.py:85-103 | the URL the wizard picks for a model gives that model's known version, in both forms |
| PrepareFirmware.OutputName | main.py:657 | the rebuilt archive's name is four characters longer than the name; OutputNameInverse says where "_new" goes |
| PrepareFirmware.OutputNameInverse | main.py:657 | "_new" goes in front of the four-character extension and taking it out gives back the name; a name shorter than four characters just gets the prefix |
| PrepareFirmware.OutputOfFirmwareName | main.py:656-657 | the rebuilt archive of MODEL_VERSION.fwz is MODEL_VERSION_new.fwz |
| PrepareFirmware.SavedVersion | main.py:605-608 | saveVersion writes exactly one line per line read |
| PrepareFirmware.SavedVersionAt | main.py:605-608 | each line written is the line read, or the new version line when the line read contains '<version>' |
| PrepareFirmware.VersionLineTagged | main.py:607 | the new version line itself contains '<version>' |
| PrepareFirmware.SavedVersionTwice | main.py:605-608 | saving twice is saving the second version once |
| PrepareFirmware.SaveVersion | main.py:593-610 | the copy loop writes the saved lines, in order |
| PrepareFirmware.FirstWith | main.py:617-618 | the index of the first line containing the pattern, or -1 when no line does |
| PrepareFirmware.WithHost | main.py:614-620 | the file is unchanged or is one line longer and holds the host line; WithHostInverse says where |
| PrepareFirmware.WithHostInverse | main.py:614-620 | the host line goes in once, right after the first 'openserver' line, and removing it gives back the file; without such a line the file is unchanged |
| PrepareFirmware.AddHostAndIp | main.py:612-625 | the search-and-insert loop, which stops at the first match, produces that file |
| PrepareFirmware.WithoutSig | main.py:302-304 | filtering never adds names |
| PrepareFirmware.WithoutSigMembers | main.py:301-304 | a name is kept exactly when it is listed and does not contain 'sig' |
| PrepareFirmware.FilesInside | main.py:300-306 | listFilesZIP never lists more names than the archive holds; ListFilesZip states each answer's result |
| PrepareFirmware.LastImage | main.py:314-316 | a selected name is listed and is a firmware image ('gz', not 'recovery') |
| PrepareFirmware.LastImageSpec | main.py:314-316 | the selected name is a listed image ('gz', not 'recovery') after which no image is listed, and there is none exactly when no image is listed |
| PrepareFirmware.AnswerLower | main.py:100-101 | an accepted answer is stored lower-cased as "y" or "n" |
| PrepareFirmware.Prepare.constructor | main.py:62-77 | nothing is answered yet and the wizard is at step 0 |
| PrepareFirmware.Prepare.AskModel | main.py:82-93 | C300X or C100X sets the model's URL and moves to step 1; any other answer stays at step 0 |
| PrepareFirmware.Prepare.GetVersionFromUrl | main.py:102 | once the model is chosen, getVersionFromURL gives the known version of its URL |
| PrepareFirmware.Prepare.AskDownload | main.py:95-116 | y/Y names the file MODEL_VERSION.fwz after the URL's version, n/N takes the typed name, both move to step 2 storing the lower-cased answer; anything else changes nothing |
| PrepareFirmware.Prepare.AskRootPasswordAndKey | main.py:118-140 | the typed root password is kept, or pwned123 when empty; y/n on the SSH key moves to step 3 |
| PrepareFirmware.Prepare.AskRemoveSig | main.py:142-157 | y/n moves to step 4 storing the lower-cased answer; anything else changes nothing |
| PrepareFirmware.Prepare.AskInstallMqtt | main.py:159-173 | y/n moves to step 5 storing the lower-cased answer; anything else changes nothing |
| PrepareFirmware.Prepare.AskNotify | main.py:175-192 | y/n moves to step 6 storing the lower-cased answer; anything else changes nothing |
| PrepareFirmware.Prepare.RunWizard | main.py:79-195 | the questions run in order until all are answered or the answers run out; steps never go back, and processing starts exactly when all six are answered |
| PrepareFirmware.Prepare.ListFilesZip | main.py:294-308 | y/Y keeps the names without 'sig' in order, n/N keeps all names, any other answer gives no names |
| PrepareFirmware.Prepare.SelectFirmwareFile | main.py:310-317 | `prtFrmw` becomes the last image listed, and keeps its value when none is listed; nothing else changes |

## Left out

- The session's `run`, `send`, `close` and `oneLoop` are left out: asyncio sockets, logging and the session loop after the handshake. The reader is a script of chunks and the writer is the returned log of frames.
- SHA-256 is not computed. It is a parameter constrained only to return 64 lower-case hex digits.
- UTF-8 is modelled on ASCII only. That covers `frame.decode()` in `runPrepare`, `str.encode()` in `hmacChallenge` and `parse_packet`, and `decode('utf-8', errors='ignore')` in `parse_packet2`, where bytes of 0x80 and above are dropped. Multi-byte characters are not modelled.
- Session.Bticino.RunPrepare: the SHA-256 branch always uses the default nonce (`randnumsdigest=None`), as `runPrepare` does. A supplied nonce is covered only by `HmacResponder.HmacChallengeSpec`.
- `int()` in `nums2hex` is modelled for ASCII input only: two digits, or one digit with a sign or surrounding blank space. Unicode digits and other characters are not.
- In `ha_control.py`, the following are left out because they are I/O and concurrency, not logic:
  - threads, `pyinotify` and signals;
  - the MQTT client and its callbacks;
  - the raw and multicast socket loops of `normal_execution`;
  - `send_data`, `unlock`, `voicemail` and `doorbell_sound`;
  - the JSON configuration builders, INI/XML reading and ping.
  The parts of `Control.__init__` other than `create_vars` are left out too, and log lines are not modelled. The `address` half of the packet pair is unused by the classification and not modelled.
- The remaining steps of `main.py` are left out: `processFirmware` and every step it calls that touches files, archives, mounts or the shell (`unzipFile`, `zipFileFirmware`'s compression and password choice, `unGZfirmware`, SSH keys and so on). `disableNotifyNewFirmware` is two calls of `addHostandIP` with fixed hosts and addresses, so it is covered by `PrepareFirmware.AddHostAndIp`. `time.sleep` and `print` carry no logic.
- PrepareFirmware.Prepare.RunWizard: states the invariant of the answers and the condition under which the run stops. It does not state which answer was consumed by which question; the per-question methods state that. Running out of answers stands for the EOFError of `input()`.
- PrepareFirmware.Prepare.GetVersionFromUrl: states the version only for the wizard's own built-in URLs, which is the only way the wizard calls it. `PrepareFirmware.VersionFromUrl` covers any URL.
- `scripts/ha_config/ha_api.py`, `diagnose_mqtt.py` and the two `filter.py` scripts are not part of this model. They are web routes, file checks and stream filters.
