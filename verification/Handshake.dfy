/**
  First and NonFirst authentication in both modes (commands/authenticate/aes.rs and lrp.rs),
  and what they leave in the session (session/authenticated.rs).
 */
module Handshake {
  import opened Wrappers
  import opened Octets
  import opened Aes
  import opened Blocks
  import opened Suite
  import opened Wire
  import opened Transport
  import opened SecureChannel
  import T = Tag
  import Cbc

  const PCDCAP2: seq<byte> := [0x02, 0x00, 0x00, 0x00, 0x00, 0x00]
  const AUTH_MODE_LRP: byte := 0x01

  datatype AuthResult = AuthResult(suite: Suite, ti: Ti, pdCap2: seq<byte>, pcdCap2: seq<byte>)

  function RotateRight(b: Block): Block {
    [b[15]] + b[..15]
  }

  lemma RotateBack(a: Block, b: Block)
    ensures RotateRight(a) == b <==> a == T.RotateLeft(b)
  {
    assert T.RotateLeft(RotateRight(a)) == a;
    assert RotateRight(T.RotateLeft(b)) == b;
  }

  // ---------------------------------------------------------------- the tag's part

  /** The frames of part 1 and part 2. */
  function Part1(first: bool, lrp: bool, keyNo: byte): (body: seq<byte>)
    ensures |body| <= 8
  {
    if !first then [keyNo] else if lrp then [keyNo, 0x06] + PCDCAP2 else [keyNo, 0x03, 0x00, 0x00, 0x00]
  }

  function Part1Apdu(first: bool, lrp: bool, keyNo: byte): seq<byte> {
    Apdu(if first then 0x71 else 0x77, 0x00, 0x00, Part1(first, lrp, keyNo))
  }

  /** The first frames of all four handshakes, byte by byte (NT4H2421Gx sections 10.4.1 to 10.4.4). */
  lemma FirstFrames(keyNo: byte)
    ensures Part1Apdu(true, false, keyNo) == [0x90, 0x71, 0x00, 0x00, 0x05, keyNo, 0x03, 0x00, 0x00, 0x00, 0x00]
    ensures Part1Apdu(true, true, keyNo) == [0x90, 0x71, 0x00, 0x00, 0x08, keyNo, 0x06, 0x02, 0x00, 0x00, 0x00, 0x00, 0x00, 0x00]
    ensures forall lrp :: Part1Apdu(false, lrp, keyNo) == [0x90, 0x77, 0x00, 0x00, 0x01, keyNo, 0x00]
  {
  }

  /** What the tag remembers of the capabilities part 1 announced. */
  function Announced(first: bool, lrp: bool): seq<byte> {
    if first && lrp then PCDCAP2 else Zeros(6)
  }

  /** The state and the answer after part 1, for a tag in the same mode. */
  lemma Part1Answer(aes: Aes128, t: T.Tag, first: bool, keyNo: byte)
    requires keyNo < 5 && (first || t.session.Some?)
    ensures
      var t' := T.Drawn(t).(pending := Some(T.Handshake(first, keyNo, Announced(first, t.lrp))));
      T.Step(aes, t, Part1Apdu(first, t.lrp, keyNo)) ==
        (if first then t'.(session := None) else t',
         T.Reply(if t.lrp then [0x01] + t'.rndB else Cbc.Encrypted(aes, t.keys[keyNo].key, Zeros(16), t'.rndB), 0x91, 0xAF))
  {
    hide Cbc.Encrypted;
    var body := Part1(first, t.lrp, keyNo);
    T.StepApdu(aes, t, if first then 0x71 else 0x77, 0, 0, body);
    if first && t.lrp {
      assert body[2..] + Zeros(8 - |body|) == PCDCAP2;
    } else if first {
      assert body[2..] + Zeros(8 - |body|) == Zeros(6);
    }
  }

  /** First authentication in the mode the tag is not in is refused at once. */
  lemma WrongModeRefused(aes: Aes128, t: T.Tag, lrp: bool, keyNo: byte)
    requires keyNo < 5 && t.lrp != lrp
    ensures T.Step(aes, t, Apdu(0x71, 0x00, 0x00, Part1(true, lrp, keyNo))) == T.Fail(t, 0x9D)
  {
    T.StepApdu(aes, t, 0x71, 0, 0, Part1(true, lrp, keyNo));
  }

  /** NonFirst authentication needs a session to go on from. */
  lemma NoSessionRefused(aes: Aes128, t: T.Tag, lrp: bool, keyNo: byte)
    requires keyNo < 5 && t.session.None?
    ensures T.Step(aes, t, Apdu(0x77, 0x00, 0x00, Part1(false, lrp, keyNo))) == T.Fail(t, 0xAE)
  {
    T.StepApdu(aes, t, 0x77, 0, 0, Part1(false, lrp, keyNo));
  }

  /** A handshake step leaves keys and files as they are. */
  lemma HandshakeKeepsMemory(aes: Aes128, t: T.Tag, ins: byte, body: seq<byte>)
    requires |body| <= 255 && ins in {0x71, 0x77, 0xAF}
    ensures T.SameMemory(t, T.Step(aes, t, Apdu(ins, 0x00, 0x00, body)).0)
  {
    T.StepApdu(aes, t, ins, 0, 0, body);
    hide T.Step, T.AuthPart1, T.AuthPart2, T.SameMemory;
    if ins == 0xAF {
      Part2KeepsMemory(aes, t, body);
    } else {
      Part1KeepsMemory(aes, t, ins == 0x71, body);
    }
  }

  lemma Part1KeepsMemory(aes: Aes128, t: T.Tag, first: bool, body: seq<byte>)
    ensures T.SameMemory(t, T.AuthPart1(aes, t, first, body).0)
  {
    hide Cbc.Encrypted;
  }

  lemma Part2KeepsMemory(aes: Aes128, t: T.Tag, body: seq<byte>)
    ensures T.SameMemory(t, T.AuthPart2(aes, t, body).0)
  {
    hide T.AuthPart2Lrp, T.AuthPart2Aes;
    if t.pending.Some? && |body| == 32 && (t.pending.value.first || t.session.Some?) {
      var h := t.pending.value;
      if t.lrp {
        Part2LrpKeepsMemory(aes, t, h, body);
      } else {
        Part2AesKeepsMemory(aes, t, h, body);
      }
    }
  }

  lemma Part2AesKeepsMemory(aes: Aes128, t: T.Tag, h: T.Handshake, body: seq<byte>)
    requires h.keyNo < 5 && |h.pcdCap2| == 6 && (h.first || t.session.Some?) && |body| == 32
    ensures T.SameMemory(t, T.AuthPart2Aes(aes, t, h, body).0)
  {
    hide Cbc.Encrypted, Cbc.Decrypted, T.SessionAes, T.RotateLeft;
  }

  lemma Part2LrpKeepsMemory(aes: Aes128, t: T.Tag, h: T.Handshake, body: seq<byte>)
    requires h.keyNo < 5 && |h.pcdCap2| == 6 && (h.first || t.session.Some?) && |body| == 32
    ensures T.SameMemory(t, T.AuthPart2Lrp(aes, t, h, body).0)
  {
    hide T.SessionLrp, CmacLrp, Encrypted;
  }

  // ---------------------------------------------------------------- AES

  /** The second frame: both randoms, the tag's one rotated, in one CBC string under a zero IV. */
  function Part2Aes(aes: Aes128, key: Block, rndA: Block, rndB: Block): (ct: seq<byte>)
    ensures |ct| == 32
  {
    Cbc.Encrypted(aes, key, Zeros(16), rndA + T.RotateLeft(rndB))
  }

  /** `build_part2_apdu`: the string assembled and enciphered in one buffer. */
  method BuildPart2(aes: Aes128, key: Block, rndA: Block, rndB: Block) returns (body: seq<byte>)
    ensures body == Part2Aes(aes, key, rndA, rndB)
  {
    hide Cbc.Encrypted;
    var ct := new byte[32](i => 0);
    var n := Append(ct, 0, rndA);
    n := Append(ct, n, rndB[1..]);
    n := Append(ct, n, [rndB[0]]);
    assert ct[..] == ct[..32] == rndA + T.RotateLeft(rndB);
    var ok := Cbc.Encrypt(aes, key, Zeros(16), ct);
    body := ct[..];
  }

  /** `aes_decrypt`: a copy of `enc`, deciphered in place under a zero IV. */
  method AesDecrypt(aes: Aes128, key: Block, enc: seq<byte>) returns (plain: seq<byte>)
    requires |enc| > 0 && |enc| % 16 == 0
    ensures plain == Cbc.Decrypted(aes, key, Zeros(16), enc)
  {
    hide Cbc.Decrypted;
    var buf := new byte[|enc|](i requires 0 <= i < |enc| => enc[i]);
    assert buf[..] == enc;
    var ok := Cbc.Decrypt(aes, key, Zeros(16), buf);
    plain := buf[..];
  }

  /** Accepts exactly when the deciphered field is RndA rotated left by one byte. */
  method FinishAuth(aes: Aes128, key: Block, rndA: Block, rndB: Block, enc: seq<byte>)
    returns (r: Result<AuthResult, SessionError>)
    requires |enc| == 32
    ensures var resp := Cbc.Decrypted(aes, key, Zeros(16), enc);
      if resp[4..20] == T.RotateLeft(rndA)
      then r == Result.Ok(AuthResult(DeriveAes(aes, key, rndA, rndB), resp[..4], resp[20..26], resp[26..32]))
      else r == Err(AuthenticationMismatch)
    ensures r.Ok? ==> HasKeysAes(aes, key, rndA, rndB, r.value.suite)
  {
    hide Cbc.Decrypted, DeriveAes, HasKeysAes;
    var resp := AesDecrypt(aes, key, enc);
    var received := [resp[19]] + resp[4..19];
    assert received == RotateRight(resp[4..20]);
    RotateBack(resp[4..20], rndA);
    if received != rndA {
      return Err(AuthenticationMismatch);
    }
    var suite := DeriveAesSuite(aes, key, rndA, rndB);
    return Result.Ok(AuthResult(suite, resp[..4], resp[20..26], resp[26..32]));
  }

  method FinishAuthNonFirst(aes: Aes128, key: Block, rndA: Block, rndB: Block, enc: seq<byte>)
    returns (r: Result<Suite, SessionError>)
    requires |enc| == 16
    ensures r == if Cbc.Decrypted(aes, key, Zeros(16), enc) == T.RotateLeft(rndA)
                 then Result.Ok(DeriveAes(aes, key, rndA, rndB)) else Err(AuthenticationMismatch)
    ensures r.Ok? ==> HasKeysAes(aes, key, rndA, rndB, r.value)
  {
    hide Cbc.Decrypted, DeriveAes, HasKeysAes;
    var plain := AesDecrypt(aes, key, enc);
    var received := [plain[15]] + plain[..15];
    RotateBack(plain, rndA);
    if received != rndA {
      return Err(AuthenticationMismatch);
    }
    var suite := DeriveAesSuite(aes, key, rndA, rndB);
    return Result.Ok(suite);
  }

  /** The honest tag accepts part 2 of a host that holds the key, and answers so that the host accepts. */
  lemma Part2AesAnswer(aes: Aes128, t: T.Tag, h: T.Handshake, rndA: Block)
    requires t.pending == Some(h) && !t.lrp && (h.first || t.session.Some?)
    ensures var key := t.keys[h.keyNo].key;
      var s := T.Step(aes, t, Apdu(0xAF, 0x00, 0x00, Part2Aes(aes, key, rndA, t.rndB)));
      && s.0 == T.Established(t, h, DeriveAes(aes, key, rndA, t.rndB))
      && s.1.sw1 == 0x91 && s.1.sw2 == 0x00
      && |s.1.data| == (if h.first then 32 else 16)
      && Cbc.Decrypted(aes, key, Zeros(16), s.1.data)
         == if h.first then t.ti + T.RotateLeft(rndA) + t.pdCap2 + h.pcdCap2 else T.RotateLeft(rndA)
  {
    hide Cbc.Encrypted, Cbc.Decrypted, DeriveAes, T.SessionAes;
    var key := t.keys[h.keyNo].key;
    var plain, body := rndA + T.RotateLeft(t.rndB), Part2Aes(aes, key, rndA, t.rndB);
    var answer := if h.first then t.ti + T.RotateLeft(rndA) + t.pdCap2 + h.pcdCap2 else T.RotateLeft(rndA);
    T.StepApdu(aes, t, 0xAF, 0, 0, body);
    Cbc.DecryptUndoesEncrypt(aes, key, Zeros(16), plain);
    assert plain[..16] == rndA && plain[16..] == T.RotateLeft(t.rndB);
    Cbc.DecryptUndoesEncrypt(aes, key, Zeros(16), answer);
  }

  /** The link is honest and the tag, in this mode, holds `key` at `keyNo`. */
  ghost predicate SharesKey(link: Link, lrp: bool, keyNo: byte, key: Block)
    reads link
    requires keyNo < 5
  {
    link.honest && link.tag.lrp == lrp && link.tag.keys[keyNo].key == key
  }

  /** One frame of a handshake and its answer: status word and length checked. */
  method Exchange(link: Link, ins: byte, body: seq<byte>, sw2: byte, len: nat) returns (r: Result<seq<byte>, SessionError>)
    requires |body| <= 255 && ins in {0x71, 0x77, 0xAF}
    modifies link
    ensures T.SameMemory(old(link.tag), link.tag)
    ensures r.Ok? ==> |r.value| == len
    ensures link.honest ==>
      var s := T.Step(link.aes, old(link.tag), Apdu(ins, 0x00, 0x00, body));
      && (r.Ok? ==> s == (link.tag, T.Reply(r.value, 0x91, sw2)))
      && (r.Err? && s.1.sw1 == 0x91 && s.1.sw2 == sw2 && |s.1.data| == len ==> r.error == TransportError)
  {
    hide T.Step, Apdu;
    HandshakeKeepsMemory(link.aes, link.tag, ins, body);
    var resp :- link.Transmit(Apdu(ins, 0x00, 0x00, body));
    if !(resp.sw1 == 0x91 && resp.sw2 == sw2) {
      return Err(ErrorResponse(resp.sw1, resp.sw2));
    }
    if |resp.data| != len {
      return Err(UnexpectedLength(|resp.data|, len));
    }
    return Result.Ok(resp.data);
  }

  /** What both AES handshakes begin with: RndB, deciphered from the first answer. */
  method FetchRndB(link: Link, first: bool, keyNo: byte, key: Block) returns (r: Result<Block, SessionError>)
    requires keyNo < 5
    modifies link
    ensures T.SameMemory(old(link.tag), link.tag)
    ensures old(SharesKey(link, false, keyNo, key)) && (first || old(link.tag).session.Some?) ==>
      && (r.Err? ==> r.error == TransportError)
      && (r.Ok? ==>
            && r.value == link.tag.rndB
            && link.tag == T.Drawn(old(link.tag)).(pending := Some(T.Handshake(first, keyNo, Zeros(6))),
                                          session := if first then None else old(link.tag).session))
    ensures link.honest && first && old(link.tag).lrp != false ==> r.Err?
    ensures link.honest && !first && old(link.tag).session.None? ==> r.Err?
  {
    hide Cbc.Encrypted, Cbc.Decrypted, T.Step;
    if link.honest && !first && link.tag.session.None? {
      NoSessionRefused(link.aes, link.tag, false, keyNo);
    }
    if link.honest && first && link.tag.lrp != false {
      WrongModeRefused(link.aes, link.tag, false, keyNo);
    }
    if SharesKey(link, false, keyNo, key) && (first || link.tag.session.Some?) {
      Part1Answer(link.aes, link.tag, first, keyNo);
      Cbc.DecryptUndoesEncrypt(link.aes, key, Zeros(16), T.Drawn(link.tag).rndB);
    }
    var enc :- Exchange(link, if first then 0x71 else 0x77, Part1(first, false, keyNo), 0xAF, 16);
    var rndB := AesDecrypt(link.aes, key, enc);
    return Result.Ok(rndB);
  }

  /** `authenticate_ev2_first`, AES */
  method FirstAes(link: Link, keyNo: byte, key: Block, rndA: Block) returns (r: Result<AuthResult, SessionError>)
    requires keyNo < 5
    modifies link
    ensures T.SameMemory(old(link.tag), link.tag)
    ensures old(SharesKey(link, false, keyNo, key)) ==>
      && (r.Err? ==> r.error == TransportError)
      && (r.Ok? ==>
            && r.value.suite == DeriveAes(link.aes, key, rndA, link.tag.rndB)
            && HasKeysAes(link.aes, key, rndA, link.tag.rndB, r.value.suite)
            && r.value.ti == link.tag.ti && r.value.pdCap2 == old(link.tag).pdCap2 && r.value.pcdCap2 == Zeros(6)
            && link.tag.session == Some(T.TagSession(keyNo, Channel(r.value.suite, r.value.ti, 0))))
    ensures link.honest && old(link.tag).lrp != false ==> r.Err?
  {
    hide Cbc.Encrypted, Cbc.Decrypted, DeriveAes, HasKeysAes, T.Step, T.IsTag, T.RotateLeft;
    ghost var agreed := SharesKey(link, false, keyNo, key);
    var rndB :- FetchRndB(link, true, keyNo, key);
    ghost var t := link.tag;
    if agreed {
      Part2AesAnswer(link.aes, link.tag, T.Handshake(true, keyNo, Zeros(6)), rndA);
    }
    var body := BuildPart2(link.aes, key, rndA, rndB);
    var enc :- Exchange(link, 0xAF, body, 0x00, 32);
    r := FinishAuth(link.aes, key, rndA, rndB, enc);
    if agreed {
      var resp := t.ti + T.RotateLeft(rndA) + t.pdCap2 + Zeros(6);
      assert resp[..4] == t.ti && resp[4..20] == T.RotateLeft(rndA) && resp[20..26] == t.pdCap2 && resp[26..32] == Zeros(6);
    }
  }

  /** `authenticate_ev2_non_first`, AES */
  method NonFirstAes(link: Link, keyNo: byte, key: Block, rndA: Block) returns (r: Result<Suite, SessionError>)
    requires keyNo < 5
    modifies link
    ensures T.SameMemory(old(link.tag), link.tag)
    ensures old(SharesKey(link, false, keyNo, key)) && old(link.tag).session.Some? ==>
      && (r.Err? ==> r.error == TransportError)
      && (r.Ok? ==>
            && r.value == DeriveAes(link.aes, key, rndA, link.tag.rndB)
            && HasKeysAes(link.aes, key, rndA, link.tag.rndB, r.value)
            && link.tag.session == Some(T.TagSession(keyNo, old(link.tag).session.value.ch.(suite := r.value))))
    ensures link.honest && old(link.tag).session.None? ==> r.Err?
  {
    hide Cbc.Encrypted, Cbc.Decrypted, DeriveAes, HasKeysAes, T.Step, T.IsTag, T.RotateLeft;
    ghost var agreed := SharesKey(link, false, keyNo, key) && link.tag.session.Some?;
    var rndB :- FetchRndB(link, false, keyNo, key);
    if agreed {
      Part2AesAnswer(link.aes, link.tag, T.Handshake(false, keyNo, Zeros(6)), rndA);
    }
    var body := BuildPart2(link.aes, key, rndA, rndB);
    var enc :- Exchange(link, 0xAF, body, 0x00, 16);
    r := FinishAuthNonFirst(link.aes, key, rndA, rndB, enc);
  }

  // ---------------------------------------------------------------- LRP

  /** `verify_and_extract_auth_result`: the deciphering steps EncCtr from 0 to 1. */
  method VerifyAndExtract(aes: Aes128, suite: Suite, rndA: Block, rndB: Block, piccData: Block, piccResponse: Block)
    returns (r: Result<AuthResult, SessionError>)
    requires suite.LrpSuite?
    ensures var plain := Decrypted(aes, suite, Response, Zeros(4), 0, piccData);
      if piccResponse == CmacLrp(aes, suite.macLrp, rndB + rndA + piccData) && plain[10..] == PCDCAP2
      then r == Result.Ok(AuthResult(Stepped(suite, 16), plain[..4], plain[4..10], PCDCAP2))
      else r == Err(AuthenticationMismatch)
  {
    hide Decrypted, CmacLrp, Stepped;
    var input := new byte[48](i => 0);
    var n := Append(input, 0, rndB);
    n := Append(input, n, rndA);
    n := Append(input, n, piccData);
    assert input[..] == input[..48] == rndB + rndA + piccData;
    if CmacLrp(aes, suite.macLrp, input[..]) != piccResponse {
      return Err(AuthenticationMismatch);
    }
    var buf := new byte[16](i requires 0 <= i < 16 => piccData[i]);
    assert buf[..] == piccData;
    var ok, stepped := Decrypt(aes, suite, Response, Zeros(4), 0, buf);
    var plain := buf[..];
    if plain[10..16] != PCDCAP2 {
      return Err(AuthenticationMismatch);
    }
    return Result.Ok(AuthResult(stepped, plain[..4], plain[4..10], plain[10..16]));
  }

  /** What both LRP handshakes begin with: RndB, sent in the clear after the mode byte. */
  method FetchRndBLrp(link: Link, first: bool, keyNo: byte, ghost key: Block) returns (r: Result<Block, SessionError>)
    requires keyNo < 5
    modifies link
    ensures T.SameMemory(old(link.tag), link.tag)
    ensures old(SharesKey(link, true, keyNo, key)) && (first || old(link.tag).session.Some?) ==>
      && (r.Err? ==> r.error == TransportError)
      && (r.Ok? ==>
            && r.value == link.tag.rndB
            && link.tag == T.Drawn(old(link.tag)).(pending := Some(T.Handshake(first, keyNo, Announced(first, true))),
                                          session := if first then None else old(link.tag).session))
    ensures link.honest && first && old(link.tag).lrp != true ==> r.Err?
    ensures link.honest && !first && old(link.tag).session.None? ==> r.Err?
  {
    hide T.Step;
    if link.honest && !first && link.tag.session.None? {
      NoSessionRefused(link.aes, link.tag, true, keyNo);
    }
    if link.honest && first && link.tag.lrp != true {
      WrongModeRefused(link.aes, link.tag, true, keyNo);
    }
    if SharesKey(link, true, keyNo, key) && (first || link.tag.session.Some?) {
      Part1Answer(link.aes, link.tag, first, keyNo);
      assert ([0x01] + T.Drawn(link.tag).rndB)[1..17] == T.Drawn(link.tag).rndB;
    }
    var data1 :- Exchange(link, if first then 0x71 else 0x77, Part1(first, true, keyNo), 0xAF, 17);
    if data1[0] != AUTH_MODE_LRP {
      return Err(AuthenticationMismatch);
    }
    return Result.Ok(data1[1..17]);
  }

  /** The second frame: RndA in the clear, and an untruncated MAC over both randoms. */
  function Part2Lrp(aes: Aes128, suite: Suite, rndA: Block, rndB: Block): (body: seq<byte>)
    requires suite.LrpSuite?
    ensures |body| == 32
  {
    rndA + CmacLrp(aes, suite.macLrp, rndA + rndB)
  }

  lemma Part2LrpAnswer(aes: Aes128, t: T.Tag, h: T.Handshake, rndA: Block)
    requires t.pending == Some(h) && t.lrp && (h.first || t.session.Some?)
    ensures var suite := DeriveLrp(aes, t.keys[h.keyNo].key, rndA, t.rndB);
      T.Step(aes, t, Apdu(0xAF, 0x00, 0x00, Part2Lrp(aes, suite, rndA, t.rndB))) == T.LrpAnswer(aes, t, h, suite, rndA)
  {
    hide DeriveLrp, T.SessionLrp, CmacLrp, T.LrpAnswer;
    var suite := DeriveLrp(aes, t.keys[h.keyNo].key, rndA, t.rndB);
    var body := Part2Lrp(aes, suite, rndA, t.rndB);
    T.StepApdu(aes, t, 0xAF, 0, 0, body);
    assert body[..16] == rndA && body[16..] == CmacLrp(aes, suite.macLrp, rndA + t.rndB);
  }

  /** The answer of a First handshake, as the host takes it apart. */
  lemma FirstLrpParses(aes: Aes128, t: T.Tag, h: T.Handshake, suite: Suite, rndA: Block)
    requires suite.LrpSuite? && h.first && h.pcdCap2 == PCDCAP2
    ensures var a := T.LrpAnswer(aes, t, h, suite, rndA).1.data;
      && |a| == 32 && a[16..] == CmacLrp(aes, suite.macLrp, t.rndB + rndA + a[..16])
      && Decrypted(aes, suite, Response, Zeros(4), 0, a[..16]) == t.ti + t.pdCap2 + PCDCAP2
  {
    hide CmacLrp, Encrypted, Decrypted, T.Established;
    var plain := t.ti + t.pdCap2 + PCDCAP2;
    var data := Encrypted(aes, suite, Response, t.ti, 0, plain);
    var a := data + CmacLrp(aes, suite.macLrp, t.rndB + rndA + data);
    assert a[..16] == data && a[16..] == CmacLrp(aes, suite.macLrp, t.rndB + rndA + data);
    DecryptUndoesEncrypt(aes, suite, Response, t.ti, 0, plain);
    LrpIgnoresTi(aes, suite, t.ti, data);
  }

  lemma LrpIgnoresTi(aes: Aes128, suite: Suite, ti: Ti, data: seq<byte>)
    requires suite.LrpSuite? && |data| % 16 == 0
    ensures Decrypted(aes, suite, Response, ti, 0, data) == Decrypted(aes, suite, Response, Zeros(4), 0, data)
  {
  }

  /** `authenticate_ev2_first`, LRP */
  method FirstLrp(link: Link, keyNo: byte, key: Block, rndA: Block) returns (r: Result<AuthResult, SessionError>)
    requires keyNo < 5
    modifies link
    ensures T.SameMemory(old(link.tag), link.tag)
    ensures old(SharesKey(link, true, keyNo, key)) ==>
      && (r.Err? ==> r.error == TransportError)
      && (r.Ok? ==>
            && r.value.suite == Stepped(DeriveLrp(link.aes, key, rndA, link.tag.rndB), 16) && r.value.suite.encCtr == 1
            && HasKeysLrp(link.aes, key, rndA, link.tag.rndB, r.value.suite)
            && r.value.ti == link.tag.ti && r.value.pdCap2 == old(link.tag).pdCap2 && r.value.pcdCap2 == PCDCAP2
            && link.tag.session == Some(T.TagSession(keyNo, Channel(r.value.suite, r.value.ti, 0))))
    ensures link.honest && old(link.tag).lrp != true ==> r.Err?
  {
    hide Decrypted, DeriveLrp, HasKeysLrp, T.Step, T.IsTag, CmacLrp, T.LrpAnswer;
    ghost var agreed := SharesKey(link, true, keyNo, key);
    var rndB :- FetchRndBLrp(link, true, keyNo, key);
    ghost var t := link.tag;
    var suite := DeriveLrpSuite(link.aes, key, rndA, rndB);
    ghost var h := T.Handshake(true, keyNo, PCDCAP2);
    if agreed {
      Part2LrpAnswer(link.aes, link.tag, h, rndA);
      FirstLrpParses(link.aes, link.tag, h, suite, rndA);
      FirstLrpState(link.aes, link.tag, h, suite, rndA);
    }
    var data2 :- Exchange(link, 0xAF, Part2Lrp(link.aes, suite, rndA, rndB), 0x00, 32);
    r := VerifyAndExtract(link.aes, suite, rndA, rndB, data2[..16], data2[16..]);
    if agreed {
      SteppedHasKeys(link.aes, key, rndA, rndB, suite, 16);
      var plain := t.ti + t.pdCap2 + PCDCAP2;
      assert plain[..4] == t.ti && plain[4..10] == t.pdCap2 && plain[10..] == PCDCAP2;
    }
  }

  lemma FirstLrpState(aes: Aes128, t: T.Tag, h: T.Handshake, suite: Suite, rndA: Block)
    requires suite.LrpSuite? && suite.encCtr == 0 && h.first && |h.pcdCap2| == 6
    ensures var s := T.LrpAnswer(aes, t, h, suite, rndA);
      && s.0.session == Some(T.TagSession(h.keyNo, Channel(Stepped(suite, 16), t.ti, 0)))
      && s.0.rndB == t.rndB && s.0.ti == t.ti && s.1.sw1 == 0x91 && s.1.sw2 == 0x00
      && Stepped(suite, 16).LrpSuite? && Stepped(suite, 16).encCtr == 1
  {
    hide Encrypted, CmacLrp;
  }

  /** `authenticate_ev2_non_first`, LRP: fresh keys start at EncCtr 0 again. */
  method NonFirstLrp(link: Link, keyNo: byte, key: Block, rndA: Block) returns (r: Result<Suite, SessionError>)
    requires keyNo < 5
    modifies link
    ensures T.SameMemory(old(link.tag), link.tag)
    ensures old(SharesKey(link, true, keyNo, key)) && old(link.tag).session.Some? ==>
      && (r.Err? ==> r.error == TransportError)
      && (r.Ok? ==>
            && r.value == DeriveLrp(link.aes, key, rndA, link.tag.rndB) && r.value.encCtr == 0
            && HasKeysLrp(link.aes, key, rndA, link.tag.rndB, r.value)
            && link.tag.session == Some(T.TagSession(keyNo, old(link.tag).session.value.ch.(suite := r.value))))
    ensures link.honest && old(link.tag).session.None? ==> r.Err?
  {
    hide DeriveLrp, HasKeysLrp, T.Step, T.IsTag, CmacLrp;
    ghost var agreed := SharesKey(link, true, keyNo, key) && link.tag.session.Some?;
    var rndB :- FetchRndBLrp(link, false, keyNo, key);
    var suite := DeriveLrpSuite(link.aes, key, rndA, rndB);
    if agreed {
      Part2LrpAnswer(link.aes, link.tag, T.Handshake(false, keyNo, Zeros(6)), rndA);
    }
    var piccResponse :- Exchange(link, 0xAF, Part2Lrp(link.aes, suite, rndA, rndB), 0x00, 16);
    if CmacLrp(link.aes, suite.macLrp, rndB + rndA) != piccResponse {
      return Err(AuthenticationMismatch);
    }
    return Result.Ok(suite);
  }
}
