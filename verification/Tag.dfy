/**
  An honest NTAG 424 DNA, as NT4H2421Gx sections 9.1, 9.2 and 10 describe it: application keys,
  files, one secure-messaging session, and one step per APDU. The host code is verified against it.
 */
module Tag {
  import opened Wrappers
  import opened Octets
  import opened Aes
  import opened Suite
  import opened Wire
  import Cbc
  import Lrp
  import Cmac
  import Crc

  datatype CommMode = Plain | Mac | Full

  datatype File = File(mode: CommMode, data: seq<byte>)

  datatype KeySlot = KeySlot(key: Block, version: byte)

  datatype TagSession = TagSession(keyNo: byte, ch: Channel)

  /** A handshake between its two parts. */
  datatype Handshake = Handshake(first: bool, keyNo: byte, pcdCap2: seq<byte>)

  /** What the tag draws at random for one handshake. */
  datatype Draw = Draw(rndB: Block, ti: Ti)

  datatype TagState = TagState(
    lrp: bool,
    keys: seq<KeySlot>,
    files: map<byte, File>,
    session: Option<TagSession>,
    pending: Option<Handshake>,
    selected: Option<byte>,
    rndB: Block,
    ti: Ti,
    draws: nat -> Draw,
    drawn: nat,
    pdCap2: seq<byte>,
    shortReads: bool)

  /**
    Five keys, a 3-byte file size, 6-byte capability strings. `rndB` and `ti` were drawn at the
    last first part of a handshake; any sequence of draws may come. `shortReads` says whether a read past the end is cut short or refused.
   */
  predicate IsTag(t: TagState) {
    && |t.keys| == 5
    && (forall f :: f in t.files ==> |t.files[f].data| < 0x100_0000)
    && |t.pdCap2| == 6
    && (t.pending.Some? ==> t.pending.value.keyNo < 5 && |t.pending.value.pcdCap2| == 6)
  }

  type Tag = t: TagState | IsTag(t)
    witness TagState(false, seq(5, i => KeySlot(Zeros(16), 0)), map[], None, None, None, Zeros(16), Zeros(4), n => Draw(Zeros(16), Zeros(4)), 0, Zeros(6), false)

  datatype Reply = Reply(data: seq<byte>, sw1: byte, sw2: byte)

  function Fail(t: Tag, sw2: byte): (Tag, Reply) {
    (t.(session := None, pending := None), Reply([], 0x91, sw2))
  }

  function Accept(t: Tag, data: seq<byte>): (Tag, Reply) {
    (t, Reply(data, 0x91, 0x00))
  }

  function WithChannel(t: Tag, ch: Channel): Tag
    requires t.session.Some?
  {
    t.(session := Some(t.session.value.(ch := ch)))
  }

  /** The session channel, if the last eight bytes of `body` are its MAC over the rest. */
  function Checked(aes: Aes128, t: Tag, ins: byte, body: seq<byte>): (r: Result<Channel, byte>)
    ensures if r.Ok? then t.session.Some? && r.value == t.session.value.ch else r.error != 0x00
  {
    if t.session.None? then Err(0xAE)
    else if |body| < 8 then Err(0x7E)
    else
      var ch := t.session.value.ch;
      var n := |body| - 8;
      if body[n..] != CommandMac(aes, ch, ins, body[..n]) then Err(0x1E) else Result.Ok(ch)
  }

  // ---------------------------------------------------------------- ReadData (10.8.1)

  /** The bytes a read returns, if it is within bounds and within the response limit. */
  function ReadRange(data: seq<byte>, offset: nat, length: nat, shortReads: bool, cap: nat): (r: Option<seq<byte>>)
    ensures r.Some? ==> |r.value| <= cap
  {
    if offset > |data| then None
    else
      var avail := |data| - offset;
      if length > avail && !shortReads then None
      else
        var n := if length == 0 || length > avail then avail else length;
        if n > cap then None else Some(data[offset..offset + n])
  }

  function ReadMac(aes: Aes128, t: Tag, ch: Channel, data: seq<byte>): (r: (Tag, Reply))
    requires t.session.Some? && |data| <= 248
    ensures |r.1.data| <= 256
  {
    Accept(WithChannel(t, Advance(ch)), data + ResponseMac(aes, ch, 0x00, data))
  }

  function ReadFull(aes: Aes128, t: Tag, ch: Channel, data: seq<byte>): (r: (Tag, Reply))
    requires t.session.Some? && |data| <= 239
    ensures |r.1.data| <= 256
  {
    var ct := Encrypted(aes, ch.suite, Response, ch.ti, Next(ch.cmdCtr), Pad(data));
    Accept(WithChannel(t, Advance(ch).(suite := Stepped(ch.suite, |ct|))), ct + ResponseMac(aes, ch, 0x00, ct))
  }

  function Read(aes: Aes128, t: Tag, body: seq<byte>): (r: (Tag, Reply))
    ensures |r.1.data| <= 256
  {
    if |body| < 7 then Fail(t, 0x7E)
    else if body[0] !in t.files then Fail(t, 0xF0)
    else
      var file := t.files[body[0]];
      var offset, length := FromLe24(body[1..4]), FromLe24(body[4..7]);
      if file.mode.Plain? then
        if |body| != 7 then Fail(t, 0x7E)
        else
          var r := ReadRange(file.data, offset, length, t.shortReads, 256);
          if r.None? then Fail(t, 0xBE) else Accept(PlainDone(t), r.value)
      else if |body| != 15 then Fail(t, 0x7E)
      else
        var ch := Checked(aes, t, 0xAD, body);
        if ch.Err? then Fail(t, ch.error)
        else
          var r := ReadRange(file.data, offset, length, t.shortReads, if file.mode.Mac? then 248 else 239);
          if r.None? then Fail(t, 0xBE)
          else if file.mode.Mac? then ReadMac(aes, t, ch.value, r.value)
          else ReadFull(aes, t, ch.value, r.value)
  }

  /** A plain command inside an active session still advances CmdCtr. */
  function PlainDone(t: Tag): Tag {
    if t.session.None? then t else WithChannel(t, Advance(t.session.value.ch))
  }

  // ---------------------------------------------------------------- WriteData (10.8.2)

  function Stored(t: Tag, fileNo: byte, offset: nat, data: seq<byte>): Tag
    requires fileNo in t.files && offset + |data| <= |t.files[fileNo].data|
  {
    var f := t.files[fileNo];
    t.(files := t.files[fileNo := f.(data := Splice(f.data, offset, data))])
  }

  /** What a write carries, by communication mode: the file bytes and the suite afterwards. */
  function WritePayload(aes: Aes128, ch: Channel, mode: CommMode, sent: seq<byte>): Option<(seq<byte>, Suite)> {
    if mode.Mac? then Some((sent, ch.suite))
    else if |sent| == 0 || |sent| % 16 != 0 then None
    else
      var pt := Decrypted(aes, ch.suite, Command, ch.ti, ch.cmdCtr, sent);
      var n := Strip(pt);
      if n.None? then None else Some((pt[..n.value], Stepped(ch.suite, |sent|)))
  }

  function Write(aes: Aes128, t: Tag, body: seq<byte>): (r: (Tag, Reply))
    ensures |r.1.data| <= 256
  {
    if |body| < 7 then Fail(t, 0x7E)
    else if body[0] !in t.files then Fail(t, 0xF0)
    else
      var file := t.files[body[0]];
      var offset, length := FromLe24(body[1..4]), FromLe24(body[4..7]);
      if file.mode.Plain? then
        if |body| - 7 != length || length == 0 then Fail(t, 0x7E)
        else if offset + length > |file.data| then Fail(t, 0xBE)
        else Accept(PlainDone(Stored(t, body[0], offset, body[7..])), [])
      else if |body| < 15 then Fail(t, 0x7E)
      else
        var ch := Checked(aes, t, 0x8D, body);
        if ch.Err? then Fail(t, ch.error)
        else
          var p := WritePayload(aes, ch.value, file.mode, body[7..|body| - 8]);
          if p.None? then Fail(t, 0x1E)
          else if |p.value.0| != length || length == 0 then Fail(t, 0x7E)
          else if offset + length > |file.data| then Fail(t, 0xBE)
          else
            Accept(WithChannel(Stored(t, body[0], offset, p.value.0), Advance(ch.value).(suite := p.value.1)),
                   ResponseMac(aes, ch.value, 0x00, []))
  }

  // ---------------------------------------------------------------- ChangeKey (10.6.1)

  /** The key a Case 1 cryptogram installs over `current`, if its checksum and padding are right. */
  function UnwrapKey(plain: seq<byte>, current: Block): Option<KeySlot>
    requires |plain| == 32
  {
    var key: Block := XorBytes(plain[..16], current);
    if Strip(plain) == Some(21) && plain[17..21] == Crc.Crc32(key) then Some(KeySlot(key, plain[16])) else None
  }

  /** Case 2, the key of the session itself: no response MAC, and the session is over. */
  function ChangeOwnKey(t: Tag, plain: seq<byte>): (Tag, Reply)
    requires |plain| == 32
  {
    if Strip(plain) != Some(17) then Fail(t, 0x1E)
    else Accept(t.(keys := t.keys[0 := KeySlot(plain[..16], plain[16])], session := None), [])
  }

  function ChangeOtherKey(aes: Aes128, t: Tag, ch: Channel, keyNo: byte, plain: seq<byte>): (Tag, Reply)
    requires |plain| == 32 && keyNo < 5 && t.session.Some?
  {
    var slot := UnwrapKey(plain, t.keys[keyNo].key);
    if slot.None? then Fail(t, 0x1E)
    else
      Accept(WithChannel(t.(keys := t.keys[keyNo := slot.value]), Advance(ch).(suite := Stepped(ch.suite, 32))),
             ResponseMac(aes, ch, 0x00, []))
  }

  function ChangeKey(aes: Aes128, t: Tag, body: seq<byte>): (r: (Tag, Reply))
    ensures |r.1.data| <= 256
  {
    if t.session.None? || t.session.value.keyNo != 0 then Fail(t, 0xAE)
    else if |body| != 41 then Fail(t, 0x7E)
    else if body[0] >= 5 then Fail(t, 0x40)
    else
      var ch := Checked(aes, t, 0xC4, body);
      if ch.Err? then Fail(t, ch.error)
      else
        var plain := Decrypted(aes, ch.value.suite, Command, ch.value.ti, ch.value.cmdCtr, body[1..33]);
        if body[0] == 0 then ChangeOwnKey(t, plain) else ChangeOtherKey(aes, t, ch.value, body[0], plain)
  }

  // ---------------------------------------------------------------- authentication (9.1.5 .. 9.2.6, 10.4)

  function RotateLeft(b: Block): (r: Block)
    ensures r == [b[1], b[2], b[3], b[4], b[5], b[6], b[7], b[8], b[9], b[10], b[11], b[12], b[13], b[14], b[15], b[0]]
  {
    b[1..] + [b[0]]
  }

  /**
    The tag's own session keys: SV1 for encryption and SV2 for MACs of section 9.1.7, written out on its
    side. They are the host's.
   */
  function SessionAes(aes: Aes128, kx: Block, rndA: Block, rndB: Block): (s: Suite)
    ensures s == DeriveAes(aes, kx, rndA, rndB)
  {
    var mixed := rndA[..2] + XorBytes(rndA[2..8], rndB[..6]) + rndB[6..] + rndA[8..];
    var sv1, sv2 := [0xA5, 0x5A, 0x00, 0x01, 0x00, 0x80] + mixed, [0x5A, 0xA5, 0x00, 0x01, 0x00, 0x80] + mixed;
    assert sv1 == SessionVectorAes([0xA5, 0x5A], rndA, rndB) && sv2 == SessionVectorAes([0x5A, 0xA5], rndA, rndB) by {
      hide XorBytes;
      assert [0xA5, 0x5A, 0x00, 0x01, 0x00, 0x80] == [0xA5, 0x5A] + [0x00, 0x01, 0x00, 0x80];
      assert [0x5A, 0xA5, 0x00, 0x01, 0x00, 0x80] == [0x5A, 0xA5] + [0x00, 0x01, 0x00, 0x80];
    }
    AesSuite(encKey := CmacAes(aes, kx, sv1), macKey := CmacAes(aes, kx, sv2))
  }

  /** The same in LRP mode (sections 9.2.6 and 9.2.7): SPT of the master key with UK[0] for MACs and UK[1] for encryption. */
  function SessionLrp(aes: Aes128, kx: Block, rndA: Block, rndB: Block): (s: Suite)
    ensures s == DeriveLrp(aes, kx, rndA, rndB)
  {
    var mixed := rndA[..2] + XorBytes(rndA[2..8], rndB[..6]) + rndB[6..] + rndA[8..];
    var sv := [0x00, 0x01, 0x00, 0x80] + mixed + [0x96, 0x69];
    var master := CmacLrp(aes, Lrp.FromBaseKey(aes, kx), sv);
    var h := aes.enc(master, seq(16, i => 0xAA));
    var uk0, uk1 := aes.enc(h, seq(16, i => 0xAA)), aes.enc(aes.enc(h, seq(16, i => 0x55)), seq(16, i => 0xAA));
    SameAsDerived(aes, kx, rndA, rndB, sv, uk0, uk1);
    var spt := Lrp.Plaintexts(aes, master);
    LrpSuite(macLrp := Lrp.Parts(spt, uk0), encLrp := Lrp.Parts(spt, uk1), encCtr := 0)
  }

  lemma SameAsDerived(aes: Aes128, kx: Block, rndA: Block, rndB: Block, sv: seq<byte>, uk0: Block, uk1: Block)
    requires sv == [0x00, 0x01, 0x00, 0x80] + (rndA[..2] + XorBytes(rndA[2..8], rndB[..6]) + rndB[6..] + rndA[8..]) + [0x96, 0x69]
    requires var h := aes.enc(CmacLrp(aes, Lrp.FromBaseKey(aes, kx), sv), seq(16, i => 0xAA));
      && uk0 == aes.enc(h, seq(16, i => 0xAA)) && uk1 == aes.enc(aes.enc(h, seq(16, i => 0x55)), seq(16, i => 0xAA))
    ensures var spt := Lrp.Plaintexts(aes, CmacLrp(aes, Lrp.FromBaseKey(aes, kx), sv));
      DeriveLrp(aes, kx, rndA, rndB) == LrpSuite(Lrp.Parts(spt, uk0), Lrp.Parts(spt, uk1), 0)
  {
    hide XorBytes, Lrp.Plaintexts, LrpPair, CmacLrp, Lrp.FromBaseKey;
    assert sv == SessionVectorLrp(rndA, rndB);
    PairIs(aes, CmacLrp(aes, Lrp.FromBaseKey(aes, kx), sv));
    assert seq(16, i => 0xAA) == Lrp.Fill(0xAA) && seq(16, i => 0x55) == Lrp.Fill(0x55);
  }

  function MacFull(aes: Aes128, s: Suite, data: seq<byte>): Block
    requires s.LrpSuite?
  {
    CmacLrp(aes, s.macLrp, data)
  }

  /** `body` is `KeyNo || LenCap || PCDcap2` for First, `KeyNo` for NonFirst. */
  function AuthPart1(aes: Aes128, t: Tag, first: bool, body: seq<byte>): (r: (Tag, Reply))
    ensures |r.1.data| <= 256
  {
    if |body| == 0 || (if first then |body| < 2 || |body| - 2 != body[1] || body[1] > 6 else |body| != 1) then Fail(t, 0x7E)
    else if body[0] >= 5 then Fail(t, 0x40)
    else if !first && t.session.None? then Fail(t, 0xAE)
    else if first && t.lrp != (|body| > 2 && body[2] / 2 % 2 == 1) then Fail(t, 0x9D)
    else
      var cap: seq<byte> := if first then body[2..] + Zeros(8 - |body|) else Zeros(6);
      var t' := Drawn(t).(pending := Some(Handshake(first, body[0], cap)));
      (if first then t'.(session := None) else t',
       Reply(if t.lrp then [0x01] + t'.rndB else Cbc.Encrypted(aes, t.keys[body[0]].key, Zeros(16), t'.rndB),
                0x91, 0xAF))
  }

  function Drawn(t: Tag): Tag {
    var d := t.draws(t.drawn);
    t.(rndB := d.rndB, ti := d.ti, drawn := t.drawn + 1)
  }

  /** The session a completed handshake leaves: First takes a fresh TI, NonFirst keeps TI and CmdCtr. */
  function Established(t: Tag, h: Handshake, suite: Suite): (t': Tag)
    requires h.first || t.session.Some?
  {
    var ch := if h.first then Channel(suite, t.ti, 0)
              else Channel(suite, t.session.value.ch.ti, t.session.value.ch.cmdCtr);
    t.(session := Some(TagSession(h.keyNo, ch)), pending := None)
  }

  function AuthPart2Aes(aes: Aes128, t: Tag, h: Handshake, body: seq<byte>): (r: (Tag, Reply))
    requires h.keyNo < 5 && |h.pcdCap2| == 6 && (h.first || t.session.Some?) && |body| == 32
    ensures |r.1.data| <= 256
  {
    var key := t.keys[h.keyNo].key;
    var plain := Cbc.Decrypted(aes, key, Zeros(16), body);
    var rndA: Block := plain[..16];
    if plain[16..] != RotateLeft(t.rndB) then Fail(t, 0xAE)
    else
      var answer := if h.first then t.ti + RotateLeft(rndA) + t.pdCap2 + h.pcdCap2 else RotateLeft(rndA);
      Accept(Established(t, h, SessionAes(aes, key, rndA, t.rndB)), Cbc.Encrypted(aes, key, Zeros(16), answer))
  }

  function LrpAnswer(aes: Aes128, t: Tag, h: Handshake, suite: Suite, rndA: Block): (r: (Tag, Reply))
    requires suite.LrpSuite? && |h.pcdCap2| == 6 && (h.first || t.session.Some?)
    ensures |r.1.data| <= 256
  {
    if h.first then
      var data := Encrypted(aes, suite, Response, t.ti, 0, t.ti + t.pdCap2 + h.pcdCap2);
      Accept(Established(t, h, Stepped(suite, 16)), data + MacFull(aes, suite, t.rndB + rndA + data))
    else
      Accept(Established(t, h, suite), MacFull(aes, suite, t.rndB + rndA))
  }

  function AuthPart2Lrp(aes: Aes128, t: Tag, h: Handshake, body: seq<byte>): (r: (Tag, Reply))
    requires h.keyNo < 5 && |h.pcdCap2| == 6 && (h.first || t.session.Some?) && |body| == 32
    ensures |r.1.data| <= 256
  {
    var rndA: Block := body[..16];
    var suite := SessionLrp(aes, t.keys[h.keyNo].key, rndA, t.rndB);
    if body[16..] != MacFull(aes, suite, rndA + t.rndB) then Fail(t, 0xAE) else LrpAnswer(aes, t, h, suite, rndA)
  }

  function AuthPart2(aes: Aes128, t: Tag, body: seq<byte>): (r: (Tag, Reply))
    ensures |r.1.data| <= 256
  {
    if t.pending.None? then Fail(t, 0xCA)
    else if |body| != 32 then Fail(t, 0x7E)
    else
      var h := t.pending.value;
      if !h.first && t.session.None? then Fail(t, 0xAE)
      else if t.lrp then AuthPart2Lrp(aes, t, h, body)
      else AuthPart2Aes(aes, t, h, body)
  }

  // ---------------------------------------------------------------- ISO commands (10.9)

  const NDEF_APPLICATION_DF_NAME: seq<byte> := [0xD2, 0x76, 0x00, 0x00, 0x85, 0x01, 0x01]

  /** The file behind an EF identifier, E103h to E105h. */
  function FileOf(fid: nat): Option<byte> {
    if 0xE103 <= fid <= 0xE105 then Some(fid - 0xE102) else None
  }

  function IsoRefuse(t: Tag, sw1: byte, sw2: byte): (Tag, Reply) {
    (t, Reply([], sw1, sw2))
  }

  /** Selecting the application ends any session; selecting an EF says which file ISO commands mean. */
  function IsoSelect(t: Tag, apdu: seq<byte>): (Tag, Reply)
    requires |apdu| >= 5
  {
    if apdu[2..] == [0x04, 0x00, 0x07] + NDEF_APPLICATION_DF_NAME + [0x00] then
      (t.(session := None, pending := None, selected := None), Reply([], 0x90, 0x00))
    else if |apdu| == 7 && apdu[2..5] == [0x00, 0x0C, 0x02] && FileOf(FromBe16(apdu[5..7])).Some? then
      (t.(selected := FileOf(FromBe16(apdu[5..7]))), Reply([], 0x90, 0x00))
    else IsoRefuse(t, 0x6A, 0x82)
  }

  /** ISO reads and updates work on the selected file, outside a session, in plain only. */
  predicate IsoAllowed(t: Tag, apdu: seq<byte>)
    requires |apdu| >= 5
  {
    && t.session.None? && t.selected.Some? && t.selected.value in t.files
    && t.files[t.selected.value].mode.Plain? && apdu[2] < 0x80
  }

  function IsoRead(t: Tag, apdu: seq<byte>): (r: (Tag, Reply))
    requires |apdu| >= 5
    ensures |r.1.data| <= 256
  {
    if !IsoAllowed(t, apdu) || |apdu| != 5 then IsoRefuse(t, 0x69, 0x82)
    else
      var data, offset := t.files[t.selected.value].data, FromBe16(apdu[2..4]);
      if offset > |data| then IsoRefuse(t, 0x6B, 0x00)
      else
        var le: nat := if apdu[4] == 0 then 256 else apdu[4];
        (t, Reply(data[offset..offset + Min(le, |data| - offset)], 0x90, 0x00))
  }

  function IsoUpdate(t: Tag, apdu: seq<byte>): (Tag, Reply)
    requires |apdu| >= 5
  {
    if !IsoAllowed(t, apdu) || |apdu| != 5 + apdu[4] as nat || apdu[4] == 0 then IsoRefuse(t, 0x69, 0x82)
    else
      var offset := FromBe16(apdu[2..4]);
      if offset + (|apdu| - 5) > |t.files[t.selected.value].data| then IsoRefuse(t, 0x6B, 0x00)
      else (Stored(t, t.selected.value, offset, apdu[5..]), Reply([], 0x90, 0x00))
  }

  function IsoStep(t: Tag, apdu: seq<byte>): (r: (Tag, Reply))
    requires |apdu| >= 5
    ensures |r.1.data| <= 256
  {
    if apdu[1] == 0xA4 then IsoSelect(t, apdu)
    else if apdu[1] == 0xB0 then IsoRead(t, apdu)
    else if apdu[1] == 0xD6 then IsoUpdate(t, apdu)
    else IsoRefuse(t, 0x6D, 0x00)
  }

  // ---------------------------------------------------------------- one APDU

  function Dispatch(aes: Aes128, t: Tag, ins: byte, body: seq<byte>): (r: (Tag, Reply))
    ensures |r.1.data| <= 256
  {
    if ins == 0xAD then Read(aes, t, body)
    else if ins == 0x8D then Write(aes, t, body)
    else if ins == 0xC4 then ChangeKey(aes, t, body)
    else if ins == 0x71 then AuthPart1(aes, t, true, body)
    else if ins == 0x77 then AuthPart1(aes, t, false, body)
    else if ins == 0xAF then AuthPart2(aes, t, body)
    else Fail(t, 0x1C)
  }

  function Step(aes: Aes128, t: Tag, apdu: seq<byte>): (r: (Tag, Reply))
    ensures |r.1.data| <= 256
  {
    if |apdu| >= 5 && apdu[0] == 0x00 then IsoStep(t, apdu)
    else if !IsFramed(apdu) || apdu[0] != 0x90 then Fail(t, 0x7E)
    else Dispatch(aes, t, apdu[1], Body(apdu))
  }

  lemma StepApdu(aes: Aes128, t: Tag, ins: byte, p1: byte, p2: byte, body: seq<byte>)
    requires |body| <= 255
    ensures Step(aes, t, Apdu(ins, p1, p2, body)) == Dispatch(aes, t, ins, body)
  {
    ApduFrames(ins, p1, p2, body);
  }

  // ---------------------------------------------------------------- what steps keep

  predicate SameMemory(t: Tag, t': Tag) {
    t'.keys == t.keys && t'.files == t.files && t'.shortReads == t.shortReads && t'.lrp == t.lrp
  }

  /** The tag has counted `n` commands in its session, if it has one, and is otherwise where it was. */
  predicate Counts(t: Tag, t': Tag, n: nat) {
    t'.session == if t.session.None? then None
                  else Some(t.session.value.(ch := t.session.value.ch.(cmdCtr := Counted(t.session.value.ch.cmdCtr, n))))
  }

  lemma CountsNone(t: Tag)
    ensures Counts(t, t, 0)
  {
    if t.session.Some? {
      CountedOnce(t.session.value.ch.cmdCtr, 0);
    }
  }

  lemma CountsOneMore(t: Tag, at: Tag, t': Tag, n: nat)
    requires Counts(t, at, n) && Counts(at, t', 1)
    ensures Counts(t, t', n + 1)
  {
    if t.session.Some? {
      CountedSum(t.session.value.ch.cmdCtr, n, 1);
    }
  }

  lemma PlainDoneCounts(t: Tag)
    ensures Counts(t, PlainDone(t), 1)
  {
    if t.session.Some? {
      CountedOnce(t.session.value.ch.cmdCtr, 0);
    }
  }

  lemma ReadsKeepMemory(aes: Aes128, t: Tag, apdu: seq<byte>)
    requires IsFramed(apdu) && apdu[1] == 0xAD
    ensures SameMemory(t, Step(aes, t, apdu).0)
  {
    hide Checked, ReadRange, ResponseMac, Encrypted, Pad, Stepped, PaddedLen;
    assert apdu[0] == 0x00 || Step(aes, t, apdu).0 == Fail(t, 0x7E).0 || Step(aes, t, apdu) == Read(aes, t, Body(apdu));
  }

  /** Nothing but `data` at `offset` of one file has changed. */
  predicate Wrote(t: Tag, t': Tag, fileNo: byte, offset: nat, data: seq<byte>) {
    && fileNo in t.files && offset + |data| <= |t.files[fileNo].data|
    && SameMemory(Stored(t, fileNo, offset, data), t')
  }

  /** Two writes one after the other are one write of both. */
  lemma WroteTwice(t: Tag, t': Tag, t'': Tag, fileNo: byte, offset: nat, a: seq<byte>, b: seq<byte>)
    requires Wrote(t, t', fileNo, offset, a) && Wrote(t', t'', fileNo, offset + |a|, b)
    ensures Wrote(t, t'', fileNo, offset, a + b)
  {
    SpliceTwice(t.files[fileNo].data, offset, a, b);
    assert t''.files == Stored(t, fileNo, offset, a + b).files;
  }
}
