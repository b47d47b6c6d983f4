/** Replacing application keys: commands/change_key.rs, against the tag's own key table. */
module KeyChange {
  import opened Wrappers
  import opened Octets
  import opened Aes
  import opened Blocks
  import opened Suite
  import opened Wire
  import opened Transport
  import opened SecureChannel
  import opened Exchange
  import T = Tag
  import Crc

  // ---------------------------------------------------------------- the cryptograms

  /** Case 1: the new key masked with the old one, its version, and its checksum. */
  function Masked(newKey: Block, oldKey: Block, version: byte): (m: seq<byte>)
    ensures |m| == 21
  {
    XorBytes(newKey, oldKey) + [version] + Crc.Crc32(newKey)
  }

  /** The key that a tag holding `current` gets to see under the mask. */
  function Unmasked(newKey: Block, oldKey: Block, current: Block): Block {
    XorBytes(XorBytes(newKey, oldKey), current)
  }

  /** Whether a tag holding `current` takes a key masked with `oldKey`: their difference has an empty register. */
  predicate Accepts(oldKey: Block, current: Block) {
    Crc.Register(0, XorBytes(oldKey, current)) == 0
  }

  /**
    What the tag makes of a Case 1 cryptogram, for every old key the host may have used: it takes
    the unmasked key exactly when the old and the current key differ by a string of empty register.
   */
  lemma UnwrapsExactly(newKey: Block, oldKey: Block, current: Block, version: byte)
    ensures T.UnwrapKey(Pad(Masked(newKey, oldKey, version)), current)
         == if Accepts(oldKey, current) then Some(T.KeySlot(Unmasked(newKey, oldKey, current), version)) else None
  {
    hide Crc.Register, Crc.Crc32, XorBytes, Strip;
    var m := Masked(newKey, oldKey, version);
    var plain := Pad(m);
    StripPad(m);
    assert plain[..16] == XorBytes(newKey, oldKey) && plain[16] == version;
    assert plain[17..21] == m[17..21] == Crc.Crc32(newKey);
    var key := Unmasked(newKey, oldKey, current);
    Crc.SameCrc(key, newKey);
    UnmaskedDifference(newKey, oldKey, current);
  }

  /** The unmasked key is off by exactly the difference between the old and the current key. */
  lemma UnmaskedDifference(newKey: Block, oldKey: Block, current: Block)
    ensures XorBytes(Unmasked(newKey, oldKey, current), newKey) == XorBytes(oldKey, current)
    ensures XorBytes(newKey, XorBytes(oldKey, current)) == Unmasked(newKey, oldKey, current)
  {
    hide XorBytes;
    var d := XorBytes(oldKey, current);
    XorBytesAssoc(newKey, oldKey, current);
    XorBytesComm(newKey, d);
    XorBytesCancel(d, newKey);
  }

  /** The right old key: exactly the new key goes in. */
  lemma RightOldKey(newKey: Block, key: Block)
    ensures Accepts(key, key) && Unmasked(newKey, key, key) == newKey
  {
    hide XorBytes, Crc.Register;
    XorBytesCancel(newKey, key);
    XorBytesZeros(key);
    XorBytesSelf(key);
    Crc.RegisterZeros(16);
  }

  lemma XorBytesSelf(a: seq<byte>)
    ensures XorBytes(a, a) == Zeros(|a|)
  {
    forall i | 0 <= i < |a| ensures XorBytes(a, a)[i] == 0 {
      XorSelf(a[i]);
    }
  }

  /** A wrong old key that is wrong only within four consecutive bytes is always refused. */
  lemma WrongOldKeyRefused(oldKey: Block, current: Block, at: nat)
    requires oldKey != current && at + 4 <= 16
    requires forall i :: 0 <= i < 16 && !(at <= i < at + 4) ==> oldKey[i] == current[i]
    ensures !Accepts(oldKey, current)
  {
    hide Crc.Register, Xor;
    var d := XorBytes(oldKey, current);
    forall i | 0 <= i < 16 && oldKey[i] == current[i] ensures d[i] == 0 {
      XorSelf(current[i]);
    }
    if Accepts(oldKey, current) {
      Crc.BurstDetected(d, at);
      assert d == Zeros(16);
      XorBytesCancel(oldKey, current);
      XorBytesZeros(current);
    }
  }

  /** Not every wrong old key is refused: for every key there is another one the tag takes for it. */
  lemma SomeWrongOldKeyAccepted(current: Block) returns (oldKey: Block)
    ensures oldKey != current && Accepts(oldKey, current)
    ensures forall newKey: Block :: Unmasked(newKey, oldKey, current) != newKey
  {
    hide Crc.Register, XorBytes, Unmasked;
    var head: seq<byte> := [1] + Zeros(11);
    var d: Block := head + Crc.Le32(Crc.Register(0, head));
    Crc.AppendedRegisterIsZero(0, head);
    oldKey := XorBytes(d, current);
    XorBytesCancel(d, current);
    forall newKey: Block ensures Unmasked(newKey, oldKey, current) != newKey {
      UnmaskedDifference(newKey, oldKey, current);
      XorBytesSelf(newKey);
      assert d[0] == 1 && Zeros(16)[0] == 0;
    }
    XorBytesSelf(current);
    assert d[0] == 1 && Zeros(16)[0] == 0;
  }

  // ---------------------------------------------------------------- the exchange

  function ChangeKeyApdu(aes: Aes128, ch: Channel, keyNo: byte, ct: seq<byte>): seq<byte>
    requires |ct| == 32
  {
    Apdu(0xC4, 0x00, 0x00, [keyNo] + ct + CommandMac(aes, ch, 0xC4, [keyNo] + ct))
  }

  /** Host and tag are in step, in a session opened with the master key. */
  ghost predicate MasterSession(state: Authenticated, link: Link)
    reads state, link
  {
    link.honest && InSync(state, link) && link.tag.session.value.keyNo == 0
  }

  function Answer(aes: Aes128, t: T.Tag, keyNo: byte, plain: seq<byte>): (T.Tag, T.Reply)
    requires t.session.Some? && keyNo < 5 && |plain| == 32
  {
    if keyNo == 0 then T.ChangeOwnKey(t, plain) else T.ChangeOtherKey(aes, t, t.session.value.ch, keyNo, plain)
  }

  lemma ChangeKeyAnswer(aes: Aes128, t: T.Tag, keyNo: byte, plain: seq<byte>)
    requires t.session.Some? && t.session.value.keyNo == 0 && keyNo < 5 && |plain| == 32
    ensures var ch := t.session.value.ch;
      var ct := Encrypted(aes, ch.suite, Command, ch.ti, ch.cmdCtr, plain);
      T.Step(aes, t, ChangeKeyApdu(aes, ch, keyNo, ct)) == Answer(aes, t, keyNo, plain)
  {
    hide T.Checked, Encrypted, Decrypted, T.ChangeKey, Answer, CommandMac;
    var ch := t.session.value.ch;
    var ct := Encrypted(aes, ch.suite, Command, ch.ti, ch.cmdCtr, plain);
    var payload := [keyNo] + ct;
    var body := payload + CommandMac(aes, ch, 0xC4, payload);
    DecryptUndoesEncrypt(aes, ch.suite, Command, ch.ti, ch.cmdCtr, plain);
    CheckedOwn(aes, t, 0xC4, payload);
    assert body[1..33] == ct && body[0] == keyNo;
    ChangeKeyBody(aes, t, keyNo, ct, body);
    T.StepApdu(aes, t, 0xC4, 0, 0, body);
  }

  lemma ChangeKeyBody(aes: Aes128, t: T.Tag, keyNo: byte, ct: seq<byte>, body: seq<byte>)
    requires t.session.Some? && t.session.value.keyNo == 0 && keyNo < 5 && |ct| == 32
    requires |body| == 41 && body[0] == keyNo && body[1..33] == ct && T.Checked(aes, t, 0xC4, body).Ok?
    ensures var ch := t.session.value.ch;
      T.ChangeKey(aes, t, body) == Answer(aes, t, keyNo, Decrypted(aes, ch.suite, Command, ch.ti, ch.cmdCtr, ct))
  {
    hide T.Checked, Decrypted, T.ChangeOwnKey, T.ChangeOtherKey;
  }

  /** A session that is gone or not the master key's, and a tag that takes no MAC of the host. */
  lemma KeyChangeRefused(aes: Aes128, t: T.Tag, host: Channel, keyNo: byte, ct: seq<byte>)
    requires |ct| == 32 && (Refuses(aes, t, host, 0xC4, [keyNo] + ct) || t.session.None? || t.session.value.keyNo != 0)
    ensures var s := T.Step(aes, t, ChangeKeyApdu(aes, host, keyNo, ct));
      s.0 == T.Fail(t, 0x00).0 && s.1.sw2 != 0x00
  {
    hide CommandMac, T.Checked, Refuses, Apdu;
    var payload := [keyNo] + ct;
    var mac := CommandMac(aes, host, 0xC4, payload);
    if Refuses(aes, t, host, 0xC4, payload) {
      DeafRefuses(aes, t, host, 0xC4, payload);
    } else {
      T.StepApdu(aes, t, 0xC4, 0, 0, payload + mac);
    }
  }

  function KeyPayload(aes: Aes128, ch: Channel, keyNo: byte, plain: seq<byte>): seq<byte>
    requires |plain| % 16 == 0
  {
    [keyNo] + Encrypted(aes, ch.suite, Command, ch.ti, ch.cmdCtr, plain)
  }

  /** The tag will not change a key for this host: see `KeyChangeRefused`. */
  ghost predicate NoMasterSession(state: Authenticated, link: Link, keyNo: byte, plain: seq<byte>)
    requires |plain| % 16 == 0
    reads state, link
  {
    && link.honest && state.aes == link.aes
    && (link.tag.session.None? || link.tag.session.value.keyNo != 0
        || Refuses(link.aes, link.tag, state.View(), 0xC4, KeyPayload(state.aes, state.View(), keyNo, plain)))
  }

  /** The plaintext has been enciphered, and the command's MAC computed. */
  ghost predicate SealedAndSent(b: Book, b': Book) {
    exists bytes :: b' == b.(sealed := b.sealed + [Use(b.turn, 0, [])], sent := b.sent + [Use(b.turn, 0xC4, bytes)])
  }

  lemma SentAndAnswered(b: Book, sent: Book, b': Book)
    requires SealedAndSent(b, sent) && Answered(sent, b', 0x00)
    ensures Acknowledged(b, b')
  {
  }

  /** The first half of `transmit`: enciphers `plaintext` in place and frames it. */
  method Seal(state: Authenticated, keyNo: byte, plaintext: array<byte>) returns (apdu: seq<byte>)
    requires plaintext.Length == 32
    modifies state`suite, state`book, plaintext
    ensures var ch := old(state.View());
      apdu == ChangeKeyApdu(state.aes, ch, keyNo, Encrypted(state.aes, ch.suite, Command, ch.ti, ch.cmdCtr, old(plaintext[..])))
    ensures state.suite == Stepped(old(state.suite), 32)
    ensures SealedAndSent(old(state.book), state.book)
  {
    hide Encrypted, Stepped, Apdu, Mac;
    ghost var ch := state.View();
    var aligned := EncryptCommand(state, plaintext);
    assert aligned.Ok?;
    var ct := plaintext[..];
    var mac := ComputeCmdMac(state, 0xC4, [keyNo], ct);
    MacStepped(state.aes, ch.suite, 32, MacInput(0xC4, ch.cmdCtr, ch.ti, [keyNo] + ct));
    apdu := Apdu(0xC4, 0x00, 0x00, [keyNo] + ct + mac);
  }

  /** Whether the host takes this answer: with a MAC in Case 1, empty in Case 2. */
  predicate IsGood(aes: Aes128, ch: Channel, reply: T.Reply, expectMact: bool) {
    && reply.sw1 == 0x91 && reply.sw2 == 0x00
    && if expectMact then Verified(aes, ch, 0x00, reply.data).Ok? else reply.data == []
  }

  /** The second half: sends it, and takes the answer of the given case. */
  method Conclude(state: Authenticated, link: Link, apdu: seq<byte>, expectMact: bool)
    returns (r: Result<(), SessionError>)
    modifies state`cmdCounter, state`book, link
    ensures link.log == old(link.log) + [apdu]
    ensures link.tag == old(link.tag) || link.tag == T.Step(link.aes, old(link.tag), apdu).0
    ensures link.honest ==>
      var s := T.Step(link.aes, old(link.tag), apdu);
      && (r.Ok? ==> link.tag == s.0 && IsGood(state.aes, old(state.View()), s.1, expectMact))
      && (r.Err? && IsGood(state.aes, old(state.View()), s.1, expectMact) ==> r.error == TransportError)
    ensures state.View() == if r.Ok? then Advance(old(state.View())) else old(state.View())
    ensures r.Ok? && expectMact ==> Answered(old(state.book), state.book, 0x00)
  {
    hide T.Step, Verified, Answered;
    var resp :- link.Transmit(apdu);
    if !(resp.sw1 == 0x91 && resp.sw2 == 0x00) {
      return Err(ErrorResponse(resp.sw1, resp.sw2));
    }
    if expectMact {
      var _ :- VerifyResponseMacAndAdvance(state, resp.sw2, resp.data);
    } else {
      if |resp.data| != 0 {
        return Err(UnexpectedLength(|resp.data|, 0));
      }
      state.AdvanceCounter();
    }
    return Result.Ok(());
  }

  lemma VerifiedStepped(aes: Aes128, ch: Channel, n: nat, body: seq<byte>)
    ensures Verified(aes, ch.(suite := Stepped(ch.suite, n)), 0x00, body) == Verified(aes, ch, 0x00, body)
  {
    hide Mac, Stepped;
    if |body| >= 8 {
      MacStepped(aes, ch.suite, n, MacInput(0x00, Next(ch.cmdCtr), ch.ti, body[..|body| - 8]));
    }
  }

  /** How the tag's key table relates to what it was, after a key change that did or did not arrive. */
  predicate Replaced(t: T.Tag, t': T.Tag, keyNo: byte, slot: T.KeySlot)
    requires keyNo < 5
  {
    t'.keys == t.keys[keyNo := slot] && t'.files == t.files
  }

  predicate Untouched(t: T.Tag, t': T.Tag) {
    t'.keys == t.keys && t'.files == t.files
  }

  // ---------------------------------------------------------------- Case 1

  /** The tag's answer to Case 1, for every old key the host may have used. */
  lemma OtherKeyEnds(aes: Aes128, t: T.Tag, keyNo: byte, newKey: Block, oldKey: Block, version: byte)
    requires t.session.Some? && t.session.value.keyNo == 0 && 0 < keyNo < 5
    ensures var ch, current := t.session.value.ch, t.keys[keyNo].key;
      var ct := Encrypted(aes, ch.suite, Command, ch.ti, ch.cmdCtr, Pad(Masked(newKey, oldKey, version)));
      var s := T.Step(aes, t, ChangeKeyApdu(aes, ch, keyNo, ct));
      if Accepts(oldKey, current) then
        && Replaced(t, s.0, keyNo, T.KeySlot(Unmasked(newKey, oldKey, current), version))
        && s.0.session == Some(T.TagSession(0, Advance(ch).(suite := Stepped(ch.suite, 32))))
        && IsGood(aes, ch, s.1, true)
      else s == T.Fail(t, 0x1E)
  {
    hide T.Step, ChangeKeyApdu, Encrypted, T.UnwrapKey, Unmasked, Accepts, Verified, Masked, Pad;
    var ch, current := t.session.value.ch, t.keys[keyNo].key;
    ChangeKeyAnswer(aes, t, keyNo, Pad(Masked(newKey, oldKey, version)));
    UnwrapsExactly(newKey, oldKey, current, version);
    VerifiedOwn(aes, ch, []);
    assert [] + ResponseMac(aes, ch, 0x00, []) == ResponseMac(aes, ch, 0x00, []);
  }

  /** The Case 1 plaintext, filled in field by field. */
  method FillMasked(plaintext: array<byte>, newKey: Block, oldKey: Block, version: byte)
    requires plaintext.Length == 32 && forall i :: 0 <= i < 32 ==> plaintext[i] == 0
    modifies plaintext
    ensures plaintext[..] == Pad(Masked(newKey, oldKey, version))
  {
    hide Xor;
    for i := 0 to 16
      invariant forall j :: 0 <= j < i ==> plaintext[j] == XorByte(newKey[j], oldKey[j])
      invariant forall j :: i <= j < 32 ==> plaintext[j] == 0
    {
      plaintext[i] := XorByte(newKey[i], oldKey[i]);
    }
    assert plaintext[..16] == XorBytes(newKey, oldKey);
    var crc := Crc.ComputeCrc32(newKey);
    var n := Append(plaintext, 16, [version]);
    n := Append(plaintext, n, crc);
    n := Append(plaintext, n, [0x80]);
    assert plaintext[..] == plaintext[..22] + Zeros(10);
  }

  /** `change_key` */
  method ChangeKey(state: Authenticated, link: Link, keyNo: byte, newKey: Block, version: byte, oldKey: Block)
    returns (r: Result<(), SessionError>)
    requires 0 < keyNo < 5
    modifies state`cmdCounter, state`book, state`suite, link
    ensures state.ti == old(state.ti) && state.cmdCounter == if r.Ok? then Next(old(state.cmdCounter)) else old(state.cmdCounter)
    ensures old(MasterSession(state, link)) ==>
      var current := old(link.tag).keys[keyNo].key;
      var slot := T.KeySlot(Unmasked(newKey, oldKey, current), version);
      && (r.Ok? ==> Accepts(oldKey, current) && MasterSession(state, link) && Replaced(old(link.tag), link.tag, keyNo, slot))
      && (r.Err? && Accepts(oldKey, current) ==> r.error == TransportError)
      && (r.Err? ==> Untouched(old(link.tag), link.tag)
                     || (Accepts(oldKey, current) && Replaced(old(link.tag), link.tag, keyNo, slot)))
    ensures r.Ok? && old(state.Orderly()) ==> state.Orderly()
    ensures old(NoMasterSession(state, link, keyNo, Pad(Masked(newKey, oldKey, version)))) ==> r.Err? && Untouched(old(link.tag), link.tag)
  {
    hide T.Step, Verified, Accepts, Encrypted, ChangeKeyApdu, Stepped, Refuses, IsOrderly, Acknowledged, Answered, SealedAndSent, Unmasked;
    ghost var refused := NoMasterSession(state, link, keyNo, Pad(Masked(newKey, oldKey, version)));
    if MasterSession(state, link) {
      OtherKeyEnds(state.aes, link.tag, keyNo, newKey, oldKey, version);
    }
    var plaintext := new byte[32](i => 0);
    FillMasked(plaintext, newKey, oldKey, version);
    ghost var ch := state.View();
    ghost var ct := Encrypted(state.aes, ch.suite, Command, ch.ti, ch.cmdCtr, plaintext[..]);
    ghost var book := state.book;
    var apdu := Seal(state, keyNo, plaintext);
    ghost var sent := state.book;
    GoodStepped(state.aes, ch, T.Step(link.aes, link.tag, apdu).1, true);
    if refused {
      KeyChangeRefused(state.aes, link.tag, ch, keyNo, ct);
    }
    r := Conclude(state, link, apdu, true);
    if r.Ok? {
      SentAndAnswered(book, sent, state.book);
      if old(state.Orderly()) {
        StaysOrderly(book, state.book, old(state.cmdCounter));
      }
    }
  }

  lemma GoodStepped(aes: Aes128, ch: Channel, reply: T.Reply, expectMact: bool)
    ensures IsGood(aes, ch.(suite := Stepped(ch.suite, 32)), reply, expectMact) == IsGood(aes, ch, reply, expectMact)
  {
    VerifiedStepped(aes, ch, 32, reply.data);
  }

  // ---------------------------------------------------------------- Case 2

  /** The tag's answer to Case 2: the new master key goes in, and the session is over. */
  lemma OwnKeyEnds(aes: Aes128, t: T.Tag, newKey: Block, version: byte)
    requires t.session.Some? && t.session.value.keyNo == 0
    ensures var ch := t.session.value.ch;
      var ct := Encrypted(aes, ch.suite, Command, ch.ti, ch.cmdCtr, Pad(newKey + [version]));
      var s := T.Step(aes, t, ChangeKeyApdu(aes, ch, 0, ct));
      && Replaced(t, s.0, 0, T.KeySlot(newKey, version)) && s.0.session.None?
      && IsGood(aes, ch, s.1, false)
  {
    hide T.Step, ChangeKeyApdu, Encrypted, Strip;
    var plain := Pad(newKey + [version]);
    ChangeKeyAnswer(aes, t, 0, plain);
    StripPad(newKey + [version]);
    assert plain[..16] == newKey && plain[16] == version;
  }

  /** `change_master_key`: the counter advances, but the session keys are spent. */
  method ChangeMasterKey(state: Authenticated, link: Link, newKey: Block, version: byte)
    returns (r: Result<(), SessionError>)
    modifies state`cmdCounter, state`book, state`suite, link
    ensures state.ti == old(state.ti) && state.cmdCounter == if r.Ok? then Next(old(state.cmdCounter)) else old(state.cmdCounter)
    ensures old(MasterSession(state, link)) ==>
      var slot := T.KeySlot(newKey, version);
      && (r.Ok? ==> Replaced(old(link.tag), link.tag, 0, slot) && link.tag.session.None?)
      && (r.Err? ==> r.error == TransportError)
      && (r.Err? ==> Untouched(old(link.tag), link.tag) || Replaced(old(link.tag), link.tag, 0, slot))
    ensures old(NoMasterSession(state, link, 0, Pad(newKey + [version]))) ==> r.Err? && Untouched(old(link.tag), link.tag)
  {
    hide T.Step, Verified, Encrypted, ChangeKeyApdu, Stepped, Refuses, SealedAndSent;
    ghost var refused, ch := NoMasterSession(state, link, 0, Pad(newKey + [version])), state.View();
    if MasterSession(state, link) {
      OwnKeyEnds(state.aes, link.tag, newKey, version);
    }
    var plaintext := new byte[32](i => 0);
    var n := Append(plaintext, 0, newKey);
    n := Append(plaintext, n, [version]);
    n := Append(plaintext, n, [0x80]);
    assert plaintext[..] == plaintext[..18] + Zeros(14) == Pad(newKey + [version]);
    ghost var ct := Encrypted(state.aes, ch.suite, Command, ch.ti, ch.cmdCtr, plaintext[..]);
    var apdu := Seal(state, 0, plaintext);
    GoodStepped(state.aes, ch, T.Step(link.aes, link.tag, apdu).1, false);
    if refused {
      KeyChangeRefused(state.aes, link.tag, ch, 0, ct);
    }
    r := Conclude(state, link, apdu, false);
  }
}
