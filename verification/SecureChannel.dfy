/** The host end: session state (session/authenticated.rs) and framing (commands/secure_channel.rs). */
module SecureChannel {
  import opened Wrappers
  import opened Octets
  import opened Aes
  import opened Blocks
  import opened Suite
  import opened Wire
  import opened Transport
  import T = Tag

  const MAC_LEN := 8
  const MAX_APDU_BODY := 255
  const MAC_INPUT_CAP := 1 + 2 + 4 + MAX_APDU_BODY
  const MAX_RESPONSE_DATA := MAX_APDU_BODY - MAC_LEN

  class Authenticated {
    const aes: Aes128
    var suite: Suite
    var ti: Ti
    var keyNumber: byte
    var cmdCounter: u16
    ghost var book: Book

    /** The book is in order, and the counter shows its turn. */
    ghost predicate Orderly()
      reads this
    {
      IsOrderly(book) && cmdCounter == Counted(0, book.turn)
    }

    /** The state the secure channel runs on. */
    function View(): Channel
      reads this
    {
      Channel(suite, ti, cmdCounter)
    }

    /** `with_auth_result`: a First handshake starts at CmdCtr 0. */
    constructor (aes: Aes128, suite: Suite, ti: Ti, keyNumber: byte)
      ensures this.aes == aes && this.keyNumber == keyNumber
      ensures View() == Channel(suite, ti, 0) && book == EMPTY_BOOK && Orderly()
    {
      this.aes, this.suite, this.ti, this.keyNumber := aes, suite, ti, keyNumber;
      cmdCounter, book := 0, EMPTY_BOOK;
    }

    /** `non_first_with_auth_result`: new keys, same TI and CmdCtr. */
    method Rekey(suite': Suite, keyNumber': byte)
      modifies this
      ensures View() == old(View()).(suite := suite') && keyNumber == keyNumber' && book == old(book)
    {
      suite, keyNumber := suite', keyNumber';
    }

    method AdvanceCounter()
      modifies this`cmdCounter, this`book
      ensures View() == Advance(old(View())) && book == old(book).(turn := old(book).turn + 1)
      ensures old(Orderly()) ==> Orderly()
    {
      CountedOnce(0, book.turn);
      ghost var was := book;
      cmdCounter, book := Next(cmdCounter), book.(turn := book.turn + 1);
      if IsOrderly(was) {
        AcknowledgedIsOrderly(was, book);
      }
    }
  }

  /** Host and tag hold equal keys, TI, CmdCtr and EncCtr. */
  ghost predicate InSync(state: Authenticated, link: Link)
    reads state, link
  {
    && state.aes == link.aes
    && link.tag.session.Some?
    && link.tag.session.value.ch == state.View()
  }

  /** `fill_mac_input`: the parts of a MAC input written one after another into `buf`. */
  method FillMacInput(buf: array<byte>, prefix: byte, ctr: seq<byte>, ti: Ti, part1: seq<byte>, part2: seq<byte>)
    returns (len: nat)
    requires |ctr| == 2 && 7 + |part1| + |part2| <= buf.Length
    modifies buf
    ensures len == 7 + |part1| + |part2|
    ensures buf[..len] == [prefix] + ctr + ti + (part1 + part2)
  {
    buf[0] := prefix;
    assert buf[..1] == [prefix];
    var pos := Append(buf, 1, ctr);
    pos := Append(buf, pos, ti);
    pos := Append(buf, pos, part1);
    len := Append(buf, pos, part2);
    ConcatAssoc([prefix] + ctr + ti, part1, part2);
  }

  method ComputeCmdMac(state: Authenticated, cmd: byte, header: seq<byte>, data: seq<byte>) returns (mac: seq<byte>)
    requires |header| + |data| <= MAX_APDU_BODY
    modifies state`book
    ensures mac == CommandMac(state.aes, state.View(), cmd, header + data)
    ensures var b, u := old(state.book), Use(old(state.book).turn, cmd, header + data);
      state.book == b.(sent := b.sent + [u]) && (old(state.Orderly()) ==> mac == Mac(state.aes, state.suite, MacInputOf(state.ti, u)))
  {
    state.book := state.book.(sent := state.book.sent + [Use(state.book.turn, cmd, header + data)]);
    var buf := new byte[MAC_INPUT_CAP](i => 0);
    var len := FillMacInput(buf, cmd, Le16(state.cmdCounter), state.ti, header, data);
    mac := Mac(state.aes, state.suite, buf[..len]);
  }

  method EncryptCommand(state: Authenticated, buf: array<byte>) returns (r: Result<(), SessionError>)
    modifies state`suite, state`book, buf
    ensures r.Ok? <==> buf.Length > 0 && buf.Length % 16 == 0
    ensures r.Ok? ==>
      && buf[..] == Encrypted(state.aes, old(state.suite), Command, state.ti, state.cmdCounter, old(buf[..]))
      && state.suite == Stepped(old(state.suite), buf.Length)
    ensures r.Err? ==> r.error == NotBlockAligned(buf.Length) && buf[..] == old(buf[..]) && state.suite == old(state.suite)
    ensures var b := old(state.book); state.book == b.(sealed := b.sealed + [Use(b.turn, 0, [])])
  {
    state.book := state.book.(sealed := state.book.sealed + [Use(state.book.turn, 0, [])]);
    var ok, suite := Encrypt(state.aes, state.suite, Command, state.ti, state.cmdCounter, buf);
    state.suite := suite;
    r := if ok then Ok(()) else Err(NotBlockAligned(buf.Length));
  }

  method DecryptResponse(state: Authenticated, buf: array<byte>) returns (r: Result<(), SessionError>)
    modifies state`suite, state`book, buf
    ensures r.Ok? <==> buf.Length > 0 && buf.Length % 16 == 0
    ensures r.Ok? ==>
      && buf[..] == Decrypted(state.aes, old(state.suite), Response, state.ti, state.cmdCounter, old(buf[..]))
      && state.suite == Stepped(old(state.suite), buf.Length)
    ensures r.Err? ==> r.error == NotBlockAligned(buf.Length) && buf[..] == old(buf[..]) && state.suite == old(state.suite)
    ensures var b := old(state.book); state.book == b.(unsealed := b.unsealed + [Use(b.turn, 0, [])])
  {
    state.book := state.book.(unsealed := state.book.unsealed + [Use(state.book.turn, 0, [])]);
    var ok, suite := Decrypt(state.aes, state.suite, Response, state.ti, state.cmdCounter, buf);
    state.suite := suite;
    r := if ok then Ok(()) else Err(NotBlockAligned(buf.Length));
  }

  /** What an authenticated response body means to the host. */
  function Verified(aes: Aes128, ch: Channel, rc: byte, body: seq<byte>): Result<seq<byte>, SessionError> {
    if |body| < MAC_LEN then Err(UnexpectedLength(|body|, MAC_LEN))
    else
      var n := |body| - MAC_LEN;
      if body[n..] != ResponseMac(aes, ch, rc, body[..n]) then Err(ResponseMacMismatch) else Ok(body[..n])
  }

  /** The MAC of an answer has been computed, at the counter that the command advances to. */
  predicate Answered(b: Book, b': Book, rc: byte) {
    && b' == b.(turn := b.turn + 1, received := b'.received)
    && OneMore(b.received, b'.received, b.turn + 1) && b'.received[|b.received|].code == rc
  }

  /** One command, sent and answered: the book stays in order. */
  lemma AnsweredIsOrderly(b: Book, cmd: byte, bytes: seq<byte>, b': Book)
    requires cmd != 0 && Answered(b.(sent := b.sent + [Use(b.turn, cmd, bytes)]), b', 0x00)
    ensures Acknowledged(b, b') && b'.unsealed == b.unsealed && b'.turn == b.turn + 1
    ensures IsOrderly(b) ==> IsOrderly(b')
  {
    hide IsOrderly;
    if IsOrderly(b) {
      AcknowledgedIsOrderly(b, b');
    }
  }

  /** The counter advances exactly when the MAC is right; a bad MAC changes nothing. */
  method VerifyResponseMacAndAdvance(state: Authenticated, rc: byte, body: seq<byte>)
    returns (r: Result<seq<byte>, SessionError>)
    requires |body| <= MAX_APDU_BODY + MAC_LEN
    modifies state`cmdCounter, state`book
    ensures r == Verified(state.aes, old(state.View()), rc, body)
    ensures state.View() == if r.Ok? then Advance(old(state.View())) else old(state.View())
    ensures r.Ok? ==> Answered(old(state.book), state.book, rc)
  {
    if |body| < MAC_LEN {
      return Err(UnexpectedLength(|body|, MAC_LEN));
    }
    var data, received := body[..|body| - MAC_LEN], body[|body| - MAC_LEN..];
    var nextCtr := Next(state.cmdCounter);
    var buf := new byte[MAC_INPUT_CAP](i => 0);
    var len := FillMacInput(buf, rc, Le16(nextCtr), state.ti, data, []);
    assert data + [] == data;
    state.book := state.book.(received := state.book.received + [Use(state.book.turn + 1, rc, data)]);
    var expected := Mac(state.aes, state.suite, buf[..len]);
    if expected != received {
      return Err(ResponseMacMismatch);
    }
    state.AdvanceCounter();
    return Ok(data);
  }

  /** The APDU every secured command is sent in, assembled position by position. */
  method AssembleApdu(cmd: byte, p1: byte, p2: byte, header: seq<byte>, data: seq<byte>, mac: seq<byte>)
    returns (r: seq<byte>)
    requires |header| + |data| + |mac| <= MAX_APDU_BODY
    ensures r == Apdu(cmd, p1, p2, header + data + mac)
  {
    var bodyLen := |header| + |data| + |mac|;
    var apdu := new byte[5 + MAX_APDU_BODY + 1](i => 0);
    apdu[0], apdu[1], apdu[2], apdu[3], apdu[4] := 0x90, cmd, p1, p2, bodyLen;
    assert apdu[..5] == [0x90, cmd, p1, p2, bodyLen];
    var pos := Append(apdu, 5, header);
    pos := Append(apdu, pos, data);
    pos := Append(apdu, pos, mac);
    pos := Append(apdu, pos, [0x00]);
    r := apdu[..pos];
    ConcatAssoc([0x90, cmd, p1, p2, bodyLen], header, data);
    ConcatAssoc([0x90, cmd, p1, p2, bodyLen], header + data, mac);
  }

  /** The end of every secured command: transmit, check the status word, check the MAC. */
  method Deliver(state: Authenticated, link: Link, apdu: seq<byte>) returns (r: Result<seq<byte>, SessionError>)
    modifies state`cmdCounter, state`book, link
    ensures link.log == old(link.log) + [apdu]
    ensures link.tag == old(link.tag) || link.tag == T.Step(link.aes, old(link.tag), apdu).0
    ensures state.View() == if r.Ok? then Advance(old(state.View())) else old(state.View())
    ensures r.Ok? ==> Answered(old(state.book), state.book, 0x00)
    ensures r.Ok? && link.honest ==>
      var s := T.Step(link.aes, old(link.tag), apdu);
      link.tag == s.0 && s.1.sw2 == 0x00 && r == Verified(state.aes, old(state.View()), 0x00, s.1.data)
  {
    hide T.Step, Verified;
    var resp :- link.Transmit(apdu);
    if !(resp.sw1 == 0x91 && resp.sw2 == 0x00) {
      return Err(ErrorResponse(resp.sw1, resp.sw2));
    }
    r := VerifyResponseMacAndAdvance(state, resp.sw2, resp.data);
  }

  /** A command with its MAC. */
  method SealFrame(state: Authenticated, cmd: byte, p1: byte, p2: byte, header: seq<byte>, data: seq<byte>) returns (apdu: seq<byte>)
    requires |header| + |data| + MAC_LEN <= MAX_APDU_BODY
    modifies state`book
    ensures apdu == Apdu(cmd, p1, p2, header + data + CommandMac(state.aes, state.View(), cmd, header + data))
    ensures var b := old(state.book); state.book == b.(sent := b.sent + [Use(b.turn, cmd, header + data)])
  {
    hide Mac, MacInput;
    var mac := ComputeCmdMac(state, cmd, header, data);
    apdu := AssembleApdu(cmd, p1, p2, header, data, mac);
  }

  /** `send_mac`: the counter advances exactly when an answer with the right MAC came back. */
  method SendMac(state: Authenticated, link: Link, cmd: byte, p1: byte, p2: byte, header: seq<byte>, data: seq<byte>)
    returns (r: Result<seq<byte>, SessionError>)
    modifies state`cmdCounter, state`book, link
    ensures |header| + |data| + MAC_LEN > MAX_APDU_BODY ==>
      && r == Err(ApduBodyTooLarge(|header| + |data| + MAC_LEN, MAX_APDU_BODY))
      && link.Seen() == old(link.Seen()) && state.cmdCounter == old(state.cmdCounter)
    ensures |header| + |data| + MAC_LEN <= MAX_APDU_BODY ==>
      var apdu := Apdu(cmd, p1, p2, header + data + CommandMac(state.aes, old(state.View()), cmd, header + data));
      && link.log == old(link.log) + [apdu]
      && (link.tag == old(link.tag) || link.tag == T.Step(link.aes, old(link.tag), apdu).0)
      && (state.View() == Advance(old(state.View())) || (r.Err? && state.View() == old(state.View())))
      && (r.Ok? && link.honest ==>
            var s := T.Step(link.aes, old(link.tag), apdu);
            && link.tag == s.0 && s.1.sw2 == 0x00
            && r == Verified(state.aes, old(state.View()), 0x00, s.1.data))
    ensures r.Ok? ==> state.View() == Advance(old(state.View())) && |r.value| <= MAX_RESPONSE_DATA
    ensures r.Ok? && cmd != 0 && old(state.Orderly()) ==> state.Orderly()
  {
    hide T.Step, Verified, IsOrderly, Answered, Mac, MacInput, Apdu;
    ghost var book := state.book;
    var bodyLen := |header| + |data| + MAC_LEN;
    if bodyLen > MAX_APDU_BODY {
      return Err(ApduBodyTooLarge(bodyLen, MAX_APDU_BODY));
    }
    var apdu := SealFrame(state, cmd, p1, p2, header, data);
    var plain :- Deliver(state, link, apdu);
    if |plain| > MAX_RESPONSE_DATA {
      return Err(UnexpectedLength(|plain|, MAX_RESPONSE_DATA));
    }
    if cmd != 0 && IsOrderly(book) {
      CountedOnce(0, book.turn);
      AnsweredIsOrderly(book, cmd, header + data, state.book);
    }
    return Ok(plain);
  }
}
