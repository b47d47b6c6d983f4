/**
  Writing files in chunks: commands/write_data.rs, and the plain loop of session/authenticated.rs.
  Each loop is proved to splice its data into the tag's file once, chunk by chunk from the front.
 */
module WriteData {
  import opened Wrappers
  import opened Octets
  import opened Aes
  import opened Blocks
  import opened Suite
  import opened Wire
  import opened Transport
  import opened SecureChannel
  import opened Exchange
  import T = Tag

  const MAC_WRITE_CHUNK := 240
  const FULL_WRITE_CHUNK := 239
  const PLAIN_WRITE_CHUNK := 248

  /** Chunks are as long as a command body of 255 bytes allows: with a header of 7 and a MAC of 8, padded if enciphered. */
  lemma ChunksFit(n: nat)
    ensures n <= MAC_WRITE_CHUNK <==> 7 + n + 8 <= 255
    ensures n <= FULL_WRITE_CHUNK <==> 7 + PaddedLen(n) + 8 <= 255
    ensures n <= PLAIN_WRITE_CHUNK <==> 7 + n <= 255
  {
  }

  function ValidateHeader(fileNo: byte, offset: u32, length: nat): (e: Option<SessionError>)
    ensures e.None? <==> fileNo < 0x20 && offset < 0x100_0000 && 0 < length < 0x100_0000
  {
    if fileNo > 0x1F then Some(InvalidCommandParameter("file_no", fileNo))
    else if offset > U24_MAX then Some(InvalidCommandParameter("offset", offset))
    else if length == 0 then Some(InvalidCommandParameter("data.len()", 0))
    else if length > U24_MAX then Some(InvalidCommandParameter("data.len()", length))
    else None
  }

  // ---------------------------------------------------------------- what an honest tag does

  function SecureWriteApdu(aes: Aes128, ch: Channel, fileNo: byte, offset: nat, length: nat, sent: seq<byte>): seq<byte>
    requires |sent| <= 240
  {
    var payload := Header(fileNo, offset, length) + sent;
    Apdu(0x8D, 0x00, 0x00, payload + CommandMac(aes, ch, 0x8D, payload))
  }

  /** What the tag answers to a secured write that carries `data`. */
  function WriteAnswer(aes: Aes128, t: T.Tag, fileNo: byte, offset: nat, data: seq<byte>, suite: Suite): (T.Tag, T.Reply)
    requires t.session.Some? && fileNo in t.files
  {
    var ch := t.session.value.ch;
    if offset + |data| > |t.files[fileNo].data| then T.Fail(t, 0xBE)
    else
      T.Accept(T.WithChannel(T.Stored(t, fileNo, offset, data), Advance(ch).(suite := suite)), ResponseMac(aes, ch, 0x00, []))
  }

  lemma SecureWriteAnswer(aes: Aes128, t: T.Tag, fileNo: byte, offset: nat, data: seq<byte>, sent: seq<byte>, suite: Suite)
    requires t.session.Some? && fileNo in t.files && !t.files[fileNo].mode.Plain?
    requires offset <= U24_MAX && 0 < |data| <= U24_MAX && |sent| <= 240
    requires T.WritePayload(aes, t.session.value.ch, t.files[fileNo].mode, sent) == Some((data, suite))
    ensures T.Step(aes, t, SecureWriteApdu(aes, t.session.value.ch, fileNo, offset, |data|, sent))
         == WriteAnswer(aes, t, fileNo, offset, data, suite)
  {
    hide T.WritePayload, Header, T.Write, T.Checked, FromLe24, WriteAnswer, T.Step, CommandMac;
    var ch, header := t.session.value.ch, Header(fileNo, offset, |data|);
    var mac := CommandMac(aes, ch, 0x8D, header + sent);
    var body := header + sent + mac;
    WriteBodyParses(fileNo, offset, |data|, sent, mac);
    CheckedOwn(aes, t, 0x8D, header + sent);
    SecureWriteBody(aes, t, fileNo, offset, data, body, suite);
    T.StepApdu(aes, t, 0x8D, 0, 0, body);
  }

  lemma WriteBodyParses(fileNo: byte, offset: nat, length: nat, sent: seq<byte>, mac: seq<byte>)
    requires offset <= U24_MAX && length <= U24_MAX && |mac| == 8
    ensures var b := Header(fileNo, offset, length) + sent + mac;
      && b[0] == fileNo && FromLe24(b[1..4]) == offset && FromLe24(b[4..7]) == length
      && b[7..|b| - 8] == sent
  {
    var header := Header(fileNo, offset, length);
    HeaderParses(fileNo, offset, length, sent + mac);
    assert header + sent + mac == header + (sent + mac);
  }

  lemma SecureWriteBody(aes: Aes128, t: T.Tag, fileNo: byte, offset: nat, data: seq<byte>, body: seq<byte>, suite: Suite)
    requires t.session.Some? && fileNo in t.files && !t.files[fileNo].mode.Plain? && |data| > 0
    requires |body| >= 15 && body[0] == fileNo && FromLe24(body[1..4]) == offset && FromLe24(body[4..7]) == |data|
    requires T.Checked(aes, t, 0x8D, body) == Result.Ok(t.session.value.ch)
    requires T.WritePayload(aes, t.session.value.ch, t.files[fileNo].mode, body[7..|body| - 8]) == Some((data, suite))
    ensures T.Write(aes, t, body) == WriteAnswer(aes, t, fileNo, offset, data, suite)
  {
    hide T.WritePayload, T.Checked, FromLe24, ResponseMac, T.Stored, T.WithChannel;
  }

  /** How a secured write can end: stored and acknowledged, or refused and nothing changed. */
  lemma SecureWriteEnds(aes: Aes128, t: T.Tag, fileNo: byte, offset: nat, data: seq<byte>, sent: seq<byte>, suite: Suite)
    requires t.session.Some? && fileNo in t.files && !t.files[fileNo].mode.Plain?
    requires offset <= U24_MAX && 0 < |data| <= U24_MAX && |sent| <= 240
    requires T.WritePayload(aes, t.session.value.ch, t.files[fileNo].mode, sent) == Some((data, suite))
    ensures var ch := t.session.value.ch;
      var s := T.Step(aes, t, SecureWriteApdu(aes, ch, fileNo, offset, |data|, sent));
      && (T.SameMemory(t, s.0) || T.Wrote(t, s.0, fileNo, offset, data))
      && (s.1.sw2 == 0x00 ==>
            && T.Wrote(t, s.0, fileNo, offset, data)
            && s.0.session.Some? && s.0.session.value.ch == Advance(ch).(suite := suite)
            && Verified(aes, ch, 0x00, s.1.data) == Result.Ok([]))
  {
    hide T.WritePayload, Verified, T.Step, Splice, SecureWriteApdu;
    SecureWriteAnswer(aes, t, fileNo, offset, data, sent, suite);
    var ch := t.session.value.ch;
    VerifiedOwn(aes, ch, []);
    assert [] + ResponseMac(aes, ch, 0x00, []) == ResponseMac(aes, ch, 0x00, []);
  }

  function First(data: seq<byte>, chunk: nat): seq<byte> {
    data[..Min(|data|, chunk)]
  }

  function Payload(aes: Aes128, ch: Channel, mode: T.CommMode, fileNo: byte, offset: nat, data: seq<byte>): seq<byte> {
    Header(fileNo, offset, |data|) + if mode.Full? then Encrypted(aes, ch.suite, Command, ch.ti, ch.cmdCtr, Pad(data)) else data
  }

  /** The tag will refuse this write; nothing is said of other ones. */
  ghost predicate DeafToWrite(state: Authenticated, link: Link, fileNo: byte, mode: T.CommMode, offset: nat, data: seq<byte>)
    reads state, link
  {
    Deaf(state, link, 0x8D, Payload(state.aes, state.View(), mode, fileNo, offset, data)) && HasFile(link.tag, fileNo, mode)
  }

  lemma DeafWrite(aes: Aes128, t: T.Tag, host: Channel, fileNo: byte, offset: nat, length: nat, sent: seq<byte>)
    requires Refuses(aes, t, host, 0x8D, Header(fileNo, offset, length) + sent) && |sent| <= 240
    requires fileNo in t.files ==> !t.files[fileNo].mode.Plain?
    ensures var s := T.Step(aes, t, SecureWriteApdu(aes, host, fileNo, offset, length, sent));
      T.SameMemory(t, s.0) && s.1.sw2 != 0x00
  {
    hide T.Step, Refuses, Apdu, CommandMac;
    var payload := Header(fileNo, offset, length) + sent;
    assert payload[0] == fileNo;
    DeafRefuses(aes, t, host, 0x8D, payload);
  }

  // ---------------------------------------------------------------- CommMode.MAC

  method WriteDataMacOneApdu(state: Authenticated, link: Link, fileNo: byte, offset: nat, data: seq<byte>)
    returns (r: Result<(), SessionError>)
    requires 0 < |data| <= MAC_WRITE_CHUNK
    modifies state`cmdCounter, state`book, link
    ensures SentOne(old(link.log), link.log, 0x8D, fileNo, offset, |data|)
    ensures r.Ok? ==> state.View() == Advance(old(state.View()))
    ensures old(Ready(state, link, fileNo, T.Mac)) && offset <= U24_MAX ==>
      WriteEnds(r.Ok?, old(link.tag), link.tag, fileNo, offset, data) && (r.Ok? ==> Ready(state, link, fileNo, T.Mac))
    ensures old(DeafToWrite(state, link, fileNo, T.Mac, offset, data)) ==> r.Err? && T.SameMemory(old(link.tag), link.tag)
    ensures r.Ok? && old(state.Orderly()) ==> state.Orderly()
  {
    hide T.Step, Verified, Apdu, CommandMac, Refuses, IsOrderly;
    var header := Header(fileNo, offset, |data|);
    ghost var payload := header + data;
    ghost var mac := CommandMac(state.aes, state.View(), 0x8D, payload);
    ApduFrames(0x8D, 0x00, 0x00, payload + mac);
    assert (payload + mac)[..7] == header;
    if Ready(state, link, fileNo, T.Mac) && offset <= U24_MAX {
      SecureWriteEnds(state.aes, link.tag, fileNo, offset, data, data, state.suite);
    }
    if DeafToWrite(state, link, fileNo, T.Mac, offset, data) {
      DeafWrite(state.aes, link.tag, state.View(), fileNo, offset, |data|, data);
    }
    var body :- SendMac(state, link, 0x8D, 0x00, 0x00, header, data);
    if |body| != 0 {
      return Err(UnexpectedLength(|body|, 0));
    }
    return Result.Ok(());
  }

  // ---------------------------------------------------------------- CommMode.FULL

  /** The data with its padding, enciphered for the current command. */
  method SealCommand(state: Authenticated, data: seq<byte>) returns (ct: seq<byte>)
    modifies state`suite, state`book
    ensures ct == Encrypted(state.aes, old(state.suite), Command, state.ti, state.cmdCounter, Pad(data))
    ensures state.suite == Stepped(old(state.suite), |ct|)
    ensures var b := old(state.book); state.book == b.(sealed := b.sealed + [Use(b.turn, 0, [])])
  {
    var padded := new byte[PaddedLen(|data|)](i => 0);
    CopyInto(padded, 0, data);
    padded[|data|] := 0x80;
    assert padded[..] == Pad(data);
    var aligned := EncryptCommand(state, padded);
    assert aligned.Ok?;
    ct := padded[..];
  }

  lemma SealedPayload(aes: Aes128, ch: Channel, data: seq<byte>)
    ensures var ct := Encrypted(aes, ch.suite, Command, ch.ti, ch.cmdCtr, Pad(data));
      T.WritePayload(aes, ch, T.Full, ct) == Some((data, Stepped(ch.suite, |ct|)))
  {
    DecryptUndoesEncrypt(aes, ch.suite, Command, ch.ti, ch.cmdCtr, Pad(data));
    StripPad(data);
  }

  lemma SecureWriteFrames(aes: Aes128, ch: Channel, n: nat, fileNo: byte, offset: nat, length: nat, sent: seq<byte>)
    requires |sent| <= 240
    ensures Addresses(SecureWriteApdu(aes, ch, fileNo, offset, length, sent), 0x8D, fileNo, offset, length)
    ensures SecureWriteApdu(aes, ch.(suite := Stepped(ch.suite, n)), fileNo, offset, length, sent)
         == SecureWriteApdu(aes, ch, fileNo, offset, length, sent)
  {
    hide Mac;
    var payload := Header(fileNo, offset, length) + sent;
    var mac := CommandMac(aes, ch, 0x8D, payload);
    ApduFrames(0x8D, 0x00, 0x00, payload + mac);
    assert (payload + mac)[..7] == Header(fileNo, offset, length);
    MacStepped(aes, ch.suite, n, MacInput(0x8D, ch.cmdCtr, ch.ti, payload));
  }

  /** A command's MAC has been computed. */
  ghost predicate SentUse(b: Book, b': Book) {
    exists bytes :: b' == b.(sent := b.sent + [Use(b.turn, 0x8D, bytes)])
  }

  /** One enciphered command, sent and answered. */
  lemma SealedAndAnswered(b: Book, b': Book)
    requires exists sent: Book :: SentUse(b.(sealed := b.sealed + [Use(b.turn, 0, [])]), sent) && Answered(sent, b', 0x00)
    ensures Acknowledged(b, b')
  {
  }

  method SendSealed(state: Authenticated, link: Link, fileNo: byte, offset: nat, length: nat, ct: seq<byte>)
    returns (r: Result<(), SessionError>)
    requires |ct| <= 240
    modifies state`cmdCounter, state`book, link
    ensures var apdu := SecureWriteApdu(state.aes, old(state.View()), fileNo, offset, length, ct);
      && link.log == old(link.log) + [apdu]
      && (link.tag == old(link.tag) || link.tag == T.Step(link.aes, old(link.tag), apdu).0)
      && (r.Ok? && link.honest ==>
            var s := T.Step(link.aes, old(link.tag), apdu);
            link.tag == s.0 && s.1.sw2 == 0x00 && Verified(state.aes, old(state.View()), 0x00, s.1.data).Ok?)
    ensures state.View() == if r.Ok? then Advance(old(state.View())) else old(state.View())
    ensures r.Ok? ==> exists b: Book :: SentUse(old(state.book), b) && Answered(b, state.book, 0x00)
  {
    hide T.Step, Verified, Apdu, Answered;
    var header := Header(fileNo, offset, length);
    var apdu := SealFrame(state, 0x8D, 0x00, 0x00, header, ct);
    ghost var sent := state.book;
    var _ :- Deliver(state, link, apdu);
    assert SentUse(old(state.book), sent);
    return Result.Ok(());
  }

  method WriteDataFullOneApdu(state: Authenticated, link: Link, fileNo: byte, offset: nat, data: seq<byte>)
    returns (r: Result<(), SessionError>)
    requires 0 < |data| <= FULL_WRITE_CHUNK
    modifies state`cmdCounter, state`book, state`suite, link
    ensures SentOne(old(link.log), link.log, 0x8D, fileNo, offset, |data|)
    ensures r.Ok? ==> state.View() == Advance(old(state.View())).(suite := Stepped(old(state.suite), PaddedLen(|data|)))
    ensures old(Ready(state, link, fileNo, T.Full)) && offset <= U24_MAX ==>
      WriteEnds(r.Ok?, old(link.tag), link.tag, fileNo, offset, data) && (r.Ok? ==> Ready(state, link, fileNo, T.Full))
    ensures old(DeafToWrite(state, link, fileNo, T.Full, offset, data)) ==> r.Err? && T.SameMemory(old(link.tag), link.tag)
    ensures r.Ok? && old(state.Orderly()) ==> state.Orderly()
  {
    hide T.Step, Verified, SecureWriteApdu, Encrypted, Stepped, Addresses, T.WritePayload, Refuses, IsOrderly,
         Acknowledged, Answered, SentUse;
    ghost var book := state.book;
    ghost var ch, deaf, ready := state.View(), DeafToWrite(state, link, fileNo, T.Full, offset, data), Ready(state, link, fileNo, T.Full);
    SealedPayload(state.aes, ch, data);
    var ct := SealCommand(state, data);
    SecureWriteFrames(state.aes, ch, |ct|, fileNo, offset, |data|, ct);
    if ready && offset <= U24_MAX {
      SecureWriteEnds(state.aes, link.tag, fileNo, offset, data, ct, state.suite);
    }
    if deaf {
      DeafWrite(state.aes, link.tag, ch, fileNo, offset, |data|, ct);
    }
    r := SendSealed(state, link, fileNo, offset, |data|, ct);
    if r.Ok? {
      SealedAndAnswered(book, state.book);
      if old(state.Orderly()) {
        StaysOrderly(book, state.book, old(state.cmdCounter));
      }
    }
  }

  // ---------------------------------------------------------------- CommMode.Plain

  lemma PlainWriteAnswer(aes: Aes128, t: T.Tag, fileNo: byte, offset: nat, data: seq<byte>)
    requires HasFile(t, fileNo, T.Plain) && offset <= U24_MAX && 0 < |data| <= PLAIN_WRITE_CHUNK
    ensures T.Step(aes, t, Apdu(0x8D, 0, 0, Header(fileNo, offset, |data|) + data)) ==
        if offset + |data| > |t.files[fileNo].data| then T.Fail(t, 0xBE)
        else T.Accept(T.PlainDone(T.Stored(t, fileNo, offset, data)), [])
  {
    hide Header;
    HeaderParses(fileNo, offset, |data|, data);
    T.StepApdu(aes, t, 0x8D, 0, 0, Header(fileNo, offset, |data|) + data);
  }

  lemma PlainWriteCounts(t: T.Tag, fileNo: byte, offset: nat, data: seq<byte>)
    requires HasFile(t, fileNo, T.Plain) && offset + |data| <= |t.files[fileNo].data|
    ensures T.Counts(t, T.PlainDone(T.Stored(t, fileNo, offset, data)), 1)
  {
    T.PlainDoneCounts(T.Stored(t, fileNo, offset, data));
  }

  /** `write_data_plain` */
  method WriteDataPlain(link: Link, fileNo: byte, offset: u32, data: seq<byte>) returns (r: Result<(), SessionError>)
    requires |data| <= PLAIN_WRITE_CHUNK
    modifies link
    ensures var e := ValidateHeader(fileNo, offset, |data|);
      if e.Some? then r == Err(e.value) && link.Seen() == old(link.Seen()) && link.delivered == old(link.delivered)
      else SentOne(old(link.log), link.log, 0x8D, fileNo, offset, |data|)
    ensures old(Holds(link, fileNo)) && ValidateHeader(fileNo, offset, |data|).None? ==>
      && WriteEnds(r.Ok?, old(link.tag), link.tag, fileNo, offset, data)
      && PlainEnds(r.Ok?, link.delivered - old(link.delivered), old(link.tag), link.tag)
  {
    hide T.Step, Apdu, Splice;
    var e := ValidateHeader(fileNo, offset, |data|);
    if e.Some? {
      return Err(e.value);
    }
    var header := Header(fileNo, offset, |data|);
    var apdu := Apdu(0x8D, 0x00, 0x00, header + data);
    ApduFrames(0x8D, 0x00, 0x00, header + data);
    assert (header + data)[..7] == header;
    if HasFile(link.tag, fileNo, T.Plain) {
      PlainWriteAnswer(link.aes, link.tag, fileNo, offset, data);
      if offset + |data| <= |link.tag.files[fileNo].data| {
        PlainWriteCounts(link.tag, fileNo, offset, data);
      }
    }
    var resp :- link.Transmit(apdu);
    if !(resp.sw1 == 0x91 && resp.sw2 == 0x00) {
      return Err(ErrorResponse(resp.sw1, resp.sw2));
    }
    return Result.Ok(());
  }

  // ---------------------------------------------------------------- the loops

  method WriteDataMac(state: Authenticated, link: Link, fileNo: byte, offset: u32, data: seq<byte>)
    returns (r: Result<(), SessionError>, ghost sent: nat, ghost stored: nat)
    modifies state`cmdCounter, state`book, link
    ensures var e := ValidateHeader(fileNo, offset, |data|);
      e.Some? ==> r == Err(e.value) && sent == 0 && link.tag == old(link.tag)
    ensures SentChunks(old(link.log), link.log, sent, 0x8D, fileNo, offset, |data|, MAC_WRITE_CHUNK)
    ensures r.Ok? ==>
      && sent == Exchanges(|data|, |data|, MAC_WRITE_CHUNK)
      && state.View() == old(state.View()).(cmdCtr := Counted(old(state.cmdCounter), sent))
    ensures old(Ready(state, link, fileNo, T.Mac)) ==>
      && StoredChunks(old(link.tag), link.tag, fileNo, offset, data, stored, MAC_WRITE_CHUNK)
      && stored <= sent <= stored + 1
      && (r.Ok? ==> Ready(state, link, fileNo, T.Mac) && T.Wrote(old(link.tag), link.tag, fileNo, offset, data))
    ensures old(Ready(state, link, fileNo, T.Mac)) ==> InReach(sent, offset, MAC_WRITE_CHUNK)
    ensures r.Ok? && old(state.Orderly()) ==> state.Orderly()
    ensures old(DeafToWrite(state, link, fileNo, T.Mac, offset, First(data, MAC_WRITE_CHUNK))) ==> r.Err? && T.SameMemory(old(link.tag), link.tag)
  {
    hide SentChunks, SentOne, StoredChunks, T.Wrote, Counted, OffsetAt, Exchanges, Addresses, Chunked, ValidateHeader,
         AtChunk, DeafToWrite, InReach, Authenticated.Orderly;
    ghost var deaf := DeafToWrite(state, link, fileNo, T.Mac, offset, First(data, MAC_WRITE_CHUNK));
    ghost var orderly := state.Orderly();
    ghost var ready, start, log, ch := Ready(state, link, fileNo, T.Mac), link.tag, link.log, state.View();
    sent, stored := 0, 0;
    assert InReach(0, offset, MAC_WRITE_CHUNK) by { NoReach(offset, MAC_WRITE_CHUNK); }
    SentNone(log, 0x8D, fileNo, offset, |data|, MAC_WRITE_CHUNK);
    StoredNone(start, fileNo, offset, data, MAC_WRITE_CHUNK);
    CountedOnce(ch.cmdCtr, 0);
    FirstChunk(|data|, MAC_WRITE_CHUNK, offset);
    var e := ValidateHeader(fileNo, offset, |data|);
    if e.Some? {
      r := Err(e.value);
      return;
    }
    var written: nat, currentOffset: u32 := 0, offset;
    while written < |data|
      invariant written <= |data| && AtChunk(sent, written, |data|, MAC_WRITE_CHUNK, offset, currentOffset)
      invariant SentChunks(log, link.log, sent, 0x8D, fileNo, offset, |data|, MAC_WRITE_CHUNK)
      invariant state.View() == ch.(cmdCtr := Counted(ch.cmdCtr, sent))
      invariant deaf ==> written == 0 && currentOffset == offset && link.tag == start
      invariant deaf ==> DeafToWrite(state, link, fileNo, T.Mac, offset, First(data, MAC_WRITE_CHUNK))
      invariant orderly ==> state.Orderly()
      invariant ready ==> InReach(sent, offset, MAC_WRITE_CHUNK)
      invariant ready ==> Ready(state, link, fileNo, T.Mac) && stored == sent
      invariant ready ==> StoredChunks(start, link.tag, fileNo, offset, data, sent, MAC_WRITE_CHUNK) && offset + written <= U24_MAX
    {
      ThisChunk(sent, written, |data|, MAC_WRITE_CHUNK, offset, currentOffset);
      var end := Min(written + MAC_WRITE_CHUNK, |data|);
      ghost var at, t := link.log, link.tag;
      var one := WriteDataMacOneApdu(state, link, fileNo, currentOffset, data[written..end]);
      SentOneMore(log, at, link.log, sent, 0x8D, fileNo, offset, |data|, MAC_WRITE_CHUNK);
      CountedOnce(ch.cmdCtr, sent);
      if ready {
        StoredAfter(start, t, link.tag, fileNo, offset, data, sent, MAC_WRITE_CHUNK, one.Ok?);
        stored := if StoredChunks(start, link.tag, fileNo, offset, data, sent + 1, MAC_WRITE_CHUNK) then sent + 1 else sent;
      }
      if ready {
        ReachMore(sent, offset, MAC_WRITE_CHUNK, currentOffset);
      }
      sent := sent + 1;
      var _ :- one;
      NextChunk(sent - 1, written, end - written, |data|, MAC_WRITE_CHUNK, offset, currentOffset);
      currentOffset := (currentOffset + (end - written)) % 0x1_0000_0000;
      written := end;
    }
    AllChunks(sent, |data|, MAC_WRITE_CHUNK, offset, currentOffset);
    if ready {
      StoredAll(start, link.tag, fileNo, offset, data, sent, MAC_WRITE_CHUNK);
    }
    r := Result.Ok(());
  }

  method WriteDataFull(state: Authenticated, link: Link, fileNo: byte, offset: u32, data: seq<byte>)
    returns (r: Result<(), SessionError>, ghost sent: nat, ghost stored: nat)
    modifies state`cmdCounter, state`book, state`suite, link
    ensures var e := ValidateHeader(fileNo, offset, |data|);
      e.Some? ==> r == Err(e.value) && sent == 0 && link.tag == old(link.tag)
    ensures SentChunks(old(link.log), link.log, sent, 0x8D, fileNo, offset, |data|, FULL_WRITE_CHUNK)
    ensures r.Ok? ==>
      && sent == Exchanges(|data|, |data|, FULL_WRITE_CHUNK)
      && state.cmdCounter == Counted(old(state.cmdCounter), sent)
    ensures old(Ready(state, link, fileNo, T.Full)) ==>
      && StoredChunks(old(link.tag), link.tag, fileNo, offset, data, stored, FULL_WRITE_CHUNK)
      && stored <= sent <= stored + 1
      && (r.Ok? ==> Ready(state, link, fileNo, T.Full) && T.Wrote(old(link.tag), link.tag, fileNo, offset, data))
    ensures old(Ready(state, link, fileNo, T.Full)) ==> InReach(sent, offset, FULL_WRITE_CHUNK)
    ensures r.Ok? && old(state.Orderly()) ==> state.Orderly()
    ensures old(DeafToWrite(state, link, fileNo, T.Full, offset, First(data, FULL_WRITE_CHUNK))) ==> r.Err? && T.SameMemory(old(link.tag), link.tag)
  {
    hide SentChunks, SentOne, StoredChunks, T.Wrote, Counted, OffsetAt, Exchanges, Addresses, Chunked, ValidateHeader,
         AtChunk, DeafToWrite, InReach, Authenticated.Orderly;
    ghost var deaf := DeafToWrite(state, link, fileNo, T.Full, offset, First(data, FULL_WRITE_CHUNK));
    ghost var orderly := state.Orderly();
    ghost var ready, start, log, ch := Ready(state, link, fileNo, T.Full), link.tag, link.log, state.View();
    sent, stored := 0, 0;
    assert InReach(0, offset, FULL_WRITE_CHUNK) by { NoReach(offset, FULL_WRITE_CHUNK); }
    SentNone(log, 0x8D, fileNo, offset, |data|, FULL_WRITE_CHUNK);
    StoredNone(start, fileNo, offset, data, FULL_WRITE_CHUNK);
    CountedOnce(ch.cmdCtr, 0);
    FirstChunk(|data|, FULL_WRITE_CHUNK, offset);
    var e := ValidateHeader(fileNo, offset, |data|);
    if e.Some? {
      r := Err(e.value);
      return;
    }
    var written: nat, currentOffset: u32 := 0, offset;
    while written < |data|
      invariant written <= |data| && AtChunk(sent, written, |data|, FULL_WRITE_CHUNK, offset, currentOffset)
      invariant SentChunks(log, link.log, sent, 0x8D, fileNo, offset, |data|, FULL_WRITE_CHUNK)
      invariant state.cmdCounter == Counted(ch.cmdCtr, sent)
      invariant deaf ==> written == 0 && currentOffset == offset && link.tag == start
      invariant deaf ==> DeafToWrite(state, link, fileNo, T.Full, offset, First(data, FULL_WRITE_CHUNK))
      invariant orderly ==> state.Orderly()
      invariant ready ==> InReach(sent, offset, FULL_WRITE_CHUNK)
      invariant ready ==> Ready(state, link, fileNo, T.Full) && stored == sent
      invariant ready ==> StoredChunks(start, link.tag, fileNo, offset, data, sent, FULL_WRITE_CHUNK) && offset + written <= U24_MAX
    {
      ThisChunk(sent, written, |data|, FULL_WRITE_CHUNK, offset, currentOffset);
      var end := Min(written + FULL_WRITE_CHUNK, |data|);
      ghost var at, t := link.log, link.tag;
      var one := WriteDataFullOneApdu(state, link, fileNo, currentOffset, data[written..end]);
      SentOneMore(log, at, link.log, sent, 0x8D, fileNo, offset, |data|, FULL_WRITE_CHUNK);
      CountedOnce(ch.cmdCtr, sent);
      if ready {
        StoredAfter(start, t, link.tag, fileNo, offset, data, sent, FULL_WRITE_CHUNK, one.Ok?);
        stored := if StoredChunks(start, link.tag, fileNo, offset, data, sent + 1, FULL_WRITE_CHUNK) then sent + 1 else sent;
      }
      if ready {
        ReachMore(sent, offset, FULL_WRITE_CHUNK, currentOffset);
      }
      sent := sent + 1;
      var _ :- one;
      NextChunk(sent - 1, written, end - written, |data|, FULL_WRITE_CHUNK, offset, currentOffset);
      currentOffset := (currentOffset + (end - written)) % 0x1_0000_0000;
      written := end;
    }
    AllChunks(sent, |data|, FULL_WRITE_CHUNK, offset, currentOffset);
    if ready {
      StoredAll(start, link.tag, fileNo, offset, data, sent, FULL_WRITE_CHUNK);
    }
    r := Result.Ok(());
  }

  /** `write_file_plain_chunked` */
  method WriteFilePlainChunked(state: Authenticated, link: Link, fileNo: byte, offset: u32, data: seq<byte>)
    returns (r: Result<(), SessionError>, ghost sent: nat, ghost stored: nat, ghost acked: nat)
    modifies state`cmdCounter, state`book, link
    ensures |data| == 0 ==> r == Err(InvalidCommandParameter("data.len()", 0)) && sent == 0 && link.tag == old(link.tag)
    ensures SentChunks(old(link.log), link.log, sent, 0x8D, fileNo, offset, |data|, PLAIN_WRITE_CHUNK)
    ensures old(state.Orderly()) ==> state.Orderly()
    ensures state.View() == old(state.View()).(cmdCtr := Counted(old(state.cmdCounter), acked))
    ensures InReach(sent, offset, PLAIN_WRITE_CHUNK)
    ensures r.Ok? ==> acked == sent == Exchanges(|data|, |data|, PLAIN_WRITE_CHUNK)
    ensures old(Holds(link, fileNo)) ==>
      && StoredChunks(old(link.tag), link.tag, fileNo, offset, data, stored, PLAIN_WRITE_CHUNK)
      && stored <= sent <= stored + 1
      && TransferEnds(r.Ok?, acked, link.delivered - old(link.delivered), old(link.tag), link.tag)
      && (r.Ok? ==> Holds(link, fileNo) && T.Wrote(old(link.tag), link.tag, fileNo, offset, data))
  {
    hide SentChunks, SentOne, StoredChunks, T.Wrote, Counted, OffsetAt, Exchanges, Addresses, Chunked, ValidateHeader,
         AtChunk, InReach, Authenticated.Orderly, T.Counts, PlainEnds, TransferEnds, WriteEnds;
    ghost var holds, start, log, ch, reached := Holds(link, fileNo), link.tag, link.log, state.View(), link.delivered;
    ghost var orderly := state.Orderly();
    sent, stored, acked := 0, 0, 0;
    NoReach(offset, PLAIN_WRITE_CHUNK);
    SentNone(log, 0x8D, fileNo, offset, |data|, PLAIN_WRITE_CHUNK);
    StoredNone(start, fileNo, offset, data, PLAIN_WRITE_CHUNK);
    CountedOnce(ch.cmdCtr, 0);
    T.CountsNone(start);
    FirstChunk(|data|, PLAIN_WRITE_CHUNK, offset);
    StoppedShort(holds, 0, 0, start, start);
    if |data| == 0 {
      r := Err(InvalidCommandParameter("data.len()", 0));
      return;
    }
    var written: nat, currentOffset: u32 := 0, offset;
    while written < |data|
      invariant orderly ==> state.Orderly()
      invariant written <= |data| && AtChunk(sent, written, |data|, PLAIN_WRITE_CHUNK, offset, currentOffset) && acked == sent && InReach(sent, offset, PLAIN_WRITE_CHUNK)
      invariant SentChunks(log, link.log, sent, 0x8D, fileNo, offset, |data|, PLAIN_WRITE_CHUNK)
      invariant state.View() == ch.(cmdCtr := Counted(ch.cmdCtr, sent))
      invariant holds ==> Holds(link, fileNo) && stored == sent
      invariant holds ==> T.Counts(start, link.tag, sent) && link.delivered == reached + sent
      invariant holds ==> StoredChunks(start, link.tag, fileNo, offset, data, sent, PLAIN_WRITE_CHUNK) && (sent == 0 || offset + written <= U24_MAX)
    {
      ThisChunk(sent, written, |data|, PLAIN_WRITE_CHUNK, offset, currentOffset);
      var end := Min(written + PLAIN_WRITE_CHUNK, |data|);
      ghost var at, t, before := link.log, link.tag, link.delivered;
      ghost var unsent := ValidateHeader(fileNo, currentOffset, end - written).Some?;
      var one := WriteDataPlain(link, fileNo, currentOffset, data[written..end]);
      if !unsent {
        ReachMore(sent, offset, PLAIN_WRITE_CHUNK, currentOffset);
        SentOneMore(log, at, link.log, sent, 0x8D, fileNo, offset, |data|, PLAIN_WRITE_CHUNK);
        CountedOnce(ch.cmdCtr, sent);
        if holds {
          StoredAfter(start, t, link.tag, fileNo, offset, data, sent, PLAIN_WRITE_CHUNK, one.Ok?);
          HeldStill(link, t, fileNo, currentOffset, data[written..end], one.Ok?);
          stored := if StoredChunks(start, link.tag, fileNo, offset, data, sent + 1, PLAIN_WRITE_CHUNK) then sent + 1 else sent;
        }
        sent := sent + 1;
      }
      if one.Err? {
        if holds {
          PlainStops(unsent, acked, link.delivered - before, start, t, link.tag);
        }
        r := one;
        return;
      }
      if holds {
        PlainCounted(link.delivered - before, start, t, link.tag, acked);
      }
      acked := acked + 1;
      state.AdvanceCounter();
      NextChunk(sent - 1, written, end - written, |data|, PLAIN_WRITE_CHUNK, offset, currentOffset);
      currentOffset := (currentOffset + (end - written)) % 0x1_0000_0000;
      written := end;
    }
    AllChunks(sent, |data|, PLAIN_WRITE_CHUNK, offset, currentOffset);
    if holds {
      StoredAll(start, link.tag, fileNo, offset, data, sent, PLAIN_WRITE_CHUNK);
    }
    StoppedShort(holds, acked, link.delivered - reached, start, link.tag);
    r := Result.Ok(());
  }

  /** A stored chunk leaves the file in place. */
  lemma HeldStill(link: Link, t: T.Tag, fileNo: byte, offset: nat, data: seq<byte>, ok: bool)
    requires HasFile(t, fileNo, T.Plain) && WriteEnds(ok, t, link.tag, fileNo, offset, data)
    ensures HasFile(link.tag, fileNo, T.Plain)
  {
  }
}
