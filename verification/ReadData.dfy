/**
  Reading files in chunks: commands/read_data.rs, and the plain loop of session/authenticated.rs.
  Each loop is proved to return the bytes of one read of the tag's file.
 */
module ReadData {
  import opened Wrappers
  import opened Octets
  import opened Aes
  import opened Blocks
  import opened Suite
  import opened Wire
  import opened Transport
  import opened SecureChannel
  import opened Exchange
  import T = Tag

  const READ_DATA_RESP_CAP := 256
  const MAC_READ_CHUNK := 248
  const FULL_READ_CHUNK := 239
  const PLAIN_READ_CHUNK := 256

  /** Chunks are as long as an answer of 256 bytes allows: with a MAC of 8, and padded if enciphered. */
  lemma ChunksFit(n: nat)
    ensures n <= MAC_READ_CHUNK <==> n + 8 <= 256
    ensures n <= FULL_READ_CHUNK <==> PaddedLen(n) + 8 <= 256
    ensures n <= PLAIN_READ_CHUNK <==> n <= 256
  {
  }

  function ValidateRequest(fileNo: byte, offset: u32, length: u32, bufLen: nat): (e: Option<SessionError>)
    ensures e.None? <==> fileNo < 0x20 && offset < 0x100_0000 && length < 0x100_0000 && bufLen > 0 && length <= bufLen
  {
    if fileNo > 0x1F then Some(InvalidCommandParameter("file_no", fileNo))
    else if offset > U24_MAX then Some(InvalidCommandParameter("offset", offset))
    else if length > U24_MAX then Some(InvalidCommandParameter("length", length))
    else if bufLen == 0 then Some(InvalidCommandParameter("buf.len()", 0))
    else if length != 0 && bufLen < length then Some(InvalidCommandParameter("buf.len()", bufLen))
    else None
  }

  function WantPlainBytes(length: u32, bufLen: nat): nat {
    Min(if length == 0 then bufLen else length, READ_DATA_RESP_CAP)
  }

  function SecureReadApdu(aes: Aes128, ch: Channel, fileNo: byte, offset: nat, length: nat): seq<byte> {
    var header := Header(fileNo, offset, length);
    Apdu(0xAD, 0x00, 0x00, header + CommandMac(aes, ch, 0xAD, header))
  }

  lemma SecureReadAnswer(aes: Aes128, t: T.Tag, fileNo: byte, offset: nat, length: nat)
    requires t.session.Some? && fileNo in t.files && !t.files[fileNo].mode.Plain?
    requires offset <= U24_MAX && length <= U24_MAX
    ensures var ch, f := t.session.value.ch, t.files[fileNo];
      var d := T.ReadRange(f.data, offset, length, t.shortReads, if f.mode.Mac? then 248 else 239);
      T.Step(aes, t, SecureReadApdu(aes, ch, fileNo, offset, length)) ==
        if d.None? then T.Fail(t, 0xBE)
        else if f.mode.Mac? then T.ReadMac(aes, t, ch, d.value)
        else T.ReadFull(aes, t, ch, d.value)
  {
    var ch := t.session.value.ch;
    var header := Header(fileNo, offset, length);
    var mac := CommandMac(aes, ch, 0xAD, header);
    HeaderParses(fileNo, offset, length, mac);
    CheckedOwn(aes, t, 0xAD, header);
    T.StepApdu(aes, t, 0xAD, 0, 0, header + mac);
  }

  /** The tag will refuse this read; nothing is said of other ones. */
  ghost predicate DeafToRead(state: Authenticated, link: Link, fileNo: byte, mode: T.CommMode, offset: nat, length: nat)
    reads state, link
  {
    Deaf(state, link, 0xAD, Header(fileNo, offset, length)) && HasFile(link.tag, fileNo, mode)
  }

  lemma DeafRead(aes: Aes128, t: T.Tag, host: Channel, fileNo: byte, offset: nat, length: nat)
    requires Refuses(aes, t, host, 0xAD, Header(fileNo, offset, length)) && (fileNo in t.files ==> !t.files[fileNo].mode.Plain?)
    ensures T.Step(aes, t, SecureReadApdu(aes, host, fileNo, offset, length)).1.sw2 != 0x00
  {
    hide T.Step, Refuses, Apdu, CommandMac;
    DeafRefuses(aes, t, host, 0xAD, Header(fileNo, offset, length));
  }

  lemma PlainReadAnswer(aes: Aes128, t: T.Tag, fileNo: byte, offset: nat, length: nat)
    requires HasFile(t, fileNo, T.Plain) && offset <= U24_MAX && length <= U24_MAX
    ensures
      var d := T.ReadRange(t.files[fileNo].data, offset, length, t.shortReads, 256);
      T.Step(aes, t, Apdu(0xAD, 0, 0, Header(fileNo, offset, length))) ==
        if d.None? then T.Fail(t, 0xBE) else T.Accept(T.PlainDone(t), d.value)
  {
    var header := Header(fileNo, offset, length);
    HeaderParses(fileNo, offset, length, []);
    assert header + [] == header;
    T.StepApdu(aes, t, 0xAD, 0, 0, header);
  }

  // ---------------------------------------------------------------- CommMode.MAC

  /** What one read command leaves on the link, whatever answers: keys and files are as they were. */
  predicate SentRead(before: Trace, after: Trace, fileNo: byte, offset: nat, length: nat) {
    T.SameMemory(before.tag, after.tag) && SentOne(before.log, after.log, 0xAD, fileNo, offset, length)
  }

  /** `buf` holds `n` bytes at `at`, and is otherwise as it was. */
  twostate predicate Filled(buf: array<byte>, at: nat, n: nat)
    reads buf
  {
    forall j :: 0 <= j < buf.Length && !(at <= j < at + n) ==> buf[j] == old(buf[j])
  }

  /** Sends one authenticated read and checks the answer's MAC: what MAC and FULL reads share. */
  method SecureRead(state: Authenticated, link: Link, fileNo: byte, offset: nat, length: nat)
    returns (r: Result<seq<byte>, SessionError>)
    modifies state`cmdCounter, state`book, link
    ensures SentRead(old(link.Seen()), link.Seen(), fileNo, offset, length)
    ensures state.View() == if r.Ok? then Advance(old(state.View())) else old(state.View())
    ensures r.Ok? ==> Acknowledged(old(state.book), state.book) && state.book.unsealed == old(state.book).unsealed
    ensures r.Ok? && link.honest ==>
      var s := T.Step(link.aes, old(link.tag), SecureReadApdu(state.aes, old(state.View()), fileNo, offset, length));
      link.tag == s.0 && s.1.sw2 == 0x00 && r == Verified(state.aes, old(state.View()), 0x00, s.1.data)
  {
    hide T.Step, Verified, Acknowledged, Answered;
    ghost var book := state.book;
    var header := Header(fileNo, offset, length);
    var mac := ComputeCmdMac(state, 0xAD, header, []);
    assert header + [] == header;
    var apdu := Apdu(0xAD, 0x00, 0x00, header + mac);
    ApduFrames(0xAD, 0x00, 0x00, header + mac);
    T.ReadsKeepMemory(link.aes, link.tag, apdu);
    r := Deliver(state, link, apdu);
    if r.Ok? {
      AnsweredIsOrderly(book, 0xAD, header, state.book);
    }
  }

  /** The tag's file bytes that a read of this range returns, if it is answered at all. */
  function Served(t: T.Tag, fileNo: byte, offset: nat, length: nat, cap: nat): Option<seq<byte>>
    requires fileNo in t.files
  {
    T.ReadRange(t.files[fileNo].data, offset, length, t.shortReads, cap)
  }

  lemma MacReadAccepted(aes: Aes128, t: T.Tag, fileNo: byte, offset: nat, length: nat)
    requires t.session.Some? && HasFile(t, fileNo, T.Mac) && offset <= U24_MAX && length <= U24_MAX
    ensures var ch, d := t.session.value.ch, Served(t, fileNo, offset, length, MAC_READ_CHUNK);
      var s := T.Step(aes, t, SecureReadApdu(aes, ch, fileNo, offset, length));
      s.1.sw2 == 0x00 ==>
        d.Some? && Verified(aes, ch, 0x00, s.1.data) == Result.Ok(d.value) && s.0 == T.WithChannel(t, Advance(ch))
  {
    var ch, d := t.session.value.ch, Served(t, fileNo, offset, length, MAC_READ_CHUNK);
    SecureReadAnswer(aes, t, fileNo, offset, length);
    if d.Some? {
      VerifiedOwn(aes, ch, d.value);
    }
  }

  method ReadDataMacOneApdu(state: Authenticated, link: Link, fileNo: byte, offset: nat, length: u32,
                            buf: array<byte>, at: nat, len: nat) returns (r: Result<nat, SessionError>)
    requires length <= len && at + len <= buf.Length
    modifies state`cmdCounter, state`book, link, buf
    ensures SentRead(old(link.Seen()), link.Seen(), fileNo, offset, length)
    ensures Filled(buf, at, if r.Ok? then r.value else 0)
    ensures r.Ok? ==> r.value <= len && state.View() == Advance(old(state.View()))
    ensures r.Ok? && old(Ready(state, link, fileNo, T.Mac)) && offset <= U24_MAX && length <= U24_MAX ==>
      && Ready(state, link, fileNo, T.Mac) && link.tag.files == old(link.tag).files
      && Served(old(link.tag), fileNo, offset, length, MAC_READ_CHUNK) == Some(buf[at..at + r.value])
    ensures old(DeafToRead(state, link, fileNo, T.Mac, offset, length)) ==> r.Err?
    ensures r.Ok? && old(state.Orderly()) ==> state.Orderly()
  {
    hide T.Step, Served, Verified, SecureReadApdu, Refuses, IsOrderly, Acknowledged;
    ghost var book := state.book;
    var want := WantPlainBytes(length, len);
    if Ready(state, link, fileNo, T.Mac) && offset <= U24_MAX && length <= U24_MAX {
      MacReadAccepted(state.aes, link.tag, fileNo, offset, length);
    }
    if DeafToRead(state, link, fileNo, T.Mac, offset, length) {
      DeafRead(link.aes, link.tag, state.View(), fileNo, offset, length);
    }
    var data :- SecureRead(state, link, fileNo, offset, length);
    if |data| > want {
      return Err(UnexpectedLength(|data|, want));
    }
    if old(state.Orderly()) {
      StaysOrderly(book, state.book, old(state.cmdCounter));
    }
    CopyInto(buf, at, data);
    assert buf[at..at + |data|] == data;
    return Result.Ok(|data|);
  }

  // ---------------------------------------------------------------- the MAC loop

  function Target(length: u32, bufLen: nat): nat {
    if length == 0 then bufLen else length
  }

  /** The first `n` commands of a chunked read; keys and files are as they were. */
  predicate SentReads(before: Trace, after: Trace, n: nat, fileNo: byte, offset: nat, target: nat, chunk: nat) {
    T.SameMemory(before.tag, after.tag) && SentChunks(before.log, after.log, n, 0xAD, fileNo, offset, target, chunk)
  }

  lemma ReadsNone(at: Trace, fileNo: byte, offset: nat, target: nat, chunk: nat)
    ensures SentReads(at, at, 0, fileNo, offset, target, chunk)
  {
    SentNone(at.log, 0xAD, fileNo, offset, target, chunk);
  }

  lemma ReadsOneMore(before: Trace, at: Trace, after: Trace, n: nat, fileNo: byte, offset: u32, target: nat, chunk: nat)
    requires SentReads(before, at, n, fileNo, offset, target, chunk) && n * chunk < target
    requires SentRead(at, after, fileNo, OffsetAt(offset, n * chunk), Min(target - n * chunk, chunk))
    ensures SentReads(before, after, n + 1, fileNo, offset, target, chunk)
    ensures T.SameMemory(at.tag, after.tag)
  {
    SentOneMore(before.log, at.log, after.log, n, 0xAD, fileNo, offset, target, chunk);
  }

  /** One more chunk: the bytes that follow, all of them unless the file ends. */
  lemma HoldsMore(t: T.Tag, fileNo: byte, offset: nat, held: seq<byte>, buf: seq<byte>, total: nat, n: nat, length: nat, cap: nat)
    requires fileNo in t.files && 0 < length
    requires HoldsBytes(t.files[fileNo].data, offset, held, total)
    requires |buf| == |held| && total + n <= |buf| && buf[..total] == held[..total]
    requires Served(t, fileNo, offset + total, length, cap) == Some(buf[total..total + n])
    ensures var f := t.files[fileNo].data;
      && HoldsBytes(f, offset, buf, total + n) && offset + total + n <= |f| < 0x100_0000
      && (n == length || (n < length && offset + total + n == |f|))
  {
    var f := t.files[fileNo].data;
    assert offset + total + n <= |f| && buf[total..total + n] == f[offset + total..offset + total + n];
    assert buf[..total + n] == buf[..total] + buf[total..total + n];
    assert f[offset..offset + total + n] == f[offset..offset + total] + f[offset + total..offset + total + n];
  }

  /** Host and tag are in step, and the tag's file has these bytes. */
  ghost predicate Supplies(state: Authenticated, link: Link, fileNo: byte, mode: T.CommMode, f: seq<byte>)
    reads state, link
  {
    Ready(state, link, fileNo, mode) && link.tag.files[fileNo].data == f
  }

  /** One turn of the loop: the next chunk, behind the `total` bytes already in the buffer. */
  method ReadMacChunk(state: Authenticated, link: Link, fileNo: byte, ghost f: seq<byte>, ghost offset: u32,
                      currentOffset: u32, chunk: u32, buf: array<byte>, total: nat) returns (r: Result<nat, SessionError>)
    requires 0 < chunk && total + chunk <= buf.Length
    modifies state`cmdCounter, state`book, link, buf
    ensures SentRead(old(link.Seen()), link.Seen(), fileNo, currentOffset, chunk)
    ensures Filled(buf, total, if r.Ok? then r.value else 0)
    ensures r.Ok? ==> r.value <= chunk && state.View() == Advance(old(state.View()))
    ensures r.Ok? && old(Supplies(state, link, fileNo, T.Mac, f) && HoldsBytes(f, offset, buf[..], total))
            && currentOffset == offset + total <= U24_MAX && chunk <= U24_MAX ==>
      && Supplies(state, link, fileNo, T.Mac, f) && HoldsBytes(f, offset, buf[..], total + r.value)
      && offset + total + r.value <= U24_MAX && (r.value == chunk || offset + total + r.value == |f|)
    ensures old(DeafToRead(state, link, fileNo, T.Mac, currentOffset, chunk)) ==> r.Err?
    ensures r.Ok? && old(state.Orderly()) ==> state.Orderly()
  {
    hide IsOrderly, SentRead, HoldsBytes, Served, DeafToRead;
    ghost var held, t, ready := buf[..], link.tag, Ready(state, link, fileNo, T.Mac);
    r := ReadDataMacOneApdu(state, link, fileNo, currentOffset, chunk, buf, total, chunk);
    if r.Ok? && ready && currentOffset == offset + total <= U24_MAX && chunk <= U24_MAX
       && t.files[fileNo].data == f && HoldsBytes(f, offset, held, total) {
      HoldsMore(t, fileNo, offset, held, buf[..], total, r.value, chunk, MAC_READ_CHUNK);
    }
  }

  method ReadDataMac(state: Authenticated, link: Link, fileNo: byte, offset: u32, length: u32, buf: array<byte>)
    returns (r: Result<nat, SessionError>, ghost sent: nat)
    modifies state`cmdCounter, state`book, link, buf
    ensures ValidateRequest(fileNo, offset, length, buf.Length).Some? ==>
      r == Err(ValidateRequest(fileNo, offset, length, buf.Length).value) && sent == 0
    ensures SentReads(old(link.Seen()), link.Seen(), sent, fileNo, offset, Target(length, buf.Length), MAC_READ_CHUNK)
    ensures r.Ok? ==>
      var target := Target(length, buf.Length);
      r.value <= target && sent == Exchanges(r.value, target, MAC_READ_CHUNK)
      && state.View() == old(state.View()).(cmdCtr := Counted(old(state.cmdCounter), sent)) && Filled(buf, 0, r.value)
    ensures r.Ok? && old(Ready(state, link, fileNo, T.Mac)) ==>
      var f := link.tag.files[fileNo].data;
      Ready(state, link, fileNo, T.Mac) && HoldsBytes(f, offset, buf[..], r.value)
      && (r.value == Target(length, buf.Length) || offset + r.value == |f|)
    ensures old(Ready(state, link, fileNo, T.Mac)) ==> InReach(sent, offset, MAC_READ_CHUNK)
    ensures r.Ok? && old(state.Orderly()) ==> state.Orderly()
    ensures old(DeafToRead(state, link, fileNo, T.Mac, offset, Min(Target(length, buf.Length), MAC_READ_CHUNK))) ==> r.Err?
  {
    hide SentReads, SentRead, HoldsBytes, Served, Counted, OffsetAt, Exchanges, Chunked, Addresses, ValidateRequest,
         AtChunk, DeafToRead, InReach, Authenticated.Orderly, T.SameMemory;
    ghost var deaf := DeafToRead(state, link, fileNo, T.Mac, offset, Min(Target(length, buf.Length), MAC_READ_CHUNK));
    ghost var orderly := state.Orderly();
    ghost var ready, start, ch := Ready(state, link, fileNo, T.Mac), link.Seen(), state.View();
    sent := 0;
    assert InReach(0, offset, MAC_READ_CHUNK) by { NoReach(offset, MAC_READ_CHUNK); }
    ReadsNone(start, fileNo, offset, Target(length, buf.Length), MAC_READ_CHUNK);
    CountedOnce(ch.cmdCtr, 0);
    ghost var f := if ready then link.tag.files[fileNo].data else [];
    HoldsNothing(f, offset, buf[..]);
    var e := ValidateRequest(fileNo, offset, length, buf.Length);
    if e.Some? {
      r := Err(e.value);
      return;
    }
    var target := Target(length, buf.Length);
    FirstChunk(target, MAC_READ_CHUNK, offset);
    var total: nat, currentOffset: u32 := 0, offset;
    while total < target
      invariant total <= target && AtChunk(sent, total, target, MAC_READ_CHUNK, offset, currentOffset)
      invariant SentReads(start, link.Seen(), sent, fileNo, offset, target, MAC_READ_CHUNK)
      invariant state.View() == ch.(cmdCtr := Counted(ch.cmdCtr, sent)) && Filled(buf, 0, total)
      invariant ready ==> Supplies(state, link, fileNo, T.Mac, f) && HoldsBytes(f, offset, buf[..], total)
      invariant deaf ==> total == 0 && currentOffset == offset && DeafToRead(state, link, fileNo, T.Mac, offset, Min(target, MAC_READ_CHUNK))
      invariant orderly ==> state.Orderly()
      invariant ready ==> InReach(sent, offset, MAC_READ_CHUNK)
      invariant ready ==> total == 0 || offset + total <= U24_MAX
      decreases target - total
    {
      hide Supplies, Ready;
      ThisChunk(sent, total, target, MAC_READ_CHUNK, offset, currentOffset);
      var chunk := Min(target - total, MAC_READ_CHUNK);
      ghost var at := link.Seen();
      var one := ReadMacChunk(state, link, fileNo, f, offset, currentOffset, chunk, buf, total);
      ReadsOneMore(start, at, link.Seen(), sent, fileNo, offset, target, MAC_READ_CHUNK);
      CountedOnce(ch.cmdCtr, sent);
      if ready {
        ReachMore(sent, offset, MAC_READ_CHUNK, currentOffset);
      }
      sent := sent + 1;
      var n :- one;
      total := total + n;
      if n < chunk {
        ShortChunk(sent - 1, total - n, n, target, MAC_READ_CHUNK, offset, currentOffset);
        break;
      }
      NextChunk(sent - 1, total - n, n, target, MAC_READ_CHUNK, offset, currentOffset);
      currentOffset := (currentOffset + chunk) % 0x1_0000_0000;
    }
    if total == target {
      AllChunks(sent, target, MAC_READ_CHUNK, offset, currentOffset);
    }
    r := Result.Ok(total);
  }

  /**
    A request that is accepted and whose second command names another place: 249 bytes from the last 24-bit
    offset. It is sent to whoever answers the first command with 248 bytes under the right MAC, which no
    tag does: its files end before (`InReach` in the loop's contract).
   */
  lemma TruncatedRead(aes: Aes128, ch: Channel, data: seq<byte>)
    requires |data| == MAC_READ_CHUNK
    ensures ValidateRequest(2, U24_MAX, MAC_READ_CHUNK + 1, MAC_READ_CHUNK + 1).None? && !InReach(2, U24_MAX, MAC_READ_CHUNK)
    ensures Verified(aes, ch, 0x00, data + ResponseMac(aes, ch, 0x00, data)) == Result.Ok(data)
    ensures FromLe24(Header(2, OffsetAt(U24_MAX, MAC_READ_CHUNK), 1)[1..4]) == MAC_READ_CHUNK - 1
  {
    hide FromLe24, Header, ResponseMac, Verified;
    VerifiedOwn(aes, ch, data);
    TruncatedHeader(2, U24_MAX + MAC_READ_CHUNK, 1);
  }

  lemma TruncatedHeader(fileNo: byte, offset: nat, length: nat)
    ensures FromLe24(Header(fileNo, offset, length)[1..4]) == offset % 0x100_0000
  {
    HeaderDecodes(fileNo, offset, length, []);
    assert Header(fileNo, offset, length) + [] == Header(fileNo, offset, length);
  }

  // ---------------------------------------------------------------- CommMode.FULL

  /** What an encrypted answer means: its blocks, deciphered, without their padding. */
  function Opened(aes: Aes128, ch: Channel, ciphertext: seq<byte>): Result<seq<byte>, SessionError> {
    var n := |ciphertext|;
    if n == 0 || n % 16 != 0 then Err(UnexpectedLength(n, if n == 0 then 16 else (n + 15) / 16 * 16))
    else
      var plain := Decrypted(aes, ch.suite, Response, ch.ti, ch.cmdCtr, ciphertext);
      var end := Strip(plain);
      if end.None? then Err(UnexpectedLength(n, n)) else Result.Ok(plain[..end.value])
  }

  method OpenResponse(state: Authenticated, ciphertext: seq<byte>) returns (r: Result<seq<byte>, SessionError>)
    modifies state`suite, state`book
    ensures r == Opened(state.aes, old(state.View()), ciphertext)
    ensures r.Ok? ==> state.suite == Stepped(old(state.suite), |ciphertext|)
    ensures r.Ok? ==> var b := old(state.book); state.book == b.(unsealed := b.unsealed + [Use(b.turn, 0, [])])
  {
    hide Strip;
    var n := |ciphertext|;
    if n == 0 || n % 16 != 0 {
      return Err(UnexpectedLength(n, if n == 0 then 16 else (n + 15) / 16 * 16));
    }
    var scratch := new byte[n](i requires 0 <= i < n => ciphertext[i]);
    assert scratch[..] == ciphertext;
    var aligned := DecryptResponse(state, scratch);
    assert aligned.Ok?;
    var plain := scratch[..];
    var end := StripM2Padding(plain);
    if end.None? {
      return Err(UnexpectedLength(n, n));
    }
    return Result.Ok(plain[..end.value]);
  }

  lemma FullReadAccepted(aes: Aes128, t: T.Tag, fileNo: byte, offset: nat, length: nat)
    requires t.session.Some? && HasFile(t, fileNo, T.Full) && offset <= U24_MAX && length <= U24_MAX
    ensures var ch, d := t.session.value.ch, Served(t, fileNo, offset, length, FULL_READ_CHUNK);
      var s := T.Step(aes, t, SecureReadApdu(aes, ch, fileNo, offset, length));
      s.1.sw2 == 0x00 ==>
        && d.Some? && Verified(aes, ch, 0x00, s.1.data).Ok?
        && var ct := Verified(aes, ch, 0x00, s.1.data).value;
        && Opened(aes, Advance(ch), ct) == Result.Ok(d.value)
        && s.0 == T.WithChannel(t, Advance(ch).(suite := Stepped(ch.suite, |ct|)))
  {
    var ch, d := t.session.value.ch, Served(t, fileNo, offset, length, FULL_READ_CHUNK);
    SecureReadAnswer(aes, t, fileNo, offset, length);
    if d.Some? {
      var pt := Pad(d.value);
      var ct := Encrypted(aes, ch.suite, Response, ch.ti, Next(ch.cmdCtr), pt);
      VerifiedOwn(aes, ch, ct);
      DecryptUndoesEncrypt(aes, ch.suite, Response, ch.ti, Next(ch.cmdCtr), pt);
      StripPad(d.value);
    }
  }

  lemma UnsealedToo(b: Book, answered: Book, b': Book)
    requires Acknowledged(b, answered) && answered.unsealed == b.unsealed
    requires b' == answered.(unsealed := b.unsealed + [Use(answered.turn, 0, [])])
    ensures Acknowledged(b, b')
  {
  }

  /** One FULL read, deciphered. */
  method ReadPlaintext(state: Authenticated, link: Link, fileNo: byte, offset: nat, length: u32) returns (r: Result<seq<byte>, SessionError>)
    modifies state`cmdCounter, state`book, state`suite, link
    ensures SentRead(old(link.Seen()), link.Seen(), fileNo, offset, length)
    ensures r.Ok? ==> state.cmdCounter == Next(old(state.cmdCounter)) && state.ti == old(state.ti)
    ensures r.Ok? && old(Ready(state, link, fileNo, T.Full)) && offset <= U24_MAX && length <= U24_MAX ==>
      && Ready(state, link, fileNo, T.Full) && link.tag.files == old(link.tag).files
      && Served(old(link.tag), fileNo, offset, length, FULL_READ_CHUNK) == Some(r.value)
    ensures old(DeafToRead(state, link, fileNo, T.Full, offset, length)) ==> r.Err?
    ensures r.Ok? && old(state.Orderly()) ==> state.Orderly()
  {
    hide T.Step, Served, Verified, SecureReadApdu, Opened, Refuses, IsOrderly, Acknowledged;
    ghost var book := state.book;
    if Ready(state, link, fileNo, T.Full) && offset <= U24_MAX && length <= U24_MAX {
      FullReadAccepted(state.aes, link.tag, fileNo, offset, length);
    }
    if DeafToRead(state, link, fileNo, T.Full, offset, length) {
      DeafRead(link.aes, link.tag, state.View(), fileNo, offset, length);
    }
    var ciphertext :- SecureRead(state, link, fileNo, offset, length);
    ghost var answered := state.book;
    r := OpenResponse(state, ciphertext);
    if r.Ok? {
      UnsealedToo(book, answered, state.book);
      if old(state.Orderly()) {
        StaysOrderly(book, state.book, old(state.cmdCounter));
      }
    }
  }

  method ReadDataFullOneApdu(state: Authenticated, link: Link, fileNo: byte, offset: nat, length: u32,
                             buf: array<byte>, at: nat, len: nat) returns (r: Result<nat, SessionError>)
    requires length <= len && at + len <= buf.Length
    modifies state`cmdCounter, state`book, state`suite, link, buf
    ensures SentRead(old(link.Seen()), link.Seen(), fileNo, offset, length)
    ensures Filled(buf, at, if r.Ok? then r.value else 0)
    ensures r.Ok? ==> r.value <= len && (length != 0 ==> r.value == length)
    ensures r.Ok? ==> state.cmdCounter == Next(old(state.cmdCounter)) && state.ti == old(state.ti)
    ensures r.Ok? && old(Ready(state, link, fileNo, T.Full)) && offset <= U24_MAX && length <= U24_MAX ==>
      && Ready(state, link, fileNo, T.Full) && link.tag.files == old(link.tag).files
      && Served(old(link.tag), fileNo, offset, length, FULL_READ_CHUNK) == Some(buf[at..at + r.value])
    ensures old(DeafToRead(state, link, fileNo, T.Full, offset, length)) ==> r.Err?
    ensures r.Ok? && old(state.Orderly()) ==> state.Orderly()
  {
    hide Served, DeafToRead, IsOrderly, SentRead;
    var plain :- ReadPlaintext(state, link, fileNo, offset, length);
    if length != 0 && |plain| != length {
      return Err(UnexpectedLength(|plain|, length));
    }
    if |plain| > len {
      return Err(UnexpectedLength(|plain|, len));
    }
    CopyInto(buf, at, plain);
    assert buf[at..at + |plain|] == plain;
    return Result.Ok(|plain|);
  }

  /** FULL mode pins every chunk's length, so it never returns short, whatever answers. */
  method ReadDataFull(state: Authenticated, link: Link, fileNo: byte, offset: u32, length: u32, buf: array<byte>)
    returns (r: Result<nat, SessionError>, ghost sent: nat)
    modifies state`cmdCounter, state`book, state`suite, link, buf
    ensures ValidateRequest(fileNo, offset, length, buf.Length).Some? ==>
      r == Err(ValidateRequest(fileNo, offset, length, buf.Length).value) && sent == 0
    ensures SentReads(old(link.Seen()), link.Seen(), sent, fileNo, offset, Target(length, buf.Length), FULL_READ_CHUNK)
    ensures r.Ok? ==>
      var target := Target(length, buf.Length);
      r.value == target && sent == Exchanges(target, target, FULL_READ_CHUNK)
      && state.cmdCounter == Counted(old(state.cmdCounter), sent) && Filled(buf, 0, target)
    ensures r.Ok? && old(Ready(state, link, fileNo, T.Full)) ==>
      Ready(state, link, fileNo, T.Full) && HoldsBytes(link.tag.files[fileNo].data, offset, buf[..], r.value)
    ensures old(Ready(state, link, fileNo, T.Full)) ==> InReach(sent, offset, FULL_READ_CHUNK)
    ensures r.Ok? && old(state.Orderly()) ==> state.Orderly()
    ensures old(DeafToRead(state, link, fileNo, T.Full, offset, Min(Target(length, buf.Length), FULL_READ_CHUNK))) ==> r.Err?
  {
    hide SentReads, SentRead, HoldsBytes, Served, Counted, OffsetAt, Exchanges, Chunked, Addresses, ValidateRequest,
         AtChunk, DeafToRead, InReach, Authenticated.Orderly;
    ghost var deaf := DeafToRead(state, link, fileNo, T.Full, offset, Min(Target(length, buf.Length), FULL_READ_CHUNK));
    ghost var orderly := state.Orderly();
    ghost var ready, start, ctr := Ready(state, link, fileNo, T.Full), link.Seen(), state.cmdCounter;
    ghost var f := if ready then link.tag.files[fileNo].data else [];
    sent := 0;
    assert InReach(0, offset, FULL_READ_CHUNK) by { NoReach(offset, FULL_READ_CHUNK); }
    ReadsNone(start, fileNo, offset, Target(length, buf.Length), FULL_READ_CHUNK);
    CountedOnce(ctr, 0);
    HoldsNothing(f, offset, buf[..]);
    var e := ValidateRequest(fileNo, offset, length, buf.Length);
    if e.Some? {
      r := Err(e.value);
      return;
    }
    var target := Target(length, buf.Length);
    FirstChunk(target, FULL_READ_CHUNK, offset);
    var total: nat, currentOffset: u32 := 0, offset;
    while total < target
      invariant total <= target && AtChunk(sent, total, target, FULL_READ_CHUNK, offset, currentOffset)
      invariant SentReads(start, link.Seen(), sent, fileNo, offset, target, FULL_READ_CHUNK)
      invariant T.SameMemory(start.tag, link.tag)
      invariant state.cmdCounter == Counted(ctr, sent) && Filled(buf, 0, total)
      invariant ready ==> Ready(state, link, fileNo, T.Full) && HoldsBytes(f, offset, buf[..], total)
      invariant deaf ==> total == 0 && currentOffset == offset && DeafToRead(state, link, fileNo, T.Full, offset, Min(target, FULL_READ_CHUNK))
      invariant orderly ==> state.Orderly()
      invariant ready ==> InReach(sent, offset, FULL_READ_CHUNK)
      invariant ready ==> total == 0 || offset + total <= U24_MAX
      decreases target - total
    {
      ThisChunk(sent, total, target, FULL_READ_CHUNK, offset, currentOffset);
      var chunk := Min(target - total, FULL_READ_CHUNK);
      ghost var at, held := link.Seen(), buf[..];
      var one := ReadDataFullOneApdu(state, link, fileNo, currentOffset, chunk, buf, total, chunk);
      ReadsOneMore(start, at, link.Seen(), sent, fileNo, offset, target, FULL_READ_CHUNK);
      CountedOnce(ctr, sent);
      if ready {
        ReachMore(sent, offset, FULL_READ_CHUNK, currentOffset);
      }
      sent := sent + 1;
      var n :- one;
      NextChunk(sent - 1, total, chunk, target, FULL_READ_CHUNK, offset, currentOffset);
      if ready {
        HoldsMore(at.tag, fileNo, offset, held, buf[..], total, n, chunk, FULL_READ_CHUNK);
      }
      total := total + n;
      currentOffset := (currentOffset + chunk) % 0x1_0000_0000;
    }
    AllChunks(sent, target, FULL_READ_CHUNK, offset, currentOffset);
    r := Result.Ok(total);
  }

  // ---------------------------------------------------------------- CommMode.Plain

  /** The answer to a plain read, and how it leaves the session. */
  lemma PlainReadOutcome(aes: Aes128, t: T.Tag, fileNo: byte, offset: nat, length: nat)
    requires HasFile(t, fileNo, T.Plain) && offset <= U24_MAX && length <= U24_MAX
    ensures var d, s := Served(t, fileNo, offset, length, PLAIN_READ_CHUNK), T.Step(aes, t, Apdu(0xAD, 0, 0, Header(fileNo, offset, length)));
      && PlainEnds(d.Some?, 1, t, s.0)
      && s.1 == (if d.None? then T.Reply([], 0x91, 0xBE) else T.Reply(d.value, 0x91, 0x00))
      && (length > 0 && d.Some? ==> |d.value| <= length)
  {
    hide T.Step, T.Counts;
    PlainReadAnswer(aes, t, fileNo, offset, length);
    T.PlainDoneCounts(t);
  }

  /** `read_data_plain`: an answer longer than asked for is cut, not refused. */
  method ReadDataPlain(link: Link, fileNo: byte, offset: u32, length: u32, buf: array<byte>, at: nat, len: nat)
    returns (r: Result<nat, SessionError>)
    requires at + len <= buf.Length
    modifies link, buf
    ensures var e := ValidateRequest(fileNo, offset, length, len);
      if e.Some? then r == Err(e.value) && link.Seen() == old(link.Seen()) && link.delivered == old(link.delivered)
      else SentRead(old(link.Seen()), link.Seen(), fileNo, offset, length)
    ensures Filled(buf, at, if r.Ok? then r.value else 0)
    ensures r.Ok? ==> r.value <= WantPlainBytes(length, len) <= len && (length > 0 ==> r.value <= length)
    ensures r.Err? ==> r.error != IndexPanic
    ensures old(Holds(link, fileNo)) && ValidateRequest(fileNo, offset, length, len).None? ==>
      PlainEnds(r.Ok?, link.delivered - old(link.delivered), old(link.tag), link.tag)
    ensures r.Ok? && old(Holds(link, fileNo)) ==>
      var d := Served(old(link.tag), fileNo, offset, length, PLAIN_READ_CHUNK);
      d.Some? && r.value == Min(|d.value|, WantPlainBytes(length, len)) && buf[at..at + r.value] == d.value[..r.value]
    ensures r.Ok? && old(Holds(link, fileNo)) && 0 < length <= len && length <= PLAIN_READ_CHUNK ==>
      Served(old(link.tag), fileNo, offset, length, PLAIN_READ_CHUNK) == Some(buf[at..at + r.value])
  {
    hide T.Step, Served, T.Counts;
    var e := ValidateRequest(fileNo, offset, length, len);
    if e.Some? {
      return Err(e.value);
    }
    var want := WantPlainBytes(length, len);
    var header := Header(fileNo, offset, length);
    var apdu := Apdu(0xAD, 0x00, 0x00, header);
    ApduFrames(0xAD, 0x00, 0x00, header);
    T.ReadsKeepMemory(link.aes, link.tag, apdu);
    if HasFile(link.tag, fileNo, T.Plain) {
      PlainReadOutcome(link.aes, link.tag, fileNo, offset, length);
    }
    var resp :- link.Transmit(apdu);
    if !(resp.sw1 == 0x91 && resp.sw2 == 0x00) {
      return Err(ErrorResponse(resp.sw1, resp.sw2));
    }
    var n := Min(Min(|resp.data|, want), len);
    CopyInto(buf, at, resp.data[..n]);
    assert buf[at..at + n] == resp.data[..n];
    assert resp.data[..|resp.data|] == resp.data;
    return Result.Ok(n);
  }

  /**
    `read_file_plain_chunked`: the session counts the commands that `read_data_plain` does not. A buffer
    shorter than the length asked for is no error by itself: the code panics only when a chunk would
    not fit, which a shorter file prevents.
   */
  method ReadFilePlainChunked(state: Authenticated, link: Link, fileNo: byte, offset: u32, length: u32, buf: array<byte>)
    returns (r: Result<nat, SessionError>, ghost sent: nat, ghost acked: nat)
    modifies state`cmdCounter, state`book, link, buf
    ensures length > 0 ==> SentReads(old(link.Seen()), link.Seen(), sent, fileNo, offset, length, PLAIN_READ_CHUNK)
    ensures old(state.Orderly()) ==> state.Orderly()
    ensures state.View() == old(state.View()).(cmdCtr := Counted(old(state.cmdCounter), acked))
    ensures r.Ok? ==> acked == sent && r.value <= buf.Length && Filled(buf, 0, r.value)
    ensures r.Ok? && length > 0 ==> r.value <= length && sent == Exchanges(r.value, length, PLAIN_READ_CHUNK)
    ensures r.Ok? && length == 0 ==> r.value <= WantPlainBytes(0, buf.Length) && sent == 1
    ensures length > 0 ==> InReach(sent, offset, PLAIN_READ_CHUNK)
    ensures r == Err(IndexPanic) ==> NoRoom(acked, length, buf.Length)
    ensures T.SameMemory(old(link.tag), link.tag)
    ensures old(Holds(link, fileNo)) ==>
      TransferEnds(r.Ok?, acked, link.delivered - old(link.delivered), old(link.tag), link.tag)
    ensures r.Ok? && old(Holds(link, fileNo)) ==>
      && Holds(link, fileNo)
      && var f := link.tag.files[fileNo].data;
      && HoldsBytes(f, offset, buf[..], r.value)
      && (length > 0 ==> r.value == length || offset + r.value == |f|)
      && (length == 0 ==> r.value == WantPlainBytes(0, buf.Length) || offset + r.value == |f|)
  {
    if length == 0 {
      r, sent, acked := ReadWholePlain(state, link, fileNo, offset, buf);
    } else {
      r, sent, acked := ReadPlainChunks(state, link, fileNo, offset, length, buf);
    }
  }

  /** Reading the rest of a file: the buffer is filled, or the file ends. */
  lemma HoldsRest(t: T.Tag, fileNo: byte, offset: nat, buf: seq<byte>, n: nat, want: nat, cap: nat)
    requires fileNo in t.files && n <= |buf|
    requires var d := Served(t, fileNo, offset, 0, cap); d.Some? && n == Min(|d.value|, want) && buf[..n] == d.value[..n]
    ensures var f := t.files[fileNo].data;
      HoldsBytes(f, offset, buf, n) && (n == want || offset + n == |f|)
  {
  }

  method ReadWholePlain(state: Authenticated, link: Link, fileNo: byte, offset: u32, buf: array<byte>)
    returns (r: Result<nat, SessionError>, ghost sent: nat, ghost acked: nat)
    modifies state`cmdCounter, state`book, link, buf
    ensures old(state.Orderly()) ==> state.Orderly()
    ensures state.View() == old(state.View()).(cmdCtr := Counted(old(state.cmdCounter), acked))
    ensures r.Ok? ==> sent == acked == 1 && r.value <= WantPlainBytes(0, buf.Length) && Filled(buf, 0, r.value)
    ensures r.Err? ==> r.error != IndexPanic
    ensures T.SameMemory(old(link.tag), link.tag)
    ensures old(Holds(link, fileNo)) ==>
      TransferEnds(r.Ok?, acked, link.delivered - old(link.delivered), old(link.tag), link.tag)
    ensures r.Ok? && old(Holds(link, fileNo)) ==>
      && Holds(link, fileNo)
      && var f := link.tag.files[fileNo].data;
      && HoldsBytes(f, offset, buf[..], r.value)
      && (r.value == WantPlainBytes(0, buf.Length) || offset + r.value == |f|)
  {
    hide Served, HoldsBytes, WantPlainBytes, ValidateRequest, Counted;
    ghost var t, holds := link.tag, Holds(link, fileNo);
    T.CountsNone(t);
    CountedOnce(state.cmdCounter, 0);
    r := ReadDataPlain(link, fileNo, offset, 0, buf, 0, buf.Length);
    sent, acked := if r.Ok? then 1 else 0, 0;
    if r.Ok? {
      state.AdvanceCounter();
      acked := 1;
      if holds {
        assert buf[0..r.value] == buf[..r.value];
        HoldsRest(t, fileNo, offset, buf[..], r.value, WantPlainBytes(0, buf.Length), PLAIN_READ_CHUNK);
      }
    }
  }

  /** The tag's plain file has these bytes. */
  ghost predicate Offers(link: Link, fileNo: byte, f: seq<byte>)
    reads link
  {
    Holds(link, fileNo) && link.tag.files[fileNo].data == f
  }

  /** After `acked` chunks, the next one does not fit into the buffer. */
  predicate NoRoom(acked: nat, length: nat, room: nat) {
    var total := acked * PLAIN_READ_CHUNK;
    total < length && total + Min(length - total, PLAIN_READ_CHUNK) > room
  }

  lemma NoRoomLeft(acked: nat, length: nat, room: nat, total: nat)
    requires total == acked * PLAIN_READ_CHUNK && total < length && total + Min(length - total, PLAIN_READ_CHUNK) > room
    ensures NoRoom(acked, length, room)
  {
  }

  /** One turn of the loop: the next chunk, behind the `total` bytes already in the buffer. */
  method ReadPlainChunk(state: Authenticated, link: Link, fileNo: byte, ghost f: seq<byte>, ghost offset: u32,
                        currentOffset: u32, chunk: u32, buf: array<byte>, total: nat) returns (r: Result<nat, SessionError>)
    requires 0 < chunk <= PLAIN_READ_CHUNK && total + chunk <= buf.Length
    modifies state`cmdCounter, state`book, link, buf
    ensures state.View() == if r.Ok? then Advance(old(state.View())) else old(state.View())
    ensures old(state.Orderly()) ==> state.Orderly()
    ensures if ValidateRequest(fileNo, currentOffset, chunk, chunk).Some? then
              r.Err? && link.Seen() == old(link.Seen()) && link.delivered == old(link.delivered)
            else SentRead(old(link.Seen()), link.Seen(), fileNo, currentOffset, chunk)
    ensures Filled(buf, total, if r.Ok? then r.value else 0)
    ensures if r.Ok? then r.value <= chunk else r.error != IndexPanic
    ensures old(Offers(link, fileNo, f)) && ValidateRequest(fileNo, currentOffset, chunk, chunk).None? ==>
      PlainEnds(r.Ok?, link.delivered - old(link.delivered), old(link.tag), link.tag)
    ensures r.Ok? && old(Offers(link, fileNo, f)) && currentOffset == offset + total && HoldsBytes(f, offset, old(buf[..]), total) ==>
      && Offers(link, fileNo, f) && HoldsBytes(f, offset, buf[..], total + r.value)
      && offset + total + r.value <= |f| < 0x100_0000 && (r.value == chunk || (r.value < chunk && offset + total + r.value == |f|))
  {
    hide SentOne, HoldsBytes, Served, ValidateRequest, PlainEnds, WantPlainBytes;
    ghost var held, t, offers := buf[..], link.tag, Offers(link, fileNo, f);
    r := ReadDataPlain(link, fileNo, currentOffset, chunk, buf, total, chunk);
    if r.Ok? {
      state.AdvanceCounter();
    }
    if r.Ok? && offers && currentOffset == offset + total && HoldsBytes(f, offset, held, total) {
      HoldsMore(t, fileNo, offset, held, buf[..], total, r.value, chunk, PLAIN_READ_CHUNK);
    }
  }

  method ReadPlainChunks(state: Authenticated, link: Link, fileNo: byte, offset: u32, length: u32, buf: array<byte>)
    returns (r: Result<nat, SessionError>, ghost sent: nat, ghost acked: nat)
    requires length > 0
    modifies state`cmdCounter, state`book, link, buf
    ensures SentReads(old(link.Seen()), link.Seen(), sent, fileNo, offset, length, PLAIN_READ_CHUNK)
    ensures old(state.Orderly()) ==> state.Orderly()
    ensures state.View() == old(state.View()).(cmdCtr := Counted(old(state.cmdCounter), acked))
    ensures r.Ok? ==>
      acked == sent && r.value <= length && r.value <= buf.Length && sent == Exchanges(r.value, length, PLAIN_READ_CHUNK) && Filled(buf, 0, r.value)
    ensures InReach(sent, offset, PLAIN_READ_CHUNK)
    ensures r == Err(IndexPanic) ==> NoRoom(acked, length, buf.Length)
    ensures old(Holds(link, fileNo)) ==>
      TransferEnds(r.Ok?, acked, link.delivered - old(link.delivered), old(link.tag), link.tag)
    ensures r.Ok? && old(Holds(link, fileNo)) ==>
      && Holds(link, fileNo)
      && var f := link.tag.files[fileNo].data;
      && HoldsBytes(f, offset, buf[..], r.value)
      && (r.value == length || offset + r.value == |f|)
  {
    hide SentReads, SentRead, HoldsBytes, Served, Counted, OffsetAt, Exchanges, Chunked, Addresses, ValidateRequest,
         T.Counts, PlainEnds, TransferEnds, T.SameMemory, AtChunk, InReach, Authenticated.Orderly, NoRoom;
    ghost var holds, start, ch, reached := Holds(link, fileNo), link.Seen(), state.View(), link.delivered;
    ghost var f := if holds then link.tag.files[fileNo].data else [];
    ghost var orderly := state.Orderly();
    sent, acked := 0, 0;
    NoReach(offset, PLAIN_READ_CHUNK);
    ReadsNone(start, fileNo, offset, length, PLAIN_READ_CHUNK);
    CountedOnce(ch.cmdCtr, 0);
    T.CountsNone(link.tag);
    FirstChunk(length, PLAIN_READ_CHUNK, offset);
    HoldsNothing(f, offset, buf[..]);
    var total: nat, currentOffset: u32, remaining: u32 := 0, offset, length;
    while remaining > 0
      invariant total + remaining == length && total <= buf.Length && acked == sent
      invariant orderly ==> state.Orderly()
      invariant InReach(sent, offset, PLAIN_READ_CHUNK) && AtChunk(sent, total, length, PLAIN_READ_CHUNK, offset, currentOffset)
      invariant SentReads(start, link.Seen(), sent, fileNo, offset, length, PLAIN_READ_CHUNK)
      invariant state.View() == ch.(cmdCtr := Counted(ch.cmdCtr, sent)) && Filled(buf, 0, total)
      invariant holds ==> Offers(link, fileNo, f) && HoldsBytes(f, offset, buf[..], total)
      invariant holds ==> T.Counts(start.tag, link.tag, sent) && link.delivered == reached + sent
      invariant holds ==> total == 0 || offset + total <= U24_MAX
    {
      hide Holds, Offers, HasFile;
      ThisChunk(sent, total, length, PLAIN_READ_CHUNK, offset, currentOffset);
      var chunk := Min(remaining, PLAIN_READ_CHUNK);
      if total + chunk > buf.Length {
        StoppedShort(holds, acked, link.delivered - reached, start.tag, link.tag);
        NoRoomLeft(acked, length, buf.Length, total);
        r := Err(IndexPanic);
        return;
      }
      ghost var at, before := link.Seen(), link.delivered;
      ghost var unsent := ValidateRequest(fileNo, currentOffset, chunk, chunk).Some?;
      var one := ReadPlainChunk(state, link, fileNo, f, offset, currentOffset, chunk, buf, total);
      if !unsent {
        ReachMore(sent, offset, PLAIN_READ_CHUNK, currentOffset);
        ReadsOneMore(start, at, link.Seen(), sent, fileNo, offset, length, PLAIN_READ_CHUNK);
        CountedOnce(ch.cmdCtr, sent);
        sent := sent + 1;
      }
      if one.Err? {
        if holds {
          PlainStops(unsent, acked, link.delivered - before, start.tag, at.tag, link.tag);
        }
        r := one;
        return;
      }
      var n := one.value;
      if holds {
        PlainCounted(link.delivered - before, start.tag, at.tag, link.tag, acked);
      }
      acked := acked + 1;
      total := total + n;
      if n < chunk {
        ShortChunk(sent - 1, total - n, n, length, PLAIN_READ_CHUNK, offset, currentOffset);
        break;
      }
      NextChunk(sent - 1, total - n, n, length, PLAIN_READ_CHUNK, offset, currentOffset);
      currentOffset := (currentOffset + chunk) % 0x1_0000_0000;
      remaining := remaining - chunk;
    }
    if remaining == 0 {
      AllChunks(sent, length, PLAIN_READ_CHUNK, offset, currentOffset);
    }
    StoppedShort(holds, acked, link.delivered - reached, start.tag, link.tag);
    r := Result.Ok(total);
  }
}
