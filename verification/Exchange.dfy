/** One exchange with an honest tag: what its checks accept, and what the host accepts of its answers. */
module Exchange {
  import opened Wrappers
  import opened Octets
  import opened Aes
  import opened Suite
  import opened Wire
  import opened Transport
  import opened SecureChannel
  import T = Tag

  lemma HeaderParses(fileNo: byte, offset: nat, length: nat, rest: seq<byte>)
    requires offset <= U24_MAX && length <= U24_MAX
    ensures var b := Header(fileNo, offset, length) + rest;
      b[..7] == Header(fileNo, offset, length) && b[7..] == rest
      && b[0] == fileNo && FromLe24(b[1..4]) == offset && FromLe24(b[4..7]) == length
  {
    HeaderDecodes(fileNo, offset, length, rest);
  }

  /** A command body with the right MAC passes the tag's check. */
  lemma CheckedOwn(aes: Aes128, t: T.Tag, ins: byte, payload: seq<byte>)
    requires t.session.Some?
    ensures var ch := t.session.value.ch;
      T.Checked(aes, t, ins, payload + CommandMac(aes, ch, ins, payload)) == Result.Ok(ch)
  {
    var mac := CommandMac(aes, t.session.value.ch, ins, payload);
    assert (payload + mac)[..|payload|] == payload && (payload + mac)[|payload|..] == mac;
  }

  /** A response with the right MAC is taken by the host. */
  lemma VerifiedOwn(aes: Aes128, ch: Channel, data: seq<byte>)
    ensures Verified(aes, ch, 0x00, data + ResponseMac(aes, ch, 0x00, data)) == Result.Ok(data)
  {
    var mac := ResponseMac(aes, ch, 0x00, data);
    assert (data + mac)[..|data|] == data && (data + mac)[|data|..] == mac;
  }

  predicate HasFile(t: T.Tag, fileNo: byte, mode: T.CommMode) {
    fileNo in t.files && t.files[fileNo].mode == mode
  }

  /** Host and tag are in step, and the tag holds the file in this mode. */
  ghost predicate Ready(state: Authenticated, link: Link, fileNo: byte, mode: T.CommMode)
    reads state, link
  {
    link.honest && InSync(state, link) && HasFile(link.tag, fileNo, mode)
  }

  // ---------------------------------------------------------------- out of step

  /** The tag does not take the MAC that this host puts on a command. */
  predicate Refuses(aes: Aes128, t: T.Tag, host: Channel, ins: byte, payload: seq<byte>) {
    T.Checked(aes, t, ins, payload + CommandMac(aes, host, ins, payload)).Err?
  }

  ghost predicate Deaf(state: Authenticated, link: Link, ins: byte, payload: seq<byte>)
    reads state, link
  {
    link.honest && state.aes == link.aes && Refuses(link.aes, link.tag, state.View(), ins, payload)
  }

  /** Such a command is refused, and the tag's session is over. */
  lemma DeafRefuses(aes: Aes128, t: T.Tag, host: Channel, ins: byte, payload: seq<byte>)
    requires Refuses(aes, t, host, ins, payload) && |payload| + 8 <= 255 && ins in {0xAD, 0x8D, 0xC4}
    requires ins != 0xC4 ==> |payload| >= 7 && (payload[0] in t.files ==> !t.files[payload[0]].mode.Plain?)
    ensures var s := T.Step(aes, t, Apdu(ins, 0x00, 0x00, payload + CommandMac(aes, host, ins, payload)));
      s.0 == T.Fail(t, 0x00).0 && s.1.sw2 != 0x00
  {
    hide CommandMac, T.Checked;
    T.StepApdu(aes, t, ins, 0, 0, payload + CommandMac(aes, host, ins, payload));
  }

  // ---------------------------------------------------------------- chunks

  /** After `sent` commands a transfer has done this many bytes, and goes on behind them. */
  predicate AtChunk(sent: nat, done: nat, target: nat, chunk: nat, offset: u32, current: u32) {
    && done <= target && done <= sent * chunk < done + chunk
    && (done == target || done == sent * chunk)
    && (done < target ==> current == OffsetAt(offset, done))
  }

  lemma FirstChunk(target: nat, chunk: nat, offset: u32)
    requires chunk > 0
    ensures AtChunk(0, 0, target, chunk, offset, offset)
  {
    OffsetAtNext(offset, 0, 0);
  }

  lemma ThisChunk(sent: nat, done: nat, target: nat, chunk: nat, offset: u32, current: u32)
    requires AtChunk(sent, done, target, chunk, offset, current) && done < target
    ensures done == sent * chunk && current == OffsetAt(offset, sent * chunk)
    ensures offset + done < 0x1_0000_0000 ==> current == offset + done
  {
    OffsetAtNext(offset, done, 0);
  }

  /** A whole chunk done, and so to the next. */
  lemma NextChunk(sent: nat, done: nat, n: nat, target: nat, chunk: nat, offset: u32, current: u32)
    requires chunk > 0 && AtChunk(sent, done, target, chunk, offset, current) && done < target && n == Min(target - done, chunk)
    ensures AtChunk(sent + 1, done + n, target, chunk, offset, (current + n) % 0x1_0000_0000)
  {
    hide OffsetAt;
    OffsetAtNext(offset, done, n);
    assert (sent + 1) * chunk == sent * chunk + chunk;
  }

  /** One more chunk, begun at an address of 24 bits. */
  lemma ReachMore(sent: nat, offset: u32, chunk: nat, current: u32)
    requires InReach(sent, offset, chunk) && chunk <= 0x100 && current == OffsetAt(offset, sent * chunk) && current <= U24_MAX
    ensures InReach(sent + 1, offset, chunk)
  {
    if sent > 0 {
      assert sent * chunk == (sent - 1) * chunk + chunk;
    }
    OffsetAtNext(offset, sent * chunk, 0);
  }

  /** A short chunk is the last one. */
  lemma ShortChunk(sent: nat, done: nat, n: nat, target: nat, chunk: nat, offset: u32, current: u32)
    requires chunk > 0 && AtChunk(sent, done, target, chunk, offset, current) && done < target && n < Min(target - done, chunk)
    ensures sent + 1 == Exchanges(done + n, target, chunk)
  {
    hide OffsetAt, Exchanges;
    assert (sent + 1) * chunk == sent * chunk + chunk;
    ExchangesAre(done + n, target, chunk, sent + 1);
  }

  lemma AllChunks(sent: nat, target: nat, chunk: nat, offset: u32, current: u32)
    requires chunk > 0 && AtChunk(sent, target, target, chunk, offset, current)
    ensures target <= sent * chunk && sent == Exchanges(target, target, chunk)
  {
    hide OffsetAt, Exchanges;
    ExchangesAre(target, target, chunk, sent);
  }

  // ---------------------------------------------------------------- plain commands inside a session

  /** The link is honest and the tag holds this plain file: all a plain transfer needs. */
  ghost predicate Holds(link: Link, fileNo: byte)
    reads link
  {
    link.honest && HasFile(link.tag, fileNo, T.Plain)
  }

  /** How one plain command ends: lost on the way, counted by the tag, or refused and the session over. */
  predicate PlainEnds(ok: bool, reached: int, t: T.Tag, t': T.Tag) {
    || (reached == 0 && !ok && t'.session == t.session)
    || (reached == 1 && (T.Counts(t, t', 1) || (!ok && t'.session.None?)))
  }

  /**
    How a plain transfer of which `acked` commands were acknowledged ends: no other command reached the tag, or
    one more did, which the tag counted or refused.
   */
  predicate TransferEnds(ok: bool, acked: nat, reached: int, t: T.Tag, t': T.Tag) {
    || (reached == acked && T.Counts(t, t', acked))
    || (!ok && reached == acked + 1 && (T.Counts(t, t', acked + 1) || t'.session.None?))
  }

  /** A refused or lost command, or one that was never sent, ends a transfer. */
  lemma PlainStops(unsent: bool, acked: nat, reached: int, t: T.Tag, at: T.Tag, t': T.Tag)
    requires T.Counts(t, at, acked)
    requires if unsent then reached == 0 && t'.session == at.session else PlainEnds(false, reached, at, t')
    ensures TransferEnds(false, acked, acked + reached, t, t')
  {
    if !unsent {
      TransferStops(acked, reached, t, at, t');
    }
  }

  lemma PlainCounted(reached: int, t: T.Tag, at: T.Tag, t': T.Tag, n: nat)
    requires T.Counts(t, at, n) && PlainEnds(true, reached, at, t')
    ensures T.Counts(t, t', n + 1) && reached == 1
  {
    T.CountsOneMore(t, at, t', n);
  }

  lemma StoppedShort(holds: bool, acked: nat, reached: int, t: T.Tag, t': T.Tag)
    requires holds ==> reached == acked && T.Counts(t, t', acked)
    ensures holds ==> TransferEnds(true, acked, reached, t, t') && TransferEnds(false, acked, reached, t, t')
  {
  }

  lemma TransferStops(acked: nat, reached: int, t: T.Tag, at: T.Tag, t': T.Tag)
    requires T.Counts(t, at, acked) && PlainEnds(false, reached, at, t')
    ensures TransferEnds(false, acked, acked + reached, t, t')
  {
    if reached == 1 && T.Counts(at, t', 1) {
      T.CountsOneMore(t, at, t', acked);
    }
  }

  // ---------------------------------------------------------------- the commands of a chunked transfer

  type Log = seq<seq<byte>>

  /** One more command on the link, addressed at this range. */
  predicate SentOne(before: Log, after: Log, ins: byte, fileNo: byte, offset: nat, length: nat) {
    && |after| == |before| + 1 && after[..|before|] == before
    && Addresses(after[|before|], ins, fileNo, offset, length)
  }

  /** The first `n` commands of a chunked transfer, and nothing else. */
  predicate SentChunks(before: Log, after: Log, n: nat, ins: byte, fileNo: byte, offset: nat, target: nat, chunk: nat) {
    && |after| == |before| + n && after[..|before|] == before
    && Chunked(after[|before|..], ins, fileNo, offset, target, chunk)
  }

  lemma SentNone(at: Log, ins: byte, fileNo: byte, offset: nat, target: nat, chunk: nat)
    ensures SentChunks(at, at, 0, ins, fileNo, offset, target, chunk)
  {
  }

  lemma SentOneMore(before: Log, at: Log, after: Log, n: nat, ins: byte, fileNo: byte, offset: u32, target: nat, chunk: nat)
    requires SentChunks(before, at, n, ins, fileNo, offset, target, chunk) && n * chunk < target
    requires SentOne(at, after, ins, fileNo, OffsetAt(offset, n * chunk), Min(target - n * chunk, chunk))
    ensures SentChunks(before, after, n + 1, ins, fileNo, offset, target, chunk)
  {
    var sent, a := at[|before|..], after[|at|];
    ChunkedNext(sent, a, ins, fileNo, offset, target, chunk);
    assert after == at + [a];
    assert after[|before|..] == sent + [a];
  }

  // ---------------------------------------------------------------- what a chunked write has stored

  /** Acknowledged means stored; not acknowledged means stored or not, and never in part. */
  predicate WriteEnds(ok: bool, t: T.Tag, t': T.Tag, fileNo: byte, offset: nat, data: seq<byte>) {
    T.Wrote(t, t', fileNo, offset, data) || (!ok && T.SameMemory(t, t'))
  }

  /** The first `n` chunks of `data`, and nothing else, have reached the file. */
  predicate StoredChunks(t: T.Tag, t': T.Tag, fileNo: byte, offset: nat, data: seq<byte>, n: nat, chunk: nat) {
    if n == 0 then T.SameMemory(t, t') else T.Wrote(t, t', fileNo, offset, data[..Min(n * chunk, |data|)])
  }

  /** One more chunk, stored where the last one ended. */
  lemma StoredOneMore(t: T.Tag, at: T.Tag, t': T.Tag, fileNo: byte, offset: nat, data: seq<byte>, n: nat, chunk: nat)
    requires StoredChunks(t, at, fileNo, offset, data, n, chunk) && n * chunk < |data|
    requires T.Wrote(at, t', fileNo, offset + n * chunk, data[n * chunk..Min(n * chunk + chunk, |data|)])
    ensures StoredChunks(t, t', fileNo, offset, data, n + 1, chunk)
    ensures offset + Min(n * chunk + chunk, |data|) <= U24_MAX
  {
    hide Splice;
    var a, b := data[..n * chunk], data[n * chunk..Min(n * chunk + chunk, |data|)];
    assert (n + 1) * chunk == n * chunk + chunk;
    assert data[..Min(n * chunk + chunk, |data|)] == a + b;
    if n > 0 {
      T.WroteTwice(t, at, t', fileNo, offset, a, b);
    } else {
      assert a + b == b;
    }
  }

  lemma StoredNone(t: T.Tag, fileNo: byte, offset: nat, data: seq<byte>, chunk: nat)
    ensures StoredChunks(t, t, fileNo, offset, data, 0, chunk)
  {
  }

  lemma StoredAfter(t: T.Tag, at: T.Tag, t': T.Tag, fileNo: byte, offset: nat, data: seq<byte>, n: nat, chunk: nat, ok: bool)
    requires StoredChunks(t, at, fileNo, offset, data, n, chunk) && n * chunk < |data|
    requires WriteEnds(ok, at, t', fileNo, offset + n * chunk, data[n * chunk..Min(n * chunk + chunk, |data|)])
    ensures StoredChunks(t, t', fileNo, offset, data, n + 1, chunk) || (!ok && StoredChunks(t, t', fileNo, offset, data, n, chunk))
    ensures ok ==> offset + Min(n * chunk + chunk, |data|) <= U24_MAX
  {
    if T.Wrote(at, t', fileNo, offset + n * chunk, data[n * chunk..Min(n * chunk + chunk, |data|)]) {
      StoredOneMore(t, at, t', fileNo, offset, data, n, chunk);
    }
  }

  /** All chunks together are the whole of `data`. */
  lemma StoredAll(t: T.Tag, t': T.Tag, fileNo: byte, offset: nat, data: seq<byte>, n: nat, chunk: nat)
    requires StoredChunks(t, t', fileNo, offset, data, n, chunk) && |data| <= n * chunk && |data| > 0
    ensures T.Wrote(t, t', fileNo, offset, data)
  {
    assert data[..|data|] == data;
  }

  /** Reads and selections in between do not matter. */
  lemma StoredFrom(t: T.Tag, at: T.Tag, t': T.Tag, fileNo: byte, offset: nat, data: seq<byte>, n: nat, chunk: nat)
    requires T.SameMemory(t, at) && StoredChunks(at, t', fileNo, offset, data, n, chunk)
    ensures StoredChunks(t, t', fileNo, offset, data, n, chunk)
    ensures T.Wrote(at, t', fileNo, offset, data) ==> T.Wrote(t, t', fileNo, offset, data)
  {
  }

  // ---------------------------------------------------------------- what a chunked read has fetched

  /** What `buf` holds of the file after `n` bytes. */
  predicate HoldsBytes(data: seq<byte>, offset: nat, buf: seq<byte>, n: nat) {
    && n <= |buf|
    && (n > 0 ==> offset + n <= |data| && buf[..n] == data[offset..offset + n])
  }

  lemma HoldsNothing(data: seq<byte>, offset: nat, buf: seq<byte>)
    ensures HoldsBytes(data, offset, buf, 0)
  {
  }

  lemma HoldsPrefix(data: seq<byte>, offset: nat, buf: seq<byte>, n: nat)
    requires HoldsBytes(data, offset, buf, n)
    ensures HoldsBytes(data, offset, buf[..n], n)
  {
    assert buf[..n][..n] == buf[..n];
  }
}
