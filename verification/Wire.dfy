/**
  What both ends of a secure channel hold, and the messages they form from it
  (NT4H2421Gx section 9.1): MAC inputs, padding, and the APDU frame.
 */
module Wire {
  import opened Wrappers
  import opened Octets
  import opened Aes
  import opened Suite

  /** Session keys and counters. Host and tag are in step when theirs are equal. */
  datatype Channel = Channel(suite: Suite, ti: Ti, cmdCtr: u16)

  /** CmdCtr is a 16-bit counter that wraps around. */
  function Next(c: u16): u16 {
    (c + 1) % 0x1_0000
  }

  function Advance(ch: Channel): Channel {
    ch.(cmdCtr := Next(ch.cmdCtr))
  }

  /** `prefix || counter || TI || bytes`; the prefix is a command code or a response code. */
  function MacInput(prefix: byte, ctr: u16, ti: Ti, bytes: seq<byte>): (r: seq<byte>)
    ensures |r| == 7 + |bytes|
  {
    [prefix] + Le16(ctr) + ti + bytes
  }

  function CommandMac(aes: Aes128, ch: Channel, cmd: byte, bytes: seq<byte>): (mac: seq<byte>)
    ensures |mac| == 8
  {
    Mac(aes, ch.suite, MacInput(cmd, ch.cmdCtr, ch.ti, bytes))
  }

  /** A response is authenticated with the counter its command has already advanced. */
  function ResponseMac(aes: Aes128, ch: Channel, rc: byte, data: seq<byte>): (mac: seq<byte>)
    ensures |mac| == 8
  {
    Mac(aes, ch.suite, MacInput(rc, Next(ch.cmdCtr), ch.ti, data))
  }

  /**
    What is authenticated, byte by byte (NT4H2421Gx section 9.1.9): command code, CmdCtr low byte first, TI and the
    data of a command; return code, the CmdCtr it leads to, TI and the data of its answer.
   */
  lemma MacsAre(aes: Aes128, ch: Channel, code: byte, data: seq<byte>, low: byte, high: byte)
    ensures ch.cmdCtr == low as nat + 256 * high as nat ==>
      CommandMac(aes, ch, code, data) == Mac(aes, ch.suite, [code, low, high, ch.ti[0], ch.ti[1], ch.ti[2], ch.ti[3]] + data)
    ensures (ch.cmdCtr + 1) % 0x1_0000 == low as nat + 256 * high as nat ==>
      ResponseMac(aes, ch, code, data) == Mac(aes, ch.suite, [code, low, high, ch.ti[0], ch.ti[1], ch.ti[2], ch.ti[3]] + data)
  {
    hide Mac;
    LittleEndian(low, high, 0);
    assert [code, low, high, ch.ti[0], ch.ti[1], ch.ti[2], ch.ti[3]] == [code] + [low, high] + ch.ti;
  }

  // ---------------------------------------------------------------- no MAC or IV input is reused

  lemma MacInputInjective(p: byte, p': byte, c: u16, c': u16, ti: Ti, b: seq<byte>, b': seq<byte>)
    requires MacInput(p, c, ti, b) == MacInput(p', c', ti, b')
    ensures p == p' && c == c' && b == b'
  {
    var x, y := MacInput(p, c, ti, b), MacInput(p', c', ti, b');
    assert x[0] == p && y[0] == p';
    assert x[1..3] == Le16(c) && y[1..3] == Le16(c');
    Le16Injective(c, c');
    assert x[7..] == b && y[7..] == b';
  }

  /** One use of a session's keys, when `turn` commands had been acknowledged since First authentication. */
  datatype Use = Use(turn: nat, code: byte, bytes: seq<byte>)

  /**
    Every use a session has made of its keys: the MAC inputs of its commands and of the answers to them, and
    the blocks enciphered into IVs for commands and answers. `turn` counts the commands acknowledged.
   */
  datatype Book = Book(turn: nat, sent: seq<Use>, received: seq<Use>, sealed: seq<Use>, unsealed: seq<Use>)

  const EMPTY_BOOK := Book(0, [], [], [], [])

  function MacInputOf(ti: Ti, u: Use): seq<byte> {
    MacInput(u.code, Counted(0, u.turn), ti, u.bytes)
  }

  function IvInputOf(dir: Direction, ti: Ti, u: Use): seq<byte> {
    IvInput(dir, ti, Counted(0, u.turn))
  }

  /** No two uses in one turn, and none at or behind `bound`. */
  predicate Ascending(uses: seq<Use>, bound: nat) {
    forall i :: 0 <= i < |uses| ==> uses[i].turn < bound && forall j :: 0 <= j < i ==> uses[j].turn < uses[i].turn
  }

  /** Command codes are never zero; answers are authenticated under status 9100 only. */
  predicate IsOrderly(b: Book) {
    && Ascending(b.sent, b.turn) && Ascending(b.received, b.turn + 1)
    && Ascending(b.sealed, b.turn) && Ascending(b.unsealed, b.turn + 1)
    && (forall i :: 0 <= i < |b.received| ==> 0 < b.received[i].turn && b.received[i].code == 0)
    && (forall i :: 0 <= i < |b.unsealed| ==> 0 < b.unsealed[i].turn)
    && (forall i :: 0 <= i < |b.sent| ==> b.sent[i].code != 0)
  }

  predicate OneMore(uses: seq<Use>, uses': seq<Use>, turn: nat) {
    |uses'| == |uses| + 1 && uses'[..|uses|] == uses && uses'[|uses|].turn == turn
  }

  /** What one acknowledged command adds to the book. */
  predicate Acknowledged(b: Book, b': Book) {
    && b'.turn == b.turn + 1
    && (b'.sent == b.sent || (OneMore(b.sent, b'.sent, b.turn) && b'.sent[|b.sent|].code != 0))
    && (b'.received == b.received || (OneMore(b.received, b'.received, b.turn + 1) && b'.received[|b.received|].code == 0))
    && (b'.sealed == b.sealed || OneMore(b.sealed, b'.sealed, b.turn))
    && (b'.unsealed == b.unsealed || OneMore(b.unsealed, b'.unsealed, b.turn + 1))
  }

  lemma AscendingOn(uses: seq<Use>, uses': seq<Use>, turn: nat)
    requires Ascending(uses, turn) && (uses' == uses || OneMore(uses, uses', turn))
    ensures Ascending(uses', turn + 1)
  {
    forall i | 0 <= i < |uses'| ensures uses'[i].turn < turn + 1 && forall j :: 0 <= j < i ==> uses'[j].turn < uses'[i].turn {
      assert forall j :: 0 <= j < |uses| ==> uses[j] == uses'[j];
    }
  }

  lemma AcknowledgedIsOrderly(b: Book, b': Book)
    requires IsOrderly(b) && Acknowledged(b, b')
    ensures IsOrderly(b')
  {
    AscendingOn(b.sent, b'.sent, b.turn);
    AscendingOn(b.sealed, b'.sealed, b.turn);
    AscendingOn(b.received, b'.received, b.turn + 1);
    AscendingOn(b.unsealed, b'.unsealed, b.turn + 1);
    hide Ascending;
    assert forall i :: 0 <= i < |b.received| ==> b'.received[i] == b'.received[..|b.received|][i] == b.received[i];
    assert forall i :: 0 <= i < |b.unsealed| ==> b'.unsealed[i] == b'.unsealed[..|b.unsealed|][i] == b.unsealed[i];
    assert forall i :: 0 <= i < |b.sent| ==> b'.sent[i] == b'.sent[..|b.sent|][i] == b.sent[i];
  }

  /** An acknowledged command keeps the book in order, and the counter at its turn. */
  lemma StaysOrderly(b: Book, b': Book, ctr: u16)
    requires IsOrderly(b) && ctr == Counted(0, b.turn) && Acknowledged(b, b')
    ensures IsOrderly(b') && Next(ctr) == Counted(0, b'.turn)
  {
    CountedOnce(0, b.turn);
    AcknowledgedIsOrderly(b, b');
  }

  /** Turns less than 2^16 apart have different counters. */
  lemma CountersDiffer(m: nat, n: nat)
    requires m < n < m + 0x1_0000
    ensures Counted(0, m) != Counted(0, n)
  {
    ModDistinct(m, n - m, 0x1_0000);
  }

  /** Everything that has been authenticated under the session's keys, in either direction. */
  function MacInputs(b: Book, ti: Ti): (r: seq<seq<byte>>)
    ensures |r| == |b.sent| + |b.received|
  {
    seq(|b.sent|, i requires 0 <= i < |b.sent| => MacInputOf(ti, b.sent[i]))
    + seq(|b.received|, i requires 0 <= i < |b.received| => MacInputOf(ti, b.received[i]))
  }

  function IvInputs(b: Book, ti: Ti): (r: seq<seq<byte>>)
    ensures |r| == |b.sealed| + |b.unsealed|
  {
    seq(|b.sealed|, i requires 0 <= i < |b.sealed| => IvInputOf(Command, ti, b.sealed[i]))
    + seq(|b.unsealed|, i requires 0 <= i < |b.unsealed| => IvInputOf(Response, ti, b.unsealed[i]))
  }

  /** In a session of at most 2^16 commands, no MAC input comes twice. */
  lemma NoMacInputReuse(b: Book, ti: Ti, i: nat, j: nat)
    requires IsOrderly(b) && b.turn <= 0x1_0000 && i < j < |b.sent| + |b.received|
    ensures MacInputs(b, ti)[i] != MacInputs(b, ti)[j]
  {
    var n := |b.sent|;
    var x, y := if i < n then b.sent[i] else b.received[i - n], if j < n then b.sent[j] else b.received[j - n];
    assert MacInputs(b, ti)[i] == MacInputOf(ti, x) && MacInputs(b, ti)[j] == MacInputOf(ti, y);
    if MacInputOf(ti, x) == MacInputOf(ti, y) {
      MacInputInjective(x.code, y.code, Counted(0, x.turn), Counted(0, y.turn), ti, x.bytes, y.bytes);
      CountersDiffer(x.turn, y.turn);
    }
  }

  /** Likewise no block is enciphered into an IV twice. */
  lemma NoIvInputReuse(b: Book, ti: Ti, i: nat, j: nat)
    requires IsOrderly(b) && b.turn <= 0x1_0000 && i < j < |b.sealed| + |b.unsealed|
    ensures IvInputs(b, ti)[i] != IvInputs(b, ti)[j]
  {
    var n := |b.sealed|;
    var x, y := if i < n then b.sealed[i] else b.unsealed[i - n], if j < n then b.sealed[j] else b.unsealed[j - n];
    var dir, dir' := if i < n then Command else Response, if j < n then Command else Response;
    assert IvInputs(b, ti)[i] == IvInputOf(dir, ti, x) && IvInputs(b, ti)[j] == IvInputOf(dir', ti, y);
    if IvInputOf(dir, ti, x) == IvInputOf(dir', ti, y) {
      IvInputInjective(dir, dir', ti, Counted(0, x.turn), Counted(0, y.turn));
      CountersDiffer(x.turn, y.turn);
    }
  }

  predicate AllDistinct(s: seq<seq<byte>>) {
    forall i, j :: 0 <= i < j < |s| ==> s[i] != s[j]
  }

  lemma NoInputReuse(b: Book, ti: Ti)
    requires IsOrderly(b) && b.turn <= 0x1_0000
    ensures AllDistinct(MacInputs(b, ti)) && AllDistinct(IvInputs(b, ti))
  {
    hide IsOrderly, MacInputs, IvInputs;
    forall i: nat, j: nat | i < j < |b.sent| + |b.received| ensures MacInputs(b, ti)[i] != MacInputs(b, ti)[j] {
      NoMacInputReuse(b, ti, i, j);
    }
    forall i: nat, j: nat | i < j < |b.sealed| + |b.unsealed| ensures IvInputs(b, ti)[i] != IvInputs(b, ti)[j] {
      NoIvInputReuse(b, ti, i, j);
    }
  }

  // ---------------------------------------------------------------- padding

  function PaddedLen(n: nat): (m: nat)
    ensures n < m <= n + 16 && m % 16 == 0
    ensures n <= 239 ==> m <= 240
  {
    (n + 16) / 16 * 16
  }

  /** ISO/IEC 9797-1 Method 2: 0x80, then zeros to the next block boundary. */
  function Pad(m: seq<byte>): (p: seq<byte>)
    ensures |p| == PaddedLen(|m|) && |p| % 16 == 0
    ensures |m| < |p| <= |m| + 16 && p[..|m|] == m && p[|m|] == 0x80 && forall i :: |m| < i < |p| ==> p[i] == 0x00
  {
    m + [0x80] + Zeros(PaddedLen(|m|) - |m| - 1)
  }

  /** The message of length `n` in `p` is followed by 0x80 and zeros only. */
  predicate IsPaddedAt(p: seq<byte>, n: nat) {
    n < |p| && p[n] == 0x80 && forall j :: n < j < |p| ==> p[j] == 0
  }

  function Strip(p: seq<byte>): (n: Option<nat>)
    ensures n.Some? ==> n.value < |p|
  {
    if |p| == 0 then None
    else if p[|p| - 1] == 0 then Strip(p[..|p| - 1])
    else if p[|p| - 1] == 0x80 then Some(|p| - 1)
    else None
  }

  /** Stripping finds the one place where padding can start, if there is one. */
  lemma {:induction false} StripFinds(p: seq<byte>, n: nat)
    ensures Strip(p) == Some(n) <==> IsPaddedAt(p, n)
  {
    if |p| > 0 && p[|p| - 1] == 0 {
      StripFinds(p[..|p| - 1], n);
    }
  }

  lemma StripPad(m: seq<byte>)
    ensures Strip(Pad(m)) == Some(|m|) && Pad(m)[..|m|] == m
  {
    StripFinds(Pad(m), |m|);
  }

  /** `strip_m2_padding` */
  method StripM2Padding(plain: seq<byte>) returns (n: Option<nat>)
    ensures n == Strip(plain)
    ensures n.Some? ==> IsPaddedAt(plain, n.value)
    ensures n.None? ==> forall k :: !IsPaddedAt(plain, k)
  {
    var i := |plain|;
    assert plain[..i] == plain;
    while i > 0 && plain[i - 1] == 0
      invariant 0 <= i <= |plain|
      invariant forall j :: i <= j < |plain| ==> plain[j] == 0
      invariant Strip(plain[..i]) == Strip(plain)
    {
      assert plain[..i][..i - 1] == plain[..i - 1];
      i := i - 1;
    }
    if i == 0 || plain[i - 1] != 0x80 {
      return None;
    }
    return Some(i - 1);
  }

  // ---------------------------------------------------------------- frames

  /** A DESFire-native short APDU: `90 INS P1 P2 Lc body Le`. */
  function Apdu(ins: byte, p1: byte, p2: byte, body: seq<byte>): (a: seq<byte>)
    requires |body| <= 255
    ensures |a| == 6 + |body|
  {
    [0x90, ins, p1, p2, |body|] + body + [0x00]
  }

  /** A native command, and the header of a file command, byte by byte. */
  lemma FramesAre(ins: byte, p1: byte, p2: byte, body: seq<byte>, f: byte, a: byte, b: byte, c: byte, d: byte, e: byte, g: byte)
    requires |body| <= 255
    ensures Apdu(ins, p1, p2, body) == [0x90, ins, p1, p2, |body|] + body + [0x00]
    ensures Header(f, a as nat + 256 * b as nat + 0x1_0000 * c as nat, d as nat + 256 * e as nat + 0x1_0000 * g as nat)
         == [f, a, b, c, d, e, g]
  {
    LittleEndian(a, b, c);
    LittleEndian(d, e, g);
  }

  /** A frame whose Lc is its exact body length. */
  predicate IsFramed(a: seq<byte>) {
    |a| >= 6 && a[4] == |a| - 6
  }

  function Body(a: seq<byte>): seq<byte>
    requires IsFramed(a)
  {
    a[5..|a| - 1]
  }

  lemma ApduFrames(ins: byte, p1: byte, p2: byte, body: seq<byte>)
    requires |body| <= 255
    ensures var a := Apdu(ins, p1, p2, body);
            IsFramed(a) && Body(a) == body && a[0] == 0x90 && a[1] == ins
  {
  }

  // ---------------------------------------------------------------- file addresses

  /** `FileNo || Offset(3 LE) || Length(3 LE)` */
  function Header(fileNo: byte, offset: nat, length: nat): (h: seq<byte>)
    ensures |h| == 7
  {
    [fileNo] + Le24(offset) + Le24(length)
  }

  lemma HeaderDecodes(fileNo: byte, offset: nat, length: nat, rest: seq<byte>)
    ensures var b := Header(fileNo, offset, length) + rest;
      && b[..7] == Header(fileNo, offset, length) && b[7..] == rest
      && b[0] == fileNo
      && FromLe24(b[1..4]) == offset % 0x100_0000
      && FromLe24(b[4..7]) == length % 0x100_0000
  {
    var b := Header(fileNo, offset, length) + rest;
    assert b[1..4] == Le24(offset) && b[4..7] == Le24(length);
    FromLe24RoundTrip(offset);
    FromLe24RoundTrip(length);
  }

  /** Offsets wrap at 2^32 in the host, and the header drops everything above 24 bits. */
  lemma HeaderWraps(fileNo: byte, offset: nat, length: nat)
    ensures Header(fileNo, offset % 0x1_0000_0000, length) == Header(fileNo, offset, length)
  {
    Le24Mod(offset, offset / 0x1_0000_0000, offset % 0x1_0000_0000);
  }

  lemma Le24Mod(n: nat, q: nat, r: nat)
    requires n == 0x1_0000_0000 * q + r
    ensures Le24(n) == Le24(r)
  {
    ModUnique(n, 256, 0x100_0000 * q + r / 256, r % 256);
    ModUnique(n, 0x1_0000, 0x1_0000 * q + r / 0x1_0000, r % 0x1_0000);
    ModUnique(n / 256, 256, 0x1_0000 * q + r / 256 / 256, r / 256 % 256);
    ModUnique(n / 0x1_0000, 256, 256 * q + r / 0x1_0000 / 256, r / 0x1_0000 % 256);
  }

  // ---------------------------------------------------------------- chunked transfers

  /** A framed command whose body starts with the header of this range. */
  predicate Addresses(a: seq<byte>, ins: byte, fileNo: byte, offset: nat, length: nat) {
    IsFramed(a) && a[1] == ins && |Body(a)| >= 7 && Body(a)[..7] == Header(fileNo, offset, length)
  }

  /** Command `k` covers chunk `k` of the `target` bytes from `offset` on. */
  predicate Chunked(sent: seq<seq<byte>>, ins: byte, fileNo: byte, offset: nat, target: nat, chunk: nat) {
    forall k :: 0 <= k < |sent| ==>
      k * chunk < target && Addresses(sent[k], ins, fileNo, offset + k * chunk, Min(chunk, target - k * chunk))
  }

  /** The offset that a framed command's header names. */
  function AddressOf(a: seq<byte>): nat
    requires IsFramed(a) && |Body(a)| >= 7
  {
    FromLe24(Body(a)[1..4])
  }

  const U24_MAX := 0x00FF_FFFF

  /** The last of `n` chunks still begins at an offset of 24 bits. */
  predicate InReach(n: nat, offset: nat, chunk: nat) {
    n > 0 ==> offset + (n - 1) * chunk <= U24_MAX
  }

  lemma NoReach(offset: nat, chunk: nat)
    ensures InReach(0, offset, chunk)
  {
  }

  /** The commands of a chunked transfer name the offsets of their chunks exactly as long as these have 24 bits. */
  lemma NamesChunksExactly(sent: seq<seq<byte>>, ins: byte, fileNo: byte, offset: nat, target: nat, chunk: nat)
    requires Chunked(sent, ins, fileNo, offset, target, chunk) && chunk > 0
    ensures InReach(|sent|, offset, chunk) <==>
      forall k :: 0 <= k < |sent| ==> IsFramed(sent[k]) && |Body(sent[k])| >= 7 && AddressOf(sent[k]) == offset + k * chunk
  {
    hide Chunked, IsFramed, Body, AddressOf;
    forall k | 0 <= k < |sent|
      ensures IsFramed(sent[k]) && |Body(sent[k])| >= 7 && AddressOf(sent[k]) == (offset + k * chunk) % 0x100_0000
      ensures k * chunk <= (|sent| - 1) * chunk
    {
      ChunkDecodes(sent, ins, fileNo, offset, target, chunk, k);
      MulMonotone(k, |sent| - 1, chunk);
    }
    if |sent| > 0 && !InReach(|sent|, offset, chunk) {
      var k := |sent| - 1;
      assert AddressOf(sent[k]) < offset + k * chunk;
    }
  }

  lemma ChunkDecodes(sent: seq<seq<byte>>, ins: byte, fileNo: byte, offset: nat, target: nat, chunk: nat, k: nat)
    requires Chunked(sent, ins, fileNo, offset, target, chunk) && k < |sent|
    ensures IsFramed(sent[k]) && |Body(sent[k])| >= 7 && AddressOf(sent[k]) == (offset + k * chunk) % 0x100_0000
  {
    AddressDecodes(sent[k], ins, fileNo, offset + k * chunk, Min(chunk, target - k * chunk));
  }

  lemma MulMonotone(m: nat, n: nat, c: nat)
    requires m <= n
    ensures m * c <= n * c
  {
  }

  lemma AddressDecodes(a: seq<byte>, ins: byte, fileNo: byte, offset: nat, length: nat)
    requires Addresses(a, ins, fileNo, offset, length)
    ensures AddressOf(a) == offset % 0x100_0000
  {
    hide FromLe24;
    HeaderDecodes(fileNo, offset, length, []);
    assert Header(fileNo, offset, length) + [] == Header(fileNo, offset, length);
    assert Body(a)[1..4] == Body(a)[..7][1..4];
  }

  /** The next command of a transfer, addressed by the host's 32-bit offset. */
  lemma ChunkedNext(sent: seq<seq<byte>>, a: seq<byte>, ins: byte, fileNo: byte, offset: nat, target: nat, chunk: nat)
    requires Chunked(sent, ins, fileNo, offset, target, chunk) && |sent| * chunk < target
    requires Addresses(a, ins, fileNo, (offset + |sent| * chunk) % 0x1_0000_0000, Min(chunk, target - |sent| * chunk))
    ensures Chunked(sent + [a], ins, fileNo, offset, target, chunk)
  {
    HeaderWraps(fileNo, offset + |sent| * chunk, Min(chunk, target - |sent| * chunk));
  }

  /** How many commands a transfer takes that ends after `n` of `target` bytes. */
  function Exchanges(n: nat, target: nat, chunk: nat): nat
    requires chunk > 0
  {
    if n < target then n / chunk + 1 else (n + chunk - 1) / chunk
  }

  lemma ExchangesAre(n: nat, target: nat, chunk: nat, sent: nat)
    requires chunk > 0
    requires if n < target then sent > 0 && (sent - 1) * chunk <= n < sent * chunk else n <= sent * chunk < n + chunk
    ensures sent == Exchanges(n, target, chunk)
  {
    if n < target {
      ModUnique(n, chunk, sent - 1, n - (sent - 1) * chunk);
    } else {
      ModUnique(n + chunk - 1, chunk, sent, n + chunk - 1 - sent * chunk);
    }
  }

  /** `u32::wrapping_add`: where the host's offset is after `n` bytes. */
  function OffsetAt(offset: u32, n: nat): u32 {
    (offset + n) % 0x1_0000_0000
  }

  lemma OffsetAtNext(offset: u32, n: nat, m: nat)
    ensures (OffsetAt(offset, n) + m) % 0x1_0000_0000 == OffsetAt(offset, n + m)
    ensures offset + n < 0x1_0000_0000 ==> OffsetAt(offset, n) == offset + n
  {
  }

  /** CmdCtr after `n` commands. */
  function Counted(c: u16, n: nat): u16 {
    (c + n) % 0x1_0000
  }

  lemma CountedOnce(c: u16, n: nat)
    ensures Counted(c, 0) == c && Next(Counted(c, n)) == Counted(c, n + 1)
  {
    ModAddOne(c + n, 0x1_0000);
  }

  lemma CountedSum(c: u16, m: nat, n: nat)
    ensures Counted(Counted(c, m), n) == Counted(c, m + n)
  {
  }
}
