/** The AES and LRP secure-messaging suites of crypto/suite.rs. */
module Suite {
  import opened Octets
  import opened Aes
  import opened Blocks
  import Cmac
  import Cbc
  import Lrp

  type Ti = t: seq<byte> | |t| == 4 witness seq(4, i => 0)

  datatype Direction = Command | Response

  datatype Suite =
    | AesSuite(macKey: Block, encKey: Block)
    | LrpSuite(macLrp: Lrp.Key, encLrp: Lrp.Key, encCtr: u32)

  function Label(dir: Direction): (r: seq<byte>)
    ensures |r| == 2
  {
    match dir
    case Command => [0xA5, 0x5A]
    case Response => [0x5A, 0xA5]
  }

  function AesCipher(aes: Aes128, key: Block): Block -> Block {
    (b: Block) => aes.enc(key, b)
  }

  function CmacAes(aes: Aes128, key: Block, data: seq<byte>): Block {
    Cmac.Cmac(AesCipher(aes, key), data)
  }

  function CmacLrp(aes: Aes128, key: Lrp.Key, data: seq<byte>): Block {
    Cmac.Cmac(Lrp.AsCipher(aes, key), data)
  }

  // ---------------------------------------------------------------- session keys

  /**
    The randoms as NT4H2421Gx section 9.1.7 interleaves them: RndA[15..14],
    RndA[13..8] ^ RndB[15..10], RndB[9..0], RndA[7..0] (indices there count from the right).
   */
  function Interleave(rndA: Block, rndB: Block): (r: seq<byte>)
    ensures |r| == 26
  {
    rndA[..2] + XorBytes(rndA[2..8], rndB[..6]) + rndB[6..] + rndA[8..]
  }

  function SessionVectorAes(prefix: seq<byte>, rndA: Block, rndB: Block): (sv: seq<byte>)
    requires |prefix| == 2
    ensures |sv| == 32
  {
    prefix + [0x00, 0x01, 0x00, 0x80] + Interleave(rndA, rndB)
  }

  function SessionVectorLrp(rndA: Block, rndB: Block): (sv: seq<byte>)
    ensures |sv| == 32
  {
    [0x00, 0x01, 0x00, 0x80] + Interleave(rndA, rndB) + [0x96, 0x69]
  }

  lemma InFour(s: seq<byte>, at: nat)
    requires at + 26 <= |s|
    ensures s[at..at + 26] == s[at..at + 2] + s[at + 2..at + 8] + s[at + 8..at + 18] + s[at + 18..at + 26]
  {
    Joins(s, at, at + 2, at + 8);
    Joins(s, at, at + 8, at + 18);
    Joins(s, at, at + 18, at + 26);
  }

  lemma Joins(s: seq<byte>, i: nat, j: nat, k: nat)
    requires i <= j <= k <= |s|
    ensures s[i..k] == s[i..j] + s[j..k]
  {
  }

  /** The interleaving, written from position `at` on as the source writes it. */
  method FillInterleaved(a: array<byte>, at: nat, rndA: Block, rndB: Block)
    requires at + 26 <= a.Length
    modifies a
    ensures a[at..at + 26] == Interleave(rndA, rndB)
    ensures forall j :: 0 <= j < a.Length && !(at <= j < at + 26) ==> a[j] == old(a[j])
  {
    hide Xor;
    ghost var mixed := XorBytes(rndA[2..8], rndB[..6]);
    CopyInto(a, at, rndA[..2]);
    for i := 0 to 6
      invariant a[at..at + 2] == rndA[..2]
      invariant forall j :: 0 <= j < i ==> a[at + 2 + j] == mixed[j]
      invariant forall j :: 0 <= j < a.Length && !(at <= j < at + 26) ==> a[j] == old(a[j])
    {
      a[at + 2 + i] := XorByte(rndA[2 + i], rndB[i]);
    }
    assert a[at + 2..at + 8] == mixed;
    hide XorBytes;
    CopyInto(a, at + 8, rndB[6..]);
    assert a[at..at + 2] == rndA[..2] && a[at + 2..at + 8] == mixed && a[at + 8..at + 18] == rndB[6..];
    CopyInto(a, at + 18, rndA[8..]);
    assert a[at..at + 2] == rndA[..2] && a[at + 2..at + 8] == mixed && a[at + 8..at + 18] == rndB[6..] && a[at + 18..at + 26] == rndA[8..];
    InFour(a[..], at);
  }

  /** `session_vector_aes` and `session_vector_lrp`: the same interleaving between different marks. */
  method BuildSessionVectorAes(prefix: seq<byte>, rndA: Block, rndB: Block) returns (sv: seq<byte>)
    requires |prefix| == 2
    ensures sv == SessionVectorAes(prefix, rndA, rndB)
  {
    hide Interleave;
    var a := new byte[32](i => 0);
    var n := Append(a, 0, prefix);
    n := Append(a, n, [0x00, 0x01, 0x00, 0x80]);
    ghost var marks := a[..6];
    FillInterleaved(a, 6, rndA, rndB);
    sv := a[..];
    assert sv == marks + sv[6..32];
  }

  method BuildSessionVectorLrp(rndA: Block, rndB: Block) returns (sv: seq<byte>)
    ensures sv == SessionVectorLrp(rndA, rndB)
  {
    hide Interleave;
    var a := new byte[32](i => 0);
    var n := Append(a, 0, [0x00, 0x01, 0x00, 0x80]);
    ghost var marks := a[..4];
    FillInterleaved(a, 4, rndA, rndB);
    ghost var head := a[..30];
    assert head == marks + a[4..30];
    n := Append(a, 30, [0x96, 0x69]);
    sv := a[..];
    assert sv == a[..32];
  }

  function DeriveAes(aes: Aes128, kx: Block, rndA: Block, rndB: Block): Suite {
    AesSuite(CmacAes(aes, kx, SessionVectorAes([0x5A, 0xA5], rndA, rndB)),
             CmacAes(aes, kx, SessionVectorAes([0xA5, 0x5A], rndA, rndB)))
  }

  function LrpPair(aes: Aes128, master: Block): (Lrp.Key, Lrp.Key) {
    var plaintexts := Lrp.Plaintexts(aes, master);
    (Lrp.Parts(plaintexts, Lrp.UpdatedKey(aes, master, 0)),
     Lrp.Parts(plaintexts, Lrp.UpdatedKey(aes, master, 1)))
  }

  function DeriveLrp(aes: Aes128, kx: Block, rndA: Block, rndB: Block): (s: Suite)
    ensures s.LrpSuite? && s.encCtr == 0
  {
    var pair := LrpPair(aes, CmacLrp(aes, Lrp.FromBaseKey(aes, kx), SessionVectorLrp(rndA, rndB)));
    LrpSuite(pair.0, pair.1, 0)
  }

  // ---------------------------------------------------------------- which key is which

  /** SV1 or SV2 of NT4H2421Gx section 9.1.7, byte by byte. */
  predicate IsVectorAes(sv: seq<byte>, mark: byte, mark': byte, rndA: Block, rndB: Block) {
    && |sv| == 32 && sv[0] == mark && sv[1] == mark' && sv[2..6] == [0x00, 0x01, 0x00, 0x80] && sv[6..8] == rndA[..2]
    && (forall i :: 0 <= i < 6 ==> sv[8 + i] == XorByte(rndA[2 + i], rndB[i]))
    && sv[14..24] == rndB[6..] && sv[24..32] == rndA[8..]
  }

  /** SV of section 9.2.7. */
  predicate IsVectorLrp(sv: seq<byte>, rndA: Block, rndB: Block) {
    && |sv| == 32 && sv[..4] == [0x00, 0x01, 0x00, 0x80] && sv[4..6] == rndA[..2]
    && (forall i :: 0 <= i < 6 ==> sv[6 + i] == XorByte(rndA[2 + i], rndB[i]))
    && sv[12..22] == rndB[6..] && sv[22..30] == rndA[8..] && sv[30..] == [0x96, 0x69]
  }

  /** The MAC key is the CMAC of the vector marked 5A A5, the encryption key that of the one marked A5 5A. */
  ghost predicate HasKeysAes(aes: Aes128, kx: Block, rndA: Block, rndB: Block, s: Suite) {
    && s.AesSuite?
    && (forall sv: seq<byte> :: IsVectorAes(sv, 0x5A, 0xA5, rndA, rndB) ==> s.macKey == CmacAes(aes, kx, sv))
    && (forall sv: seq<byte> :: IsVectorAes(sv, 0xA5, 0x5A, rndA, rndB) ==> s.encKey == CmacAes(aes, kx, sv))
  }

  /** Both LRP keys have the plaintexts of the session master key; UK[0] makes the MAC key, UK[1] the encryption key. */
  ghost predicate HasKeysLrp(aes: Aes128, kx: Block, rndA: Block, rndB: Block, s: Suite) {
    && s.LrpSuite?
    && forall sv: seq<byte> :: IsVectorLrp(sv, rndA, rndB) ==>
      IsPairOf(aes, CmacLrp(aes, Lrp.FromBaseKey(aes, kx), sv), s.macLrp, s.encLrp)
  }

  /** `first` has UK[0] of this key, `second` UK[1] (AN12304 section 2.3). */
  predicate IsPairOf(aes: Aes128, master: Block, first: Lrp.Key, second: Lrp.Key) {
    var h := aes.enc(master, Lrp.Fill(0xAA));
    && first == Lrp.Parts(Lrp.Plaintexts(aes, master), aes.enc(h, Lrp.Fill(0xAA)))
    && second == Lrp.Parts(Lrp.Plaintexts(aes, master), aes.enc(aes.enc(h, Lrp.Fill(0x55)), Lrp.Fill(0xAA)))
  }

  lemma VectorIsAes(sv: seq<byte>, mark: byte, mark': byte, rndA: Block, rndB: Block)
    requires IsVectorAes(sv, mark, mark', rndA, rndB)
    ensures sv == SessionVectorAes([mark, mark'], rndA, rndB)
  {
    hide Xor;
    assert sv[8..14] == XorBytes(rndA[2..8], rndB[..6]);
    hide XorBytes;
    assert sv[..6] == [mark, mark'] + [0x00, 0x01, 0x00, 0x80];
    InFour(sv, 6);
    Joins(sv, 0, 6, 32);
    assert sv[0..32] == sv;
  }

  lemma VectorIsLrp(sv: seq<byte>, rndA: Block, rndB: Block)
    requires IsVectorLrp(sv, rndA, rndB)
    ensures sv == SessionVectorLrp(rndA, rndB)
  {
    hide Xor;
    assert sv[6..12] == XorBytes(rndA[2..8], rndB[..6]);
    hide XorBytes;
    InFour(sv, 4);
    Joins(sv, 0, 4, 30);
    Joins(sv, 0, 30, 32);
    assert sv[0..32] == sv && sv[0..4] == sv[..4] && sv[30..32] == sv[30..];
  }

  lemma DerivedAes(aes: Aes128, kx: Block, rndA: Block, rndB: Block)
    ensures HasKeysAes(aes, kx, rndA, rndB, DeriveAes(aes, kx, rndA, rndB))
  {
    hide CmacAes, SessionVectorAes, IsVectorAes;
    forall sv: seq<byte>, m: byte, m': byte | IsVectorAes(sv, m, m', rndA, rndB) ensures sv == SessionVectorAes([m, m'], rndA, rndB) {
      VectorIsAes(sv, m, m', rndA, rndB);
    }
  }

  lemma DerivedLrp(aes: Aes128, kx: Block, rndA: Block, rndB: Block)
    ensures HasKeysLrp(aes, kx, rndA, rndB, DeriveLrp(aes, kx, rndA, rndB))
  {
    hide CmacLrp, SessionVectorLrp, IsVectorLrp, IsPairOf, Lrp.FromBaseKey, LrpPair;
    forall sv: seq<byte> | IsVectorLrp(sv, rndA, rndB)
      ensures sv == SessionVectorLrp(rndA, rndB)
    {
      VectorIsLrp(sv, rndA, rndB);
    }
    PairIs(aes, CmacLrp(aes, Lrp.FromBaseKey(aes, kx), SessionVectorLrp(rndA, rndB)));
  }

  /** EncCtr is no part of the keys. */
  lemma SteppedHasKeys(aes: Aes128, kx: Block, rndA: Block, rndB: Block, s: Suite, n: nat)
    requires HasKeysLrp(aes, kx, rndA, rndB, s)
    ensures HasKeysLrp(aes, kx, rndA, rndB, Stepped(s, n))
  {
    hide CmacLrp, IsVectorLrp, IsPairOf, Lrp.FromBaseKey;
  }

  lemma PairIs(aes: Aes128, master: Block)
    ensures var pair := LrpPair(aes, master); IsPairOf(aes, master, pair.0, pair.1)
  {
    hide Lrp.Plaintexts;
    assert Lrp.Rung(aes, aes.enc(master, Lrp.Fill(0xAA)), 1) == aes.enc(aes.enc(master, Lrp.Fill(0xAA)), Lrp.Fill(0x55));
  }

  /** `AesSuite::derive` */
  method DeriveAesSuite(aes: Aes128, kx: Block, rndA: Block, rndB: Block) returns (s: Suite)
    ensures s == DeriveAes(aes, kx, rndA, rndB) && HasKeysAes(aes, kx, rndA, rndB, s)
  {
    hide CmacAes, SessionVectorAes, HasKeysAes;
    var sv1 := BuildSessionVectorAes([0xA5, 0x5A], rndA, rndB);
    var sv2 := BuildSessionVectorAes([0x5A, 0xA5], rndA, rndB);
    s := AesSuite(CmacAes(aes, kx, sv2), CmacAes(aes, kx, sv1));
    DerivedAes(aes, kx, rndA, rndB);
  }

  /** `LrpSuite::derive` */
  method DeriveLrpSuite(aes: Aes128, kx: Block, rndA: Block, rndB: Block) returns (s: Suite)
    ensures s == DeriveLrp(aes, kx, rndA, rndB) && HasKeysLrp(aes, kx, rndA, rndB, s)
  {
    hide CmacLrp, SessionVectorLrp, HasKeysLrp, Lrp.FromBaseKey, Lrp.Plaintexts, Lrp.UpdatedKey;
    var sv := BuildSessionVectorLrp(rndA, rndB);
    var master := CmacLrp(aes, Lrp.FromBaseKey(aes, kx), sv);
    var plaintexts := Lrp.GeneratePlaintexts(aes, master);
    var uk := Lrp.GenerateUpdatedKeys(aes, master, 2);
    s := LrpSuite(Lrp.Parts(plaintexts, uk[0]), Lrp.Parts(plaintexts, uk[1]), 0);
    DerivedLrp(aes, kx, rndA, rndB);
  }

  // ---------------------------------------------------------------- MAC

  /** The MAC is every second byte of the CMAC under the MAC key, whichever the suite. */
  lemma MacIs(aes: Aes128, s: Suite, data: seq<byte>)
    ensures var c := if s.AesSuite? then Cmac.Cmac((b: Block) => aes.enc(s.macKey, b), data)
                     else Cmac.Cmac((b: Block) => Lrp.EncryptBlock(aes, s.macLrp, b), data);
      Mac(aes, s, data) == [c[1], c[3], c[5], c[7], c[9], c[11], c[13], c[15]]
  {
    hide Cmac.Cmac;
  }

  /** Messages go under the encryption key: CBC from the enciphered IV block, or LRICB over EncCtr in eight nibbles. */
  lemma EncryptedIs(aes: Aes128, s: Suite, dir: Direction, ti: Ti, cmdCtr: u16, data: seq<byte>)
    requires |data| % 16 == 0
    ensures var ct := Encrypted(aes, s, dir, ti, cmdCtr, data);
      match s
      case AesSuite(_, encKey) => Cbc.IsCbc(aes, encKey, aes.enc(encKey, IvInput(dir, ti, cmdCtr)), data, ct)
      case LrpSuite(_, encLrp, encCtr) => Lrp.IsLricb(aes, encLrp, encCtr, 8, data, ct)
  {
    hide Cbc.Encrypted, Lrp.Encrypted, Cbc.IsCbc, Lrp.IsLricb;
    match s
    case AesSuite(_, encKey) => Cbc.EncryptedIsCbc(aes, encKey, Iv(aes, encKey, dir, ti, cmdCtr), data);
    case LrpSuite(_, encLrp, encCtr) => Lrp.EncryptedIsLricb(aes, encLrp, encCtr, 8, data);
  }

  /** The block that becomes the IV: A5 5A for commands and 5A A5 for answers, TI, CmdCtr low byte first, zeros. */
  lemma IvInputIs(ti: Ti, low: byte, high: byte)
    ensures IvInput(Command, ti, low as nat + 256 * high as nat)
         == [0xA5, 0x5A, ti[0], ti[1], ti[2], ti[3], low, high, 0, 0, 0, 0, 0, 0, 0, 0]
    ensures IvInput(Response, ti, low as nat + 256 * high as nat)
         == [0x5A, 0xA5, ti[0], ti[1], ti[2], ti[3], low, high, 0, 0, 0, 0, 0, 0, 0, 0]
  {
    LittleEndian(low, high, 0);
  }

  function Mac(aes: Aes128, s: Suite, data: seq<byte>): (mac: seq<byte>)
    ensures |mac| == 8
  {
    match s
    case AesSuite(macKey, _) => Cmac.Truncate(CmacAes(aes, macKey, data))
    case LrpSuite(macLrp, _, _) => Cmac.Truncate(CmacLrp(aes, macLrp, data))
  }

  // ---------------------------------------------------------------- encryption

  /** The block the AES suite enciphers into a CBC IV. */
  function IvInput(dir: Direction, ti: Ti, cmdCtr: u16): Block {
    Label(dir) + ti + Le16(cmdCtr) + Zeros(8)
  }

  lemma IvInputInjective(dir: Direction, dir': Direction, ti: Ti, c: u16, c': u16)
    requires IvInput(dir, ti, c) == IvInput(dir', ti, c')
    ensures dir == dir' && c == c'
  {
    var x, y := IvInput(dir, ti, c), IvInput(dir', ti, c');
    assert x[0] == Label(dir)[0] && y[0] == Label(dir')[0];
    assert x[6..8] == Le16(c) && y[6..8] == Le16(c');
    Le16Injective(c, c');
  }

  function Iv(aes: Aes128, encKey: Block, dir: Direction, ti: Ti, cmdCtr: u16): Block {
    aes.enc(encKey, IvInput(dir, ti, cmdCtr))
  }

  /** LRP's EncCtr after `n` bytes: one step per block, modulo 2^32. */
  function Stepped(s: Suite, n: nat): Suite {
    if s.AesSuite? then s else s.(encCtr := (s.encCtr + n / 16) % 0x1_0000_0000)
  }

  function Encrypted(aes: Aes128, s: Suite, dir: Direction, ti: Ti, cmdCtr: u16, data: seq<byte>): (ct: seq<byte>)
    requires |data| % 16 == 0
    ensures |ct| == |data|
  {
    match s
    case AesSuite(_, encKey) => Cbc.Encrypted(aes, encKey, Iv(aes, encKey, dir, ti, cmdCtr), data)
    case LrpSuite(_, encLrp, encCtr) => Lrp.Encrypted(aes, encLrp, encCtr, 8, data)
  }

  function Decrypted(aes: Aes128, s: Suite, dir: Direction, ti: Ti, cmdCtr: u16, data: seq<byte>): (pt: seq<byte>)
    requires |data| % 16 == 0
    ensures |pt| == |data|
  {
    match s
    case AesSuite(_, encKey) => Cbc.Decrypted(aes, encKey, Iv(aes, encKey, dir, ti, cmdCtr), data)
    case LrpSuite(_, encLrp, encCtr) => Lrp.Decrypted(aes, encLrp, encCtr, 8, data)
  }

  /** The two ends of a message, holding equal suites and counters, agree on the plaintext. */
  lemma DecryptUndoesEncrypt(aes: Aes128, s: Suite, dir: Direction, ti: Ti, cmdCtr: u16, data: seq<byte>)
    requires |data| % 16 == 0
    ensures Decrypted(aes, s, dir, ti, cmdCtr, Encrypted(aes, s, dir, ti, cmdCtr, data)) == data
  {
    match s
    case AesSuite(_, encKey) => Cbc.DecryptUndoesEncrypt(aes, encKey, Iv(aes, encKey, dir, ti, cmdCtr), data);
    case LrpSuite(_, encLrp, encCtr) => Lrp.DecryptUndoesEncrypt(aes, encLrp, encCtr, 8, data);
  }

  /** EncCtr does not enter a MAC. */
  lemma MacStepped(aes: Aes128, s: Suite, n: nat, data: seq<byte>)
    ensures Mac(aes, Stepped(s, n), data) == Mac(aes, s, data)
  {
  }

  lemma Pow256Four()
    ensures Pow(256, 4) == 0x1_0000_0000 && Pow(16, 8) == 0x1_0000_0000
  {
    assert Pow(256, 4) == 256 * Pow(256, 3) == 256 * (256 * Pow(256, 2));
    assert Pow(256, 2) == 0x1_0000;
    Pow16Twice(4);
  }

  /**
    LRP splitting law with the counter as the suite keeps it, through its wrap-around at 2^32:
    `a ++ b` in one message is `a` and then `b`.
   */
  lemma LrpEncryptThreads(aes: Aes128, s: Suite, dir: Direction, ti: Ti, cmdCtr: u16, a: seq<byte>, b: seq<byte>)
    requires s.LrpSuite? && |a| % 16 == 0 && |b| % 16 == 0
    ensures Encrypted(aes, s, dir, ti, cmdCtr, a + b)
         == Encrypted(aes, s, dir, ti, cmdCtr, a) + Encrypted(aes, Stepped(s, |a|), dir, ti, cmdCtr, b)
    ensures Stepped(s, |a + b|) == Stepped(Stepped(s, |a|), |b|)
  {
    hide Digits, Lrp.Encrypted, Lrp.CounterNibbles;
    SteppedTwice(s, |a|, |b|);
    var c := s.encCtr + |a| / 16;
    Lrp.EncryptSplit(aes, s.encLrp, s.encCtr, 8, a, b);
    WrappedCounter(c);
    Lrp.EncryptWraps(aes, s.encLrp, c, c % 0x1_0000_0000, 8, b);
  }

  lemma SteppedTwice(s: Suite, m: nat, n: nat)
    requires m % 16 == 0
    ensures Stepped(s, m + n) == Stepped(Stepped(s, m), n)
  {
    assert (m + n) / 16 == m / 16 + n / 16;
  }

  lemma WrappedCounter(c: nat)
    ensures Lrp.CounterNibbles(c, 8) == Lrp.CounterNibbles(c % 0x1_0000_0000, 8)
  {
    Pow256Four();
    DigitsMod(16, c, 8);
  }

  /** `u32::to_be_bytes` */
  function Be32(n: u32): (r: seq<byte>)
    ensures |r| == 4 && r == Digits(256, n, 4)
  {
    Digits(256, n, 4)
  }

  /** `enc_ctr.to_be_bytes()` and back, around the in-place step of the counter bytes. */
  lemma CounterBytes(c: u32, n: nat)
    ensures Value(256, Digits(256, c, 4)) == c
    ensures Value(256, Digits(256, c + n, 4)) == (c + n) % 0x1_0000_0000
  {
    Pow256Four();
    ValueDigits(256, c, 4);
    ValueDigits(256, c + n, 4);
  }

  /** The LRP branch: the counter goes through its four bytes, which LRICB steps in place. */
  method EncryptLrp(aes: Aes128, key: Lrp.Key, encCtr: u32, buf: array<byte>) returns (ok: bool, encCtr': u32)
    modifies buf
    ensures ok == (buf.Length > 0 && buf.Length % 16 == 0)
    ensures ok ==> buf[..] == Lrp.Encrypted(aes, key, encCtr, 8, old(buf[..]))
    ensures !ok ==> buf[..] == old(buf[..])
    ensures encCtr' == if ok then (encCtr + buf.Length / 16) % 0x1_0000_0000 else encCtr
  {
    hide Digits, Value, Be32, Lrp.Encrypted;
    var ctr := new byte[4](i => 0);
    CopyInto(ctr, 0, Be32(encCtr));
    assert ctr[..] == Be32(encCtr);
    CounterBytes(encCtr, buf.Length / 16);
    ok := Lrp.EncryptInPlace(aes, key, ctr, buf);
    encCtr' := Value(256, ctr[..]);
  }

  /** The LRP branch: the counter goes through its four bytes, which LRICB steps in place. */
  method DecryptLrp(aes: Aes128, key: Lrp.Key, encCtr: u32, buf: array<byte>) returns (ok: bool, encCtr': u32)
    modifies buf
    ensures ok == (buf.Length > 0 && buf.Length % 16 == 0)
    ensures ok ==> buf[..] == Lrp.Decrypted(aes, key, encCtr, 8, old(buf[..]))
    ensures !ok ==> buf[..] == old(buf[..])
    ensures encCtr' == if ok then (encCtr + buf.Length / 16) % 0x1_0000_0000 else encCtr
  {
    hide Digits, Value, Be32, Lrp.Decrypted;
    var ctr := new byte[4](i => 0);
    CopyInto(ctr, 0, Be32(encCtr));
    assert ctr[..] == Be32(encCtr);
    CounterBytes(encCtr, buf.Length / 16);
    ok := Lrp.DecryptInPlace(aes, key, ctr, buf);
    encCtr' := Value(256, ctr[..]);
  }

  method Encrypt(aes: Aes128, s: Suite, dir: Direction, ti: Ti, cmdCtr: u16, buf: array<byte>)
    returns (ok: bool, s': Suite)
    modifies buf
    ensures ok == (buf.Length > 0 && buf.Length % 16 == 0)
    ensures ok ==> buf[..] == Encrypted(aes, s, dir, ti, cmdCtr, old(buf[..])) && s' == Stepped(s, buf.Length)
    ensures !ok ==> buf[..] == old(buf[..]) && s' == s
  {
    hide Cbc.Encrypted, Lrp.Encrypted;
    match s
    case AesSuite(_, encKey) =>
      ok := Cbc.Encrypt(aes, encKey, Iv(aes, encKey, dir, ti, cmdCtr), buf);
      s' := s;
    case LrpSuite(_, encLrp, encCtr) =>
      var ctr: u32;
      ok, ctr := EncryptLrp(aes, encLrp, encCtr, buf);
      s' := s.(encCtr := ctr);
  }

  method Decrypt(aes: Aes128, s: Suite, dir: Direction, ti: Ti, cmdCtr: u16, buf: array<byte>)
    returns (ok: bool, s': Suite)
    modifies buf
    ensures ok == (buf.Length > 0 && buf.Length % 16 == 0)
    ensures ok ==> buf[..] == Decrypted(aes, s, dir, ti, cmdCtr, old(buf[..])) && s' == Stepped(s, buf.Length)
    ensures !ok ==> buf[..] == old(buf[..]) && s' == s
  {
    hide Cbc.Decrypted, Lrp.Decrypted;
    match s
    case AesSuite(_, encKey) =>
      ok := Cbc.Decrypt(aes, encKey, Iv(aes, encKey, dir, ti, cmdCtr), buf);
      s' := s;
    case LrpSuite(_, encLrp, encCtr) =>
      var ctr: u32;
      ok, ctr := DecryptLrp(aes, encLrp, encCtr, buf);
      s' := s.(encCtr := ctr);
  }
}
