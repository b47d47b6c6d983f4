/**
  What a tag writes into its NDEF file on a read (NT4H2421Gx section 9.3), and the theorem that the
  verifier takes out exactly what the tag put in.
 */
module SdmTag {
  import opened Wrappers
  import opened Octets
  import opened Aes
  import opened Hex
  import opened Sdm
  import opened SdmCrypto
  import opened SdmVerifier

  /** One tap: the tag's identity and read counter, its tamper status, and the randomness of its blob. */
  datatype Reading = Reading(uid: UidBytes, count: nat, tamper: seq<byte>, random: seq<byte>, padding: seq<byte>) {
    /** The counter as it goes into blobs and keys, least significant byte first. */
    function Ctr(): CtrBytes {
      [count % 256, count / 0x100 % 256, count / 0x1_0000 % 256]
    }
  }

  predicate IsReading(r: Reading) {
    && r.count < 0x100_0000
    && |r.tamper| == 2 && |r.random| == 8 && |r.padding| == 15
  }

  predicate Within(r: Option<Range>, n: nat) {
    r.Some? ==> r.value.End() <= n
  }

  /** Every placeholder lies in the file, and the encrypted one within the verifier's buffer. */
  predicate Fits(s: Settings, mode: CryptoMode, n: nat) {
    && Within(UidRange(s.picc), n) && Within(RCtrRange(s.picc), n) && Within(PiccRange(s.picc, mode), n)
    && Within(MacRange(s.fileRead), n) && Within(EncRange(s.fileRead), n) && Within(TamperRange(s.tamperStatus), n)
    && (EncRange(s.fileRead).Some? ==> EncRange(s.fileRead).value.len <= 512)
  }

  /** `bytes` put into a placeholder, if there is one. */
  function Place(f: seq<byte>, r: Option<Range>, bytes: seq<byte>): (g: seq<byte>)
    requires r.Some? ==> r.value.len == |bytes| && r.value.End() <= |f|
    ensures |g| == |f|
  {
    if r.None? then f else Splice(f, r.value.start, bytes)
  }

  function At(f: seq<byte>, r: Range): (b: seq<byte>)
    requires r.End() <= |f|
    ensures |b| == r.len
  {
    f[r.start..r.End()]
  }

  lemma PlaceHere(f: seq<byte>, r: Range, bytes: seq<byte>)
    requires r.len == |bytes| && r.End() <= |f|
    ensures At(Place(f, Some(r), bytes), r) == bytes
  {
  }

  lemma PlaceElsewhere(f: seq<byte>, r: Option<Range>, bytes: seq<byte>, q: Range)
    requires r.Some? ==> r.value.len == |bytes| && r.value.End() <= |f|
    requires q.End() <= |f| && !Overlap(r, Some(q))
    ensures At(Place(f, r, bytes), q) == At(f, q)
  {
    if r.Some? {
      var g := Place(f, r, bytes);
      forall i | 0 <= i < q.len ensures At(g, q)[i] == At(f, q)[i] {
        assert At(g, q)[i] == g[q.start + i] && At(f, q)[i] == f[q.start + i];
      }
    }
  }

  // ---------------------------------------------------------------- rendering

  function Keys(aes: Aes128, s: Settings, mode: CryptoMode, fileReadKey: Block, r: Reading): SdmKeys {
    DeriveKeys(aes, mode, fileReadKey, if s.picc.IncludesUid() then Some(r.uid) else None,
               if s.picc.IncludesRCtr() then Some(r.Ctr()) else None)
  }

  function Blob(aes: Aes128, s: Settings, mode: CryptoMode, metaReadKey: Block, r: Reading): (b: seq<byte>)
    requires IsReading(r)
    ensures |b| == PiccBlobAsciiLen(mode)
  {
    Render(SealPicc(aes, mode, metaReadKey, r.random,
                    PiccPlain(if s.picc.EncryptedPicc? then s.picc.content else Both, r.uid, r.Ctr(), r.padding)))
  }

  /** The counter as it is mirrored in the clear: its six hex digits, most significant one first. */
  function CounterMirror(count: nat): (m: seq<byte>)
    ensures |m| == 6
  {
    [HexDigit(count / 0x10_0000 % 16), HexDigit(count / 0x1_0000 % 16), HexDigit(count / 0x1000 % 16),
     HexDigit(count / 0x100 % 16), HexDigit(count / 0x10 % 16), HexDigit(count % 16)]
  }

  lemma CounterMirrorIs(r: Reading)
    ensures CounterMirror(r.count) == Render(Reversed(r.Ctr()))
  {
    hide HexDigit, Render;
    var n, b := r.count, Reversed(r.Ctr());
    RenderThree(b[0], b[1], b[2]);
    NibblesOf(n);
    NibblesOf(n / 0x100);
    NibblesOf(n / 0x1_0000);
    assert n / 0x100 / 0x10 == n / 0x1000 && n / 0x1_0000 / 0x10 == n / 0x10_0000;
    assert b == [n / 0x1_0000 % 256, n / 0x100 % 256, n % 256];
  }

  lemma RenderThree(a: byte, b: byte, c: byte)
    ensures Render([a, b, c])
         == [HexDigit(a / 16), HexDigit(a % 16), HexDigit(b / 16), HexDigit(b % 16), HexDigit(c / 16), HexDigit(c % 16)]
  {
    hide HexDigit;
    assert [a, b, c][..2] == [a, b] && [a, b][..1] == [a] && [a][..0] == [];
    assert Render([a]) == [HexDigit(a / 16), HexDigit(a % 16)];
    assert Render([a, b]) == Render([a]) + [HexDigit(b / 16), HexDigit(b % 16)];
    assert Render([a, b, c]) == Render([a, b]) + [HexDigit(c / 16), HexDigit(c % 16)];
  }

  lemma NibblesOf(n: nat)
    ensures n % 256 / 16 == n / 16 % 16 && n % 256 % 16 == n % 16
  {
    var q, r := n / 256, n % 256;
    assert n == 16 * (16 * q + r / 16) + r % 16;
  }

  lemma CounterValue(r: Reading)
    requires IsReading(r)
    ensures CtrValue(r.Ctr()) == r.count
  {
    FromLe24RoundTrip(r.count);
  }

  /** The mirrors in the clear and the blob; the counter most significant byte first in the clear. */
  function WithIdentity(aes: Aes128, s: Settings, mode: CryptoMode, metaReadKey: Block, file: seq<byte>, r: Reading): (f: seq<byte>)
    requires IsReading(r) && Fits(s, mode, |file|)
    ensures |f| == |file|
  {
    Place(Place(Place(file, UidRange(s.picc), Render(r.uid)), RCtrRange(s.picc), CounterMirror(r.count)),
          PiccRange(s.picc, mode), Blob(aes, s, mode, metaReadKey, r))
  }

  /** The file as the tag is about to encrypt it: identity and tamper status are in place. */
  function Filled(aes: Aes128, s: Settings, mode: CryptoMode, metaReadKey: Block, file: seq<byte>, r: Reading): (f: seq<byte>)
    requires IsReading(r) && Fits(s, mode, |file|)
    ensures |f| == |file|
  {
    Place(WithIdentity(aes, s, mode, metaReadKey, file, r), TamperRange(s.tamperStatus), r.tamper)
  }

  /** What the encrypted range is made from: its first half. */
  function PlainHalf(enc: Range): (half: Range)
    ensures half.start == enc.start && half.End() <= enc.End()
  {
    Range(enc.start, enc.len / 2)
  }

  /** The ciphertext of the plaintext half, over the whole encrypted range. */
  function Ciphertext(aes: Aes128, k: SdmKeys, ctr: CtrBytes, filled: seq<byte>, enc: Range): (c: seq<byte>)
    requires enc.End() <= |filled| && enc.len % 32 == 0
    ensures |c| == enc.len
  {
    Render(SealFileData(aes, k, ctr, At(filled, PlainHalf(enc))))
  }

  function Encrypted(aes: Aes128, s: Settings, k: SdmKeys, ctr: CtrBytes, filled: seq<byte>): (f: seq<byte>)
    requires Within(EncRange(s.fileRead), |filled|)
    ensures |f| == |filled|
  {
    var enc := EncRange(s.fileRead);
    if enc.None? then filled else Place(filled, enc, Ciphertext(aes, k, ctr, filled, enc.value))
  }

  function MacInput(s: Settings): Range
    requires s.fileRead.Some? && s.fileRead.value.window.input <= s.fileRead.value.window.mac
  {
    var w := s.fileRead.value.window;
    Range(w.input, w.mac - w.input)
  }

  predicate IsUsable(s: Settings, mode: CryptoMode) {
    s.fileRead.Some? && Sdm.TryNew(s.picc, s.fileRead, s.tamperStatus, mode).Ok?
  }

  function WithMac(aes: Aes128, s: Settings, k: SdmKeys, f: seq<byte>): (g: seq<byte>)
    requires s.fileRead.Some? && s.fileRead.value.window.input <= s.fileRead.value.window.mac
    requires Within(MacRange(s.fileRead), |f|)
    ensures |g| == |f|
  {
    Place(f, MacRange(s.fileRead), Render(SdmMac(aes, k, At(f, MacInput(s)))))
  }

  /** The file as a reader gets it: mirrors, then encryption, then the MAC over what stands before it. */
  function Rendered(aes: Aes128, s: Settings, mode: CryptoMode, fileReadKey: Block, metaReadKey: Block, file: seq<byte>, r: Reading): (f: seq<byte>)
    requires IsReading(r) && Fits(s, mode, |file|) && IsUsable(s, mode)
    ensures |f| == |file|
  {
    TryNewAcceptsExactly(s.picc, s.fileRead, s.tamperStatus, mode);
    var k := Keys(aes, s, mode, fileReadKey, r);
    WithMac(aes, s, k, Encrypted(aes, s, k, r.Ctr(), Filled(aes, s, mode, metaReadKey, file, r)))
  }

  /** What the tag put in. */
  function PutIn(aes: Aes128, s: Settings, mode: CryptoMode, metaReadKey: Block, file: seq<byte>, r: Reading): Verification
    requires IsReading(r) && Fits(s, mode, |file|)
  {
    var enc := EncRange(s.fileRead);
    Verification(
      if s.picc.IncludesUid() then Some(r.uid) else None,
      if s.picc.IncludesRCtr() then Some(r.count) else None,
      if s.tamperStatus.Some? then Some((r.tamper[0], r.tamper[1])) else None,
      if enc.Some? then Some(At(Filled(aes, s, mode, metaReadKey, file, r), PlainHalf(enc.value))) else None)
  }

  // ---------------------------------------------------------------- what stands where

  lemma WithMacHere(aes: Aes128, s: Settings, k: SdmKeys, f: seq<byte>)
    requires s.fileRead.Some? && s.fileRead.value.window.input <= s.fileRead.value.window.mac
    requires Within(MacRange(s.fileRead), |f|)
    ensures var g := WithMac(aes, s, k, f);
      At(g, MacRange(s.fileRead).value) == Render(SdmMac(aes, k, At(g, MacInput(s))))
  {
    hide Splice, SdmMac, Place, At;
    var mac := MacRange(s.fileRead);
    var bytes := Render(SdmMac(aes, k, At(f, MacInput(s))));
    PlaceHere(f, mac.value, bytes);
    PlaceElsewhere(f, mac, bytes, MacInput(s));
  }

  lemma WithMacElsewhere(aes: Aes128, s: Settings, k: SdmKeys, f: seq<byte>, q: Range)
    requires s.fileRead.Some? && s.fileRead.value.window.input <= s.fileRead.value.window.mac
    requires Within(MacRange(s.fileRead), |f|) && q.End() <= |f| && !Overlap(MacRange(s.fileRead), Some(q))
    ensures At(WithMac(aes, s, k, f), q) == At(f, q)
  {
    PlaceElsewhere(f, MacRange(s.fileRead), Render(SdmMac(aes, k, At(f, MacInput(s)))), q);
  }

  lemma EncryptedHere(aes: Aes128, s: Settings, k: SdmKeys, ctr: CtrBytes, filled: seq<byte>)
    requires Within(EncRange(s.fileRead), |filled|) && EncRange(s.fileRead).Some?
    ensures var enc := EncRange(s.fileRead).value;
      At(Encrypted(aes, s, k, ctr, filled), enc) == Ciphertext(aes, k, ctr, filled, enc)
  {
    hide Place, Ciphertext;
    var enc := EncRange(s.fileRead).value;
    PlaceHere(filled, enc, Ciphertext(aes, k, ctr, filled, enc));
  }

  lemma EncryptedElsewhere(aes: Aes128, s: Settings, k: SdmKeys, ctr: CtrBytes, filled: seq<byte>, q: Range)
    requires Within(EncRange(s.fileRead), |filled|) && q.End() <= |filled| && !Overlap(EncRange(s.fileRead), Some(q))
    ensures At(Encrypted(aes, s, k, ctr, filled), q) == At(filled, q)
  {
    hide Place, Ciphertext;
    var enc := EncRange(s.fileRead);
    if enc.Some? {
      PlaceElsewhere(filled, enc, Ciphertext(aes, k, ctr, filled, enc.value), q);
    }
  }

  /** The MAC stands over its window as it finally is. */
  lemma MacStands(aes: Aes128, s: Settings, mode: CryptoMode, fileReadKey: Block, metaReadKey: Block, file: seq<byte>, r: Reading)
    requires IsReading(r) && Fits(s, mode, |file|) && IsUsable(s, mode)
    ensures IsLaidOut(s, mode)
    ensures var k, f := Keys(aes, s, mode, fileReadKey, r), Rendered(aes, s, mode, fileReadKey, metaReadKey, file, r);
      At(f, MacRange(s.fileRead).value) == Render(SdmMac(aes, k, At(f, MacInput(s))))
  {
    hide Filled, Encrypted, SdmMac, WithMac, At;
    TryNewAcceptsExactly(s.picc, s.fileRead, s.tamperStatus, mode);
    var k := Keys(aes, s, mode, fileReadKey, r);
    WithMacHere(aes, s, k, Encrypted(aes, s, k, r.Ctr(), Filled(aes, s, mode, metaReadKey, file, r)));
  }

  /** What stands before encryption, apart from the encrypted range and the MAC, still stands at the end. */
  lemma EarlierStands(aes: Aes128, s: Settings, mode: CryptoMode, fileReadKey: Block, metaReadKey: Block, file: seq<byte>, r: Reading, q: Range)
    requires IsReading(r) && Fits(s, mode, |file|) && IsUsable(s, mode)
    requires q.End() <= |file| && !Overlap(EncRange(s.fileRead), Some(q)) && !Overlap(MacRange(s.fileRead), Some(q))
    ensures At(Rendered(aes, s, mode, fileReadKey, metaReadKey, file, r), q) == At(Filled(aes, s, mode, metaReadKey, file, r), q)
  {
    hide Filled, Encrypted, WithMac, At;
    TryNewAcceptsExactly(s.picc, s.fileRead, s.tamperStatus, mode);
    var k := Keys(aes, s, mode, fileReadKey, r);
    var filled := Filled(aes, s, mode, metaReadKey, file, r);
    EncryptedElsewhere(aes, s, k, r.Ctr(), filled, q);
    WithMacElsewhere(aes, s, k, Encrypted(aes, s, k, r.Ctr(), filled), q);
  }

  /** The encrypted range holds the plaintext half's ciphertext. */
  lemma EncStands(aes: Aes128, s: Settings, mode: CryptoMode, fileReadKey: Block, metaReadKey: Block, file: seq<byte>, r: Reading)
    requires IsReading(r) && Fits(s, mode, |file|) && IsUsable(s, mode) && EncRange(s.fileRead).Some?
    ensures var enc := EncRange(s.fileRead).value;
      At(Rendered(aes, s, mode, fileReadKey, metaReadKey, file, r), enc)
      == Ciphertext(aes, Keys(aes, s, mode, fileReadKey, r), r.Ctr(), Filled(aes, s, mode, metaReadKey, file, r), enc)
  {
    hide Filled, Encrypted, WithMac, At, Ciphertext;
    TryNewAcceptsExactly(s.picc, s.fileRead, s.tamperStatus, mode);
    var k, enc := Keys(aes, s, mode, fileReadKey, r), EncRange(s.fileRead);
    var filled := Filled(aes, s, mode, metaReadKey, file, r);
    EncryptedHere(aes, s, k, r.Ctr(), filled);
    MacAfterEnc(enc.value, MacRange(s.fileRead).value);
    WithMacElsewhere(aes, s, k, Encrypted(aes, s, k, r.Ctr(), filled), enc.value);
  }

  /** The final file holds each mirror of the identity. */
  lemma IdentityStands(aes: Aes128, s: Settings, mode: CryptoMode, fileReadKey: Block, metaReadKey: Block, file: seq<byte>, r: Reading)
    requires IsReading(r) && Fits(s, mode, |file|) && IsUsable(s, mode)
    ensures var f := Rendered(aes, s, mode, fileReadKey, metaReadKey, file, r);
      && (UidRange(s.picc).Some? ==> At(f, UidRange(s.picc).value) == Render(r.uid))
      && (RCtrRange(s.picc).Some? ==> At(f, RCtrRange(s.picc).value) == CounterMirror(r.count))
      && (PiccRange(s.picc, mode).Some? ==> At(f, PiccRange(s.picc, mode).value) == Blob(aes, s, mode, metaReadKey, r))
  {
    hide Rendered, Place, At, Blob, RangesOverlap;
    TryNewAcceptsExactly(s.picc, s.fileRead, s.tamperStatus, mode);
    Apart(s, mode);
    var uid, rctr, blob := UidRange(s.picc), RCtrRange(s.picc), PiccRange(s.picc, mode);
    var f1 := Place(file, uid, Render(r.uid));
    var f2 := Place(f1, rctr, CounterMirror(r.count));
    var b := Blob(aes, s, mode, metaReadKey, r);
    var f3 := Place(f2, blob, b);
    if uid.Some? {
      PlaceHere(file, uid.value, Render(r.uid));
      PlaceElsewhere(f1, rctr, CounterMirror(r.count), uid.value);
      PlaceElsewhere(f3, TamperRange(s.tamperStatus), r.tamper, uid.value);
      EarlierStands(aes, s, mode, fileReadKey, metaReadKey, file, r, uid.value);
      PlaceElsewhere(f2, blob, b, uid.value);
    }
    if rctr.Some? {
      PlaceHere(f1, rctr.value, CounterMirror(r.count));
      PlaceElsewhere(f2, blob, b, rctr.value);
      PlaceElsewhere(f3, TamperRange(s.tamperStatus), r.tamper, rctr.value);
      EarlierStands(aes, s, mode, fileReadKey, metaReadKey, file, r, rctr.value);
    }
    if blob.Some? {
      PlaceHere(f2, blob.value, b);
      PlaceElsewhere(f3, TamperRange(s.tamperStatus), r.tamper, blob.value);
      EarlierStands(aes, s, mode, fileReadKey, metaReadKey, file, r, blob.value);
    }
  }

  /** The pairs of ranges that accepted settings keep apart. */
  lemma Apart(s: Settings, mode: CryptoMode)
    requires IsLaidOut(s, mode)
    ensures var uid, rctr, blob, mac, enc, tamper :=
        UidRange(s.picc), RCtrRange(s.picc), PiccRange(s.picc, mode), MacRange(s.fileRead), EncRange(s.fileRead), TamperRange(s.tamperStatus);
      && !Overlap(rctr, uid) && !Overlap(blob, uid) && !Overlap(blob, rctr)
      && !Overlap(tamper, uid) && !Overlap(tamper, rctr) && !Overlap(tamper, blob) && !Overlap(mac, tamper)
      && !Overlap(mac, uid) && !Overlap(mac, rctr) && !Overlap(mac, blob)
      && !Overlap(enc, uid) && !Overlap(enc, rctr) && !Overlap(enc, blob) && !Overlap(enc, mac)
  {
    hide RangesOverlap;
    var ids, tamper, enc := Identity(s, mode), TamperRange(s.tamperStatus), EncRange(s.fileRead);
    assert ids[0] == UidRange(s.picc) && ids[1] == RCtrRange(s.picc) && ids[2] == PiccRange(s.picc, mode) && ids[3] == MacRange(s.fileRead);
    assert !Overlap(ids[0], ids[1]) && !Overlap(ids[0], ids[3]) && !Overlap(ids[1], ids[3]) && !Overlap(ids[2], ids[3]);
    assert !Overlap(ids[0], enc) && !Overlap(ids[1], enc) && !Overlap(ids[2], enc) && !Overlap(ids[3], enc);
    assert !Overlap(ids[0], tamper) && !Overlap(ids[1], tamper) && !Overlap(ids[2], tamper) && !Overlap(ids[3], tamper);
    forall a: Option<Range>, b: Option<Range> ensures Overlap(a, b) == Overlap(b, a) {
      OverlapSymmetric(a, b);
    }
  }

  lemma TamperStands(aes: Aes128, s: Settings, mode: CryptoMode, metaReadKey: Block, file: seq<byte>, r: Reading)
    requires IsReading(r) && Fits(s, mode, |file|) && s.tamperStatus.Some?
    ensures At(Filled(aes, s, mode, metaReadKey, file, r), TamperRange(s.tamperStatus).value) == r.tamper
  {
    hide Place, At, WithIdentity;
    PlaceHere(WithIdentity(aes, s, mode, metaReadKey, file, r), TamperRange(s.tamperStatus).value, r.tamper);
  }

  // ---------------------------------------------------------------- the verifier takes out what the tag put in

  lemma AtIs(f: seq<byte>, r: Range)
    requires r.End() <= |f|
    ensures At(f, r) == f[r.start..r.start + r.len]
  {
  }

  lemma ExtractsIdentity(aes: Aes128, s: Settings, mode: CryptoMode, fileReadKey: Block, metaReadKey: Block, file: seq<byte>, r: Reading)
    requires IsReading(r) && Fits(s, mode, |file|) && IsUsable(s, mode)
    ensures var v, f := SdmVerifier.TryNew(s, mode).value, Rendered(aes, s, mode, fileReadKey, metaReadKey, file, r);
      ExtractPicc(aes, v, f, metaReadKey)
      == Ok(ParsedPicc(if s.picc.IncludesUid() then Some(r.uid) else None, if s.picc.IncludesRCtr() then Some(r.Ctr()) else None))
  {
    hide Rendered, At, DecodeHex, Render, OpenPicc, SealPicc, PiccPlain;
    var f := Rendered(aes, s, mode, fileReadKey, metaReadKey, file, r);
    IdentityStands(aes, s, mode, fileReadKey, metaReadKey, file, r);
    match s.picc
    case NoPicc =>
    case Plain(m) =>
      if m.UidOffset().Some? {
        AtIs(f, UidRange(s.picc).value);
        DecodeRender(f, m.UidOffset().value, r.uid);
      }
      if m.RCtrOffset().Some? {
        AtIs(f, RCtrRange(s.picc).value);
        CounterMirrorIs(r);
        DecodeRender(f, m.RCtrOffset().value, Reversed(r.Ctr()));
        assert Reversed(Reversed(r.Ctr())) == r.Ctr();
      }
    case EncryptedPicc(_, offset, content) =>
      var wire := SealPicc(aes, mode, metaReadKey, r.random, PiccPlain(content, r.uid, r.Ctr(), r.padding));
      AtIs(f, PiccRange(s.picc, mode).value);
      DecodeRender(f, offset, wire);
      PiccRoundTrip(aes, mode, metaReadKey, r.random, content, r.uid, r.Ctr(), r.padding);
  }

  lemma AcceptsMac(aes: Aes128, s: Settings, mode: CryptoMode, fileReadKey: Block, metaReadKey: Block, file: seq<byte>, r: Reading)
    requires IsReading(r) && Fits(s, mode, |file|) && IsUsable(s, mode)
    ensures var v, f := SdmVerifier.TryNew(s, mode).value, Rendered(aes, s, mode, fileReadKey, metaReadKey, file, r);
      IsOrdered(v) && CheckMac(aes, v, f, Keys(aes, s, mode, fileReadKey, r)) == Ok(())
  {
    hide Rendered, At, DecodeHex, Render, SdmMac, Keys;
    MacStands(aes, s, mode, fileReadKey, metaReadKey, file, r);
    ConstructedIsValid(s, mode);
    var k, f := Keys(aes, s, mode, fileReadKey, r), Rendered(aes, s, mode, fileReadKey, metaReadKey, file, r);
    var w := s.fileRead.value.window;
    AtIs(f, MacRange(s.fileRead).value);
    AtIs(f, MacInput(s));
    DecodeRender(f, w.mac, SdmMac(aes, k, f[w.input..w.mac]));
  }

  lemma DecryptsFileData(aes: Aes128, s: Settings, mode: CryptoMode, fileReadKey: Block, metaReadKey: Block, file: seq<byte>, r: Reading)
    requires IsReading(r) && Fits(s, mode, |file|) && IsUsable(s, mode)
    ensures var v, f := SdmVerifier.TryNew(s, mode).value, Rendered(aes, s, mode, fileReadKey, metaReadKey, file, r);
      IsOrdered(v)
      && FileData(aes, v, f, Keys(aes, s, mode, fileReadKey, r), if s.picc.IncludesRCtr() then Some(r.Ctr()) else None)
         == Ok(PutIn(aes, s, mode, metaReadKey, file, r).encFileData)
  {
    hide Rendered, At, Render, Keys, Filled, SealFileData, SpanData;
    ConstructedIsValid(s, mode);
    if EncRange(s.fileRead).Some? {
      TryNewAcceptsExactly(s.picc, s.fileRead, s.tamperStatus, mode);
      var k, f := Keys(aes, s, mode, fileReadKey, r), Rendered(aes, s, mode, fileReadKey, metaReadKey, file, r);
      var enc := EncRange(s.fileRead).value;
      EncStands(aes, s, mode, fileReadKey, metaReadKey, file, r);
      SpanOpens(aes, f, enc, k, r.Ctr(), At(Filled(aes, s, mode, metaReadKey, file, r), PlainHalf(enc)));
    }
  }

  /** A span of sealed data opens to what was sealed. */
  lemma SpanOpens(aes: Aes128, f: seq<byte>, enc: Range, k: SdmKeys, ctr: CtrBytes, plain: seq<byte>)
    requires enc.End() <= |f| && 0 < enc.len == 2 * |plain| <= 512 && |plain| % 16 == 0
    requires At(f, enc) == Render(SealFileData(aes, k, ctr, plain))
    ensures SpanData(aes, enc.start, enc.len, f, k, Some(ctr)) == Ok(plain)
  {
    hide At, DecodeHex, Render, SealFileData, OpenFileData;
    AtIs(f, enc);
    DecodeRender(f, enc.start, SealFileData(aes, k, ctr, plain));
    FileDataRoundTrip(aes, k, ctr, plain);
  }

  lemma ReadsTamper(aes: Aes128, s: Settings, mode: CryptoMode, fileReadKey: Block, metaReadKey: Block, file: seq<byte>, r: Reading)
    requires IsReading(r) && Fits(s, mode, |file|) && IsUsable(s, mode) && !Straddles(s)
    ensures var v, f := SdmVerifier.TryNew(s, mode).value, Rendered(aes, s, mode, fileReadKey, metaReadKey, file, r);
      var put := PutIn(aes, s, mode, metaReadKey, file, r);
      TamperStatus(v, f, put.encFileData) == Ok(put.tamperStatus)
  {
    hide Rendered, Filled;
    if s.tamperStatus.Some? {
      TryNewAcceptsExactly(s.picc, s.fileRead, s.tamperStatus, mode);
      Apart(s, mode);
      var tamper, enc := TamperRange(s.tamperStatus).value, EncRange(s.fileRead);
      var filled := Filled(aes, s, mode, metaReadKey, file, r);
      TamperStands(aes, s, mode, metaReadKey, file, r);
      assert filled[tamper.start] == At(filled, tamper)[0] && filled[tamper.start + 1] == At(filled, tamper)[1];
      if Overlap(Some(tamper), enc) {
        var at := tamper.start - enc.value.start;
        var plain := At(filled, PlainHalf(enc.value));
        assert plain[at] == filled[tamper.start] && plain[at + 1] == filled[tamper.start + 1];
      } else {
        OverlapSymmetric(Some(tamper), enc);
        EarlierStands(aes, s, mode, fileReadKey, metaReadKey, file, r, tamper);
        var f := Rendered(aes, s, mode, fileReadKey, metaReadKey, file, r);
        assert f[tamper.start] == At(f, tamper)[0] && f[tamper.start + 1] == At(f, tamper)[1];
      }
    }
  }

  /** Whatever the tag puts in, the verifier takes out. */
  lemma RoundTrip(aes: Aes128, s: Settings, mode: CryptoMode, fileReadKey: Block, metaReadKey: Block, file: seq<byte>, r: Reading)
    requires IsReading(r) && Fits(s, mode, |file|) && IsUsable(s, mode) && !Straddles(s)
    ensures var v := SdmVerifier.TryNew(s, mode).value;
      && IsOrdered(v)
      && Verify(aes, v, Rendered(aes, s, mode, fileReadKey, metaReadKey, file, r), fileReadKey, metaReadKey)
         == Ok(PutIn(aes, s, mode, metaReadKey, file, r))
  {
    hide Rendered, Filled, ExtractPicc, CheckMac, FileData, TamperStatus, At, DeriveKeys, CtrValue;
    CounterValue(r);
    ExtractsIdentity(aes, s, mode, fileReadKey, metaReadKey, file, r);
    AcceptsMac(aes, s, mode, fileReadKey, metaReadKey, file, r);
    DecryptsFileData(aes, s, mode, fileReadKey, metaReadKey, file, r);
    ReadsTamper(aes, s, mode, fileReadKey, metaReadKey, file, r);
  }

  /**
    A tamper status that straddles the start of the encrypted range: its first byte is read as it was put in,
    and in the place of its second the first character of the ciphertext, a hex digit.
   */
  lemma StraddledTamper(aes: Aes128, s: Settings, mode: CryptoMode, fileReadKey: Block, metaReadKey: Block, file: seq<byte>, r: Reading)
    requires IsReading(r) && Fits(s, mode, |file|) && IsUsable(s, mode) && Straddles(s)
    ensures var v := SdmVerifier.TryNew(s, mode).value;
      var enc := EncRange(s.fileRead).value;
      var ct := Ciphertext(aes, Keys(aes, s, mode, fileReadKey, r), r.Ctr(), Filled(aes, s, mode, metaReadKey, file, r), enc);
      && IsOrdered(v) && |ct| > 0 && HexNibble(ct[0], 0).Ok?
      && Verify(aes, v, Rendered(aes, s, mode, fileReadKey, metaReadKey, file, r), fileReadKey, metaReadKey)
         == Ok(PutIn(aes, s, mode, metaReadKey, file, r).(tamperStatus := Some((r.tamper[0], ct[0]))))
  {
    hide Rendered, ExtractPicc, CheckMac, FileData, DeriveKeys, Filled, SealFileData, HexNibble, Render, CtrValue;
    CounterValue(r);
    var enc, f := EncRange(s.fileRead).value, Rendered(aes, s, mode, fileReadKey, metaReadKey, file, r);
    ExtractsIdentity(aes, s, mode, fileReadKey, metaReadKey, file, r);
    AcceptsMac(aes, s, mode, fileReadKey, metaReadKey, file, r);
    DecryptsFileData(aes, s, mode, fileReadKey, metaReadKey, file, r);
    EncStands(aes, s, mode, fileReadKey, metaReadKey, file, r);
    var k, filled := Keys(aes, s, mode, fileReadKey, r), Filled(aes, s, mode, metaReadKey, file, r);
    assert f[enc.start] == At(f, enc)[0];
    RenderedIsHex(SealFileData(aes, k, r.Ctr(), At(filled, PlainHalf(enc))), 0);
    FirstTamperByte(aes, s, mode, fileReadKey, metaReadKey, file, r);
  }

  /** The byte before the encrypted range stands. */
  lemma FirstTamperByte(aes: Aes128, s: Settings, mode: CryptoMode, fileReadKey: Block, metaReadKey: Block, file: seq<byte>, r: Reading)
    requires IsReading(r) && Fits(s, mode, |file|) && IsUsable(s, mode) && Straddles(s)
    ensures Rendered(aes, s, mode, fileReadKey, metaReadKey, file, r)[s.tamperStatus.value] == r.tamper[0]
  {
    hide Rendered, Filled;
    TryNewAcceptsExactly(s.picc, s.fileRead, s.tamperStatus, mode);
    Apart(s, mode);
    var at := Range(s.tamperStatus.value, 1);
    var tamper := TamperRange(s.tamperStatus).value;
    EarlierStands(aes, s, mode, fileReadKey, metaReadKey, file, r, at);
    TamperStands(aes, s, mode, metaReadKey, file, r);
    var f, filled := Rendered(aes, s, mode, fileReadKey, metaReadKey, file, r), Filled(aes, s, mode, metaReadKey, file, r);
    assert At(f, at)[0] == f[at.start] && At(filled, at)[0] == filled[at.start] == At(filled, tamper)[0];
  }

  /**
    The round trip holds for every tap exactly when the settings do not straddle; the checks of
    `Sdm::try_new` let straddling settings through.
   */
  lemma RoundTripsExactly(aes: Aes128, s: Settings, mode: CryptoMode, fileReadKey: Block, metaReadKey: Block, file: seq<byte>)
    requires Fits(s, mode, |file|) && IsUsable(s, mode)
    ensures var v := SdmVerifier.TryNew(s, mode).value;
      && IsOrdered(v)
      && (!Straddles(s) <==> forall r | IsReading(r) ::
            Verify(aes, v, Rendered(aes, s, mode, fileReadKey, metaReadKey, file, r), fileReadKey, metaReadKey)
            == Ok(PutIn(aes, s, mode, metaReadKey, file, r)))
  {
    ConstructedIsValid(s, mode);
    hide Rendered, Verify, Filled, Fits, IsUsable, PutIn, Sdm.TryNew, SdmVerifier.TryNew, Straddles;
    if Straddles(s) {
      var r := StraddledReading(aes, s, mode, fileReadKey, metaReadKey, file);
    } else {
      forall r | IsReading(r)
        ensures Verify(aes, SdmVerifier.TryNew(s, mode).value,
                       Rendered(aes, s, mode, fileReadKey, metaReadKey, file, r), fileReadKey, metaReadKey)
             == Ok(PutIn(aes, s, mode, metaReadKey, file, r))
      {
        RoundTrip(aes, s, mode, fileReadKey, metaReadKey, file, r);
      }
    }
  }

  /** A reading that settings with a straddling tamper status do not give back. */
  lemma StraddledReading(aes: Aes128, s: Settings, mode: CryptoMode, fileReadKey: Block, metaReadKey: Block, file: seq<byte>)
    returns (r: Reading)
    requires Fits(s, mode, |file|) && IsUsable(s, mode) && Straddles(s)
    ensures IsReading(r) && IsOrdered(SdmVerifier.TryNew(s, mode).value)
    ensures Verify(aes, SdmVerifier.TryNew(s, mode).value, Rendered(aes, s, mode, fileReadKey, metaReadKey, file, r), fileReadKey, metaReadKey)
         != Ok(PutIn(aes, s, mode, metaReadKey, file, r))
  {
    hide Rendered, Verify, Filled, Sdm.TryNew, SdmVerifier.TryNew, Fits, IsUsable, Ciphertext, Keys, IsOrdered, EncRange, At;
    r := Reading(Zeros(7), 0, [0x4F, 0x4F], Zeros(8), Zeros(15));
    assert IsReading(r) && HexNibble(0x4F, 0).Err?;
    StraddledTamper(aes, s, mode, fileReadKey, metaReadKey, file, r);
  }

  /** Settings that straddle and are accepted. */
  lemma StraddlingIsAccepted()
    ensures var s := Settings(EncryptedPicc(2, 0, Both), Some(MacAndEnc(1, MacWindow(40, 80), 40, 32)), Some(39));
      Straddles(s) && Sdm.TryNew(s.picc, s.fileRead, s.tamperStatus, AesMode) == Ok(s)
  {
  }
}
