/** What SDM deciphers and authenticates with: crypto/sdm/picc.rs and crypto/sdm/keys.rs. */
module SdmCrypto {
  import opened Wrappers
  import opened Octets
  import opened Aes
  import opened Blocks
  import opened Suite
  import opened Hex
  import opened Sdm
  import Cbc
  import Lrp
  import Cmac

  type UidBytes = u: seq<byte> | |u| == 7 witness Zeros(7)
  type CtrBytes = c: seq<byte> | |c| == 3 witness Zeros(3)

  // ---------------------------------------------------------------- PICCData

  datatype ParsedPicc = ParsedPicc(uid: Option<UidBytes>, readCtr: Option<CtrBytes>)

  function ParsePicc(plain: Block): Result<ParsedPicc, SdmError> {
    var tag := plain[0];
    var hasUid, hasCtr := tag / 128 % 2 == 1, tag / 64 % 2 == 1;
    if hasUid && tag % 16 != 7 then Err(InvalidPiccDataTag(tag))
    else
      var off := if hasUid then 8 else 1;
      Ok(ParsedPicc(if hasUid then Some(plain[1..8]) else None, if hasCtr then Some(plain[off..off + 3]) else None))
  }

  /** What a deciphered blob says: bit 7 of the tag byte announces the UID, bit 6 the counter behind it. */
  lemma PiccIs(plain: Block)
    ensures ParsePicc(plain).Ok? <==> plain[0] < 0x80 || plain[0] % 16 == 7
    ensures ParsePicc(plain).Ok? ==>
      var p := ParsePicc(plain).value;
      && p.uid == (if plain[0] >= 0x80 then Some(plain[1..8]) else None)
      && (plain[0] / 64 % 2 == 0 ==> p.readCtr == None)
      && (plain[0] / 64 == 1 ==> p.readCtr == Some([plain[1], plain[2], plain[3]]))
      && (plain[0] / 64 == 3 ==> p.readCtr == Some([plain[8], plain[9], plain[10]]))
  {
    assert plain[1..4] == [plain[1], plain[2], plain[3]] && plain[8..11] == [plain[8], plain[9], plain[10]];
  }

  /** `parse_picc_data_tag`, with its moving offset. */
  method ParsePiccDataTag(plain: Block) returns (r: Result<ParsedPicc, SdmError>)
    ensures r == ParsePicc(plain)
  {
    var tag := plain[0];
    var uidPresent := tag / 128 % 2 == 1;
    var ctrPresent := tag / 64 % 2 == 1;
    if uidPresent && tag % 16 != 7 {
      return Err(InvalidPiccDataTag(tag));
    }
    var off := 1;
    var uid: Option<UidBytes> := None;
    if uidPresent {
      uid := Some(plain[off..off + 7]);
      off := off + 7;
    }
    var readCtr: Option<CtrBytes> := None;
    if ctrPresent {
      readCtr := Some(plain[off..off + 3]);
    }
    return Ok(ParsedPicc(uid, readCtr));
  }

  /** The wire form of a blob: 16 bytes in AES mode, 8 random bytes and 16 in LRP mode. */
  function BlobLen(mode: CryptoMode): nat {
    if mode.AesMode? then 16 else 24
  }

  function BlobPlain(aes: Aes128, mode: CryptoMode, key: Block, wire: seq<byte>): Block
    requires |wire| == BlobLen(mode)
  {
    if mode.AesMode? then Cbc.Decrypted(aes, key, Zeros(16), wire)
    else Lrp.Decrypted(aes, Lrp.FromBaseKey(aes, key), Value(256, wire[..8]), 16, wire[8..])
  }

  function OpenPicc(aes: Aes128, mode: CryptoMode, key: Block, wire: seq<byte>): Result<ParsedPicc, SdmError>
    requires |wire| == BlobLen(mode)
  {
    ParsePicc(BlobPlain(aes, mode, key, wire))
  }

  /** `decrypt_picc_data_aes` and `decrypt_picc_data_lrp`: a copy, deciphered in place. */
  method DecryptPiccData(aes: Aes128, mode: CryptoMode, key: Block, wire: seq<byte>) returns (r: Result<ParsedPicc, SdmError>)
    requires |wire| == BlobLen(mode)
    ensures r == OpenPicc(aes, mode, key, wire)
  {
    hide Cbc.Decrypted, Lrp.Decrypted, Value, ParsePicc;
    var body := if mode.AesMode? then wire else wire[8..24];
    var plain := new byte[16](i requires 0 <= i < 16 => body[i]);
    assert plain[..] == body;
    match mode {
      case AesMode =>
        var ok := Cbc.Decrypt(aes, key, Zeros(16), plain);
      case LrpMode =>
        assert body == wire[8..];
        var counter := new byte[8](i requires 0 <= i < 8 => wire[i]);
        assert counter[..] == wire[..8];
        var ok := Lrp.DecryptInPlace(aes, Lrp.FromBaseKey(aes, key), counter, plain);
    }
    r := ParsePiccDataTag(plain[..]);
  }

  /** The plaintext a tag puts in its blob: a tag byte, what is mirrored, and padding of its own. */
  function PiccPlain(content: Mirrored, uid: UidBytes, ctr: CtrBytes, padding: seq<byte>): (p: Block)
    requires |padding| == 15
  {
    match content
    case UidOnly => [0x87] + uid + padding[..8]
    case CtrOnly => [0x40] + ctr + padding[..12]
    case Both => [0xC7] + uid + ctr + padding[..5]
  }

  function SealPicc(aes: Aes128, mode: CryptoMode, key: Block, random: seq<byte>, plain: Block): (wire: seq<byte>)
    requires |random| == 8
    ensures |wire| == BlobLen(mode)
  {
    if mode.AesMode? then Cbc.Encrypted(aes, key, Zeros(16), plain)
    else random + Lrp.Encrypted(aes, Lrp.FromBaseKey(aes, key), Value(256, random), 16, plain)
  }

  function MirroredUid(content: Mirrored, uid: UidBytes): Option<UidBytes> {
    if content.CtrOnly? then None else Some(uid)
  }

  function MirroredCtr(content: Mirrored, ctr: CtrBytes): Option<CtrBytes> {
    if content.UidOnly? then None else Some(ctr)
  }

  /** A blob opens to exactly what was sealed in it. */
  lemma PiccRoundTrip(aes: Aes128, mode: CryptoMode, key: Block, random: seq<byte>, content: Mirrored, uid: UidBytes, ctr: CtrBytes, padding: seq<byte>)
    requires |random| == 8 && |padding| == 15
    ensures OpenPicc(aes, mode, key, SealPicc(aes, mode, key, random, PiccPlain(content, uid, ctr, padding)))
         == Ok(ParsedPicc(MirroredUid(content, uid), MirroredCtr(content, ctr)))
  {
    hide Cbc.Encrypted, Cbc.Decrypted, Lrp.Encrypted, Lrp.Decrypted, Value;
    var plain := PiccPlain(content, uid, ctr, padding);
    var wire := SealPicc(aes, mode, key, random, plain);
    match mode {
      case AesMode => Cbc.DecryptUndoesEncrypt(aes, key, Zeros(16), plain);
      case LrpMode =>
        assert wire[..8] == random && wire[8..] == Lrp.Encrypted(aes, Lrp.FromBaseKey(aes, key), Value(256, random), 16, plain);
        Lrp.DecryptUndoesEncrypt(aes, Lrp.FromBaseKey(aes, key), Value(256, random), 16, plain);
    }
    PiccPlainParses(content, uid, ctr, padding);
  }

  lemma PiccPlainParses(content: Mirrored, uid: UidBytes, ctr: CtrBytes, padding: seq<byte>)
    requires |padding| == 15
    ensures ParsePicc(PiccPlain(content, uid, ctr, padding)) == Ok(ParsedPicc(MirroredUid(content, uid), MirroredCtr(content, ctr)))
  {
    var plain := PiccPlain(content, uid, ctr, padding);
    match content
    case UidOnly => assert plain[1..8] == uid;
    case CtrOnly => assert plain[1..4] == ctr;
    case Both => assert plain[1..8] == uid && plain[8..11] == ctr;
  }

  // ---------------------------------------------------------------- session keys

  datatype SdmKeys =
    | AesKeys(encKey: Block, macKey: Block)
    | LrpKeys(encLrp: Lrp.Key, macLrp: Lrp.Key)

  function Present<T>(x: Option<seq<T>>): seq<T> {
    if x.Some? then x.value else []
  }

  /** A 16-byte session vector: what is mirrored follows the fixed bytes, zeros fill the rest. */
  function VectorAes(mark: seq<byte>, uid: Option<UidBytes>, ctr: Option<CtrBytes>): (sv: Block)
    requires |mark| == 2
  {
    var body := mark + [0x00, 0x01, 0x00, 0x80] + Present(uid) + Present(ctr);
    body + Zeros(16 - |body|)
  }

  function VectorLrp(uid: Option<UidBytes>, ctr: Option<CtrBytes>): (sv: Block) {
    var body := [0x00, 0x01, 0x00, 0x80] + Present(uid) + Present(ctr);
    body + Zeros(14 - |body|) + [0x1E, 0xE1]
  }

  function DeriveKeys(aes: Aes128, mode: CryptoMode, fileReadKey: Block, uid: Option<UidBytes>, ctr: Option<CtrBytes>): (k: SdmKeys)
    ensures k.AesKeys? <==> mode.AesMode?
  {
    match mode
    case AesMode =>
      AesKeys(CmacAes(aes, fileReadKey, VectorAes([0xC3, 0x3C], uid, ctr)),
              CmacAes(aes, fileReadKey, VectorAes([0x3C, 0xC3], uid, ctr)))
    case LrpMode =>
      var pair := LrpPair(aes, CmacLrp(aes, Lrp.FromBaseKey(aes, fileReadKey), VectorLrp(uid, ctr)));
      LrpKeys(pair.1, pair.0)
  }

  /** A session vector of NT4H2421Gx section 9.3.9: fixed bytes, what is mirrored behind them, and zeros. */
  predicate IsSdmVector(sv: seq<byte>, fixed: seq<byte>, uid: Option<UidBytes>, ctr: Option<CtrBytes>, tail: seq<byte>) {
    var f, n, m := |fixed|, if uid.Some? then 7 else 0, if ctr.Some? then 3 else 0;
    && |sv| == 16 && f + n + m + |tail| <= 16 && sv[..f] == fixed && sv[16 - |tail|..] == tail
    && (uid.Some? ==> sv[f..f + 7] == uid.value) && (ctr.Some? ==> sv[f + n..f + n + 3] == ctr.value)
    && forall i :: f + n + m <= i < 16 - |tail| ==> sv[i] == 0
  }

  /** Which key is which: C3 3C enciphers and 3C C3 authenticates; in LRP mode UK[0] authenticates and UK[1] enciphers. */
  ghost predicate HasSdmKeys(aes: Aes128, fileReadKey: Block, uid: Option<UidBytes>, ctr: Option<CtrBytes>, k: SdmKeys) {
    match k
    case AesKeys(encKey, macKey) =>
      && (forall sv: seq<byte> :: IsSdmVector(sv, [0xC3, 0x3C, 0x00, 0x01, 0x00, 0x80], uid, ctr, []) ==> encKey == CmacAes(aes, fileReadKey, sv))
      && (forall sv: seq<byte> :: IsSdmVector(sv, [0x3C, 0xC3, 0x00, 0x01, 0x00, 0x80], uid, ctr, []) ==> macKey == CmacAes(aes, fileReadKey, sv))
    case LrpKeys(encLrp, macLrp) =>
      forall sv: seq<byte> :: IsSdmVector(sv, [0x00, 0x01, 0x00, 0x80], uid, ctr, [0x1E, 0xE1]) ==>
        IsPairOf(aes, CmacLrp(aes, Lrp.FromBaseKey(aes, fileReadKey), sv), macLrp, encLrp)
  }

  lemma SdmVectorIs(sv: seq<byte>, fixed: seq<byte>, uid: Option<UidBytes>, ctr: Option<CtrBytes>, tail: seq<byte>)
    requires IsSdmVector(sv, fixed, uid, ctr, tail)
    ensures var body := fixed + Present(uid) + Present(ctr);
      |body| + |tail| <= 16 && sv == body + Zeros(16 - |body| - |tail|) + tail
  {
    hide IsSdmVector, Present;
    SdmVectorParts(sv, fixed, uid, ctr, tail);
    var body := fixed + Present(uid) + Present(ctr);
    var f, n := |fixed|, |Present(uid)|;
    Joins(sv, 0, f, f + n);
    Joins(sv, 0, f + n, |body|);
    Joins(sv, 0, |body|, 16 - |tail|);
    Joins(sv, 0, 16 - |tail|, 16);
    assert sv[0..16] == sv;
  }

  lemma SdmVectorParts(sv: seq<byte>, fixed: seq<byte>, uid: Option<UidBytes>, ctr: Option<CtrBytes>, tail: seq<byte>)
    requires IsSdmVector(sv, fixed, uid, ctr, tail)
    ensures var f, n, m, t := |fixed|, |Present(uid)|, |Present(ctr)|, |tail|;
      && |sv| == 16 && f + n + m + t <= 16
      && sv[0..f] == fixed && sv[f..f + n] == Present(uid) && sv[f + n..f + n + m] == Present(ctr)
      && sv[f + n + m..16 - t] == Zeros(16 - f - n - m - t) && sv[16 - t..16] == tail
  {
  }

  lemma DerivedSdmKeys(aes: Aes128, mode: CryptoMode, fileReadKey: Block, uid: Option<UidBytes>, ctr: Option<CtrBytes>)
    ensures HasSdmKeys(aes, fileReadKey, uid, ctr, DeriveKeys(aes, mode, fileReadKey, uid, ctr))
  {
    hide CmacAes, CmacLrp, Lrp.FromBaseKey, LrpPair, IsPairOf, IsSdmVector, VectorAes, VectorLrp;
    forall sv: seq<byte>, a: byte, b: byte | IsSdmVector(sv, [a, b, 0x00, 0x01, 0x00, 0x80], uid, ctr, [])
      ensures sv == VectorAes([a, b], uid, ctr)
    {
      AesVectorIs(sv, a, b, uid, ctr);
    }
    forall sv: seq<byte> | IsSdmVector(sv, [0x00, 0x01, 0x00, 0x80], uid, ctr, [0x1E, 0xE1])
      ensures sv == VectorLrp(uid, ctr)
    {
      LrpVectorIs(sv, uid, ctr);
    }
    PairIs(aes, CmacLrp(aes, Lrp.FromBaseKey(aes, fileReadKey), VectorLrp(uid, ctr)));
  }

  lemma AesVectorIs(sv: seq<byte>, a: byte, b: byte, uid: Option<UidBytes>, ctr: Option<CtrBytes>)
    requires IsSdmVector(sv, [a, b, 0x00, 0x01, 0x00, 0x80], uid, ctr, [])
    ensures sv == VectorAes([a, b], uid, ctr)
  {
    hide IsSdmVector;
    SdmVectorIs(sv, [a, b, 0x00, 0x01, 0x00, 0x80], uid, ctr, []);
    assert [a, b] + [0x00, 0x01, 0x00, 0x80] == [a, b, 0x00, 0x01, 0x00, 0x80];
    assert sv + [] == sv;
  }

  lemma LrpVectorIs(sv: seq<byte>, uid: Option<UidBytes>, ctr: Option<CtrBytes>)
    requires IsSdmVector(sv, [0x00, 0x01, 0x00, 0x80], uid, ctr, [0x1E, 0xE1])
    ensures sv == VectorLrp(uid, ctr)
  {
    hide IsSdmVector;
    SdmVectorIs(sv, [0x00, 0x01, 0x00, 0x80], uid, ctr, [0x1E, 0xE1]);
  }

  /** The session vectors, written into a zeroed block at a moving offset. */
  method BuildVector(fixed: seq<byte>, uid: Option<UidBytes>, ctr: Option<CtrBytes>, tail: seq<byte>) returns (sv: Block)
    requires (|fixed| == 6 && |tail| == 0) || (|fixed| == 4 && |tail| == 2)
    ensures var body := fixed + Present(uid) + Present(ctr);
      |body| + |tail| <= 16 && sv == body + Zeros(16 - |body| - |tail|) + tail
  {
    var a := new byte[16](i => 0);
    var off := Append(a, 0, fixed);
    assert a[..off] == fixed;
    off := Append(a, off, Present(uid));
    off := Append(a, off, Present(ctr));
    ghost var body := fixed + Present(uid) + Present(ctr);
    ghost var front := a[..16 - |tail|];
    assert front == body + Zeros(16 - |body| - |tail|);
    off := Append(a, 16 - |tail|, tail);
    sv := a[..];
    assert sv == a[..off] == front + tail;
  }

  method DeriveSdmKeys(aes: Aes128, mode: CryptoMode, fileReadKey: Block, uid: Option<UidBytes>, ctr: Option<CtrBytes>)
    returns (k: SdmKeys)
    ensures k == DeriveKeys(aes, mode, fileReadKey, uid, ctr) && HasSdmKeys(aes, fileReadKey, uid, ctr, k)
  {
    hide CmacAes, CmacLrp, Lrp.Plaintexts, Lrp.UpdatedKey, HasSdmKeys;
    DerivedSdmKeys(aes, mode, fileReadKey, uid, ctr);
    match mode
    case AesMode =>
      var svEnc := BuildVector([0xC3, 0x3C, 0x00, 0x01, 0x00, 0x80], uid, ctr, []);
      var svMac := BuildVector([0x3C, 0xC3, 0x00, 0x01, 0x00, 0x80], uid, ctr, []);
      assert svEnc == VectorAes([0xC3, 0x3C], uid, ctr) && svMac == VectorAes([0x3C, 0xC3], uid, ctr) by {
        assert [0xC3, 0x3C] + [0x00, 0x01, 0x00, 0x80] == [0xC3, 0x3C, 0x00, 0x01, 0x00, 0x80];
        assert [0x3C, 0xC3] + [0x00, 0x01, 0x00, 0x80] == [0x3C, 0xC3, 0x00, 0x01, 0x00, 0x80];
      }
      k := AesKeys(CmacAes(aes, fileReadKey, svEnc), CmacAes(aes, fileReadKey, svMac));
    case LrpMode =>
      var sv := BuildVector([0x00, 0x01, 0x00, 0x80], uid, ctr, [0x1E, 0xE1]);
      var master := CmacLrp(aes, Lrp.FromBaseKey(aes, fileReadKey), sv);
      var plaintexts := Lrp.GeneratePlaintexts(aes, master);
      var uk := Lrp.GenerateUpdatedKeys(aes, master, 2);
      k := LrpKeys(Lrp.Parts(plaintexts, uk[1]), Lrp.Parts(plaintexts, uk[0]));
  }

  /** Which tag and which read a session belongs to goes into its keys: the vectors tell all of them apart. */
  lemma VectorsDistinct(uid: UidBytes, uid': UidBytes, ctr: CtrBytes, ctr': CtrBytes, mark: seq<byte>, mark': seq<byte>)
    requires |mark| == 2 && |mark'| == 2
    ensures VectorAes(mark, Some(uid), Some(ctr)) == VectorAes(mark', Some(uid'), Some(ctr')) <==> mark == mark' && uid == uid' && ctr == ctr'
    ensures VectorLrp(Some(uid), Some(ctr)) == VectorLrp(Some(uid'), Some(ctr')) <==> uid == uid' && ctr == ctr'
  {
    var a, a' := VectorAes(mark, Some(uid), Some(ctr)), VectorAes(mark', Some(uid'), Some(ctr'));
    assert a[..2] == mark && a[6..13] == uid && a[13..16] == ctr;
    assert a'[..2] == mark' && a'[6..13] == uid' && a'[13..16] == ctr';
    var b, b' := VectorLrp(Some(uid), Some(ctr)), VectorLrp(Some(uid'), Some(ctr'));
    assert b[4..11] == uid && b[11..14] == ctr && b'[4..11] == uid' && b'[11..14] == ctr';
  }

  function SdmMac(aes: Aes128, k: SdmKeys, data: seq<byte>): (mac: seq<byte>)
    ensures |mac| == 8
  {
    match k
    case AesKeys(_, macKey) => Cmac.Truncate(CmacAes(aes, macKey, data))
    case LrpKeys(_, macLrp) => Cmac.Truncate(CmacLrp(aes, macLrp, data))
  }

  /** The MAC of a read is every second byte of the CMAC under the MAC key. */
  lemma SdmMacIs(aes: Aes128, k: SdmKeys, data: seq<byte>)
    ensures var c := if k.AesKeys? then Cmac.Cmac((b: Block) => aes.enc(k.macKey, b), data)
                     else Cmac.Cmac((b: Block) => Lrp.EncryptBlock(aes, k.macLrp, b), data);
      SdmMac(aes, k, data) == [c[1], c[3], c[5], c[7], c[9], c[11], c[13], c[15]]
  {
    hide Cmac.Cmac;
  }

  // ---------------------------------------------------------------- file data

  /** The AES IV is the enciphered counter; the LRP counter is the read counter and three zeros. */
  function SdmIv(aes: Aes128, encKey: Block, ctr: CtrBytes): Block {
    aes.enc(encKey, ctr + Zeros(13))
  }

  function SdmCounter(ctr: CtrBytes): nat {
    Value(256, ctr + Zeros(3))
  }

  function SealFileData(aes: Aes128, k: SdmKeys, ctr: CtrBytes, plain: seq<byte>): (ct: seq<byte>)
    requires |plain| % 16 == 0
    ensures |ct| == |plain|
  {
    match k
    case AesKeys(encKey, _) => Cbc.Encrypted(aes, encKey, SdmIv(aes, encKey, ctr), plain)
    case LrpKeys(encLrp, _) => Lrp.Encrypted(aes, encLrp, SdmCounter(ctr), 12, plain)
  }

  function OpenFileData(aes: Aes128, k: SdmKeys, ctr: CtrBytes, ct: seq<byte>): (plain: seq<byte>)
    requires |ct| % 16 == 0
    ensures |plain| == |ct|
  {
    match k
    case AesKeys(encKey, _) => Cbc.Decrypted(aes, encKey, SdmIv(aes, encKey, ctr), ct)
    case LrpKeys(encLrp, _) => Lrp.Decrypted(aes, encLrp, SdmCounter(ctr), 12, ct)
  }

  /**
    File data goes under the encryption key: CBC from the enciphered block of the counter and zeros, or
    LRICB over the twelve nibbles of the counter, low byte first, and three zero bytes.
   */
  lemma FileDataIs(aes: Aes128, k: SdmKeys, low: byte, mid: byte, high: byte, ct: seq<byte>)
    requires |ct| % 16 == 0
    ensures var plain := OpenFileData(aes, k, [low, mid, high], ct);
      match k
      case AesKeys(encKey, _) =>
        Cbc.IsCbc(aes, encKey, aes.enc(encKey, [low, mid, high, 0, 0, 0, 0, 0, 0, 0, 0, 0, 0, 0, 0, 0]), plain, ct)
      case LrpKeys(encLrp, _) =>
        Lrp.IsLricb(aes, encLrp, ((low as nat * 256 + mid as nat) * 256 + high as nat) * 0x100_0000, 12, plain, ct)
  {
    hide Cbc.Decrypted, Lrp.Decrypted, Cbc.IsCbc, Lrp.IsLricb, Value;
    match k
    case AesKeys(encKey, _) =>
      assert [low, mid, high] + Zeros(13) == [low, mid, high, 0, 0, 0, 0, 0, 0, 0, 0, 0, 0, 0, 0, 0];
      Cbc.DecryptedIsCbc(aes, encKey, SdmIv(aes, encKey, [low, mid, high]), ct);
    case LrpKeys(encLrp, _) =>
      SdmCounterIs(low, mid, high);
      Lrp.DecryptedIsLricb(aes, encLrp, SdmCounter([low, mid, high]), 12, ct);
  }

  lemma SdmCounterIs(low: byte, mid: byte, high: byte)
    ensures SdmCounter([low, mid, high]) == ((low as nat * 256 + mid as nat) * 256 + high as nat) * 0x100_0000
  {
    hide Value;
    BigEndian(low, mid);
    ValueSnoc(256, [low, mid], high);
    ValueSnoc(256, [low, mid, high], 0);
    ValueSnoc(256, [low, mid, high, 0], 0);
    ValueSnoc(256, [low, mid, high, 0, 0], 0);
    assert [low, mid] + [high] == [low, mid, high] && [low, mid, high] + [0] == [low, mid, high, 0];
    assert [low, mid, high, 0] + [0] == [low, mid, high, 0, 0] && [low, mid, high, 0, 0] + [0] == [low, mid, high] + Zeros(3);
  }

  /** How a blob is deciphered: CBC from a zero IV, or LRICB from the eight random bytes in front of it. */
  lemma BlobIs(aes: Aes128, mode: CryptoMode, key: Block, wire: seq<byte>)
    requires |wire| == BlobLen(mode)
    ensures |wire| == if mode.AesMode? then 16 else 24
    ensures var plain := BlobPlain(aes, mode, key, wire);
      if mode.AesMode? then Cbc.IsCbc(aes, key, Zeros(16), plain, wire)
      else Lrp.IsLricb(aes, Lrp.FromBaseKey(aes, key), Value(256, wire[..8]), 16, plain, wire[8..])
  {
    hide Cbc.Decrypted, Lrp.Decrypted, Cbc.IsCbc, Lrp.IsLricb, Value, ParsePicc, Lrp.FromBaseKey;
    if mode.AesMode? {
      Cbc.DecryptedIsCbc(aes, key, Zeros(16), wire);
    } else {
      Lrp.DecryptedIsLricb(aes, Lrp.FromBaseKey(aes, key), Value(256, wire[..8]), 16, wire[8..]);
    }
  }

  lemma FileDataRoundTrip(aes: Aes128, k: SdmKeys, ctr: CtrBytes, plain: seq<byte>)
    requires |plain| % 16 == 0
    ensures OpenFileData(aes, k, ctr, SealFileData(aes, k, ctr, plain)) == plain
  {
    match k
    case AesKeys(encKey, _) => Cbc.DecryptUndoesEncrypt(aes, encKey, SdmIv(aes, encKey, ctr), plain);
    case LrpKeys(encLrp, _) => Lrp.DecryptUndoesEncrypt(aes, encLrp, SdmCounter(ctr), 12, plain);
  }
}
