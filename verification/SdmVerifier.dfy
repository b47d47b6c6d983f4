/** The server side of SDM: crypto/sdm/verifier.rs. */
module SdmVerifier {
  import opened Wrappers
  import opened Octets
  import opened Aes
  import opened Suite
  import opened Hex
  import opened Sdm
  import opened SdmCrypto
  import Cbc
  import Lrp

  const MAX_SDM_ENC_FILE_DATA_BYTES := 256

  datatype PiccSource = EncryptedAt(offset: u32) | PlainAt(uid: Option<u32>, rctr: Option<u32>) | NoSource

  datatype Span = Span(start: u32, end: u32)

  datatype Verifier = Verifier(
    mode: CryptoMode,
    picc: PiccSource,
    metaReadKey: Option<byte>,
    fileReadKey: byte,
    macInput: u32,
    mac: u32,
    tamperStatus: Option<u32>,
    enc: Option<Span>)

  datatype Verification = Verification(
    uid: Option<UidBytes>,
    readCtr: Option<nat>,
    tamperStatus: Option<(byte, byte)>,
    encFileData: Option<seq<byte>>)

  function Widened(o: Option<Offset>): Option<u32> {
    if o.Some? then Some(o.value) else None
  }

  /** `Verifier::try_new`: only what verification needs is kept of the settings. */
  function TryNew(s: Settings, mode: CryptoMode): Result<Verifier, SdmError> {
    if s.fileRead.None? then Err(InvalidConfiguration("SDM read access is missing - no MAC key configured"))
    else
      var fr := s.fileRead.value;
      var source := match s.picc {
        case NoPicc => NoSource
        case Plain(m) => PlainAt(Widened(m.UidOffset()), Widened(m.RCtrOffset()))
        case EncryptedPicc(_, offset, _) => EncryptedAt(offset)
      };
      Ok(Verifier(mode, source, if s.picc.EncryptedPicc? then Some(s.picc.key) else None,
                  fr.key, fr.window.input, fr.window.mac, Widened(s.tamperStatus),
                  if fr.MacAndEnc? then Some(Span(fr.start, fr.start + fr.length)) else None))
  }

  /** The slices the verifier takes are in order; construction and `validate` both see to it. */
  predicate IsOrdered(v: Verifier) {
    v.macInput <= v.mac && (v.enc.Some? ==> v.enc.value.start <= v.enc.value.end)
  }

  // ---------------------------------------------------------------- verification

  function Reversed(c: CtrBytes): CtrBytes {
    [c[2], c[1], c[0]]
  }

  /** The 24-bit counter, least significant byte first. */
  function CtrValue(c: CtrBytes): nat {
    FromLe24(c)
  }

  function ExtractUid(v: Verifier, data: seq<byte>): Result<Option<UidBytes>, SdmError>
    requires v.picc.PlainAt?
  {
    if v.picc.uid.None? then Ok(None)
    else
      var _ :- EnsureLen(data, v.picc.uid.value + 14);
      var u :- DecodeHex(data, v.picc.uid.value, 7);
      Ok(Some(u))
  }

  /** The plain counter mirror is most significant byte first; the keys take it the other way round. */
  function ExtractCtr(v: Verifier, data: seq<byte>): Result<Option<CtrBytes>, SdmError>
    requires v.picc.PlainAt?
  {
    if v.picc.rctr.None? then Ok(None)
    else
      var _ :- EnsureLen(data, v.picc.rctr.value + 6);
      var c :- DecodeHex(data, v.picc.rctr.value, 3);
      Ok(Some(Reversed(c)))
  }

  function ExtractPicc(aes: Aes128, v: Verifier, data: seq<byte>, metaKey: Block): Result<ParsedPicc, SdmError> {
    match v.picc
    case NoSource => Ok(ParsedPicc(None, None))
    case PlainAt(_, _) =>
      var uid :- ExtractUid(v, data);
      var ctr :- ExtractCtr(v, data);
      Ok(ParsedPicc(uid, ctr))
    case EncryptedAt(offset) =>
      var _ :- EnsureLen(data, offset + PiccBlobAsciiLen(v.mode));
      var wire :- DecodeHex(data, offset, BlobLen(v.mode));
      OpenPicc(aes, v.mode, metaKey, wire)
  }

  function FileData(aes: Aes128, v: Verifier, data: seq<byte>, keys: SdmKeys, ctr: Option<CtrBytes>): (r: Result<Option<seq<byte>>, SdmError>)
    requires IsOrdered(v)
    ensures r.Ok? ==> r.value.Some? == v.enc.Some?
  {
    if v.enc.None? then Ok(None)
    else
      var plain :- SpanData(aes, v.enc.value.start, v.enc.value.end - v.enc.value.start, data, keys, ctr);
      Ok(Some(plain))
  }

  /** The deciphered content of the `len` characters from `start` on. */
  function SpanData(aes: Aes128, start: nat, len: nat, data: seq<byte>, keys: SdmKeys, ctr: Option<CtrBytes>): Result<seq<byte>, SdmError> {
    var n := len / 2;
    var _ :- EnsureLen(data, start + len);
    if n > MAX_SDM_ENC_FILE_DATA_BYTES then
      Err(InvalidConfiguration("enc_data decrypted length exceeds verifier buffer limit"))
    else
      var ct :- DecodeHex(data, start, n);
      if n == 0 || n % 16 != 0 then Err(Misaligned(keys))
      else Ok(OpenFileData(aes, keys, if ctr.Some? then ctr.value else Zeros(3), ct))
  }

  function Misaligned(keys: SdmKeys): SdmError {
    InvalidConfiguration(
      if keys.AesKeys? then "AES decryption failed: cipher buffer is not block-aligned"
      else "LRICB decryption failed: invalid buffer length")
  }

  function TamperStatus(v: Verifier, data: seq<byte>, plain: Option<seq<byte>>): Result<Option<(byte, byte)>, SdmError> {
    if v.tamperStatus.None? then Ok(None)
    else
      var offset := v.tamperStatus.value;
      if v.enc.Some? && v.enc.value.start <= offset < v.enc.value.end then
        if plain.None? then Err(InvalidConfiguration("tamper_status inside enc_data requires decrypted file data"))
        else
          var at := offset - v.enc.value.start;
          if at + 2 > |plain.value| then Err(InvalidConfiguration("tamper_status offset exceeds enc_data bounds"))
          else Ok(Some((plain.value[at], plain.value[at + 1])))
      else
        var _ :- EnsureLen(data, offset + 2);
        Ok(Some((data[offset], data[offset + 1])))
  }

  function CheckMac(aes: Aes128, v: Verifier, data: seq<byte>, keys: SdmKeys): Result<(), SdmError>
    requires IsOrdered(v)
  {
    var _ :- EnsureLen(data, v.mac + 16);
    var expected :- DecodeHex(data, v.mac, 8);
    if SdmMac(aes, keys, data[v.macInput..v.mac]) == expected then Ok(()) else Err(MacMismatch)
  }

  function Verify(aes: Aes128, v: Verifier, data: seq<byte>, fileReadKey: Block, metaReadKey: Block): Result<Verification, SdmError>
    requires IsOrdered(v)
  {
    var picc :- ExtractPicc(aes, v, data, metaReadKey);
    var keys := DeriveKeys(aes, v.mode, fileReadKey, picc.uid, picc.readCtr);
    var _ :- CheckMac(aes, v, data, keys);
    var file :- FileData(aes, v, data, keys, picc.readCtr);
    var tamper :- TamperStatus(v, data, file);
    Ok(Verification(picc.uid, if picc.readCtr.Some? then Some(CtrValue(picc.readCtr.value)) else None, tamper, file))
  }

  /**
    The counter of a plain mirror is the number its six hex digits write, most significant one first: `00002A`
    is 42, whatever else is in the buffer.
   */
  lemma PlainCounterIs(aes: Aes128, v: Verifier, data: seq<byte>, fileReadKey: Block, metaReadKey: Block, d: seq<nat>)
    requires IsOrdered(v) && v.picc.PlainAt? && v.picc.rctr.Some? && |d| == 6
    requires Verify(aes, v, data, fileReadKey, metaReadKey).Ok?
    requires forall i :: 0 <= i < 6 ==> v.picc.rctr.value + i < |data| && IsHexOf(data[v.picc.rctr.value + i], d[i])
    ensures Verify(aes, v, data, fileReadKey, metaReadKey).value.readCtr
         == Some(0x10_0000 * d[0] + 0x1_0000 * d[1] + 0x1000 * d[2] + 0x100 * d[3] + 0x10 * d[4] + d[5])
  {
    hide DecodeHex, CheckMac, FileData, TamperStatus, DeriveKeys;
    var at := v.picc.rctr.value;
    DecodedIs(data, at, 3, 0, d[0], d[1]);
    DecodedIs(data, at, 3, 1, d[2], d[3]);
    DecodedIs(data, at, 3, 2, d[4], d[5]);
  }

  /**
    What the plaintext of a blob says: bit 7 of the tag byte announces the UID, bit 6 a counter behind it,
    least significant byte first.
   */
  predicate Says(plain: Block, uid: Option<UidBytes>, readCtr: Option<nat>) {
    && (plain[0] < 0x80 ==> uid == None)
    && (plain[0] >= 0x80 ==> uid.Some? && uid.value == plain[1..8] && plain[0] % 16 == 7)
    && (plain[0] / 64 % 2 == 0 ==> readCtr == None)
    && (plain[0] / 64 == 1 ==> readCtr == Some(plain[1] as nat + 0x100 * plain[2] as nat + 0x1_0000 * plain[3] as nat))
    && (plain[0] / 64 == 3 ==> readCtr == Some(plain[8] as nat + 0x100 * plain[9] as nat + 0x1_0000 * plain[10] as nat))
  }

  /** UID and counter of an accepted buffer are what its blob says. */
  lemma BlobCounterIs(aes: Aes128, v: Verifier, data: seq<byte>, fileReadKey: Block, metaReadKey: Block, wire: seq<byte>)
    requires IsOrdered(v) && v.picc.EncryptedAt? && |wire| == BlobLen(v.mode) && v.picc.offset + 2 * |wire| <= |data|
    requires Verify(aes, v, data, fileReadKey, metaReadKey).Ok? && DecodeHex(data, v.picc.offset, |wire|) == Ok(wire)
    ensures var r := Verify(aes, v, data, fileReadKey, metaReadKey).value;
      Says(BlobPlain(aes, v.mode, metaReadKey, wire), r.uid, r.readCtr)
  {
    hide DecodeHex, CheckMac, FileData, TamperStatus, DeriveKeys, BlobPlain, ParsePicc, CtrValue;
    var plain := BlobPlain(aes, v.mode, metaReadKey, wire);
    PiccIs(plain);
    CtrValueIs(plain[1], plain[2], plain[3]);
    CtrValueIs(plain[8], plain[9], plain[10]);
  }

  /** Encrypted ranges of more than 513 characters are too long for the buffer; of 512 they are not. */
  lemma LongRange(aes: Aes128, start: nat, len: nat, data: seq<byte>, keys: SdmKeys, ctr: Option<CtrBytes>)
    requires start + len <= |data|
    ensures len > 513 ==>
      SpanData(aes, start, len, data, keys, ctr) == Err(InvalidConfiguration("enc_data decrypted length exceeds verifier buffer limit"))
    ensures len <= 512 && len % 32 == 0 && len > 0 && DecodeHex(data, start, len / 2).Ok? ==>
      SpanData(aes, start, len, data, keys, ctr).Ok?
  {
    hide DecodeHex, OpenFileData, Misaligned, EnsureLen;
    assert EnsureLen(data, start + len).Ok? by { RangeThere(data, start + len); }
  }

  lemma RangeThere(data: seq<byte>, end: nat)
    requires end <= |data|
    ensures EnsureLen(data, end).Ok?
  {
  }

  lemma CtrValueIs(a: byte, b: byte, c: byte)
    ensures CtrValue([a, b, c]) == a as nat + 0x100 * b as nat + 0x1_0000 * c as nat
  {
  }

  // ---------------------------------------------------------------- the code that does it

  /** `decode_hex_array` */
  method DecodeHexArray(data: seq<byte>, offset: nat, n: nat) returns (r: Result<seq<byte>, SdmError>)
    requires offset + 2 * n <= |data|
    ensures r == DecodeHex(data, offset, n)
  {
    var out := new byte[n](i => 0);
    var _ :- DecodeHexInto(out, data, offset);
    return Ok(out[..]);
  }

  method ExtractPiccData(aes: Aes128, v: Verifier, data: seq<byte>, metaKey: Block) returns (r: Result<ParsedPicc, SdmError>)
    ensures r == ExtractPicc(aes, v, data, metaKey)
  {
    hide DecodeHex, OpenPicc;
    match v.picc
    case NoSource => return Ok(ParsedPicc(None, None));
    case EncryptedAt(offset) =>
      var _ :- EnsureLen(data, offset + PiccBlobAsciiLen(v.mode));
      var wire :- DecodeHexArray(data, offset, BlobLen(v.mode));
      r := DecryptPiccData(aes, v.mode, metaKey, wire);
    case PlainAt(uidOffset, ctrOffset) =>
      var uid: Option<UidBytes>, ctr: Option<CtrBytes> := None, None;
      if uidOffset.Some? {
        var _ :- EnsureLen(data, uidOffset.value + 14);
        var u :- DecodeHexArray(data, uidOffset.value, 7);
        uid := Some(u);
      }
      if ctrOffset.Some? {
        var _ :- EnsureLen(data, ctrOffset.value + 6);
        var c :- DecodeHexArray(data, ctrOffset.value, 3);
        ctr := Some(Reversed(c));
      }
      return Ok(ParsedPicc(uid, ctr));
  }

  /** `decrypt_enc_file_data`: decoded into one buffer and deciphered there. */
  method DecryptEncFileData(aes: Aes128, v: Verifier, data: seq<byte>, keys: SdmKeys, readCtr: Option<CtrBytes>)
    returns (r: Result<Option<seq<byte>>, SdmError>)
    requires IsOrdered(v)
    ensures r == FileData(aes, v, data, keys, readCtr)
  {
    hide DecodeHex, OpenFileData, Misaligned;
    if v.enc.None? {
      return Ok(None);
    }
    var start := v.enc.value.start;
    var asciiLen := v.enc.value.end - start;
    var _ :- EnsureLen(data, start + asciiLen);
    var binaryLen := asciiLen / 2;
    if binaryLen > MAX_SDM_ENC_FILE_DATA_BYTES {
      return Err(InvalidConfiguration("enc_data decrypted length exceeds verifier buffer limit"));
    }
    var ct := new byte[binaryLen](i => 0);
    var _ :- DecodeHexInto(ct, data, start);
    var ctr := if readCtr.Some? then readCtr.value else Zeros(3);
    var ok := DecryptFileData(aes, keys, ctr, ct);
    if !ok {
      return Err(Misaligned(keys));
    }
    return Ok(Some(ct[..]));
  }

  method DecryptFileData(aes: Aes128, keys: SdmKeys, ctr: CtrBytes, ct: array<byte>) returns (ok: bool)
    modifies ct
    ensures ok == (ct.Length > 0 && ct.Length % 16 == 0)
    ensures ok ==> ct[..] == OpenFileData(aes, keys, ctr, old(ct[..]))
  {
    hide Cbc.Decrypted, Lrp.Decrypted, Value;
    match keys
    case AesKeys(encKey, _) =>
      var ivInput: Block := ctr + Zeros(13);
      ok := Cbc.Decrypt(aes, encKey, aes.enc(encKey, ivInput), ct);
    case LrpKeys(encLrp, _) =>
      var counter := new byte[6](i => if 0 <= i < 3 then ctr[i] else 0);
      assert counter[..] == ctr + Zeros(3);
      ok := Lrp.DecryptInPlace(aes, encLrp, counter, ct);
  }

  /** `verify_inner` */
  method VerifyInner(aes: Aes128, v: Verifier, data: seq<byte>, fileReadKey: Block, metaReadKey: Block)
    returns (r: Result<Verification, SdmError>)
    requires IsOrdered(v)
    ensures r == Verify(aes, v, data, fileReadKey, metaReadKey)
  {
    hide ExtractPicc, DeriveKeys, FileData, TamperStatus, SdmMac, DecodeHex;
    var picc :- ExtractPiccData(aes, v, data, metaReadKey);
    var keys := DeriveSdmKeys(aes, v.mode, fileReadKey, picc.uid, picc.readCtr);
    var _ :- EnsureLen(data, v.mac + 16);
    var expected :- DecodeHexArray(data, v.mac, 8);
    if SdmMac(aes, keys, data[v.macInput..v.mac]) != expected {
      return Err(MacMismatch);
    }
    var file :- DecryptEncFileData(aes, v, data, keys, picc.readCtr);
    var tamper :- TamperStatus(v, data, file);
    return Ok(Verification(picc.uid, if picc.readCtr.Some? then Some(CtrValue(picc.readCtr.value)) else None, tamper, file));
  }

  // ---------------------------------------------------------------- with_offset

  /** The offset moved by `inc`, unless it leaves `0 .. 255`. */
  function Add(a: u32, inc: int): Option<u32> {
    if 0 <= a + inc <= 255 then Some(a + inc) else None
  }

  function AddOpt(a: Option<u32>, inc: int): Option<Option<u32>> {
    if a.None? then Some(None)
    else if Add(a.value, inc).None? then None else Some(Add(a.value, inc))
  }

  function ShiftedSource(p: PiccSource, inc: int): Option<PiccSource> {
    match p
    case NoSource => Some(p)
    case EncryptedAt(offset) => if Add(offset, inc).None? then None else Some(EncryptedAt(Add(offset, inc).value))
    case PlainAt(uid, rctr) =>
      var u, c := AddOpt(uid, inc), AddOpt(rctr, inc);
      if u.None? || c.None? then None else Some(PlainAt(u.value, c.value))
  }

  function ShiftedSpan(e: Option<Span>, inc: int): Option<Option<Span>> {
    if e.None? then Some(None)
    else
      var start, end := Add(e.value.start, inc), Add(e.value.end, inc);
      if start.None? || end.None? then None else Some(Some(Span(start.value, end.value)))
  }

  /** `with_offset`, for shifts that can be negated in 32 bits. */
  function WithOffset(v: Verifier, inc: int): Option<Verifier>
    requires -0x8000_0000 < inc < 0x8000_0000
  {
    var picc, input, tt, mac, enc :=
      ShiftedSource(v.picc, inc), Add(v.macInput, inc), AddOpt(v.tamperStatus, inc), Add(v.mac, inc), ShiftedSpan(v.enc, inc);
    if picc.None? || input.None? || tt.None? || mac.None? || enc.None? then None
    else Some(v.(picc := picc.value, macInput := input.value, tamperStatus := tt.value, mac := mac.value, enc := enc.value))
  }

  function MinU32(a: nat, b: nat): nat {
    if a < b then a else b
  }

  function OrMax(a: Option<u32>): nat {
    if a.Some? then a.value else 0xFFFF_FFFF
  }

  /** `start`: one of the configured sources is there, and none before it. */
  function Start(v: Verifier): (s: nat)
    ensures s <= v.macInput && s <= v.mac
    ensures v.tamperStatus.Some? ==> s <= v.tamperStatus.value
    ensures v.enc.Some? ==> s <= v.enc.value.start
    ensures v.picc.EncryptedAt? ==> s <= v.picc.offset
    ensures v.picc.PlainAt? && v.picc.uid.Some? ==> s <= v.picc.uid.value
    ensures v.picc.PlainAt? && v.picc.rctr.Some? ==> s <= v.picc.rctr.value
    ensures || s == v.macInput || s == v.mac || (v.tamperStatus.Some? && s == v.tamperStatus.value)
            || (v.enc.Some? && s == v.enc.value.start) || (v.picc.EncryptedAt? && s == v.picc.offset)
            || (v.picc.PlainAt? && ((v.picc.uid.Some? && s == v.picc.uid.value) || (v.picc.rctr.Some? && s == v.picc.rctr.value)))
  {
    var picc := match v.picc {
      case EncryptedAt(offset) => offset
      case PlainAt(uid, rctr) => MinU32(OrMax(uid), OrMax(rctr))
      case NoSource => 0xFFFF_FFFF
    };
    MinU32(MinU32(MinU32(MinU32(picc, v.macInput), v.mac), OrMax(v.tamperStatus)),
           if v.enc.Some? then v.enc.value.start else 0xFFFF_FFFF)
  }

  // ---------------------------------------------------------------- verifying further along in a buffer

  lemma EnsureLenShifts(data: seq<byte>, data': seq<byte>, s: int, start: nat, needed: nat)
    requires Continues(data, data', s, start) && needed >= start
    ensures EnsureLen(data', needed + s) == Shifted(EnsureLen(data, needed), s)
  {
  }

  lemma ExtractShifts(aes: Aes128, v: Verifier, v': Verifier, s: int, data: seq<byte>, data': seq<byte>, metaKey: Block)
    requires -0x8000_0000 < s < 0x8000_0000 && WithOffset(v, s) == Some(v') && Continues(data, data', s, Start(v))
    ensures ExtractPicc(aes, v', data', metaKey) == Shifted(ExtractPicc(aes, v, data, metaKey), s)
  {
    hide DecodeHex, OpenPicc, Start;
    match v.picc
    case NoSource =>
    case EncryptedAt(offset) =>
      var len := PiccBlobAsciiLen(v.mode);
      EnsureLenShifts(data, data', s, Start(v), offset + len);
      if offset + len <= |data| {
        DecodeHexShifts(data, data', s, Start(v), offset, BlobLen(v.mode));
        if DecodeHex(data, offset, BlobLen(v.mode)).Ok? {
          OpenPiccErrors(aes, v.mode, metaKey, DecodeHex(data, offset, BlobLen(v.mode)).value, s);
        }
      }
    case PlainAt(uid, rctr) =>
      if uid.Some? {
        EnsureLenShifts(data, data', s, Start(v), uid.value + 14);
        if uid.value + 14 <= |data| {
          DecodeHexShifts(data, data', s, Start(v), uid.value, 7);
        }
      }
      if rctr.Some? {
        EnsureLenShifts(data, data', s, Start(v), rctr.value + 6);
        if rctr.value + 6 <= |data| {
          DecodeHexShifts(data, data', s, Start(v), rctr.value, 3);
        }
      }
  }

  lemma OpenPiccErrors(aes: Aes128, mode: CryptoMode, key: Block, wire: seq<byte>, s: int)
    requires |wire| == BlobLen(mode)
    ensures var r := OpenPicc(aes, mode, key, wire); Shifted(r, s) == r
  {
    hide Cbc.Decrypted, Lrp.Decrypted;
  }

  lemma CheckMacShifts(aes: Aes128, v: Verifier, v': Verifier, s: int, data: seq<byte>, data': seq<byte>, keys: SdmKeys)
    requires -0x8000_0000 < s < 0x8000_0000 && WithOffset(v, s) == Some(v') && Continues(data, data', s, Start(v))
    requires IsOrdered(v)
    ensures IsOrdered(v') && CheckMac(aes, v', data', keys) == Shifted(CheckMac(aes, v, data, keys), s)
  {
    hide DecodeHex, SdmMac, Start;
    EnsureLenShifts(data, data', s, Start(v), v.mac + 16);
    if v.mac + 16 <= |data| {
      DecodeHexShifts(data, data', s, Start(v), v.mac, 8);
      assert data'[v.macInput + s..v.mac + s] == data[v.macInput..v.mac];
    }
  }

  lemma FileDataShifts(aes: Aes128, v: Verifier, v': Verifier, s: int, data: seq<byte>, data': seq<byte>, keys: SdmKeys, ctr: Option<CtrBytes>)
    requires -0x8000_0000 < s < 0x8000_0000 && WithOffset(v, s) == Some(v') && Continues(data, data', s, Start(v))
    requires IsOrdered(v)
    ensures IsOrdered(v') && FileData(aes, v', data', keys, ctr) == Shifted(FileData(aes, v, data, keys, ctr), s)
  {
    hide SpanData, Start, Continues;
    if v.enc.Some? {
      var e := v.enc.value;
      assert v'.enc.value == Span(e.start + s, e.end + s);
      SpanShifts(aes, e.start, e.end - e.start, s, Start(v), data, data', keys, ctr);
    }
  }

  lemma SpanShifts(aes: Aes128, from: nat, len: nat, s: int, start: nat, data: seq<byte>, data': seq<byte>, keys: SdmKeys, ctr: Option<CtrBytes>)
    requires Continues(data, data', s, start) && start <= from
    ensures SpanData(aes, from + s, len, data', keys, ctr) == Shifted(SpanData(aes, from, len, data, keys, ctr), s)
  {
    hide DecodeHex, OpenFileData, Continues;
    EnsureLenShifts(data, data', s, start, from + len);
    if from + len <= |data| {
      DecodeHexShifts(data, data', s, start, from, len / 2);
    }
  }

  lemma TamperShifts(v: Verifier, v': Verifier, s: int, data: seq<byte>, data': seq<byte>, plain: Option<seq<byte>>)
    requires -0x8000_0000 < s < 0x8000_0000 && WithOffset(v, s) == Some(v') && Continues(data, data', s, Start(v))
    ensures TamperStatus(v', data', plain) == Shifted(TamperStatus(v, data, plain), s)
  {
    hide Start;
    if v.tamperStatus.Some? {
      EnsureLenShifts(data, data', s, Start(v), v.tamperStatus.value + 2);
    }
  }

  /**
    Shift invariance: the shifted verifier finds in a buffer that continues `s` bytes further on
    what the verifier finds in the original, and the same errors at positions `s` further on.
   */
  lemma VerifyShifts(aes: Aes128, v: Verifier, v': Verifier, s: int, data: seq<byte>, data': seq<byte>, fileReadKey: Block, metaReadKey: Block)
    requires -0x8000_0000 < s < 0x8000_0000 && WithOffset(v, s) == Some(v') && Continues(data, data', s, Start(v))
    requires IsOrdered(v)
    ensures IsOrdered(v')
    ensures Verify(aes, v', data', fileReadKey, metaReadKey) == Shifted(Verify(aes, v, data, fileReadKey, metaReadKey), s)
  {
    hide ExtractPicc, DeriveKeys, CheckMac, FileData, TamperStatus, Start, Continues;
    ExtractShifts(aes, v, v', s, data, data', metaReadKey);
    var picc := ExtractPicc(aes, v, data, metaReadKey);
    CheckMacShifts(aes, v, v', s, data, data', AesKeys(Zeros(16), Zeros(16)));
    if picc.Ok? {
      var keys := DeriveKeys(aes, v.mode, fileReadKey, picc.value.uid, picc.value.readCtr);
      CheckMacShifts(aes, v, v', s, data, data', keys);
      FileDataShifts(aes, v, v', s, data, data', keys, picc.value.readCtr);
      var file := FileData(aes, v, data, keys, picc.value.readCtr);
      if file.Ok? {
        TamperShifts(v, v', s, data, data', file.value);
      }
    }
  }

  // ---------------------------------------------------------------- validate

  function NewOffset(v: u32): Result<Offset, FileSettingsError> {
    if v > 0x00FF_FFFF then Err(OffsetOutOfRange(v)) else Ok(v)
  }

  function NewEncLength(v: nat): Result<EncLength, FileSettingsError> {
    if v == 0 || v % 32 != 0 || v > 0x00FF_FFFF then Err(EncLengthInvalid(v)) else Ok(v)
  }

  /** The settings a verifier was made from, as far as it kept them. */
  function RebuiltPicc(v: Verifier): Result<PiccData, FileSettingsError> {
    match v.picc
    case NoSource => Ok(NoPicc)
    case EncryptedAt(o) =>
      var offset :- NewOffset(o);
      if v.metaReadKey.None? then Err(InvalidSdmFlags) else Ok(EncryptedPicc(v.metaReadKey.value, offset, Both))
    case PlainAt(None, None) => Ok(NoPicc)
    case PlainAt(Some(u), None) =>
      var uid :- NewOffset(u);
      Ok(Plain(Uid(uid)))
    case PlainAt(None, Some(c)) =>
      var rctr :- NewOffset(c);
      Ok(Plain(RCtr(rctr)))
    case PlainAt(Some(u), Some(c)) =>
      var uid :- NewOffset(u);
      var rctr :- NewOffset(c);
      Ok(Plain(UidAndRCtr(uid, rctr)))
  }

  function RebuiltFileRead(v: Verifier): Result<FileRead, FileSettingsError> {
    var input :- NewOffset(v.macInput);
    var mac :- NewOffset(v.mac);
    if v.enc.None? then Ok(MacOnly(v.fileReadKey, MacWindow(input, mac)))
    else
      var start :- NewOffset(v.enc.value.start);
      if v.enc.value.end < v.enc.value.start then Err(EncLengthInvalid(0))
      else
        var length :- NewEncLength(v.enc.value.end - v.enc.value.start);
        Ok(MacAndEnc(v.fileReadKey, MacWindow(input, mac), start, length))
  }

  function RebuiltTamper(v: Verifier): Result<Option<Offset>, FileSettingsError> {
    if v.tamperStatus.None? then Ok(None)
    else
      var tt :- NewOffset(v.tamperStatus.value);
      Ok(Some(tt))
  }

  function Validate(v: Verifier): Result<(), FileSettingsError> {
    if !v.picc.EncryptedAt? && v.metaReadKey.Some? then Err(InvalidSdmFlags)
    else
      var picc :- RebuiltPicc(v);
      var fr :- RebuiltFileRead(v);
      var tt :- RebuiltTamper(v);
      var _ :- Sdm.TryNew(picc, Some(fr), tt, v.mode);
      Ok(())
  }

  /** The settings a verifier stands for: the blob's content is not kept, and taken to be both. */
  function AsSettings(s: Settings): Settings {
    if s.picc.EncryptedPicc? then s.(picc := s.picc.(content := Both)) else s
  }

  /** A verifier made from accepted settings is valid, and its slices are in order. */
  lemma ConstructedIsValid(s: Settings, mode: CryptoMode)
    requires Sdm.TryNew(s.picc, s.fileRead, s.tamperStatus, mode).Ok? && s.fileRead.Some?
    ensures TryNew(s, mode).Ok? && Validate(TryNew(s, mode).value) == Ok(()) && IsOrdered(TryNew(s, mode).value)
  {
    hide OverlapError, PiccOverlapError;
    var v := TryNew(s, mode).value;
    assert RebuiltPicc(v) == Ok(AsSettings(s).picc);
    assert RebuiltFileRead(v) == Ok(s.fileRead.value);
    assert RebuiltTamper(v) == Ok(s.tamperStatus);
    SameOverlaps(s, mode);
  }

  lemma SameOverlaps(s: Settings, mode: CryptoMode)
    ensures var p := AsSettings(s).picc;
      && OverlapError(p, s.fileRead, s.tamperStatus) == OverlapError(s.picc, s.fileRead, s.tamperStatus)
      && PiccOverlapError(p, s.fileRead, s.tamperStatus, mode) == PiccOverlapError(s.picc, s.fileRead, s.tamperStatus, mode)
      && (WindowError(s.picc, s.fileRead).None? ==> WindowError(p, s.fileRead).None?)
  {
  }

  /** `PlainAt` without any mirror is `NoSource`; the constructor makes the latter. */
  function Normal(v: Verifier): Verifier {
    if v.picc == PlainAt(None, None) then v.(picc := NoSource) else v
  }

  predicate IsMadeFrom(v: Verifier, s: Settings) {
    && s.fileRead.Some? && Sdm.TryNew(s.picc, s.fileRead, s.tamperStatus, v.mode).Ok?
    && TryNew(s, v.mode) == Ok(Normal(v))
  }

  /** `validate` accepts exactly what the constructor makes of accepted settings. */
  lemma ValidExactly(v: Verifier)
    ensures Validate(v).Ok? <==> exists s :: IsMadeFrom(v, s)
  {
    hide Sdm.TryNew;
    if Validate(v).Ok? {
      assert IsMadeFrom(v, Settings(RebuiltPicc(v).value, Some(RebuiltFileRead(v).value), RebuiltTamper(v).value));
    }
    if s :| IsMadeFrom(v, s) {
      ConstructedIsValid(s, v.mode);
      NormalIsValid(v);
    }
  }

  lemma NormalIsValid(v: Verifier)
    ensures Validate(Normal(v)) == Validate(v)
  {
    hide Sdm.TryNew;
  }

  /** A valid verifier has its slices in order. */
  lemma ValidIsOrdered(v: Verifier)
    requires Validate(v).Ok?
    ensures IsOrdered(v)
  {
    hide OverlapError, PiccOverlapError;
  }

  predicate IsMoved(r: Option<Range>, r': Option<Range>, s: int) {
    r.Some? == r'.Some? && (r.Some? ==> r'.value.start == r.value.start + s && r'.value.len == r.value.len)
  }

  predicate PiccMoved(p: PiccData, p': PiccData, mode: CryptoMode, s: int) {
    && IsMoved(UidRange(p), UidRange(p'), s) && IsMoved(RCtrRange(p), RCtrRange(p'), s) && IsMoved(PiccRange(p, mode), PiccRange(p', mode), s)
    && p.IncludesUid() == p'.IncludesUid() && p.IncludesRCtr() == p'.IncludesRCtr()
  }

  predicate FileReadMoved(fr: FileRead, fr': FileRead, s: int) {
    && IsMoved(MacRange(Some(fr)), MacRange(Some(fr')), s) && IsMoved(EncRange(Some(fr)), EncRange(Some(fr')), s)
    && fr'.window.input == fr.window.input + s && fr.MacOnly? == fr'.MacOnly?
  }

  lemma PiccMoves(v: Verifier, v': Verifier, s: int)
    requires RebuiltPicc(v).Ok? && ShiftedSource(v.picc, s) == Some(v'.picc) && v'.metaReadKey == v.metaReadKey
    ensures RebuiltPicc(v').Ok? && PiccMoved(RebuiltPicc(v).value, RebuiltPicc(v').value, v.mode, s)
  {
    if v.picc.PlainAt? {
      PlainMoves(v, v', s);
    }
  }

  lemma PlainMoves(v: Verifier, v': Verifier, s: int)
    requires v.picc.PlainAt? && RebuiltPicc(v).Ok? && ShiftedSource(v.picc, s) == Some(v'.picc)
    ensures RebuiltPicc(v').Ok? && PiccMoved(RebuiltPicc(v).value, RebuiltPicc(v').value, v.mode, s)
  {
    assert AddOpt(v.picc.uid, s) == Some(v'.picc.uid) && AddOpt(v.picc.rctr, s) == Some(v'.picc.rctr);
    match (v.picc.uid, v.picc.rctr)
    case (None, None) =>
    case (Some(_), None) =>
    case (None, Some(_)) =>
    case (Some(_), Some(_)) =>
  }

  lemma FileReadMoves(v: Verifier, v': Verifier, s: int)
    requires RebuiltFileRead(v).Ok? && Add(v.macInput, s) == Some(v'.macInput) && Add(v.mac, s) == Some(v'.mac)
    requires ShiftedSpan(v.enc, s) == Some(v'.enc) && v'.fileReadKey == v.fileReadKey
    ensures RebuiltFileRead(v').Ok? && FileReadMoved(RebuiltFileRead(v).value, RebuiltFileRead(v').value, s)
  {
  }

  lemma PairMoves(a: Option<Range>, b: Option<Range>, a': Option<Range>, b': Option<Range>, s: int)
    requires IsMoved(a, a', s) && IsMoved(b, b', s)
    ensures Overlap(a', b') == Overlap(a, b)
  {
  }

  lemma WindowErrorMoves(p: PiccData, fr: FileRead, p': PiccData, fr': FileRead, mode: CryptoMode, s: int)
    requires PiccMoved(p, p', mode, s) && FileReadMoved(fr, fr', s)
    ensures WindowError(p', Some(fr')) == WindowError(p, Some(fr))
  {
  }

  lemma OverlapErrorsMove(p: PiccData, fr: FileRead, tt: Option<Offset>, p': PiccData, fr': FileRead, tt': Option<Offset>, mode: CryptoMode, s: int)
    requires PiccMoved(p, p', mode, s) && FileReadMoved(fr, fr', s) && IsMoved(TamperRange(tt), TamperRange(tt'), s)
    ensures OverlapError(p', Some(fr'), tt') == OverlapError(p, Some(fr), tt)
    ensures PiccOverlapError(p', Some(fr'), tt', mode) == PiccOverlapError(p, Some(fr), tt, mode)
  {
    hide RangesOverlap, UidRange, RCtrRange, PiccRange, TamperRange, MacRange, EncRange;
    var uid, rctr, blob, mac, enc, tamper :=
      UidRange(p), RCtrRange(p), PiccRange(p, mode), MacRange(Some(fr)), EncRange(Some(fr)), TamperRange(tt);
    var uid', rctr', blob', mac', enc', tamper' :=
      UidRange(p'), RCtrRange(p'), PiccRange(p', mode), MacRange(Some(fr')), EncRange(Some(fr')), TamperRange(tt');
    PairMoves(uid, rctr, uid', rctr', s);
    PairMoves(uid, tamper, uid', tamper', s);
    PairMoves(rctr, tamper, rctr', tamper', s);
    PairMoves(uid, mac, uid', mac', s);
    PairMoves(rctr, mac, rctr', mac', s);
    PairMoves(tamper, mac, tamper', mac', s);
    PairMoves(enc, uid, enc', uid', s);
    PairMoves(enc, rctr, enc', rctr', s);
    PairMoves(tamper, enc, tamper', enc', s);
    PairMoves(blob, tamper, blob', tamper', s);
    PairMoves(blob, mac, blob', mac', s);
    PairMoves(blob, enc, blob', enc', s);
  }

  /** Shifting keeps a verifier valid: what `try_new` checks depends only on distances. */
  lemma ShiftedIsValid(v: Verifier, v': Verifier, s: int)
    requires Validate(v).Ok? && -0x8000_0000 < s < 0x8000_0000 && WithOffset(v, s) == Some(v')
    ensures Validate(v') == Ok(())
  {
    hide OverlapError, PiccOverlapError, WindowError, RebuiltPicc, RebuiltFileRead, PiccMoved, FileReadMoved;
    PiccMoves(v, v', s);
    FileReadMoves(v, v', s);
    var p, fr, tt := RebuiltPicc(v).value, RebuiltFileRead(v).value, RebuiltTamper(v).value;
    var p', fr', tt' := RebuiltPicc(v').value, RebuiltFileRead(v').value, RebuiltTamper(v').value;
    WindowErrorMoves(p, fr, p', fr', v.mode, s);
    OverlapErrorsMove(p, fr, tt, p', fr', tt', v.mode, s);
  }
}
