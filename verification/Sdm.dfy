/** SDM settings and the checks of types/file_settings/sdm.rs. */
module Sdm {
  import opened Wrappers
  import opened Octets

  datatype CryptoMode = AesMode | LrpMode

  function PiccBlobAsciiLen(mode: CryptoMode): nat {
    if mode.AesMode? then 32 else 48
  }

  const UID_LEN := 14
  const RCTR_LEN := 6
  const TT_LEN := 2
  const MAC_LEN := 16

  type Offset = n: nat | n <= 0x00FF_FFFF

  /** A positive multiple of 32. */
  type EncLength = n: nat | 0 < n <= 0x00FF_FFFF && n % 32 == 0 witness 32

  /** What of the tag's identity is mirrored: in the clear, or inside the PICCData blob. */
  datatype Mirrored = UidOnly | CtrOnly | Both

  datatype PlainMirror = Uid(uid: Offset) | RCtr(rctr: Offset) | UidAndRCtr(uid: Offset, rctr: Offset) {
    function UidOffset(): Option<Offset> {
      if RCtr? then None else Some(uid)
    }

    function RCtrOffset(): Option<Offset> {
      if Uid? then None else Some(rctr)
    }
  }

  datatype PiccData = NoPicc | Plain(mirror: PlainMirror) | EncryptedPicc(key: byte, offset: Offset, content: Mirrored) {
    predicate IncludesUid() {
      match this
      case NoPicc => false
      case Plain(m) => m.UidOffset().Some?
      case EncryptedPicc(_, _, content) => !content.CtrOnly?
    }

    predicate IncludesRCtr() {
      match this
      case NoPicc => false
      case Plain(m) => m.RCtrOffset().Some?
      case EncryptedPicc(_, _, content) => !content.UidOnly?
    }
  }

  datatype MacWindow = MacWindow(input: Offset, mac: Offset)

  datatype FileRead =
    | MacOnly(key: byte, window: MacWindow)
    | MacAndEnc(key: byte, window: MacWindow, start: Offset, length: EncLength)

  datatype Settings = Settings(picc: PiccData, fileRead: Option<FileRead>, tamperStatus: Option<Offset>)

  datatype OverlapKind =
    | UidAndCtr | UidAndTamper | RCtrAndTamper | UidAndMac | RCtrAndMac | TamperAndMac | EncAndUid | EncAndRCtr
    | TamperInCiphertextHalf | PiccAndTamper | PiccAndMac | PiccAndEnc

  datatype FileSettingsError =
    | OffsetOutOfRange(v: nat)
    | EncLengthInvalid(v: nat)
    | MacInputAfterMac
    | EncOutsideMacWindow
    | EncRequiresBothMirrors
    | MirrorsOverlap(kind: OverlapKind)
    | InvalidSdmFlags

  // ---------------------------------------------------------------- ranges

  /** A placeholder: where it starts and how long it is. */
  datatype Range = Range(start: nat, len: nat) {
    function End(): nat {
      start + len
    }
  }

  predicate RangesOverlap(a: Range, b: Range) {
    !(a.End() <= b.start || b.End() <= a.start)
  }

  /** Two ranges overlap exactly when they have a position in common. */
  lemma OverlapExactly(a: Range, b: Range)
    requires a.len > 0 && b.len > 0
    ensures RangesOverlap(a, b) <==> exists i: nat {:trigger IsIn(i, a), IsIn(i, b)} :: IsIn(i, a) && IsIn(i, b)
  {
    if RangesOverlap(a, b) {
      var i := if a.start <= b.start then b.start else a.start;
      assert IsIn(i, a) && IsIn(i, b);
    }
  }

  predicate IsIn(i: nat, r: Range) {
    r.start <= i < r.start + r.len
  }

  predicate Overlap(a: Option<Range>, b: Option<Range>) {
    a.Some? && b.Some? && RangesOverlap(a.value, b.value)
  }

  function UidRange(p: PiccData): Option<Range> {
    if p.Plain? && p.mirror.UidOffset().Some? then Some(Range(p.mirror.UidOffset().value, UID_LEN)) else None
  }

  function RCtrRange(p: PiccData): Option<Range> {
    if p.Plain? && p.mirror.RCtrOffset().Some? then Some(Range(p.mirror.RCtrOffset().value, RCTR_LEN)) else None
  }

  function PiccRange(p: PiccData, mode: CryptoMode): Option<Range> {
    if p.EncryptedPicc? then Some(Range(p.offset, PiccBlobAsciiLen(mode))) else None
  }

  function TamperRange(tt: Option<Offset>): Option<Range> {
    if tt.Some? then Some(Range(tt.value, TT_LEN)) else None
  }

  function MacRange(fr: Option<FileRead>): Option<Range> {
    if fr.Some? then Some(Range(fr.value.window.mac, MAC_LEN)) else None
  }

  function EncRange(fr: Option<FileRead>): Option<Range> {
    if fr.Some? && fr.value.MacAndEnc? then Some(Range(fr.value.start, fr.value.length)) else None
  }

  // ---------------------------------------------------------------- try_new

  function WindowError(picc: PiccData, fr: Option<FileRead>): Option<FileSettingsError> {
    if fr.None? then None
    else
      var w := fr.value.window;
      if w.input > w.mac then Some(MacInputAfterMac)
      else if fr.value.MacOnly? then None
      else if fr.value.start < w.input || fr.value.start + fr.value.length > w.mac then Some(EncOutsideMacWindow)
      else if !picc.IncludesUid() || !picc.IncludesRCtr() then Some(EncRequiresBothMirrors)
      else None
  }

  function OverlapError(picc: PiccData, fr: Option<FileRead>, tt: Option<Offset>): Option<OverlapKind> {
    var uid, rctr, tamper, mac, enc := UidRange(picc), RCtrRange(picc), TamperRange(tt), MacRange(fr), EncRange(fr);
    if Overlap(uid, rctr) then Some(UidAndCtr)
    else if Overlap(uid, tamper) then Some(UidAndTamper)
    else if Overlap(rctr, tamper) then Some(RCtrAndTamper)
    else if Overlap(uid, mac) then Some(UidAndMac)
    else if Overlap(rctr, mac) then Some(RCtrAndMac)
    else if Overlap(tamper, mac) then Some(TamperAndMac)
    else if Overlap(enc, uid) then Some(EncAndUid)
    else if Overlap(enc, rctr) then Some(EncAndRCtr)
    else if Overlap(tamper, enc) && tamper.value.End() > enc.value.start + enc.value.len / 2 then Some(TamperInCiphertextHalf)
    else None
  }

  function PiccOverlapError(picc: PiccData, fr: Option<FileRead>, tt: Option<Offset>, mode: CryptoMode): Option<OverlapKind> {
    var blob := PiccRange(picc, mode);
    if Overlap(blob, TamperRange(tt)) then Some(PiccAndTamper)
    else if Overlap(blob, MacRange(fr)) then Some(PiccAndMac)
    else if Overlap(blob, EncRange(fr)) then Some(PiccAndEnc)
    else None
  }

  function TryNew(picc: PiccData, fr: Option<FileRead>, tt: Option<Offset>, mode: CryptoMode): Result<Settings, FileSettingsError> {
    if WindowError(picc, fr).Some? then Err(WindowError(picc, fr).value)
    else if OverlapError(picc, fr, tt).Some? then Err(MirrorsOverlap(OverlapError(picc, fr, tt).value))
    else if PiccOverlapError(picc, fr, tt, mode).Some? then Err(MirrorsOverlap(PiccOverlapError(picc, fr, tt, mode).value))
    else Ok(Settings(picc, fr, tt))
  }

  // ---------------------------------------------------------------- what accepted settings are

  /** The mirrors of the tag's identity and the MAC: all of these keep apart, and apart from `[start, end)`. */
  function Identity(s: Settings, mode: CryptoMode): seq<Option<Range>> {
    [UidRange(s.picc), RCtrRange(s.picc), PiccRange(s.picc, mode), MacRange(s.fileRead)]
  }

  predicate PairwiseApart(rs: seq<Option<Range>>) {
    forall i, j :: 0 <= i < j < |rs| ==> !Overlap(rs[i], rs[j])
  }

  predicate ApartFrom(rs: seq<Option<Range>>, r: Option<Range>) {
    forall i :: 0 <= i < |rs| ==> !Overlap(rs[i], r)
  }

  /** A tamper status that starts on the last byte before the encrypted range. */
  predicate Straddles(s: Settings) {
    s.tamperStatus.Some? && EncRange(s.fileRead).Some? && s.tamperStatus.value + 1 == EncRange(s.fileRead).value.start
  }

  /**
    Accepted settings: identity mirrors, MAC and encrypted range keep apart; the tamper status keeps
    apart from the first four, and from the encrypted range too unless it lies in its plaintext
    half, or straddles its start.
   */
  predicate IsLaidOut(s: Settings, mode: CryptoMode) {
    var ids, tamper, enc := Identity(s, mode), TamperRange(s.tamperStatus), EncRange(s.fileRead);
    && PairwiseApart(ids) && ApartFrom(ids, enc) && ApartFrom(ids, tamper)
    && (s.fileRead.Some? ==> s.fileRead.value.window.input <= s.fileRead.value.window.mac)
    && (enc.Some? ==>
          && s.fileRead.value.window.input <= enc.value.start && enc.value.End() <= s.fileRead.value.window.mac
          && s.picc.IncludesUid() && s.picc.IncludesRCtr())
    && (Overlap(tamper, enc) ==> InPlainHalf(tamper.value, enc.value) || Straddles(s))
  }

  predicate InPlainHalf(tamper: Range, enc: Range) {
    enc.start <= tamper.start && tamper.End() <= enc.start + enc.len / 2
  }

  /** What the check against the ciphertext half lets through. */
  lemma TamperCheck(tamper: Range, enc: Range)
    requires tamper.len == TT_LEN && RangesOverlap(tamper, enc) && enc.len >= 32
    ensures tamper.End() <= enc.start + enc.len / 2 <==> InPlainHalf(tamper, enc) || tamper.start + 1 == enc.start
  {
  }

  /** The checks accept exactly the settings laid out so. */
  lemma TryNewAcceptsExactly(picc: PiccData, fr: Option<FileRead>, tt: Option<Offset>, mode: CryptoMode)
    ensures TryNew(picc, fr, tt, mode).Ok? <==> IsLaidOut(Settings(picc, fr, tt), mode)
    ensures TryNew(picc, fr, tt, mode).Ok? ==> TryNew(picc, fr, tt, mode).value == Settings(picc, fr, tt)
  {
    hide RangesOverlap, InPlainHalf, OverlapError, PiccOverlapError, ApartFrom, PairwiseApart, Identity;
    NoOverlapError(picc, fr, tt);
    NoPiccOverlapError(picc, fr, tt, mode);
    var s := Settings(picc, fr, tt);
    var tamper, enc := TamperRange(tt), EncRange(fr);
    IdentityApart(s, mode);
    ApartFromIdentity(s, mode, enc);
    ApartFromIdentity(s, mode, tamper);
    if enc.Some? {
      MacAfterEnc(enc.value, MacRange(fr).value);
    }
    if Overlap(tamper, enc) {
      TamperCheck(tamper.value, enc.value);
    }
    forall a: Option<Range>, b: Option<Range> ensures Overlap(a, b) == Overlap(b, a) {
      OverlapSymmetric(a, b);
    }
  }

  lemma ApartFromIdentity(s: Settings, mode: CryptoMode, r: Option<Range>)
    ensures ApartFrom(Identity(s, mode), r) <==>
      && !Overlap(UidRange(s.picc), r) && !Overlap(RCtrRange(s.picc), r)
      && !Overlap(PiccRange(s.picc, mode), r) && !Overlap(MacRange(s.fileRead), r)
  {
    hide RangesOverlap;
    var ids := Identity(s, mode);
    assert ids[0] == UidRange(s.picc) && ids[1] == RCtrRange(s.picc) && ids[2] == PiccRange(s.picc, mode) && ids[3] == MacRange(s.fileRead);
  }

  lemma NoOverlapError(picc: PiccData, fr: Option<FileRead>, tt: Option<Offset>)
    ensures var uid, rctr, tamper, mac, enc := UidRange(picc), RCtrRange(picc), TamperRange(tt), MacRange(fr), EncRange(fr);
      OverlapError(picc, fr, tt).None? <==>
        && !Overlap(uid, rctr) && !Overlap(uid, tamper) && !Overlap(rctr, tamper) && !Overlap(uid, mac) && !Overlap(rctr, mac)
        && !Overlap(tamper, mac) && !Overlap(enc, uid) && !Overlap(enc, rctr)
        && (Overlap(tamper, enc) ==> tamper.value.End() <= enc.value.start + enc.value.len / 2)
  {
    hide RangesOverlap;
  }

  lemma NoPiccOverlapError(picc: PiccData, fr: Option<FileRead>, tt: Option<Offset>, mode: CryptoMode)
    ensures var blob := PiccRange(picc, mode);
      PiccOverlapError(picc, fr, tt, mode).None? <==>
        !Overlap(blob, TamperRange(tt)) && !Overlap(blob, MacRange(fr)) && !Overlap(blob, EncRange(fr))
  {
  }

  lemma OverlapSymmetric(a: Option<Range>, b: Option<Range>)
    ensures Overlap(a, b) == Overlap(b, a)
  {
  }

  /** An encrypted range inside the MAC window ends before the MAC. */
  lemma MacAfterEnc(enc: Range, mac: Range)
    ensures enc.End() <= mac.start ==> !RangesOverlap(mac, enc)
  {
  }

  /** The four identity ranges, pair by pair; a blob and plain mirrors exclude each other. */
  lemma IdentityApart(s: Settings, mode: CryptoMode)
    ensures var uid, rctr, blob, mac := UidRange(s.picc), RCtrRange(s.picc), PiccRange(s.picc, mode), MacRange(s.fileRead);
      PairwiseApart(Identity(s, mode)) <==>
        !Overlap(uid, rctr) && !Overlap(uid, mac) && !Overlap(rctr, mac) && !Overlap(blob, mac)
  {
    hide RangesOverlap;
    var ids := Identity(s, mode);
    assert ids[0] == UidRange(s.picc) && ids[1] == RCtrRange(s.picc) && ids[2] == PiccRange(s.picc, mode) && ids[3] == MacRange(s.fileRead);
    assert !(ids[2].Some? && (ids[0].Some? || ids[1].Some?));
    if PairwiseApart(ids) {
      assert !Overlap(ids[0], ids[1]) && !Overlap(ids[0], ids[3]) && !Overlap(ids[1], ids[3]) && !Overlap(ids[2], ids[3]);
    }
  }
}
