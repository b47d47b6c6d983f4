/**
  From template to verdict: the template is compiled to a file, the tag fills the file in, a reader parses
  it back to a URL, and the server verifies the URL. What the tag put in is what the server takes out.
 */
module EndToEnd {
  import opened Wrappers
  import opened Octets
  import opened Aes
  import opened Hex
  import opened Sdm
  import opened SdmCrypto
  import opened SdmVerifier
  import opened SdmTag
  import opened Utf8
  import opened Template
  import opened TemplateLayout
  import opened NdefUri
  import opened Escaping
  import Verification
  import KeyDiversification
  import S = Suite

  // ---------------------------------------------------------------- the tag changes placeholders only

  predicate Covers(r: Option<Range>, i: nat) {
    r.Some? && r.value.start <= i < r.value.End()
  }

  /** A file byte that some mirror owns. */
  predicate IsMirrored(s: Settings, mode: CryptoMode, i: nat) {
    || Covers(UidRange(s.picc), i) || Covers(RCtrRange(s.picc), i) || Covers(PiccRange(s.picc, mode), i)
    || Covers(MacRange(s.fileRead), i) || Covers(EncRange(s.fileRead), i) || Covers(TamperRange(s.tamperStatus), i)
  }

  /** Only mirrors have changed, and to ASCII. */
  predicate OnlyMirrors(s: Settings, mode: CryptoMode, f: seq<byte>, g: seq<byte>) {
    |g| == |f| && forall i :: 0 <= i < |f| ==> g[i] == f[i] || (g[i] < 0x80 && IsMirrored(s, mode, i))
  }

  predicate IsAscii(b: seq<byte>) {
    forall i :: 0 <= i < |b| ==> b[i] < 0x80
  }

  lemma RenderIsAscii(bytes: seq<byte>)
    ensures IsAscii(Render(bytes))
  {
    forall i | 0 <= i < |Render(bytes)| ensures Render(bytes)[i] < 0x80 {
      RenderedIsHex(bytes, i);
    }
  }

  lemma PlaceChanges(s: Settings, mode: CryptoMode, f: seq<byte>, g: seq<byte>, r: Option<Range>, bytes: seq<byte>)
    requires OnlyMirrors(s, mode, f, g) && IsAscii(bytes)
    requires r.Some? ==> r.value.len == |bytes| && r.value.End() <= |f|
    requires forall i :: Covers(r, i) ==> IsMirrored(s, mode, i)
    ensures OnlyMirrors(s, mode, f, Place(g, r, bytes))
  {
    hide IsMirrored;
    if r.Some? {
      var h := Place(g, r, bytes);
      forall i | 0 <= i < |f| ensures h[i] == f[i] || (h[i] < 0x80 && IsMirrored(s, mode, i)) {
        if Covers(r, i) {
          assert h[i] == bytes[i - r.value.start];
        } else {
          assert h[i] == g[i];
        }
      }
    }
  }

  lemma IdentityChanges(aes: Aes128, s: Settings, mode: CryptoMode, metaReadKey: Block, file: seq<byte>, r: Reading)
    requires IsReading(r) && Fits(s, mode, |file|)
    ensures OnlyMirrors(s, mode, file, WithIdentity(aes, s, mode, metaReadKey, file, r))
  {
    hide IsAscii, OnlyMirrors, Place, Render, Blob;
    var uid, rctr, blob := UidRange(s.picc), RCtrRange(s.picc), PiccRange(s.picc, mode);
    SameIsOnlyMirrors(s, mode, file);
    RenderIsAscii(r.uid);
    PlaceChanges(s, mode, file, file, uid, Render(r.uid));
    var f1 := Place(file, uid, Render(r.uid));
    RenderIsAscii(Reversed(r.Ctr()));
    CounterMirrorIs(r);
    PlaceChanges(s, mode, file, f1, rctr, CounterMirror(r.count));
    var f2 := Place(f1, rctr, CounterMirror(r.count));
    BlobIsAscii(aes, s, mode, metaReadKey, r);
    PlaceChanges(s, mode, file, f2, blob, Blob(aes, s, mode, metaReadKey, r));
  }

  lemma EncryptionChanges(aes: Aes128, s: Settings, mode: CryptoMode, k: SdmKeys, ctr: CtrBytes, file: seq<byte>, f: seq<byte>)
    requires OnlyMirrors(s, mode, file, f) && Within(EncRange(s.fileRead), |f|)
    ensures OnlyMirrors(s, mode, file, Encrypted(aes, s, k, ctr, f))
  {
    hide IsAscii, OnlyMirrors, Place, Render, At, SealFileData;
    var enc := EncRange(s.fileRead);
    SameLength(s, mode, file, f);
    if enc.Some? {
      RenderIsAscii(SealFileData(aes, k, ctr, At(f, PlainHalf(enc.value))));
      PlaceChanges(s, mode, file, f, enc, Ciphertext(aes, k, ctr, f, enc.value));
    }
  }

  lemma MacChanges(aes: Aes128, s: Settings, mode: CryptoMode, k: SdmKeys, file: seq<byte>, f: seq<byte>)
    requires OnlyMirrors(s, mode, file, f) && Within(MacRange(s.fileRead), |f|)
    requires s.fileRead.Some? && s.fileRead.value.window.input <= s.fileRead.value.window.mac
    ensures OnlyMirrors(s, mode, file, WithMac(aes, s, k, f))
  {
    hide IsAscii, OnlyMirrors, Place, Render, At, SdmMac;
    SameLength(s, mode, file, f);
    RenderIsAscii(SdmMac(aes, k, At(f, MacInput(s))));
    PlaceChanges(s, mode, file, f, MacRange(s.fileRead), Render(SdmMac(aes, k, At(f, MacInput(s)))));
  }

  lemma SameLength(s: Settings, mode: CryptoMode, f: seq<byte>, g: seq<byte>)
    requires OnlyMirrors(s, mode, f, g)
    ensures |f| == |g|
  {
  }

  /** A tap changes nothing but the mirrors, and leaves ASCII there. */
  lemma RenderingChanges(aes: Aes128, s: Settings, mode: CryptoMode, fileReadKey: Block, metaReadKey: Block, file: seq<byte>, r: Reading)
    requires IsReading(r) && Fits(s, mode, |file|) && IsUsable(s, mode) && IsAscii(r.tamper)
    ensures OnlyMirrors(s, mode, file, Rendered(aes, s, mode, fileReadKey, metaReadKey, file, r))
  {
    hide IsAscii, OnlyMirrors, Place, WithIdentity, Encrypted, WithMac;
    TryNewAcceptsExactly(s.picc, s.fileRead, s.tamperStatus, mode);
    IdentityChanges(aes, s, mode, metaReadKey, file, r);
    PlaceChanges(s, mode, file, WithIdentity(aes, s, mode, metaReadKey, file, r), TamperRange(s.tamperStatus), r.tamper);
    var k, filled := Keys(aes, s, mode, fileReadKey, r), Filled(aes, s, mode, metaReadKey, file, r);
    EncryptionChanges(aes, s, mode, k, r.Ctr(), file, filled);
    MacChanges(aes, s, mode, k, file, Encrypted(aes, s, k, r.Ctr(), filled));
  }

  lemma BlobIsAscii(aes: Aes128, s: Settings, mode: CryptoMode, metaReadKey: Block, r: Reading)
    requires IsReading(r)
    ensures IsAscii(Blob(aes, s, mode, metaReadKey, r))
  {
    RenderIsAscii(SealPicc(aes, mode, metaReadKey, r.random, PiccPlain(if s.picc.EncryptedPicc? then s.picc.content else Both, r.uid, r.Ctr(), r.padding)));
  }

  lemma SameIsOnlyMirrors(s: Settings, mode: CryptoMode, f: seq<byte>)
    ensures OnlyMirrors(s, mode, f, f)
  {
  }

  // ---------------------------------------------------------------- what follows the record does not matter

  lemma PlaceBefore(f: seq<byte>, rest: seq<byte>, r: Option<Range>, bytes: seq<byte>)
    requires r.Some? ==> r.value.len == |bytes| && r.value.End() <= |f|
    ensures Place(f + rest, r, bytes) == Place(f, r, bytes) + rest
  {
  }

  lemma AtBefore(f: seq<byte>, rest: seq<byte>, q: Range)
    requires q.End() <= |f|
    ensures At(f + rest, q) == At(f, q)
  {
  }

  lemma FitsLonger(s: Settings, mode: CryptoMode, m: nat, n: nat)
    requires Fits(s, mode, m) && m <= n
    ensures Fits(s, mode, n)
  {
  }

  lemma FilledBefore(aes: Aes128, s: Settings, mode: CryptoMode, metaReadKey: Block, file: seq<byte>, rest: seq<byte>, r: Reading)
    requires IsReading(r) && Fits(s, mode, |file|)
    ensures Fits(s, mode, |file + rest|)
    ensures Filled(aes, s, mode, metaReadKey, file + rest, r) == Filled(aes, s, mode, metaReadKey, file, r) + rest
  {
    hide Place, Render, Blob;
    FitsLonger(s, mode, |file|, |file + rest|);
    var uid, rctr, blob, tamper := UidRange(s.picc), RCtrRange(s.picc), PiccRange(s.picc, mode), TamperRange(s.tamperStatus);
    PlaceBefore(file, rest, uid, Render(r.uid));
    var f1 := Place(file, uid, Render(r.uid));
    PlaceBefore(f1, rest, rctr, CounterMirror(r.count));
    var f2 := Place(f1, rctr, CounterMirror(r.count));
    PlaceBefore(f2, rest, blob, Blob(aes, s, mode, metaReadKey, r));
    var f3 := Place(f2, blob, Blob(aes, s, mode, metaReadKey, r));
    PlaceBefore(f3, rest, tamper, r.tamper);
  }

  lemma EncryptedBefore(aes: Aes128, s: Settings, k: SdmKeys, ctr: CtrBytes, f: seq<byte>, rest: seq<byte>)
    requires Within(EncRange(s.fileRead), |f|)
    ensures Encrypted(aes, s, k, ctr, f + rest) == Encrypted(aes, s, k, ctr, f) + rest
  {
    hide Place, Render, SealFileData, At;
    var enc := EncRange(s.fileRead);
    if enc.Some? {
      AtBefore(f, rest, PlainHalf(enc.value));
      PlaceBefore(f, rest, enc, Ciphertext(aes, k, ctr, f, enc.value));
    }
  }

  lemma WithMacBefore(aes: Aes128, s: Settings, k: SdmKeys, f: seq<byte>, rest: seq<byte>)
    requires s.fileRead.Some? && s.fileRead.value.window.input <= s.fileRead.value.window.mac
    requires Within(MacRange(s.fileRead), |f|)
    ensures WithMac(aes, s, k, f + rest) == WithMac(aes, s, k, f) + rest
  {
    hide Place, Render, SdmMac, At;
    AtBefore(f, rest, MacInput(s));
    PlaceBefore(f, rest, MacRange(s.fileRead), Render(SdmMac(aes, k, At(f, MacInput(s)))));
  }

  /** The tag renders the record the same, whatever follows it in the file. */
  lemma RenderedBefore(aes: Aes128, s: Settings, mode: CryptoMode, fileReadKey: Block, metaReadKey: Block, file: seq<byte>, rest: seq<byte>, r: Reading)
    requires IsReading(r) && Fits(s, mode, |file|) && IsUsable(s, mode)
    ensures Fits(s, mode, |file + rest|)
    ensures Rendered(aes, s, mode, fileReadKey, metaReadKey, file + rest, r) == Rendered(aes, s, mode, fileReadKey, metaReadKey, file, r) + rest
    ensures PutIn(aes, s, mode, metaReadKey, file + rest, r) == PutIn(aes, s, mode, metaReadKey, file, r)
  {
    hide Filled, Encrypted, WithMac, At;
    TryNewAcceptsExactly(s.picc, s.fileRead, s.tamperStatus, mode);
    FilledBefore(aes, s, mode, metaReadKey, file, rest, r);
    var k, filled := Keys(aes, s, mode, fileReadKey, r), Filled(aes, s, mode, metaReadKey, file, r);
    EncryptedBefore(aes, s, k, r.Ctr(), filled, rest);
    WithMacBefore(aes, s, k, Encrypted(aes, s, k, r.Ctr(), filled), rest);
    if EncRange(s.fileRead).Some? {
      AtBefore(filled, rest, PlainHalf(EncRange(s.fileRead).value));
    }
  }

  // ---------------------------------------------------------------- a compiled record, tapped

  /** The settings of a built plan fit its record, and can be verified. */
  lemma PlanFits(url: seq<byte>, mode: CryptoMode, opts: Options)
    requires IsUtf8(url) && Built(url, mode, opts).Ok?
    ensures var plan := Built(url, mode, opts).value;
      && Fits(plan.settings, mode, |plan.ndefBytes|) && IsUsable(plan.settings, mode) && !Straddles(plan.settings)
      && 7 <= Start(SdmVerifier.TryNew(plan.settings, mode).value)
  {
    hide Prefix, FirstMatch, Built, Out, Lex, IsWellFormed, SettingsOf, Layout, FieldRange;
    BuiltFromTokens(url, mode, opts);
    var plan, ts := Built(url, mode, opts).value, Tokens(url).value;
    SettingsExactly(ts, mode, opts);
    PlanRanges(ts, mode, opts, plan.settings);
  }

  /** A placeholder behind the record's header and within its content. */
  predicate InContent(r: Option<Range>, n: nat) {
    r.Some? ==> 7 <= r.value.start && r.value.End() <= 7 + n
  }

  predicate AllInContent(s: Settings, mode: CryptoMode, n: nat) {
    && InContent(UidRange(s.picc), n) && InContent(RCtrRange(s.picc), n) && InContent(PiccRange(s.picc, mode), n)
    && InContent(MacRange(s.fileRead), n) && InContent(EncRange(s.fileRead), n) && InContent(TamperRange(s.tamperStatus), n)
  }

  lemma FieldInContent(ts: seq<Token>, mode: CryptoMode, k: Kind)
    ensures InContent(FieldRange(ts, k, mode), |Out(ts, mode)|)
  {
    hide Out, FieldRange;
    FieldsAreZero(ts, mode);
  }

  lemma EncInContent(ts: seq<Token>, mode: CryptoMode)
    requires IsWellFormed(ts, mode) && Layout(ts, mode).encRange.Some?
    ensures 7 <= Layout(ts, mode).encRange.value.0 <= Layout(ts, mode).encRange.value.1 <= 7 + |Out(ts, mode)|
  {
    hide Out, OffsetOf, Occurs, IsOrderly, Inside;
    OccursIffOffset(ts, mode);
    OffsetBounds(ts, mode);
  }

  lemma InputInContent(ts: seq<Token>, mode: CryptoMode)
    requires IsWellFormed(ts, mode)
    ensures 7 <= Layout(ts, mode).macInput
  {
    hide Out, OffsetOf, Occurs, IsOrderly, Inside;
    OccursIffOffset(ts, mode);
    OffsetBounds(ts, mode);
  }

  lemma PlanRanges(ts: seq<Token>, mode: CryptoMode, opts: Options, s: Settings)
    requires IsWellFormed(ts, mode) && |Out(ts, mode)| <= 249 && SettingsOf(Layout(ts, mode), mode, opts) == Ok(s)
    ensures Fits(s, mode, 7 + |Out(ts, mode)|) && IsUsable(s, mode) && 7 <= Start(SdmVerifier.TryNew(s, mode).value)
  {
    assert Occurs(ts, MacK);
    hide Out, IsWellFormed, Layout, SettingsOf, FieldRange, IsSmall, InContent, Sdm.TryNew;
    SettingsExactly(ts, mode, opts);
    SettingsRanges(ts, mode, opts);
    FieldInContent(ts, mode, UidK);
    FieldInContent(ts, mode, CtrK);
    FieldInContent(ts, mode, PiccK);
    FieldInContent(ts, mode, MacK);
    FieldInContent(ts, mode, TtK);
    InputInContent(ts, mode);
    if Layout(ts, mode).encRange.Some? {
      EncInContent(ts, mode);
      assert InContent(EncRange(s.fileRead), |Out(ts, mode)|) by { InContentIs(EncRange(s.fileRead), |Out(ts, mode)|); }
    } else {
      InContentIs(EncRange(s.fileRead), |Out(ts, mode)|);
    }
    ContentFits(s, mode, |Out(ts, mode)|);
  }

  lemma InContentIs(r: Option<Range>, n: nat)
    ensures InContent(r, n) <==> (r.Some? ==> 7 <= r.value.start && r.value.End() <= 7 + n)
  {
  }

  lemma ContentFits(s: Settings, mode: CryptoMode, n: nat)
    requires AllInContent(s, mode, n) && n <= 249 && s.fileRead.Some? && s.fileRead.value.window.input >= 7
    ensures Fits(s, mode, 7 + n) && 7 <= Start(SdmVerifier.TryNew(s, mode).value)
  {
  }

  /** Where a mirror stands, the compiled record has a zero. */
  lemma MirrorsAreZero(url: seq<byte>, mode: CryptoMode, opts: Options, i: nat)
    requires IsUtf8(url) && Built(url, mode, opts).Ok?
    requires IsMirrored(Built(url, mode, opts).value.settings, mode, i)
    ensures var ts := Tokens(url);
      ts.Ok? && 7 <= i < 7 + |Out(ts.value, mode)| && Out(ts.value, mode)[i - 7] == ZERO_CHAR
  {
    hide Prefix, FirstMatch, Built, Out, Lex, SettingsOf, FieldRange, LayoutSettings, IsOrderly, Inside, Occurs, OffsetOf;
    BuiltFromTokens(url, mode, opts);
    var s, ts := Built(url, mode, opts).value.settings, Tokens(url).value;
    SettingsExactly(ts, mode, opts);
    SettingsRanges(ts, mode, opts);
    FieldsAreZero(ts, mode);
    OccursIffOffset(ts, mode);
    EncApart(ts, mode);
  }

  /** The URL a reader makes of a tapped record. */
  function TappedUrl(url: seq<byte>, prefixLen: nat, tapped: seq<byte>): seq<byte>
    requires prefixLen <= |url| && |tapped| >= 7
  {
    url[..prefixLen] + tapped[7..]
  }

  lemma OnlyMirrorsIs(s: Settings, mode: CryptoMode, f: seq<byte>, g: seq<byte>)
    requires OnlyMirrors(s, mode, f, g)
    ensures |g| == |f| && forall i :: 0 <= i < |f| && g[i] != f[i] ==> g[i] < 0x80 && IsMirrored(s, mode, i)
  {
  }

  /** A tapped record is still a record, with another content that is still UTF-8. */
  lemma TappedIsRecord(aes: Aes128, url: seq<byte>, mode: CryptoMode, opts: Options, fileReadKey: Block, metaReadKey: Block, r: Reading)
    requires IsUtf8(url) && Built(url, mode, opts).Ok? && IsReading(r) && IsAscii(r.tamper)
    ensures var plan := Built(url, mode, opts).value;
      && Fits(plan.settings, mode, |plan.ndefBytes|) && IsUsable(plan.settings, mode)
      && var g := Rendered(aes, plan.settings, mode, fileReadKey, metaReadKey, plan.ndefBytes, r);
      && 7 <= |g| <= 256 && IsUtf8(g[7..]) && g == NdefBytesOf(g[7..], plan.prefixCode)
  {
    hide Prefix, FirstMatch, Built, Out, Tokens, IsWellFormed, SettingsOf, Layout, Rendered, Fits, IsUsable, IsMirrored, LiteralsAreChars, IsUtf8From;
    PlanFits(url, mode, opts);
    BuiltFromTokens(url, mode, opts);
    var plan, ts := Built(url, mode, opts).value, Tokens(url).value;
    var f := plan.ndefBytes;
    var g := Rendered(aes, plan.settings, mode, fileReadKey, metaReadKey, f, r);
    RenderingChanges(aes, plan.settings, mode, fileReadKey, metaReadKey, f, r);
    OnlyMirrorsIs(plan.settings, mode, f, g);
    forall i | 0 <= i < |f| && g[i] != f[i] ensures i >= 7 && f[i] == ZERO_CHAR && g[i] < 0x80 {
      MirrorsAreZero(url, mode, opts, i);
    }
    var body, tapped := Out(ts, mode), g[7..];
    assert f[7..] == body;
    OutIsUtf8(ts, mode);
    forall k | 0 <= k < |body| ensures tapped[k] == body[k] || (body[k] < 0x80 && tapped[k] < 0x80) {
      assert body[k] == f[7 + k] && tapped[k] == g[7 + k];
    }
    AsciiReplaced(body, tapped, 0);
    assert g[..7] == f[..7];
    assert g == g[..7] + g[7..];
    SameHeader(body, tapped, plan.prefixCode);
  }

  lemma SameHeader(a: seq<byte>, b: seq<byte>, code: byte)
    requires |a| == |b| < 255
    ensures NdefBytesOf(b, code) == NdefBytesOf(a, code)[..7] + b
  {
    assert NdefBytesOf(a, code)[..7] == NdefBytesOf(b, code)[..7];
  }

  /**
    The tapped record parses to the tapped URL, whatever follows it in the file; without `alloc`, exactly when
    the URL has at most 256 bytes.
   */
  lemma TappedParses(aes: Aes128, url: seq<byte>, mode: CryptoMode, opts: Options, fileReadKey: Block, metaReadKey: Block, rest: seq<byte>, r: Reading)
    requires IsUtf8(url) && Built(url, mode, opts).Ok? && IsReading(r) && IsAscii(r.tamper)
    ensures var plan := Built(url, mode, opts).value;
      && Fits(plan.settings, mode, |plan.ndefBytes|) && Fits(plan.settings, mode, |plan.ndefBytes + rest|) && IsUsable(plan.settings, mode)
      && plan.prefixLen <= |url|
      && var g := Rendered(aes, plan.settings, mode, fileReadKey, metaReadKey, plan.ndefBytes, r);
      && var file := Rendered(aes, plan.settings, mode, fileReadKey, metaReadKey, plan.ndefBytes + rest, r);
      && |g| >= 7 && IsParseable(file) && ParsedUri(file) == Ok(TappedUrl(url, plan.prefixLen, g))
      && Parse(file, true) == Finished(ParsedUri(file))
      && Parse(file, false)
         == (if plan.prefixLen + |plan.ndefBytes| - 7 <= ARRAY_STRING_CAPACITY then Finished(ParsedUri(file)) else Panicked)
  {
    hide Prefix, FirstMatch, Built, Rendered, Fits, IsUsable, IsUtf8From, ParsedUri, IsParseable, NdefBytesOf;
    TappedIsRecord(aes, url, mode, opts, fileReadKey, metaReadKey, r);
    var plan := Built(url, mode, opts).value;
    BuiltFromTokens(url, mode, opts);
    RenderedBefore(aes, plan.settings, mode, fileReadKey, metaReadKey, plan.ndefBytes, rest, r);
    var g := Rendered(aes, plan.settings, mode, fileReadKey, metaReadKey, plan.ndefBytes, r);
    RecordParses(g[7..], plan.prefixCode, rest);
    PrefixEnds(url, plan.prefixCode);
  }

  /** The verifier of a plan, moved from file offsets to URL positions: `create_sdm_url_config`. */
  function UrlVerifier(plan: Plan, mode: CryptoMode): Option<Verifier>
    requires plan.prefixLen <= 26
  {
    var v := SdmVerifier.TryNew(plan.settings, mode);
    if v.Err? then None else WithOffset(v.value, plan.prefixLen - 7)
  }

  // ---------------------------------------------------------------- when there is a URL verifier

  function Max(a: nat, b: nat): nat {
    if a < b then b else a
  }

  function OrZero(o: Option<nat>): nat {
    if o.Some? then o.value else 0
  }

  /** The highest position a compiled template has recorded. */
  function Highest(p: ParsedTemplate): nat {
    Max(Max(Max(OrZero(p.uidOffset), OrZero(p.ctrOffset)), Max(if p.picc.Some? then p.picc.value.0 else 0, OrZero(p.ttOffset))),
        Max(Max(p.macInput, p.macOffset), if p.encRange.Some? then Max(p.encRange.value.0, p.encRange.value.1) else 0))
  }

  /** The highest position of a template, if it compiles. */
  function HighestOf(url: seq<byte>, mode: CryptoMode): nat
    requires IsUtf8(url)
  {
    var ts := Tokens(url);
    if ts.Ok? && IsWellFormed(ts.value, mode) then Highest(Layout(ts.value, mode)) else 0
  }

  lemma WellFormedHasMac(ts: seq<Token>, mode: CryptoMode)
    requires IsWellFormed(ts, mode)
    ensures Occurs(ts, MacK)
  {
  }

  /** Positions a verifier of these settings looks at are those the template has recorded. */
  lemma VerifierOfLayout(p: ParsedTemplate, mode: CryptoMode, opts: Options)
    requires IsSmall(p)
    ensures var v := SdmVerifier.TryNew(LayoutSettings(p, opts), mode);
      && v.Ok? && v.value.macInput == p.macInput && v.value.mac == p.macOffset && Same(v.value.tamperStatus, p.ttOffset)
      && v.value.enc.Some? == p.encRange.Some?
      && (v.value.enc.Some? ==> v.value.enc.value == Span(p.encRange.value.0, p.encRange.value.1))
      && match v.value.picc {
        case NoSource => p.picc.None? && p.uidOffset.None? && p.ctrOffset.None?
        case EncryptedAt(o) => p.picc.Some? && p.picc.value.0 == o
        case PlainAt(u, c) => p.picc.None? && Same(u, p.uidOffset) && Same(c, p.ctrOffset)
      }
  {
  }

  predicate Same(a: Option<u32>, b: Option<nat>) {
    a.Some? == b.Some? && (a.Some? ==> a.value as nat == b.value)
  }

  lemma ShiftFits(p: ParsedTemplate, mode: CryptoMode, opts: Options, prefixLen: nat)
    requires IsSmall(p) && prefixLen <= 26
    requires p.picc.Some? ==> p.uidOffset.None? && p.ctrOffset.None? && p.picc.value.0 >= 7
    requires p.macInput >= 7 && p.macOffset >= 7 && (p.uidOffset.Some? ==> p.uidOffset.value >= 7) && (p.ctrOffset.Some? ==> p.ctrOffset.value >= 7)
    requires (p.ttOffset.Some? ==> p.ttOffset.value >= 7) && (p.encRange.Some? ==> p.encRange.value.0 >= 7 && p.encRange.value.1 >= 7)
    ensures var v := SdmVerifier.TryNew(LayoutSettings(p, opts), mode);
      v.Ok? && (WithOffset(v.value, prefixLen - 7).Some? <==> Highest(p) + prefixLen <= 262)
  {
    hide LayoutSettings, SdmVerifier.TryNew;
    VerifierOfLayout(p, mode, opts);
  }

  /** The positions of a layout are behind the header, and its last placeholder ends within the content. */
  lemma LayoutPositions(ts: seq<Token>, mode: CryptoMode)
    requires IsWellFormed(ts, mode) && EncFits(Layout(ts, mode))
    ensures var p := Layout(ts, mode);
      && (p.picc.Some? ==> p.uidOffset.None? && p.ctrOffset.None? && p.picc.value.0 >= 7)
      && p.macInput >= 7 && p.macOffset >= 7 && (p.uidOffset.Some? ==> p.uidOffset.value >= 7) && (p.ctrOffset.Some? ==> p.ctrOffset.value >= 7)
      && (p.ttOffset.Some? ==> p.ttOffset.value >= 7) && (p.encRange.Some? ==> p.encRange.value.0 >= 7 && p.encRange.value.1 >= 7)
      && Highest(p) <= 5 + |Out(ts, mode)|
  {
    hide Out, OffsetOf, Occurs, IsOrderly, Inside, PiccContent;
    OccursIffOffset(ts, mode);
    OffsetBounds(ts, mode);
    Ends(ts, mode, UidK);
    Ends(ts, mode, CtrK);
    Ends(ts, mode, PiccK);
    Ends(ts, mode, TtK);
    Ends(ts, mode, MacK);
  }

  lemma Ends(ts: seq<Token>, mode: CryptoMode, k: Kind)
    requires IsField(k)
    ensures OffsetOf(ts, k, mode).Some? ==> OffsetOf(ts, k, mode).value + 2 <= 7 + |Out(ts, mode)|
  {
    hide Out, OffsetOf;
    FieldInContent(ts, mode, k);
  }

  /**
    A template that builds has a verifier for its URL exactly when its highest position, moved behind the
    prefix, is at most 255; it always has one if its prefix has at most 8 characters.
   */
  lemma UrlVerifierExactly(url: seq<byte>, mode: CryptoMode, opts: Options)
    requires IsUtf8(url) && Built(url, mode, opts).Ok?
    ensures var plan, ts := Built(url, mode, opts).value, Tokens(url);
      && ts.Ok? && IsWellFormed(ts.value, mode)
      && (UrlVerifier(plan, mode).Some? <==> HighestOf(url, mode) + plan.prefixLen <= 262)
      && (plan.prefixLen <= 8 ==> UrlVerifier(plan, mode).Some?)
  {
    hide Built, Prefix, FirstMatch, Out, Tokens, SettingsOf, IsWellFormed, Layout, Highest, LayoutSettings, SdmVerifier.TryNew, WithOffset, EncFits;
    BuiltFromTokens(url, mode, opts);
    var plan, ts := Built(url, mode, opts).value, Tokens(url).value;
    WellFormedHasMac(ts, mode);
    SettingsExactly(ts, mode, opts);
    LayoutPositions(ts, mode);
    ShiftFits(Layout(ts, mode), mode, opts, plan.prefixLen);
  }

  /** A template that builds and has none: its `{tt}` is at file offset 254, behind a prefix of 12. */
  lemma LongUrlHasNoVerifier(mode: CryptoMode)
    ensures var url, opts := Escape(LongUrl(217)) + Written([UID_NAME, MAC_NAME, TT_NAME]), Options(1, 2, 256);
      && IsUtf8(url) && Built(url, mode, opts).Ok? && UrlVerifier(Built(url, mode, opts).value, mode).None?
  {
    var names, fields := [UID_NAME, MAC_NAME, TT_NAME], [UidField, MacField, TtField];
    ShortChoice(mode);
    hide Prefix, FirstMatch, Built, Escape, Chars, Out, OffsetOf, UrlVerifier, Tokens, IsWellFormed, Written, FillSum, AllNamed, IsChoice, Mirrors;
    var url, opts := Escape(LongUrl(217)) + Written(names), Options(1, 2, 256);
    LongUrlIsPlain(217);
    LongUrlPrefix(217, Written(names));
    EscapedBuilds(LongUrl(217), names, fields, mode, opts);
    EscapedTokens(LongUrl(217), names, fields);
    BuiltFromTokens(url, mode, opts);
    UrlVerifierExactly(url, mode, opts);
    TamperAtEnd(LongUrl(217)[12..], mode);
  }

  lemma TamperAtEnd(s: seq<byte>, mode: CryptoMode)
    requires IsUtf8(s)
    ensures var ts := Chars(s) + Mirrors([UidField, MacField, TtField]);
      IsWellFormed(ts, mode) && Highest(Layout(ts, mode)) >= 37 + |s|
  {
    ShortChoice(mode);
    hide Chars, IsWellFormed, Out, Layout, OffsetOf, Highest, IsChoice, FillSum;
    CharsAreLiterals(s);
    ChoiceIsWellFormed(Chars(s), [UidField, MacField, TtField], mode);
    OutChoice(s, [UidField, MacField], mode);
    var ts := Chars(s) + Mirrors([UidField, MacField, TtField]);
    assert Front(ts) == Chars(s) + Mirrors([UidField, MacField]) && Last(ts) == Placeholder(TtField);
    LayoutTamper(ts, mode);
  }

  /** A `{tt}` at the end stands behind all the rest. */
  lemma LayoutTamper(ts: seq<Token>, mode: CryptoMode)
    requires IsWellFormed(ts, mode) && |ts| > 0 && Last(ts) == Placeholder(TtField)
    ensures Highest(Layout(ts, mode)) >= URI_AT + |Out(Front(ts), mode)|
  {
    hide Out;
    assert OffsetOf(ts, TtK, mode) == Some(URI_AT + |Out(Front(ts), mode)|);
    assert Layout(ts, mode).ttOffset == OffsetOf(ts, TtK, mode);
  }

  /**
    End to end: compile a template, let the tag fill the file in on a tap, parse the file back to a URL, shift
    the verifier from file offsets to URL positions: it takes out what the tag put in. For every
    template that builds and whose highest position fits behind its prefix.
   */
  lemma TemplateToVerdict(aes: Aes128, url: seq<byte>, mode: CryptoMode, opts: Options, fileReadKey: Block, metaReadKey: Block, rest: seq<byte>, r: Reading)
    requires IsUtf8(url) && Built(url, mode, opts).Ok? && IsReading(r) && IsAscii(r.tamper)
    requires HighestOf(url, mode) + Built(url, mode, opts).value.prefixLen <= 262
    ensures var plan := Built(url, mode, opts).value;
      && Fits(plan.settings, mode, |plan.ndefBytes + rest|) && IsUsable(plan.settings, mode)
      && UrlVerifier(plan, mode).Some? && IsOrdered(UrlVerifier(plan, mode).value)
      && var file := Rendered(aes, plan.settings, mode, fileReadKey, metaReadKey, plan.ndefBytes + rest, r);
      && IsParseable(file) && ParsedUri(file).Ok?
      && Verify(aes, UrlVerifier(plan, mode).value, ParsedUri(file).value, fileReadKey, metaReadKey)
         == Ok(PutIn(aes, plan.settings, mode, metaReadKey, plan.ndefBytes + rest, r))
  {
    hide Built, Rendered, Fits, IsUsable, IsUtf8From, ParsedUri, IsParseable, Verify, PutIn, Start, WithOffset, HighestOf;
    UrlVerifierExactly(url, mode, opts);
    PlanFits(url, mode, opts);
    TappedParses(aes, url, mode, opts, fileReadKey, metaReadKey, rest, r);
    var plan := Built(url, mode, opts).value;
    var v, s := SdmVerifier.TryNew(plan.settings, mode).value, plan.prefixLen - 7;
    RoundTrip(aes, plan.settings, mode, fileReadKey, metaReadKey, plan.ndefBytes, r);
    RenderedBefore(aes, plan.settings, mode, fileReadKey, metaReadKey, plan.ndefBytes, rest, r);
    var g := Rendered(aes, plan.settings, mode, fileReadKey, metaReadKey, plan.ndefBytes, r);
    TappedContinues(url, plan.prefixLen, g, Start(v));
    VerifyShifts(aes, v, UrlVerifier(plan, mode).value, s, g, TappedUrl(url, plan.prefixLen, g), fileReadKey, metaReadKey);
  }

  lemma TappedContinues(url: seq<byte>, prefixLen: nat, g: seq<byte>, start: nat)
    requires prefixLen <= |url| && |g| >= 7 && start >= 7
    ensures Continues(g, TappedUrl(url, prefixLen, g), prefixLen - 7, start)
  {
    var t := TappedUrl(url, prefixLen, g);
    forall i | start <= i < |g| ensures t[i + (prefixLen - 7)] == g[i] {
      assert t[prefixLen..] == g[7..];
      assert t[i + (prefixLen - 7)] == t[prefixLen..][i - 7];
    }
  }

  /**
    No reading of a record depends on which side of the parser it is done: whatever bytes stand behind the header
    of a planned record, forged or not, the URL's verifier makes of the parsed URL what the file's
    verifier makes of the record, with errors at positions moved by the shift.
   */
  lemma ForgedRecord(aes: Aes128, url: seq<byte>, mode: CryptoMode, opts: Options, fileReadKey: Block, metaReadKey: Block, file: seq<byte>)
    requires IsUtf8(url) && Built(url, mode, opts).Ok? && UrlVerifier(Built(url, mode, opts).value, mode).Some?
    requires IsParseable(file) && ParsedUri(file).Ok? && file[6] == Built(url, mode, opts).value.prefixCode
    ensures var plan, end := Built(url, mode, opts).value, FromBe16(file[..2]) + 2;
      && SdmVerifier.TryNew(plan.settings, mode).Ok? && 7 <= end <= |file|
      && var v, shifted := SdmVerifier.TryNew(plan.settings, mode).value, UrlVerifier(plan, mode).value;
      && IsOrdered(v) && IsOrdered(shifted)
      && Verify(aes, shifted, ParsedUri(file).value, fileReadKey, metaReadKey)
         == Shifted(Verify(aes, v, file[..end], fileReadKey, metaReadKey), plan.prefixLen - 7)
  {
    hide Built, Fits, IsUtf8From, Verify, Start, WithOffset, HighestOf, Prefix, FirstMatch, Sdm.TryNew, Straddles;
    PlanFits(url, mode, opts);
    ConstructedIsValid(Built(url, mode, opts).value.settings, mode);
    BuiltFromTokens(url, mode, opts);
    var plan, end := Built(url, mode, opts).value, FromBe16(file[..2]) + 2;
    var v, record := SdmVerifier.TryNew(plan.settings, mode).value, file[..end];
    assert record[7..] == file[7..end];
    assert ParsedUri(file).value == TappedUrl(url, plan.prefixLen, record);
    TappedContinues(url, plan.prefixLen, record, Start(v));
    VerifyShifts(aes, v, UrlVerifier(plan, mode).value, plan.prefixLen - 7, record, ParsedUri(file).value, fileReadKey, metaReadKey);
  }

  // ---------------------------------------------------------------- a provisioned tag

  /** The options and the mode of `provision`: Key 1 opens the blob, Key 2 the file, LRP throughout. */
  const PROVISIONING: Options := Options(1, 2, 256)

  /** The application a provisioned template comes with. */
  function Application(plan: Plan, shifted: Verifier): Verification.ApplicationVerifier
    requires plan.prefixCode <= 35
  {
    Verification.ApplicationVerifier(shifted, Some(Prefix(plan.prefixCode)), KeyDiversification.SYSTEM_IDENTIFIER)
  }

  /** The keys `derive_keys_for_uid` gives a tag are those the server derives from the UID it reads. */
  lemma SameKeys(aes: Aes128, masterKey: Block, uid: UidBytes)
    ensures Verification.PiccKey(aes, masterKey)
         == KeyDiversification.Diversified(AesCipherOf(aes, masterKey), KeyDiversification.InputOf(uid, 1))
    ensures Verification.GetKey(aes, masterKey, 2, uid, KeyDiversification.SYSTEM_IDENTIFIER)
         == KeyDiversification.Diversified(AesCipherOf(aes, masterKey), KeyDiversification.InputOf(uid, 2))
  {
  }

  function AesCipherOf(aes: Aes128, key: Block): Block -> Block {
    S.AesCipher(aes, key)
  }

  /** What a shifted verifier keeps, and that it is valid. */
  lemma ShiftedKeeps(url: seq<byte>, mode: CryptoMode, opts: Options, shifted: Verifier)
    requires IsUtf8(url) && Built(url, mode, opts).Ok? && UrlVerifier(Built(url, mode, opts).value, mode) == Some(shifted)
    ensures Validate(shifted) == Ok(()) && shifted.fileReadKey == opts.macKey && Built(url, mode, opts).value.prefixCode <= 35
  {
    hide Built, Prefix, FirstMatch, Fits, Validate, Sdm.TryNew, OverlapError, PiccOverlapError, FileReadOf;
    PlanFits(url, mode, opts);
    BuiltFromTokens(url, mode, opts);
    var plan, ts := Built(url, mode, opts).value, Tokens(url).value;
    ConstructedIsValid(plan.settings, mode);
    ShiftedIsValid(SdmVerifier.TryNew(plan.settings, mode).value, shifted, plan.prefixLen - 7);
    PlanKey(ts, mode, opts, plan.settings);
  }

  lemma PlanKey(ts: seq<Token>, mode: CryptoMode, opts: Options, s: Settings)
    requires IsWellFormed(ts, mode) && SettingsOf(Layout(ts, mode), mode, opts) == Ok(s)
    ensures s.fileRead.Some? && s.fileRead.value.key == opts.macKey
  {
    hide Layout, IsWellFormed, PiccDataOf, CheckedOption, OverlapError, PiccOverlapError, WindowError;
  }

  /**
    Provision a tag with a template and the keys derived from a master key, tap it, and give the URL
    to the server that holds the master key: the server reads the tag's own UID, counter and tamper
    status. For every template that `provision` accepts: it builds, mirrors the UID, and has a URL verifier.
   */
  lemma ProvisionedTapReads(aes: Aes128, url: seq<byte>, masterKey: Block, rest: seq<byte>, r: Reading)
    requires IsUtf8(url) && Built(url, LrpMode, PROVISIONING).Ok? && IsReading(r) && IsAscii(r.tamper)
    requires Built(url, LrpMode, PROVISIONING).value.settings.picc.IncludesUid()
    requires HighestOf(url, LrpMode) + Built(url, LrpMode, PROVISIONING).value.prefixLen <= 262
    ensures var plan := Built(url, LrpMode, PROVISIONING).value;
      && UrlVerifier(plan, LrpMode).Some? && plan.prefixCode <= 35
      && var shifted := UrlVerifier(plan, LrpMode).value;
      && Fits(plan.settings, LrpMode, |plan.ndefBytes + rest|) && IsUsable(plan.settings, LrpMode)
      && var fileReadKey := KeyDiversification.Diversified(AesCipherOf(aes, masterKey), KeyDiversification.InputOf(r.uid, 2));
      && var metaReadKey := KeyDiversification.Diversified(AesCipherOf(aes, masterKey), KeyDiversification.InputOf(r.uid, 1));
      && var file := Rendered(aes, plan.settings, LrpMode, fileReadKey, metaReadKey, plan.ndefBytes + rest, r);
      && IsParseable(file) && ParsedUri(file).Ok? && Verification.IsApplication(Application(plan, shifted))
      && Verification.Read(aes, Application(plan, shifted), masterKey, ParsedUri(file).value)
         == Ok(Verification.Readout(
                 r.uid,
                 if plan.settings.picc.IncludesRCtr() then Some(r.count) else None,
                 if plan.settings.tamperStatus.Some? then Some((r.tamper[0], r.tamper[1])) else None))
  {
    hide Built, Rendered, Fits, IsUsable, HighestOf, IsUtf8From, ParsedUri, IsParseable, Start, WithOffset, UrlVerifier, Prefix, FirstMatch,
         KeyDiversification.Diversified, Validate, ExtractPicc, DeriveKeys, CheckMac, FileData, TamperStatus;
    UrlVerifierExactly(url, LrpMode, PROVISIONING);
    var plan := Built(url, LrpMode, PROVISIONING).value;
    var shifted := UrlVerifier(plan, LrpMode).value;
    var fileReadKey := KeyDiversification.Diversified(AesCipherOf(aes, masterKey), KeyDiversification.InputOf(r.uid, 2));
    var metaReadKey := KeyDiversification.Diversified(AesCipherOf(aes, masterKey), KeyDiversification.InputOf(r.uid, 1));
    SameKeys(aes, masterKey, r.uid);
    ShiftedKeeps(url, LrpMode, PROVISIONING, shifted);
    BuiltFromTokens(url, LrpMode, PROVISIONING);
    TemplateToVerdict(aes, url, LrpMode, PROVISIONING, fileReadKey, metaReadKey, rest, r);
    TappedParses(aes, url, LrpMode, PROVISIONING, fileReadKey, metaReadKey, rest, r);
    PrefixEnds(url, plan.prefixCode);
    var input := ParsedUri(Rendered(aes, plan.settings, LrpMode, fileReadKey, metaReadKey, plan.ndefBytes + rest, r)).value;
    assert input[..plan.prefixLen] == url[..plan.prefixLen] == Prefix(plan.prefixCode);
  }
}
