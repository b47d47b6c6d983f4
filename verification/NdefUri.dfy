/**
  NDEF URI records: the prefix table (NFC Forum URI Record Type Definition section 3.2.2), the build
  and the parse of sdm_url.rs, and that one undoes the other.
 */
module NdefUri {
  import opened Wrappers
  import opened Octets
  import opened Blocks
  import opened Suite
  import opened Sdm
  import opened Utf8
  import opened Template
  import opened TemplateLayout

  const CAPACITY := 256

  // ---------------------------------------------------------------- the prefix table

  /** `NDEF_URI_PREFIXES`, in its order: entry `code` abbreviates this string. */
  function PrefixName(code: nat): string
    requires 1 <= code <= 35
  {
    match code
    case 0x01 => "http://www."
    case 0x02 => "https://www."
    case 0x03 => "http://"
    case 0x04 => "https://"
    case 0x05 => "tel:"
    case 0x06 => "mailto:"
    case 0x07 => "ftp://anonymous:anonymous@"
    case 0x08 => "ftp://ftp."
    case 0x09 => "ftps://"
    case 0x0A => "sftp://"
    case 0x0B => "smb://"
    case 0x0C => "nfs://"
    case 0x0D => "ftp://"
    case 0x0E => "dav://"
    case 0x0F => "news:"
    case 0x10 => "telnet://"
    case 0x11 => "imap:"
    case 0x12 => "rtsp://"
    case 0x13 => "urn:"
    case 0x14 => "pop:"
    case 0x15 => "sip:"
    case 0x16 => "sips:"
    case 0x17 => "tftp:"
    case 0x18 => "btspp://"
    case 0x19 => "btl2cap://"
    case 0x1A => "btgoep://"
    case 0x1B => "tcpobex://"
    case 0x1C => "irdaobex://"
    case 0x1D => "file://"
    case 0x1E => "urn:epc:id:"
    case 0x1F => "urn:epc:tag:"
    case 0x20 => "urn:epc:pat:"
    case 0x21 => "urn:epc:raw:"
    case 0x22 => "urn:epc:"
    case _ => "urn:nfc:"
  }

  /** The characters of the prefixes: ASCII, and none that templates reserve. */
  predicate IsPlain(c: char) {
    '!' < c < '{' && c != '[' && c != '\\' && c != ']'
  }

  predicate IsPlainName(name: string) {
    0 < |name| <= 26 && forall i :: 0 <= i < |name| ==> IsPlain(name[i])
  }

  lemma PlainFrom1(code: nat)
    requires 1 <= code <= 4
    ensures IsPlainName(PrefixName(code))
  {
  }

  lemma PlainFrom5(code: nat)
    requires 5 <= code <= 8
    ensures IsPlainName(PrefixName(code))
  {
  }

  lemma PlainFrom9(code: nat)
    requires 9 <= code <= 16
    ensures IsPlainName(PrefixName(code))
  {
  }

  lemma PlainFrom17(code: nat)
    requires 17 <= code <= 24
    ensures IsPlainName(PrefixName(code))
  {
  }

  lemma PlainFrom25(code: nat)
    requires 25 <= code <= 30
    ensures IsPlainName(PrefixName(code))
  {
  }

  lemma PlainFrom31(code: nat)
    requires 31 <= code <= 35
    ensures IsPlainName(PrefixName(code))
  {
  }

  lemma PrefixesArePlain(code: nat)
    requires 1 <= code <= 35
    ensures IsPlainName(PrefixName(code))
  {
    hide PrefixName;
    if code <= 4 {
      PlainFrom1(code);
    } else if code <= 8 {
      PlainFrom5(code);
    } else if code <= 16 {
      PlainFrom9(code);
    } else if code <= 24 {
      PlainFrom17(code);
    } else if code <= 30 {
      PlainFrom25(code);
    } else {
      PlainFrom31(code);
    }
  }

  function Prefix(code: nat): (p: seq<byte>)
    requires code <= 35
    ensures |p| <= 26
  {
    if code == 0 then []
    else
      PrefixesArePlain(code);
      var name := PrefixName(code);
      seq(|name|, i requires 0 <= i < |name| => name[i] as int)
  }

  /**
    The codes of the URI Record Type Definition, one by one: which text each of them stands for.
   */
  predicate Abbreviates(code: byte, p: seq<byte>) {
    match code
    case 0x00 => |p| == 0
    case 0x01 => Spells(p, "http://www.")
    case 0x02 => Spells(p, "https://www.")
    case 0x03 => Spells(p, "http://")
    case 0x04 => Spells(p, "https://")
    case 0x05 => Spells(p, "tel:")
    case 0x06 => Spells(p, "mailto:")
    case 0x07 => Spells(p, "ftp://anonymous:anonymous@")
    case 0x08 => Spells(p, "ftp://ftp.")
    case 0x09 => Spells(p, "ftps://")
    case 0x0A => Spells(p, "sftp://")
    case 0x0B => Spells(p, "smb://")
    case 0x0C => Spells(p, "nfs://")
    case 0x0D => Spells(p, "ftp://")
    case 0x0E => Spells(p, "dav://")
    case 0x0F => Spells(p, "news:")
    case 0x10 => Spells(p, "telnet://")
    case 0x11 => Spells(p, "imap:")
    case 0x12 => Spells(p, "rtsp://")
    case 0x13 => Spells(p, "urn:")
    case 0x14 => Spells(p, "pop:")
    case 0x15 => Spells(p, "sip:")
    case 0x16 => Spells(p, "sips:")
    case 0x17 => Spells(p, "tftp:")
    case 0x18 => Spells(p, "btspp://")
    case 0x19 => Spells(p, "btl2cap://")
    case 0x1A => Spells(p, "btgoep://")
    case 0x1B => Spells(p, "tcpobex://")
    case 0x1C => Spells(p, "irdaobex://")
    case 0x1D => Spells(p, "file://")
    case 0x1E => Spells(p, "urn:epc:id:")
    case 0x1F => Spells(p, "urn:epc:tag:")
    case 0x20 => Spells(p, "urn:epc:pat:")
    case 0x21 => Spells(p, "urn:epc:raw:")
    case 0x22 => Spells(p, "urn:epc:")
    case 0x23 => Spells(p, "urn:nfc:")
    case _ => false
  }

  lemma AbbreviatesFrom1(code: nat)
    requires 1 <= code <= 4
    ensures Abbreviates(code, Prefix(code))
  {
  }

  lemma AbbreviatesFrom5(code: nat)
    requires 5 <= code <= 8
    ensures Abbreviates(code, Prefix(code))
  {
  }

  lemma AbbreviatesFrom9(code: nat)
    requires 9 <= code <= 16
    ensures Abbreviates(code, Prefix(code))
  {
  }

  lemma AbbreviatesFrom17(code: nat)
    requires 17 <= code <= 24
    ensures Abbreviates(code, Prefix(code))
  {
  }

  lemma AbbreviatesFrom25(code: nat)
    requires 25 <= code <= 30
    ensures Abbreviates(code, Prefix(code))
  {
  }

  lemma AbbreviatesFrom31(code: nat)
    requires 31 <= code <= 35
    ensures Abbreviates(code, Prefix(code))
  {
  }

  /** The table's entry is what the code stands for. */
  lemma TableAbbreviates(code: nat)
    requires code <= 35
    ensures Abbreviates(code, Prefix(code))
  {
    hide Prefix, Abbreviates;
    if code == 0 {
      NothingAbbreviated();
    } else if code <= 4 {
      AbbreviatesFrom1(code);
    } else if code <= 8 {
      AbbreviatesFrom5(code);
    } else if code <= 16 {
      AbbreviatesFrom9(code);
    } else if code <= 24 {
      AbbreviatesFrom17(code);
    } else if code <= 30 {
      AbbreviatesFrom25(code);
    } else {
      AbbreviatesFrom31(code);
    }
  }

  lemma NothingAbbreviated()
    ensures Abbreviates(0, Prefix(0))
  {
  }

  lemma AbbreviatesOnce(code: byte, p: seq<byte>, q: seq<byte>)
    requires Abbreviates(code, p) && Abbreviates(code, q)
    ensures p == q
  {
    SpelledSame();
    hide Spells;
  }

  /** No character of a prefix is reserved in templates, and all are ASCII. */
  lemma PrefixBytes(code: nat)
    requires code <= 35
    ensures forall i :: 0 <= i < |Prefix(code)| ==> Prefix(code)[i] < 0x80 && !IsReserved(Prefix(code)[i])
  {
    if code > 0 {
      PrefixesArePlain(code);
    }
  }

  predicate IsReserved(b: byte) {
    b == 0x7B || b == 0x5B || b == 0x5D || b == 0x5C
  }

  /** The first entry from `code` on that `url` starts with. */
  function FirstMatch(url: seq<byte>, code: nat): (r: nat)
    requires 1 <= code <= 36
    ensures r <= 35 && EqAt(url, 0, Prefix(r))
    decreases 36 - code
  {
    if code == 36 then 0 else if EqAt(url, 0, Prefix(code)) then code else FirstMatch(url, code + 1)
  }

  /** The first code of those whose text the URL starts with, and the length of that text; 0 if there is none. */
  ghost predicate IsFirstCode(url: seq<byte>, code: byte, len: nat) {
    && len <= |url| && Abbreviates(code, url[..len])
    && forall c: byte, n: nat :: n <= |url| && 0 < c && (code == 0 || c < code) ==> !Abbreviates(c, url[..n])
  }

  lemma FirstMatchIsCode(url: seq<byte>)
    ensures IsFirstCode(url, FirstMatch(url, 1), |Prefix(FirstMatch(url, 1))|)
  {
    hide Prefix, FirstMatch, Abbreviates;
    var code := FirstMatch(url, 1);
    TableAbbreviates(code);
    assert url[..|Prefix(code)|] == url[0..|Prefix(code)|] == Prefix(code);
    forall c: byte, n: nat | n <= |url| && 0 < c && Abbreviates(c, url[..n]) ensures 1 <= code <= c {
      NoMoreCodes(c, url[..n]);
      TableAbbreviates(c);
      AbbreviatesOnce(c, url[..n], Prefix(c));
      assert url[0..n] == url[..n];
      FirstMatchIsFirst(url, 1, c);
    }
  }

  lemma NoMoreCodes(code: byte, p: seq<byte>)
    requires Abbreviates(code, p)
    ensures code <= 35
  {
  }

  predicate StartsWith(url: seq<byte>, text: string) {
    |text| <= |url| && Spells(url[..|text|], text)
  }

  /** A URL with `https` in front has no other code before 0x04. */
  lemma OtherHttp(url: seq<byte>, code: byte, len: nat)
    requires 0 < code < 4 && len <= |url| && Abbreviates(code, url[..len]) && |url| > 4 && url[4] == 0x73
    ensures code == 2 && StartsWith(url, "https://www.")
  {
    assert url[..len][4] == url[4];
  }

  /** 0x04 is for `https://` where no `www.` follows. */
  lemma HttpsExactly(url: seq<byte>)
    ensures FirstMatch(url, 1) == 0x04 <==> StartsWith(url, "https://") && !StartsWith(url, "https://www.")
  {
    hide Prefix, FirstMatch;
    FirstMatchIsCode(url);
    var code, len := FirstMatch(url, 1), |Prefix(FirstMatch(url, 1))|;
    if code == 4 {
      assert len == 8;
      assert StartsWith(url, "https://www.") ==> Abbreviates(2, url[..12]);
    }
    if StartsWith(url, "https://") && !StartsWith(url, "https://www.") {
      assert Abbreviates(4, url[..8]);
      assert url[4] == url[..8][4] == 0x73;
      if code < 4 {
        OtherHttp(url, code, len);
      }
    }
  }

  /** `detect_uri_prefix`: the first match in table order, which need not be the longest. */
  method DetectUriPrefix(url: seq<byte>) returns (code: byte, len: nat)
    ensures code <= 35 && code == FirstMatch(url, 1) && len == |Prefix(code)| <= |url| && url[..len] == Prefix(code)
    ensures IsFirstCode(url, code, len)
    ensures code == 0x04 <==> StartsWith(url, "https://") && !StartsWith(url, "https://www.")
  {
    hide Prefix, IsFirstCode, StartsWith;
    FirstMatchIsCode(url);
    HttpsExactly(url);
    var i := 1;
    while i < 36
      invariant 1 <= i <= 36 && FirstMatch(url, 1) == FirstMatch(url, i)
    {
      var eq := BytesEqAt(url, 0, Prefix(i));
      if eq {
        return i, |Prefix(i)|;
      }
      i := i + 1;
    }
    NoPrefix();
    return 0, 0;
  }

  lemma NoPrefix()
    ensures Prefix(0) == []
  {
  }

  /** No entry before `urn:` starts with a `u`. */
  lemma EarlierEntries(code: nat)
    requires 1 <= code < 0x13
    ensures |Prefix(code)| > 0 && Prefix(code)[0] != 0x75
  {
    EarlierNames(code);
  }

  lemma EarlierNames(code: nat)
    requires 1 <= code < 0x13
    ensures |PrefixName(code)| > 0 && PrefixName(code)[0] != 'u'
  {
  }

  lemma MatchAt(url: seq<byte>, p: seq<byte>, i: nat)
    requires i < |p|
    ensures EqAt(url, 0, p) ==> url[i] == p[i]
  {
    if EqAt(url, 0, p) {
      assert url[0..|p|][i] == url[i];
    }
  }

  lemma {:induction false} FirstMatchFrom(url: seq<byte>, from: nat, code: nat)
    requires 1 <= from <= code == 0x13 && EqAt(url, 0, Prefix(code)) && |url| > 0 && url[0] == 0x75
    ensures FirstMatch(url, from) == code
    decreases code - from
  {
    hide Prefix;
    if from < code {
      EarlierEntries(from);
      MatchAt(url, Prefix(from), 0);
      FirstMatchFrom(url, from + 1, code);
    }
  }

  // ---------------------------------------------------------------- first match and longest match

  /** Entry `d` abbreviates more than entry `c`, of every URL that starts with it. */
  predicate Extends(d: nat, c: nat)
    requires c <= 35 && d <= 35
  {
    |Prefix(c)| < |Prefix(d)| && Prefix(d)[..|Prefix(c)|] == Prefix(c)
  }

  /** The entry chosen for a URL is the longest one that it starts with. */
  predicate IsLongest(url: seq<byte>, code: nat)
    requires code <= 35
  {
    forall d :: 1 <= d <= 35 && EqAt(url, 0, Prefix(d)) ==> |Prefix(d)| <= |Prefix(code)|
  }

  /** `urn:` stands in the table before everything longer that starts with it. */
  predicate IsHidden(code: nat) {
    0x1E <= code <= 0x23
  }

  /** The first entry that begins with the same four characters. */
  function Root(code: nat): nat {
    if code <= 4 then 0x01
    else if code in {0x07, 0x08, 0x0D} then 0x07
    else if code == 0x13 || IsHidden(code) then 0x13
    else code
  }

  /** The same, found from the four characters. */
  function RootOf(a: char, b: char, c: char, d: char): nat {
    match a
    case 'h' => 0x01
    case 'f' => if b == 'i' then 0x1D else if d == 's' then 0x09 else 0x07
    case 't' => if b == 'f' then 0x17 else if b == 'c' then 0x1B else if d == ':' then 0x05 else 0x10
    case 's' => if b == 'f' then 0x0A else if b == 'm' then 0x0B else if d == ':' then 0x15 else 0x16
    case 'n' => if b == 'f' then 0x0C else 0x0F
    case 'i' => if b == 'm' then 0x11 else 0x1C
    case 'b' => if d == 'p' then 0x18 else if d == '2' then 0x19 else 0x1A
    case 'm' => 0x06
    case 'd' => 0x0E
    case 'r' => 0x12
    case 'p' => 0x14
    case _ => 0x13
  }

  lemma RootIsOf(code: nat)
    requires 1 <= code <= 35
    ensures var n := PrefixName(code); |n| >= 4 && RootOf(n[0], n[1], n[2], n[3]) == Root(code)
  {
  }

  lemma NamesAreLong(code: nat)
    requires 1 <= code <= 35
    ensures |PrefixName(code)| >= 4 && |Prefix(code)| == |PrefixName(code)|
    ensures forall i :: 0 <= i < |Prefix(code)| ==> Prefix(code)[i] == PrefixName(code)[i] as int
  {
  }

  /** Of entries with one root, the fifth or the ninth character tells an entry from later longer ones. */
  lemma RootsDiffer(c: nat, d: nat)
    requires 1 <= c < d <= 35 && Root(c) == Root(d) && |PrefixName(c)| < |PrefixName(d)|
    requires |PrefixName(c)| > 4 ==> PrefixName(c)[4] == PrefixName(d)[4]
    requires |PrefixName(c)| > 8 ==> PrefixName(c)[8] == PrefixName(d)[8]
    ensures c == 0x13 && IsHidden(d)
  {
  }

  /** The one entry that stands before longer ones which start with it is `urn:`. */
  lemma OnlyUrnHides(c: nat, d: nat)
    requires 1 <= c < d <= 35 && Extends(d, c)
    ensures c == 0x13 && IsHidden(d)
  {
    hide Prefix, PrefixName, RootOf, Root;
    NamesAreLong(c);
    NamesAreLong(d);
    var p, q := Prefix(c), Prefix(d);
    assert forall i :: 0 <= i < |p| ==> q[i] == q[..|p|][i] == p[i];
    RootIsOf(c);
    RootIsOf(d);
    RootsDiffer(c, d);
  }

  /** Every hidden entry starts with `urn:epc:` or is `urn:nfc:`. */
  lemma HiddenRoots(d: nat)
    requires IsHidden(d)
    ensures d == 0x23 || (|Prefix(d)| >= 8 && Prefix(d)[..8] == Prefix(0x22))
    ensures |Prefix(0x22)| == |Prefix(0x23)| == 8 && |Prefix(0x13)| == 4
    ensures Prefix(0x22)[..4] == Prefix(0x23)[..4] == Prefix(0x13) && Prefix(0x13)[0] == 0x75
  {
  }

  lemma HiddenMatch(url: seq<byte>, d: nat)
    requires IsHidden(d) && EqAt(url, 0, Prefix(d))
    ensures EqAt(url, 0, Prefix(0x22)) || EqAt(url, 0, Prefix(0x23))
  {
    hide Prefix;
    HiddenRoots(d);
    if d != 0x23 {
      assert url[0..8] == url[0..|Prefix(d)|][..8];
    }
  }

  lemma {:induction false} FirstMatchIsFirst(url: seq<byte>, from: nat, d: nat)
    requires 1 <= from <= d <= 35 && EqAt(url, 0, Prefix(d))
    ensures from <= FirstMatch(url, from) <= d
    decreases d - from
  {
    hide Prefix;
    if !EqAt(url, 0, Prefix(from)) {
      FirstMatchIsFirst(url, from + 1, d);
    }
  }

  /**
    The documented rule, and exactly where the code departs from it: the entry found is the longest one
    that the URL starts with, unless it starts with `urn:epc:` or `urn:nfc:`.
   */
  lemma LongestMatchExactly(url: seq<byte>)
    ensures IsLongest(url, FirstMatch(url, 1)) <==> !EqAt(url, 0, Prefix(0x22)) && !EqAt(url, 0, Prefix(0x23))
  {
    hide Prefix, FirstMatch;
    HiddenRoots(0x22);
    if EqAt(url, 0, Prefix(0x22)) || EqAt(url, 0, Prefix(0x23)) {
      UrnHides(url);
    } else {
      forall d | 1 <= d <= 35 && EqAt(url, 0, Prefix(d))
        ensures |Prefix(d)| <= |Prefix(FirstMatch(url, 1))|
      {
        FirstMatchIsFirst(url, 1, d);
        var c := FirstMatch(url, 1);
        if |Prefix(c)| < |Prefix(d)| {
          assert Prefix(d)[..|Prefix(c)|] == url[0..|Prefix(d)|][..|Prefix(c)|] == Prefix(c);
          OnlyUrnHides(c, d);
          HiddenMatch(url, d);
          assert false;
        }
      }
    }
  }

  /** URLs that start with `urn:epc:` or `urn:nfc:` get the shorter entry `urn:`. */
  lemma UrnHides(url: seq<byte>)
    requires EqAt(url, 0, Prefix(0x22)) || EqAt(url, 0, Prefix(0x23))
    ensures FirstMatch(url, 1) == 0x13 && !IsLongest(url, 0x13)
  {
    hide Prefix, FirstMatch;
    HiddenRoots(0x22);
    assert url[0..4] == url[0..8][..4];
    MatchAt(url, Prefix(0x13), 0);
    FirstMatchFrom(url, 1, 0x13);
  }

  /** `urn:nfc:sn` is stored as `urn:` and `nfc:sn`, though the table has `urn:nfc:`. */
  lemma NfcUrnIsHidden()
    ensures var url := Prefix(0x23) + [0x73, 0x6E];
      && EqAt(url, 0, Prefix(0x23)) && FirstMatch(url, 1) == 0x13 && |Prefix(0x13)| < |Prefix(0x23)| && !IsLongest(url, 0x13)
  {
    hide Prefix, FirstMatch;
    HiddenRoots(0x23);
    var url := Prefix(0x23) + [0x73, 0x6E];
    assert url[0..8] == Prefix(0x23);
    UrnHides(url);
  }

  // ---------------------------------------------------------------- building

  datatype Options = Options(piccKey: byte, macKey: byte, maxFileSize: u16)

  datatype Plan = Plan(ndefBytes: seq<byte>, settings: Settings, prefixLen: nat, prefixCode: byte)

  function CheckedOffset(o: nat, name: string): Result<Offset, TemplateError> {
    if o > 0x00FF_FFFF then Err(FileSettingsFailed(name + " out of range")) else Ok(o)
  }

  function CheckedOption(o: Option<nat>, name: string): Result<Option<Offset>, TemplateError> {
    if o.None? then Ok(None)
    else
      var v :- CheckedOffset(o.value, name);
      Ok(Some(v))
  }

  function PiccDataOf(p: ParsedTemplate, opts: Options): Result<PiccData, TemplateError> {
    if p.picc.Some? then
      var offset :- CheckedOffset(p.picc.value.0, "picc_offset");
      Ok(EncryptedPicc(opts.piccKey, offset, p.picc.value.1))
    else
      var uid :- CheckedOption(p.uidOffset, "uid_offset");
      var ctr :- CheckedOption(p.ctrOffset, "ctr_offset");
      Ok(if uid.Some? && ctr.Some? then Plain(UidAndRCtr(uid.value, ctr.value))
         else if uid.Some? then Plain(Uid(uid.value))
         else if ctr.Some? then Plain(RCtr(ctr.value))
         else NoPicc)
  }

  function FileReadOf(p: ParsedTemplate, opts: Options): Result<FileRead, TemplateError> {
    var input :- CheckedOffset(p.macInput, "mac_input");
    var mac :- CheckedOffset(p.macOffset, "mac_offset");
    if p.encRange.None? then Ok(MacOnly(opts.macKey, MacWindow(input, mac)))
    else
      var start :- CheckedOffset(p.encRange.value.0, "enc_start");
      var len := p.encRange.value.1 - p.encRange.value.0;
      if len <= 0 || len % 32 != 0 || len > 0x00FF_FFFF then Err(FileSettingsFailed("enc_length invalid"))
      else Ok(MacAndEnc(opts.macKey, MacWindow(input, mac), start, len))
  }

  function SettingsError(e: FileSettingsError): TemplateError {
    match e
    case MacInputAfterMac => FileSettingsFailed("mac_input > mac")
    case EncOutsideMacWindow => FileSettingsFailed("enc outside mac window")
    case EncRequiresBothMirrors => EncFileDataRequiresUidAndCtr
    case _ => FileSettingsFailed("sdm_settings")
  }

  function SettingsOf(p: ParsedTemplate, mode: CryptoMode, opts: Options): Result<Settings, TemplateError> {
    var picc :- PiccDataOf(p, opts);
    var fr :- FileReadOf(p, opts);
    var tt :- CheckedOption(p.ttOffset, "tt_offset");
    var s := Sdm.TryNew(picc, Some(fr), tt, mode);
    if s.Err? then Err(SettingsError(s.error)) else Ok(s.value)
  }

  /** NLEN, the record header, and the abbreviated URI. */
  function NdefBytesOf(content: seq<byte>, code: byte): (b: seq<byte>)
    requires |content| < 255
    ensures |b| == 7 + |content|
  {
    Be16(5 + |content|) + [0xD1, 0x01, 1 + |content|, 0x55, code] + content
  }

  function SizeError(content: seq<byte>, opts: Options): Option<TemplateError> {
    var total := 7 + |content|;
    if 1 + |content| > 255 || total > opts.maxFileSize then Some(FileTooLong(total, opts.maxFileSize))
    else if total > CAPACITY then Some(OutputBufferTooSmall(CAPACITY + 1, CAPACITY))
    else None
  }

  /** The MAC key number and the PICC key number of the options go into the settings. */
  predicate UsesKeys(s: Settings, opts: Options) {
    && s.fileRead.Some? && s.fileRead.value.key == opts.macKey
    && (s.picc.EncryptedPicc? ==> s.picc.key == opts.piccKey)
  }

  lemma SettingsUseKeys(p: ParsedTemplate, mode: CryptoMode, opts: Options)
    ensures SettingsOf(p, mode, opts).Ok? ==> UsesKeys(SettingsOf(p, mode, opts).value, opts)
  {
    hide Overlap, OverlapError, PiccOverlapError;
  }

  function Built(url: seq<byte>, mode: CryptoMode, opts: Options): (r: Result<Plan, TemplateError>)
    requires IsUtf8(url)
    ensures r.Ok? ==> r.value.prefixLen <= 26
  {
    var code := FirstMatch(url, 1);
    var len := |Prefix(code)|;
    PrefixEnds(url, code);
    var p :- Parsed(url, len, mode, CAPACITY);
    if SizeError(p.uriContent, opts).Some? then Err(SizeError(p.uriContent, opts).value)
    else
      var settings :- SettingsOf(p, mode, opts);
      Ok(Plan(NdefBytesOf(p.uriContent, code), settings, len, code))
  }

  /** A prefix ends where a character does. */
  lemma PrefixEnds(url: seq<byte>, code: nat)
    requires IsUtf8(url) && code <= 35 && EqAt(url, 0, Prefix(code))
    ensures |Prefix(code)| <= |url| && IsUtf8From(url, |Prefix(code)|)
  {
    hide Prefix;
    var n := |Prefix(code)|;
    PrefixBytes(code);
    if n > 0 {
      assert url[n - 1] == url[0..n][n - 1];
      AsciiIsBoundary(url, 0, n - 1);
    }
  }

  /** A file with one short URI record in it: NLEN, the flags D1, a type of one byte, the payload length, `U`. */
  predicate IsUriRecord(b: seq<byte>) {
    && |b| >= 7 && 256 * b[0] as nat + b[1] as nat == |b| - 2
    && b[2] == 0xD1 && b[3] == 0x01 && b[4] as nat == |b| - 6 && b[5] == 0x55
  }

  lemma RecordIs(content: seq<byte>, code: byte)
    requires |content| < 255
    ensures var n := 5 + |content|;
      NdefBytesOf(content, code) == [n / 256, n % 256, 0xD1, 0x01, 1 + |content|, 0x55, code] + content
    ensures IsUriRecord(NdefBytesOf(content, code)) && NdefBytesOf(content, code)[6] == code
  {
    var n := 5 + |content|;
    BigEndian(n / 256, n % 256);
  }

  /** NLEN, header and content, one after the other into the fixed buffer. */
  method WriteRecord(content: seq<byte>, code: byte) returns (r: Result<seq<byte>, TemplateError>)
    requires |content| < 255
    ensures if 7 + |content| > CAPACITY then r == Err(OutputBufferTooSmall(CAPACITY + 1, CAPACITY))
            else r == Ok(NdefBytesOf(content, code)) && IsUriRecord(r.value) && r.value[6] == code
  {
    RecordIs(content, code);
    hide NdefBytesOf, IsUriRecord;
    var n := 5 + |content|;
    var ndef := new NdefBytes(CAPACITY);
    var header: seq<byte> := [n / 256, n % 256, 0xD1, 0x01, 1 + |content|, 0x55, code];
    var headed := ndef.ExtendBytes(header, 0, 7);
    assert headed.Ok?;
    var _ :- ndef.ExtendBytes(content, 0, |content|);
    assert header[0..7] == header && content[0..|content|] == content;
    assert ndef.Contents() == header + content;
    return Ok(ndef.Contents());
  }

  /** `build_sdm_ndef_plan_core` */
  method Build(url: seq<byte>, mode: CryptoMode, opts: Options) returns (r: Result<Plan, TemplateError>)
    requires IsUtf8(url)
    ensures r == Built(url, mode, opts)
    ensures r.Ok? ==> IsUriRecord(r.value.ndefBytes)
    ensures r.Ok? ==> IsFirstCode(url, r.value.ndefBytes[6], r.value.prefixLen) && UsesKeys(r.value.settings, opts)
    ensures r.Ok? ==> (r.value.ndefBytes[6] == 0x04 <==> StartsWith(url, "https://") && !StartsWith(url, "https://www."))
  {
    hide Prefix, FirstMatch, Parsed, SettingsOf, IsFirstCode, StartsWith, NdefBytesOf, IsUtf8From, EqAt;
    var code, abbrevStart := DetectUriPrefix(url);
    PrefixEnds(url, code);
    var p :- ParseTemplate(url, abbrevStart, mode, CAPACITY);
    var payloadLen := 1 + |p.uriContent|;
    if payloadLen > 255 {
      return Err(FileTooLong(2 + 4 + payloadLen, opts.maxFileSize));
    }
    var ndefMsgLen := 4 + payloadLen;
    var totalLen := 2 + ndefMsgLen;
    if totalLen > opts.maxFileSize {
      return Err(FileTooLong(totalLen, opts.maxFileSize));
    }
    var ndefBytes :- WriteRecord(p.uriContent, code);
    SettingsUseKeys(p, mode, opts);
    var settings :- SettingsOf(p, mode, opts);
    return Ok(Plan(ndefBytes, settings, abbrevStart, code));
  }

  // ---------------------------------------------------------------- parsing

  datatype ParseError =
    | InvalidHeader
    | SizeMismatch(expected: nat, actual: nat)
    | UnknownPrefixCode(code: byte)
    | PayloadSizeMismatch(expected: nat, actual: nat)
    | Encoding

  predicate HasHeader(b: seq<byte>) {
    |b| >= 7 && b[2] == 0xD1 && b[3] == 0x01 && b[5] == 0x55
  }

  /** NLEN is at least 5, or the record is refused before its payload is looked at. */
  predicate IsParseable(b: seq<byte>) {
    HasHeader(b) ==> FromBe16(b[..2]) + 2 > |b| || FromBe16(b[..2]) >= 5
  }

  /** `parse_ndef_uri` */
  function ParsedUri(b: seq<byte>): Result<seq<byte>, ParseError>
    requires IsParseable(b)
  {
    if !HasHeader(b) then Err(InvalidHeader)
    else
      var size := FromBe16(b[..2]);
      if size + 2 > |b| then Err(SizeMismatch(size + 2, |b|))
      else if b[6] > 35 then Err(UnknownPrefixCode(b[6]))
      else if size + 2 != 2 + 4 + b[4] as nat then Err(PayloadSizeMismatch(2 + 4 + b[4] as nat, size + 2))
      else if !IsUtf8(b[7..size + 2]) then Err(Encoding)
      else Ok(Prefix(b[6]) + b[7..size + 2])
  }

  /** What a call of `parse_ndef_uri` comes to. */
  datatype ParseOutcome = Finished(r: Result<seq<byte>, ParseError>) | Panicked

  /** Without the `alloc` feature, the string is an `ArrayString<256>`. */
  const ARRAY_STRING_CAPACITY := 256

  /** With or without `alloc`: the cases where the code panics, and what it returns otherwise. */
  function Parse(b: seq<byte>, alloc: bool): ParseOutcome {
    if !IsParseable(b) then Panicked
    else
      var r := ParsedUri(b);
      if r.Ok? && !alloc && |r.value| > ARRAY_STRING_CAPACITY then Panicked else Finished(r)
  }

  /** The string under construction: growing without bound, or in a buffer whose `push_str` panics when full. */
  class UrlString {
    const alloc: bool
    var content: seq<byte>

    constructor (alloc: bool)
      ensures this.alloc == alloc && content == []
    {
      this.alloc, content := alloc, [];
    }

    method PushStr(s: seq<byte>) returns (fits: bool)
      modifies this
      ensures fits == (alloc || |old(content)| + |s| <= ARRAY_STRING_CAPACITY)
      ensures content == if fits then old(content) + s else old(content)
    {
      fits := alloc || |content| + |s| <= ARRAY_STRING_CAPACITY;
      if fits {
        content := content + s;
      }
    }
  }

  /** Every well-formed record, whatever follows it, is read as the text of its code and its content. */
  ghost predicate ReadsRecords(b: seq<byte>, alloc: bool, o: ParseOutcome) {
    forall n: nat, p: seq<byte> :: 7 <= n <= |b| && IsUriRecord(b[..n]) && IsUtf8(b[7..n]) && Abbreviates(b[6], p) ==>
      o == if alloc || |p| + n - 7 <= 256 then Finished(Ok(p + b[7..n])) else Panicked
  }

  lemma ParseReads(b: seq<byte>, alloc: bool)
    ensures ReadsRecords(b, alloc, Parse(b, alloc))
  {
    hide Prefix, Abbreviates, IsUtf8From;
    forall n: nat, p: seq<byte> | 7 <= n <= |b| && IsUriRecord(b[..n]) && IsUtf8(b[7..n]) && Abbreviates(b[6], p)
      ensures Parse(b, alloc) == if alloc || |p| + n - 7 <= 256 then Finished(Ok(p + b[7..n])) else Panicked
    {
      NoMoreCodes(b[6], p);
      TableAbbreviates(b[6]);
      AbbreviatesOnce(b[6], p, Prefix(b[6]));
      HeaderOf(b, n);
    }
  }

  lemma HeaderOf(b: seq<byte>, n: nat)
    requires 7 <= n <= |b| && IsUriRecord(b[..n])
    ensures HasHeader(b) && FromBe16(b[..2]) == n - 2 && b[4] as nat == n - 6
  {
    var r := b[..n];
    assert forall k :: 0 <= k < 7 ==> r[k] == b[k];
    BigEndian(b[0], b[1]);
    assert b[..2] == [b[0], b[1]];
  }

  /** `parse_ndef_uri` in both builds. */
  method ParseNdefUri(ndefBytes: seq<byte>, alloc: bool) returns (o: ParseOutcome)
    ensures o == Parse(ndefBytes, alloc) && ReadsRecords(ndefBytes, alloc, o)
  {
    hide Prefix, IsUtf8From, ReadsRecords;
    ParseReads(ndefBytes, alloc);
    if |ndefBytes| < 7 || ndefBytes[2] != 0xD1 || ndefBytes[3] != 0x01 || ndefBytes[5] != 0x55 {
      return Finished(Err(InvalidHeader));
    }
    var size := FromBe16(ndefBytes[..2]);
    if size + 2 > |ndefBytes| {
      return Finished(Err(SizeMismatch(size + 2, |ndefBytes|)));
    }
    var record := ndefBytes[..size + 2];
    if |record| <= 6 {
      return Panicked;
    }
    var payloadLen, prefixCode := record[4], record[6];
    if prefixCode > 35 {
      return Finished(Err(UnknownPrefixCode(prefixCode)));
    }
    if |record| != 2 + 4 + payloadLen as nat {
      return Finished(Err(PayloadSizeMismatch(2 + 4 + payloadLen as nat, |record|)));
    }
    var url := new UrlString(alloc);
    var fits := url.PushStr(Prefix(prefixCode));
    assert record[7..] == ndefBytes[7..size + 2];
    if !IsUtf8(record[7..]) {
      return Finished(Err(Encoding));
    }
    assert url.content == Prefix(prefixCode);
    fits := url.PushStr(record[7..]);
    if !fits {
      return Panicked;
    }
    return Finished(Ok(url.content));
  }

  /** A record parses to its prefix and its content, whatever follows it in the file. */
  lemma RecordParses(content: seq<byte>, code: byte, rest: seq<byte>)
    requires |content| < 255 && code <= 35 && IsUtf8(content)
    ensures var b := NdefBytesOf(content, code) + rest;
      && IsParseable(b) && ParsedUri(b) == Ok(Prefix(code) + content)
      && Parse(b, true) == Finished(Ok(Prefix(code) + content))
      && Parse(b, false) == (if |Prefix(code)| + |content| <= ARRAY_STRING_CAPACITY then Finished(Ok(Prefix(code) + content)) else Panicked)
  {
    hide Prefix, IsUtf8From;
    var b, n := NdefBytesOf(content, code) + rest, 5 + |content|;
    assert b[..2] == [n / 256, n % 256];
    assert b[7..7 + |content|] == content;
  }

  // ---------------------------------------------------------------- parsing undoes building

  /** The literals of a template are whole characters. */
  predicate LiteralsAreChars(ts: seq<Token>) {
    forall i :: 0 <= i < |ts| && ts[i].Literal? ==> IsChar(ts[i].bytes)
  }

  lemma LexedLiteral(url: seq<byte>, i: nat)
    requires i < |url| && IsUtf8From(url, i) && LexOne(url, i).Ok?
    ensures LexOne(url, i).value.0.Literal? ==> IsChar(LexOne(url, i).value.0.bytes)
  {
    hide PlaceholderAt;
    if url[i] == 0x5C {
      AsciiIsBoundary(url, i, i);
    }
  }

  lemma {:induction false} LexedLiterals(url: seq<byte>, i: nat)
    requires i <= |url| && IsUtf8From(url, i) && Lex(url, i).Ok?
    ensures LiteralsAreChars(Lex(url, i).value)
    decreases |url| - i
  {
    hide LexOne, IsUtf8From, IsChar;
    if i < |url| {
      LexedLiteral(url, i);
      LexedLiterals(url, i + LexOne(url, i).value.1);
    }
  }

  lemma {:induction false} ZerosAreUtf8(n: nat, i: nat)
    requires i <= n
    ensures IsUtf8From(ZeroChars(n), i)
    decreases n - i
  {
    if i < n {
      assert ZeroChars(n)[i..i + 1] == [ZERO_CHAR];
      ZerosAreUtf8(n, i + 1);
    }
  }

  /** What compiles from UTF-8 is UTF-8. */
  lemma {:induction false} OutIsUtf8(ts: seq<Token>, mode: CryptoMode)
    requires LiteralsAreChars(ts)
    ensures IsUtf8(Out(ts, mode))
  {
    hide IsUtf8From, IsChar;
    if |ts| > 0 {
      OutIsUtf8(Front(ts), mode);
      var more := Rendering(Last(ts), Inside(Front(ts)), mode);
      match Last(ts) {
        case Literal(bytes) => CharIsUtf8(bytes); ZerosAreUtf8(|bytes|, 0);
        case Placeholder(f) => ZerosAreUtf8(FillLen(f, mode), 0);
        case _ => ZerosAreUtf8(0, 0); assert ZeroChars(0) == [];
      }
      Concat(Out(Front(ts), mode), more, 0);
    } else {
      ZerosAreUtf8(0, 0);
      assert ZeroChars(0) == [];
    }
  }

  /** The tokens of a template's body, behind its prefix. */
  function Tokens(url: seq<byte>): Result<seq<Token>, TemplateError>
    requires IsUtf8(url)
  {
    PrefixEnds(url, FirstMatch(url, 1));
    Lex(url, |Prefix(FirstMatch(url, 1))|)
  }

  /** What a built plan is, in terms of the template's tokens. */
  lemma BuiltFromTokens(url: seq<byte>, mode: CryptoMode, opts: Options)
    requires IsUtf8(url) && Built(url, mode, opts).Ok?
    ensures var plan, ts := Built(url, mode, opts).value, Tokens(url);
      && ts.Ok? && IsWellFormed(ts.value, mode) && LiteralsAreChars(ts.value)
      && plan.prefixCode == FirstMatch(url, 1) && plan.prefixLen == |Prefix(plan.prefixCode)|
      && |Out(ts.value, mode)| <= 249 && plan.ndefBytes == NdefBytesOf(Out(ts.value, mode), plan.prefixCode)
      && |plan.ndefBytes| <= opts.maxFileSize
      && SettingsOf(Layout(ts.value, mode), mode, opts) == Ok(plan.settings)
  {
    hide Prefix, FirstMatch, Parsed, SettingsOf, IsWellFormed, Out, Layout, Lex;
    var code := FirstMatch(url, 1);
    PrefixEnds(url, code);
    AcceptsExactly(url, |Prefix(code)|, mode, CAPACITY);
    LexedLiterals(url, |Prefix(code)|);
    LayoutContent(Lex(url, |Prefix(code)|).value, mode);
  }

  lemma LayoutContent(ts: seq<Token>, mode: CryptoMode)
    requires IsWellFormed(ts, mode)
    ensures Layout(ts, mode).uriContent == Out(ts, mode)
  {
  }

  /**
    Building and parsing back gives the prefix and the rendered body, with zeros where placeholders stood;
    without `alloc`, exactly when both together have at most 256 bytes.
   */
  lemma BuiltParsesBack(url: seq<byte>, mode: CryptoMode, opts: Options, rest: seq<byte>)
    requires IsUtf8(url) && Built(url, mode, opts).Ok?
    ensures var plan, ts := Built(url, mode, opts).value, Tokens(url);
      && IsParseable(plan.ndefBytes + rest)
      && ts.Ok? && ParsedUri(plan.ndefBytes + rest) == Ok(url[..plan.prefixLen] + Out(ts.value, mode))
      && Parse(plan.ndefBytes + rest, true) == Finished(ParsedUri(plan.ndefBytes + rest))
      && Parse(plan.ndefBytes + rest, false)
         == (if plan.prefixLen + |Out(ts.value, mode)| <= ARRAY_STRING_CAPACITY then Finished(ParsedUri(plan.ndefBytes + rest)) else Panicked)
  {
    hide Built, Tokens, Out, IsWellFormed, NdefBytesOf, Prefix, LiteralsAreChars;
    BuiltFromTokens(url, mode, opts);
    var plan, ts := Built(url, mode, opts).value, Tokens(url).value;
    OutIsUtf8(ts, mode);
    RecordParses(Out(ts, mode), plan.prefixCode, rest);
  }

  // ---------------------------------------------------------------- which layouts make settings

  /** The layout of a template whose offsets fit, as settings. */
  function LayoutSettings(p: ParsedTemplate, opts: Options): Settings
    requires IsSmall(p)
  {
    Settings(PiccDataOf(p, opts).value, Some(FileReadOf(p, opts).value), CheckedOption(p.ttOffset, "").value)
  }

  /** Offsets that fit a file, and a proper encrypted range. */
  predicate IsSmall(p: ParsedTemplate) {
    && (p.uidOffset.Some? ==> p.uidOffset.value <= 0xFFFF) && (p.ctrOffset.Some? ==> p.ctrOffset.value <= 0xFFFF)
    && (p.picc.Some? ==> p.picc.value.0 <= 0xFFFF) && (p.ttOffset.Some? ==> p.ttOffset.value <= 0xFFFF)
    && p.macOffset <= 0xFFFF && p.macInput <= 0xFFFF
    && (p.encRange.Some? ==>
          var (start, end) := p.encRange.value;
          start < end <= 0xFFFF && (end - start) % 32 == 0)
  }

  lemma LayoutIsSmall(ts: seq<Token>, mode: CryptoMode)
    requires IsWellFormed(ts, mode) && |Out(ts, mode)| <= CAPACITY
    ensures IsSmall(Layout(ts, mode))
  {
    hide Out, OffsetOf, Occurs, IsOrderly, Inside;
    OccursIffOffset(ts, mode);
    OffsetBounds(ts, mode);
    Brackets(ts);
  }

  /** The ranges of the settings are the ranges of the placeholders. */
  lemma SettingsRanges(ts: seq<Token>, mode: CryptoMode, opts: Options)
    requires IsWellFormed(ts, mode) && IsSmall(Layout(ts, mode))
    ensures var p, s := Layout(ts, mode), LayoutSettings(Layout(ts, mode), opts);
      && SettingsOf(p, mode, opts) == (var r := Sdm.TryNew(s.picc, s.fileRead, s.tamperStatus, mode); if r.Err? then Err(SettingsError(r.error)) else Ok(r.value))
      && UidRange(s.picc) == FieldRange(ts, UidK, mode) && RCtrRange(s.picc) == FieldRange(ts, CtrK, mode)
      && PiccRange(s.picc, mode) == FieldRange(ts, PiccK, mode) && MacRange(s.fileRead) == FieldRange(ts, MacK, mode)
      && TamperRange(s.tamperStatus) == FieldRange(ts, TtK, mode)
      && s.fileRead.value.window.input == p.macInput
      && EncRange(s.fileRead) == (if p.encRange.Some? then Some(Range(p.encRange.value.0, p.encRange.value.1 - p.encRange.value.0)) else None)
  {
    hide Out, OffsetOf, Occurs, IsOrderly, Inside, PiccContent;
    OccursIffOffset(ts, mode);
  }

  /** The encrypted range lies in the MAC window, and a `{tt}` in it within its plaintext half. */
  predicate EncFits(p: ParsedTemplate) {
    p.encRange.Some? ==>
      var (start, end) := p.encRange.value;
      && p.macInput <= start && end <= p.macOffset
      && (p.ttOffset.Some? && start <= p.ttOffset.value < end ==> p.ttOffset.value + 2 <= start + (end - start) / 2)
  }

  /** Every placeholder keeps apart from the encrypted range, except a `{tt}` in it. */
  lemma EncAndFields(ts: seq<Token>, mode: CryptoMode, k: Kind)
    requires IsWellFormed(ts, mode) && Layout(ts, mode).encRange.Some?
    ensures var enc := Layout(ts, mode).encRange.value;
      var r := Range(enc.0, enc.1 - enc.0);
      && (!k.TtK? ==> !Overlap(FieldRange(ts, k, mode), Some(r)))
      && (k.TtK? && FieldRange(ts, k, mode).Some? ==>
            var tt := FieldRange(ts, k, mode).value;
            && tt.start + 1 != enc.0
            && (RangesOverlap(tt, r) <==> enc.0 <= tt.start < enc.1))
  {
    hide Out, OffsetOf, Occurs, IsOrderly, ZeroAt, FieldRange;
    OccursIffOffset(ts, mode);
    EncApart(ts, mode);
    if k.TtK? && FieldRange(ts, k, mode).Some? {
      TamperLength(ts, mode);
    }
  }

  lemma TamperLength(ts: seq<Token>, mode: CryptoMode)
    requires FieldRange(ts, TtK, mode).Some?
    ensures FieldRange(ts, TtK, mode).value.len == 2 && OffsetOf(ts, TtK, mode) == Some(FieldRange(ts, TtK, mode).value.start)
  {
  }

  lemma LaidOutExactly(ts: seq<Token>, mode: CryptoMode, opts: Options)
    requires IsWellFormed(ts, mode) && IsSmall(Layout(ts, mode))
    ensures var s := LayoutSettings(Layout(ts, mode), opts); (IsLaidOut(s, mode) <==> EncFits(Layout(ts, mode))) && !Straddles(s)
  {
    hide Out, OffsetOf, Occurs, IsOrderly, Inside, PiccContent, RangesOverlap, FieldRange, PairwiseApart;
    SettingsRanges(ts, mode, opts);
    var p, s := Layout(ts, mode), LayoutSettings(Layout(ts, mode), opts);
    var ids, tamper, enc := Identity(s, mode), TamperRange(s.tamperStatus), EncRange(s.fileRead);
    FieldsApart(ts, mode);
    IdentityApart(s, mode);
    assert ids[0] == UidRange(s.picc) && ids[1] == RCtrRange(s.picc) && ids[2] == PiccRange(s.picc, mode) && ids[3] == MacRange(s.fileRead);
    assert ApartFrom(ids, tamper);
    Includes(ts, mode, opts);
    if enc.Some? {
      EncAndFields(ts, mode, UidK);
      EncAndFields(ts, mode, CtrK);
      EncAndFields(ts, mode, PiccK);
      EncAndFields(ts, mode, MacK);
      EncAndFields(ts, mode, TtK);
    }
    assert ApartFrom(ids, enc);
  }

  /** The identity mirrored is the identity the template asks for; the MAC window starts before the MAC. */
  lemma Includes(ts: seq<Token>, mode: CryptoMode, opts: Options)
    requires IsWellFormed(ts, mode) && IsSmall(Layout(ts, mode))
    ensures var s := LayoutSettings(Layout(ts, mode), opts);
      && (EncRange(s.fileRead).Some? ==> s.picc.IncludesUid() && s.picc.IncludesRCtr())
      && s.fileRead.value.window.input <= s.fileRead.value.window.mac
      && (s.tamperStatus.Some? ==> Layout(ts, mode).ttOffset == Some(s.tamperStatus.value as nat))
  {
    hide Out, OffsetOf, Occurs, IsOrderly, Inside, PiccContent;
    OccursIffOffset(ts, mode);
    OffsetBounds(ts, mode);
  }

  /**
    Of the checks on settings, a well-formed template can only fail these two; and its tamper
    status never straddles the encrypted range.
   */
  lemma SettingsExactly(ts: seq<Token>, mode: CryptoMode, opts: Options)
    requires IsWellFormed(ts, mode) && |Out(ts, mode)| <= CAPACITY
    ensures IsSmall(Layout(ts, mode))
    ensures var p, s := Layout(ts, mode), LayoutSettings(Layout(ts, mode), opts);
      && (SettingsOf(p, mode, opts).Ok? <==> EncFits(p)) && !Straddles(s)
      && (SettingsOf(p, mode, opts).Ok? ==> SettingsOf(p, mode, opts).value == s)
  {
    assert Occurs(ts, MacK);
    hide Out, IsWellFormed, Layout, SettingsOf, LayoutSettings, EncFits, IsLaidOut;
    LayoutIsSmall(ts, mode);
    SettingsRanges(ts, mode, opts);
    var s := LayoutSettings(Layout(ts, mode), opts);
    TryNewAcceptsExactly(s.picc, s.fileRead, s.tamperStatus, mode);
    LaidOutExactly(ts, mode, opts);
  }

  /**
    The templates that build: their tokens are well formed, the record fits both the buffer and the
    file, and the encrypted range fits the MAC window and the tamper status.
   */
  lemma BuildsExactly(url: seq<byte>, mode: CryptoMode, opts: Options)
    requires IsUtf8(url)
    ensures var ts := Tokens(url);
      Built(url, mode, opts).Ok? <==>
        && ts.Ok? && IsWellFormed(ts.value, mode) && EncFits(Layout(ts.value, mode))
        && 7 + |Out(ts.value, mode)| <= CAPACITY && 7 + |Out(ts.value, mode)| <= opts.maxFileSize
  {
    hide Prefix, FirstMatch, Parsed, SettingsOf, Out, Lex, Layout, EncFits;
    var code := FirstMatch(url, 1);
    PrefixEnds(url, code);
    AcceptsExactly(url, |Prefix(code)|, mode, CAPACITY);
    if Tokens(url).Ok? && IsWellFormed(Tokens(url).value, mode) && |Out(Tokens(url).value, mode)| <= CAPACITY {
      SettingsExactly(Tokens(url).value, mode, opts);
      LayoutContent(Tokens(url).value, mode);
    }
  }
}
