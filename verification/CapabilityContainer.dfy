/** The Capability Container codec of types/cc.rs. */
module CapabilityContainer {
  import opened Wrappers
  import opened Octets

  const MAX_CC_FILES := 3

  datatype AccessCondition = Open | ProprietaryKey(keyNo: byte) | Denied | Raw(b: byte)

  datatype Kind = Ndef | Proprietary

  datatype FileCtrl = FileCtrl(kind: Kind, fileId: u16, fileSize: u16, readAccess: AccessCondition, writeAccess: AccessCondition)

  datatype Container = Container(ccLen: u16, t4tVersion: byte, maxLe: u16, maxLc: u16, files: seq<FileCtrl>)

  datatype CcError = TooShort | EntryOverflow | UnknownEntryTag(tag: byte) | UnexpectedEntryLength(len: nat) | TooManyEntries

  // ---------------------------------------------------------------- access conditions

  function FromByte(b: byte): AccessCondition {
    if b == 0x00 then Open
    else if 0x80 <= b <= 0x84 then ProprietaryKey(b - 0x80)
    else if b == 0xFF then Denied
    else Raw(b)
  }

  /** Key numbers are 0 to 4; a container has at most three entries. */
  predicate IsAccess(a: AccessCondition) {
    a.ProprietaryKey? ==> a.keyNo <= 4
  }

  function ToByte(a: AccessCondition): byte
    requires IsAccess(a)
  {
    match a
    case Open => 0x00
    case ProprietaryKey(k) => 0x80 + k
    case Denied => 0xFF
    case Raw(b) => b
  }

  predicate IsContainer(cc: Container) {
    |cc.files| <= MAX_CC_FILES && forall i :: 0 <= i < |cc.files| ==> IsEntry(cc.files[i])
  }

  predicate IsEntry(f: FileCtrl) {
    IsAccess(f.readAccess) && IsAccess(f.writeAccess)
  }

  /** A raw byte that has a name of its own comes back under that name. */
  predicate Aliases(a: AccessCondition) {
    a.Raw? && FromByte(a.b) != a
  }

  lemma AccessRoundTrip(a: AccessCondition, b: byte)
    requires IsAccess(a)
    ensures FromByte(ToByte(a)) == a <==> !Aliases(a)
    ensures IsAccess(FromByte(b)) && ToByte(FromByte(b)) == b
  {
  }

  // ---------------------------------------------------------------- serialising

  function EntryBytes(f: FileCtrl): (r: seq<byte>)
    requires IsEntry(f)
    ensures |r| == 8
  {
    [if f.kind.Ndef? then 0x04 else 0x05, 0x06] + Be16(f.fileId) + Be16(f.fileSize) + [ToByte(f.readAccess), ToByte(f.writeAccess)]
  }

  /** The bytes of an entry, of a header and of the access conditions (NFC Forum Type 4 Tag section 5.1). */
  lemma EntryIs(f: FileCtrl, a: byte, b: byte, c: byte, d: byte)
    requires IsEntry(f) && f.fileId == 256 * a as nat + b as nat && f.fileSize == 256 * c as nat + d as nat
    ensures EntryBytes(f) == [if f.kind.Ndef? then 0x04 else 0x05, 0x06, a, b, c, d, ToByte(f.readAccess), ToByte(f.writeAccess)]
  {
    hide ToByte;
    BigEndian(a, b);
    BigEndian(c, d);
  }

  lemma HeaderIs(cc: Container, a: byte, b: byte, c: byte, d: byte, e: byte, f: byte)
    requires cc.ccLen == 256 * a as nat + b as nat && cc.maxLe == 256 * c as nat + d as nat && cc.maxLc == 256 * e as nat + f as nat
    ensures HeaderBytes(cc) == [a, b, cc.t4tVersion, c, d, e, f]
  {
    BigEndian(a, b);
    BigEndian(c, d);
    BigEndian(e, f);
  }

  lemma AccessIs(b: byte)
    ensures FromByte(b) == Open <==> b == 0
    ensures FromByte(b) == Denied <==> b == 255
    ensures forall k: byte :: FromByte(b) == ProprietaryKey(k) <==> 128 <= b <= 132 && k as nat == b as nat - 128
    ensures FromByte(b).Raw? ==> FromByte(b).b == b
  {
  }

  function EntriesBytes(files: seq<FileCtrl>): (r: seq<byte>)
    requires forall i :: 0 <= i < |files| ==> IsEntry(files[i])
    ensures |r| == 8 * |files|
  {
    if |files| == 0 then [] else EntriesBytes(files[..|files| - 1]) + EntryBytes(files[|files| - 1])
  }

  function HeaderBytes(cc: Container): (r: seq<byte>)
    ensures |r| == 7
  {
    Be16(cc.ccLen) + [cc.t4tVersion] + Be16(cc.maxLe) + Be16(cc.maxLc)
  }

  function Bytes(cc: Container): (r: seq<byte>)
    requires IsContainer(cc)
    ensures |r| == 7 + 8 * |cc.files|
  {
    HeaderBytes(cc) + EntriesBytes(cc.files)
  }

  /** `to_bytes` */
  method ToBytes(cc: Container) returns (out: seq<byte>)
    requires IsContainer(cc)
    ensures out == Bytes(cc) && |out| <= 31
  {
    hide EntryBytes;
    out := Be16(cc.ccLen) + [cc.t4tVersion] + Be16(cc.maxLe) + Be16(cc.maxLc);
    for i := 0 to |cc.files|
      invariant out == HeaderBytes(cc) + EntriesBytes(cc.files[..i])
    {
      var f := cc.files[i];
      assert cc.files[..i + 1][..i] == cc.files[..i];
      ghost var before := out;
      out := out + [if f.kind.Ndef? then 0x04 else 0x05];
      out := out + [0x06];
      out := out + Be16(f.fileId);
      out := out + Be16(f.fileSize);
      out := out + [ToByte(f.readAccess)];
      out := out + [ToByte(f.writeAccess)];
      assert out == before + EntryBytes(f) by { AppendedEntry(before, f); }
    }
    assert cc.files[..|cc.files|] == cc.files;
  }

  lemma AppendedEntry(before: seq<byte>, f: FileCtrl)
    requires IsEntry(f)
    ensures before + [if f.kind.Ndef? then 0x04 else 0x05] + [0x06] + Be16(f.fileId) + Be16(f.fileSize)
              + [ToByte(f.readAccess)] + [ToByte(f.writeAccess)]
         == before + EntryBytes(f)
  {
  }

  // ---------------------------------------------------------------- parsing

  function ParseEntry(entry: seq<byte>, kind: Kind): FileCtrl
    requires |entry| == 6
  {
    FileCtrl(kind, FromBe16(entry[0..2]), FromBe16(entry[2..4]), FromByte(entry[4]), FromByte(entry[5]))
  }

  /** The entries from `offset` on, after `got` have been read. */
  function Entries(data: seq<byte>, limit: nat, offset: nat, got: nat): (r: Result<seq<FileCtrl>, CcError>)
    requires limit <= |data| && got <= MAX_CC_FILES
    decreases limit - offset
  {
    if offset + 2 > limit then Ok([])
    else
      var t, l := data[offset], data[offset + 1] as nat;
      if offset + 2 + l > limit then Err(EntryOverflow)
      else if t != 0x04 && t != 0x05 then Err(UnknownEntryTag(t))
      else if l != 6 then Err(UnexpectedEntryLength(l))
      else if got == MAX_CC_FILES then Err(TooManyEntries)
      else
        var f := ParseEntry(data[offset + 2..offset + 8], if t == 0x04 then Ndef else Proprietary);
        var rest :- Entries(data, limit, offset + 8, got + 1);
        Ok([f] + rest)
  }

  function Parsed(data: seq<byte>): (r: Result<Container, CcError>)
  {
    if |data| < 7 then Err(TooShort)
    else
      var ccLen := FromBe16(data[0..2]);
      var files :- Entries(data, Min(ccLen, |data|), 7, 0);
      Ok(Container(ccLen, data[2], FromBe16(data[3..5]), FromBe16(data[5..7]), files))
  }

  /** `from_bytes`: the loop stops and stays within the data, whatever the data. */
  method FromBytes(data: seq<byte>) returns (r: Result<Container, CcError>)
    ensures r == Parsed(data)
  {
    hide ParseEntry;
    if |data| < 7 {
      return Err(TooShort);
    }
    var ccLen := FromBe16(data[0..2]);
    var t4tVersion := data[2];
    var maxLe := FromBe16(data[3..5]);
    var maxLc := FromBe16(data[5..7]);
    var files: seq<FileCtrl> := [];
    var offset := 7;
    var limit := Min(ccLen, |data|);
    ghost var all := Entries(data, limit, 7, 0);
    assert all.Ok? ==> files + all.value == all.value;
    while offset < limit
      invariant 7 <= offset && |files| <= MAX_CC_FILES && offset == 7 + 8 * |files|
      invariant var rest := Entries(data, limit, offset, |files|);
        all == if rest.Ok? then Ok(files + rest.value) else rest
      decreases limit - offset
    {
      if offset + 2 > limit {
        break;
      }
      var t := data[offset];
      var l: nat := data[offset + 1];
      if offset + 2 + l > limit {
        return Err(EntryOverflow);
      }
      if t != 0x04 && t != 0x05 {
        return Err(UnknownEntryTag(t));
      }
      if l != 6 {
        return Err(UnexpectedEntryLength(l));
      }
      if |files| == MAX_CC_FILES {
        return Err(TooManyEntries);
      }
      ghost var before := files;
      var f := ParseEntry(data[offset + 2..offset + 8], if t == 0x04 then Ndef else Proprietary);
      files := files + [f];
      forall rest: seq<FileCtrl> ensures before + ([f] + rest) == files + rest { }
      offset := offset + 2 + l;
    }
    assert files + [] == files;
    return Ok(Container(ccLen, t4tVersion, maxLe, maxLc, files));
  }

  // ---------------------------------------------------------------- parsing undoes serialising

  lemma {:induction false} EntriesBytesCons(f: FileCtrl, rest: seq<FileCtrl>)
    requires IsEntry(f) && forall i :: 0 <= i < |rest| ==> IsEntry(rest[i])
    ensures EntriesBytes([f] + rest) == EntryBytes(f) + EntriesBytes(rest)
  {
    hide EntryBytes;
    var all := [f] + rest;
    if |rest| == 0 {
      assert all == [f] && all[..0] == [];
    } else {
      EntriesBytesCons(f, rest[..|rest| - 1]);
      assert all[..|all| - 1] == [f] + rest[..|rest| - 1];
    }
  }

  lemma Be16RoundTrip(n: u16)
    ensures FromBe16(Be16(n)) == n
  {
  }

  /** An entry is its eight bytes. */
  lemma EntryParses(data: seq<byte>)
    requires |data| == 8 && (data[0] == 0x04 || data[0] == 0x05) && data[1] == 6
    ensures var f := ParseEntry(data[2..8], if data[0] == 0x04 then Ndef else Proprietary);
      && IsEntry(f) && EntryBytes(f) == data && !Aliases(f.readAccess) && !Aliases(f.writeAccess)
  {
    hide FromByte, Be16;
    AccessRoundTrip(Open, data[6]);
    AccessRoundTrip(Open, data[7]);
    AccessRoundTrip(FromByte(data[6]), 0);
    AccessRoundTrip(FromByte(data[7]), 0);
    assert data[2..8][0..2] == [data[2], data[3]] == data[2..4] && data[2..8][2..4] == [data[4], data[5]] == data[4..6];
    assert data == [data[0], data[1]] + data[2..4] + data[4..6] + [data[6], data[7]];
  }

  lemma EntryRoundTrip(f: FileCtrl)
    requires IsEntry(f) && !Aliases(f.readAccess) && !Aliases(f.writeAccess)
    ensures var d := EntryBytes(f);
      (d[0] == 0x04 || d[0] == 0x05) && d[1] == 6
      && ParseEntry(d[2..8], if d[0] == 0x04 then Ndef else Proprietary) == f
  {
    hide FromByte, Be16, ToByte;
    var d := EntryBytes(f);
    AccessRoundTrip(f.readAccess, 0);
    AccessRoundTrip(f.writeAccess, 0);
    Be16RoundTrip(f.fileId);
    Be16RoundTrip(f.fileSize);
    assert d[2..8][0..2] == [d[2], d[3]] == Be16(f.fileId) && d[2..8][2..4] == [d[4], d[5]] == Be16(f.fileSize);
  }

  /** What a successful parse has read: whole entries up to less than two bytes before the limit. */
  lemma {:induction false} EntriesAre(data: seq<byte>, limit: nat, offset: nat, got: nat)
    requires limit <= |data| && got <= MAX_CC_FILES && Entries(data, limit, offset, got).Ok?
    ensures var files := Entries(data, limit, offset, got).value;
      && got + |files| <= MAX_CC_FILES
      && (files != [] ==> offset + 8 * |files| <= limit) && limit < offset + 8 * |files| + 2
      && (forall i :: 0 <= i < |files| ==> IsEntry(files[i]) && !Aliases(files[i].readAccess) && !Aliases(files[i].writeAccess))
      && (files != [] ==> EntriesBytes(files) == data[offset..offset + 8 * |files|])
    decreases limit - offset
  {
    hide EntryBytes, ParseEntry, EntriesBytes;
    if offset + 2 <= limit {
      var f := ParseEntry(data[offset + 2..offset + 8], if data[offset] == 0x04 then Ndef else Proprietary);
      var rest := Entries(data, limit, offset + 8, got + 1).value;
      EntriesAre(data, limit, offset + 8, got + 1);
      EntryParses(data[offset..offset + 8]);
      assert data[offset..offset + 8][2..8] == data[offset + 2..offset + 8];
      EntriesBytesCons(f, rest);
      EntriesBytesNone();
      assert data[offset..offset + 8 * (1 + |rest|)] == data[offset..offset + 8] + data[offset + 8..offset + 8 * (1 + |rest|)];
    }
  }

  lemma EntriesBytesNone()
    ensures EntriesBytes([]) == []
  {
  }

  lemma {:induction false} EntriesParseBack(data: seq<byte>, limit: nat, offset: nat, got: nat, files: seq<FileCtrl>)
    requires got + |files| <= MAX_CC_FILES && limit <= |data|
    requires forall i :: 0 <= i < |files| ==> IsEntry(files[i]) && !Aliases(files[i].readAccess) && !Aliases(files[i].writeAccess)
    requires (files == [] || offset + 8 * |files| <= limit) && limit < offset + 8 * |files| + 2
    requires files != [] ==> data[offset..offset + 8 * |files|] == EntriesBytes(files)
    ensures Entries(data, limit, offset, got) == Ok(files)
    decreases |files|
  {
    hide EntryBytes, ParseEntry, EntriesBytes;
    if files != [] {
      var f, rest := files[0], files[1..];
      assert files == [f] + rest;
      EntriesBytesCons(f, rest);
      EntryRoundTrip(f);
      var all := data[offset..offset + 8 * |files|];
      assert all[..8] == EntryBytes(f) && all[8..] == EntriesBytes(rest);
      assert data[offset + 8..offset + 8 * |files|] == all[8..];
      assert data[offset..offset + 8] == all[..8];
      assert data[offset + 2..offset + 8] == EntryBytes(f)[2..8];
      assert data[offset] == EntryBytes(f)[0] && data[offset + 1] == EntryBytes(f)[1];
      EntriesParseBack(data, limit, offset + 8, got + 1, rest);
    }
  }

  lemma HeaderParses(cc: Container, rest: seq<byte>)
    ensures var d := HeaderBytes(cc) + rest;
      && FromBe16(d[0..2]) == cc.ccLen && d[2] == cc.t4tVersion
      && FromBe16(d[3..5]) == cc.maxLe && FromBe16(d[5..7]) == cc.maxLc
  {
    hide FromBe16, Be16;
    var d := HeaderBytes(cc) + rest;
    Be16RoundTrip(cc.ccLen);
    Be16RoundTrip(cc.maxLe);
    Be16RoundTrip(cc.maxLc);
    assert d[0..2] == Be16(cc.ccLen) && d[3..5] == Be16(cc.maxLe) && d[5..7] == Be16(cc.maxLc);
  }

  /** Serialising what was parsed gives the bytes it was parsed from, up to the last whole entry. */
  lemma BytesOfParsed(data: seq<byte>)
    requires Parsed(data).Ok?
    ensures var cc := Parsed(data).value;
      IsContainer(cc) && |Bytes(cc)| <= |data| && Bytes(cc) == data[..|Bytes(cc)|]
  {
    hide EntriesBytes, Entries, FromBe16;
    var cc := Parsed(data).value;
    var n := 8 * |cc.files|;
    EntriesAre(data, Min(cc.ccLen, |data|), 7, 0);
    EntriesBytesNone();
    assert data[0..2] + [data[2]] + data[3..5] + data[5..7] == data[..7];
    assert data[..7 + n] == data[..7] + data[7..7 + n];
  }

  /** The containers whose length field and access bytes say what they hold. */
  predicate IsCanonical(cc: Container) {
    && cc.ccLen <= 8 + 8 * |cc.files| && (cc.files != [] ==> cc.ccLen >= 7 + 8 * |cc.files|)
    && forall i :: 0 <= i < |cc.files| ==> !Aliases(cc.files[i].readAccess) && !Aliases(cc.files[i].writeAccess)
  }

  lemma CanonicalParsesBack(cc: Container, padding: seq<byte>)
    requires IsContainer(cc) && IsCanonical(cc)
    ensures Parsed(Bytes(cc) + padding) == Ok(cc)
  {
    hide EntriesBytes, Entries, FromBe16, Be16;
    var data := Bytes(cc) + padding;
    assert data == HeaderBytes(cc) + (EntriesBytes(cc.files) + padding);
    HeaderParses(cc, EntriesBytes(cc.files) + padding);
    assert data[7..7 + 8 * |cc.files|] == EntriesBytes(cc.files);
    EntriesParseBack(data, Min(cc.ccLen, |data|), 7, 0, cc.files);
  }

  /** Exactly the canonical containers survive, whatever the file holds after them. */
  lemma RoundTripsExactly(cc: Container)
    requires IsContainer(cc)
    ensures IsCanonical(cc) <==> forall padding: seq<byte> :: Parsed(Bytes(cc) + padding) == Ok(cc)
  {
    hide EntriesBytes, Entries, Bytes;
    if IsCanonical(cc) {
      forall padding: seq<byte> ensures Parsed(Bytes(cc) + padding) == Ok(cc) {
        CanonicalParsesBack(cc, padding);
      }
    } else if forall padding: seq<byte> :: Parsed(Bytes(cc) + padding) == Ok(cc) {
      var data := Bytes(cc) + Zeros(2);
      assert Parsed(data) == Ok(cc);
      EntriesAre(data, Min(cc.ccLen, |data|), 7, 0);
    }
  }

  // ---------------------------------------------------------------- the container a provisioned tag carries

  const DEFAULT: Container := Container(0x0017, 0x20, 0x0100, 0x00FF, [
    FileCtrl(Ndef, 0xE104, 0x0100, Open, Open),
    FileCtrl(Proprietary, 0xE105, 0x0080, ProprietaryKey(2), ProprietaryKey(3))])

  /** What the six builders change in an entry. */
  datatype Edit = ReadAccess(a: AccessCondition) | WriteAccess(a: AccessCondition) | FileSize(n: u16)

  function Edited(f: FileCtrl, e: Edit): FileCtrl {
    match e
    case ReadAccess(a) => f.(readAccess := a)
    case WriteAccess(a) => f.(writeAccess := a)
    case FileSize(n) => f.(fileSize := n)
  }

  /** `g` is `f` with the one field replaced that the edit names. */
  predicate Replaces(f: FileCtrl, e: Edit, g: FileCtrl) {
    && g.kind == f.kind && g.fileId == f.fileId
    && g.readAccess == (if e.ReadAccess? then e.a else f.readAccess)
    && g.writeAccess == (if e.WriteAccess? then e.a else f.writeAccess)
    && g.fileSize == (if e.FileSize? then e.n else f.fileSize)
  }

  /** The first entry of a kind, and no other, is edited. */
  predicate IsEdited(cc: Container, kind: Kind, e: Edit, r: Container) {
    && |r.files| == |cc.files| && r == cc.(files := r.files)
    && forall i :: 0 <= i < |cc.files| ==>
      if cc.files[i].kind == kind && forall j :: 0 <= j < i ==> cc.files[j].kind != kind
      then Replaces(cc.files[i], e, r.files[i]) else r.files[i] == cc.files[i]
  }

  /** The builders, over `find_mut`. */
  method With(cc: Container, kind: Kind, e: Edit) returns (r: Container)
    ensures IsEdited(cc, kind, e, r)
  {
    var i := 0;
    while i < |cc.files| && cc.files[i].kind != kind
      invariant 0 <= i <= |cc.files| && forall j :: 0 <= j < i ==> cc.files[j].kind != kind
    {
      i := i + 1;
    }
    r := if i < |cc.files| then cc.(files := cc.files[i := Edited(cc.files[i], e)]) else cc;
  }

  /** Every edit but one to an access byte that has a name of its own keeps a container canonical. */
  lemma EditsStayCanonical(cc: Container, kind: Kind, e: Edit, r: Container)
    requires IsContainer(cc) && IsCanonical(cc) && IsEdited(cc, kind, e, r)
    requires !e.FileSize? ==> IsAccess(e.a) && !Aliases(e.a)
    ensures IsContainer(r) && IsCanonical(r)
  {
  }

  /** The factory container, and the 23 bytes a factory tag holds. */
  lemma DefaultContent()
    ensures IsContainer(DEFAULT) && IsCanonical(DEFAULT)
    ensures Bytes(DEFAULT) ==
      [0x00, 0x17, 0x20, 0x01, 0x00, 0x00, 0xFF]
      + [0x04, 0x06, 0xE1, 0x04, 0x01, 0x00, 0x00, 0x00]
      + [0x05, 0x06, 0xE1, 0x05, 0x00, 0x80, 0x82, 0x83]
  {
    var ndef, prop := DEFAULT.files[0], DEFAULT.files[1];
    assert EntryBytes(ndef) == [0x04, 0x06, 0xE1, 0x04, 0x01, 0x00, 0x00, 0x00];
    assert EntryBytes(prop) == [0x05, 0x06, 0xE1, 0x05, 0x00, 0x80, 0x82, 0x83];
    assert DEFAULT.files[..1] == [ndef] && [ndef][..0] == [];
    assert EntriesBytes([ndef]) == EntryBytes(ndef);
    assert EntriesBytes(DEFAULT.files) == EntryBytes(ndef) + EntryBytes(prop);
  }
}
