/**
  Files without a session: session/unauthenticated.rs over commands/iso_select_file.rs,
  iso_read_binary.rs and iso_update_binary.rs.
 */
module IsoFiles {
  import opened Wrappers
  import opened Octets
  import opened Aes
  import opened Blocks
  import opened Wire
  import opened Suite
  import opened Transport
  import opened Exchange
  import T = Tag

  const ISO_READ_BINARY_CHUNK := 256
  const ISO_UPDATE_BINARY_CHUNK := 255

  datatype File = CapabilityContainer | Ndef | Proprietary {
    function Id(): (id: nat)
      ensures 0xE103 <= id <= 0xE105
    {
      match this
      case CapabilityContainer => 0xE103
      case Ndef => 0xE104
      case Proprietary => 0xE105
    }

    function No(): byte {
      match this
      case CapabilityContainer => 0x01
      case Ndef => 0x02
      case Proprietary => 0x03
    }
  }

  class Unauthenticated {
    var ndefSelected: bool
    var efSelected: Option<nat>

    constructor ()
      ensures !ndefSelected && efSelected.None?
    {
      ndefSelected, efSelected := false, None;
    }
  }

  // ---------------------------------------------------------------- what the host remembers, and what the tag has selected

  /** How the selection of one call went: whether its answer was heard, and whether a command of it reached the tag. */
  datatype Selection = Selection(heard: bool, reached: bool)

  /** What a session's calls add up to: the file it remembers, and whether a later selection reached the tag unheard. */
  datatype Memory = Memory(file: Option<File>, missed: bool)

  const NOTHING_YET := Memory(None, false)

  /** One more call: a file that is remembered is not selected again, and a selection that failed changes no memory. */
  function Follow(m: Memory, file: File, s: Selection): Memory {
    if m.file == Some(file) then m
    else if s.heard then Memory(Some(file), false)
    else Memory(m.file, m.file.Some? && (m.missed || s.reached))
  }

  /** The file that a call works on is the one it names. */
  predicate GoesRight(m: Memory, file: File) {
    m.file != Some(file) || !m.missed
  }

  /** The invariant of a session with an honest tag: the remembered file is selected unless a selection was missed. */
  ghost predicate Tracks(session: Unauthenticated, link: Link, m: Memory)
    reads session, link
  {
    && link.honest
    && session.efSelected == (if m.file.Some? then Some(m.file.value.Id()) else None)
    && (session.efSelected.Some? ==> session.ndefSelected)
    && (session.ndefSelected ==> link.tag.session.None?)
    && (m.file.Some? ==> (link.tag.selected == Some(m.file.value.No()) <==> !m.missed))
  }

  method SelectNdefApplication(session: Unauthenticated, link: Link) returns (r: Result<(), SessionError>)
    modifies session, link
    ensures T.SameMemory(old(link.tag), link.tag)
    ensures r.Ok? ==> session.ndefSelected
    ensures old(session.ndefSelected) ==>
      r.Ok? && link.tag == old(link.tag) && link.delivered == old(link.delivered) && session.efSelected == old(session.efSelected)
    ensures !old(session.ndefSelected) ==>
      session.efSelected == (if r.Ok? then None else old(session.efSelected)) && session.ndefSelected == r.Ok?
    ensures r.Ok? && !old(session.ndefSelected) && link.honest ==> link.tag.session.None?
    ensures !old(session.ndefSelected) ==>
      link.log == old(link.log) + [[0x00, 0xA4, 0x04, 0x00, 0x07, 0xD2, 0x76, 0x00, 0x00, 0x85, 0x01, 0x01, 0x00]]
  {
    if session.ndefSelected {
      return Result.Ok(());
    }
    var apdu: seq<byte> := [0x00, 0xA4, 0x04, 0x00, 0x07] + T.NDEF_APPLICATION_DF_NAME + [0x00];
    assert apdu == [0x00, 0xA4, 0x04, 0x00, 0x07, 0xD2, 0x76, 0x00, 0x00, 0x85, 0x01, 0x01, 0x00];
    assert apdu[2..] == [0x04, 0x00, 0x07] + T.NDEF_APPLICATION_DF_NAME + [0x00];
    var resp :- link.Transmit(apdu);
    if !(resp.sw1 == 0x90 && resp.sw2 == 0x00) {
      return Err(ErrorResponse(resp.sw1, resp.sw2));
    }
    session.ndefSelected, session.efSelected := true, None;
    return Result.Ok(());
  }

  function SelectEfApdu(fid: nat): seq<byte>
    requires fid < 0x1_0000
  {
    [0x00, 0xA4, 0x00, 0x0C, 0x02] + Be16(fid)
  }

  /** Selecting an EF changes the tag even when the host never learns of it. */
  lemma SelectEf(aes: Aes128, t: T.Tag, file: File)
    ensures T.Step(aes, t, SelectEfApdu(file.Id())) == (t.(selected := Some(file.No())), T.Reply([], 0x90, 0x00))
  {
    var apdu := SelectEfApdu(file.Id());
    assert apdu[2..5] == [0x00, 0x0C, 0x02] && apdu[5..7] == Be16(file.Id());
    var n := FromBe16(apdu[5..7]);
    assert n == 256 * (file.Id() / 256) + file.Id() % 256;
  }

  /** `iso_select_ef_by_fid`: an honest tag selects the file whenever the command reaches it. */
  method SelectEfByFid(link: Link, file: File) returns (r: Result<(), SessionError>, ghost reached: bool)
    modifies link
    ensures T.SameMemory(old(link.tag), link.tag)
    ensures link.honest ==>
      && link.tag.selected == (if reached then Some(file.No()) else old(link.tag).selected) && link.tag.session == old(link.tag).session
    ensures r.Ok? ==> reached
  {
    hide T.Step, SelectEfApdu;
    SelectEf(link.aes, link.tag, file);
    ghost var before := link.delivered;
    var sent := link.Transmit(SelectEfApdu(file.Id()));
    reached := link.delivered > before;
    var resp :- sent;
    if !(resp.sw1 == 0x90 && resp.sw2 == 0x00) {
      r := Err(ErrorResponse(resp.sw1, resp.sw2));
      return;
    }
    r := Result.Ok(());
  }

  /**
    The selection both loops start with. If it fails with a file remembered, the tag has the named file
    selected when the command reached it, and the host goes on remembering the other one.
   */
  method SelectFile(session: Unauthenticated, link: Link, file: File, ghost m: Memory)
    returns (r: Result<(), SessionError>, ghost s: Selection)
    modifies session, link
    ensures T.SameMemory(old(link.tag), link.tag) && s.heard == r.Ok?
    ensures old(Tracks(session, link, m)) ==> Tracks(session, link, Follow(m, file, s))
    ensures old(Tracks(session, link, m)) && m.file == Some(file) ==> r.Ok? && !s.reached && link.tag == old(link.tag)
    ensures old(Tracks(session, link, m)) && m.file != Some(file) && r.Ok? ==> s.reached
    ensures old(Tracks(session, link, m)) && r.Ok? ==>
      && session.efSelected == Some(file.Id()) && link.tag.session.None?
      && (link.tag.selected == Some(file.No()) <==> GoesRight(m, file))
    ensures old(Tracks(session, link, m)) && m.file.Some? && r.Err? && s.reached ==> link.tag.selected == Some(file.No())
  {
    if m.file.Some? {
      FilesDiffer(m.file.value, file);
    }
    s := Selection(false, false);
    var _ :- SelectNdefApplication(session, link);
    s := Selection(true, false);
    if session.efSelected != Some(file.Id()) {
      var ef;
      ghost var reached;
      ef, reached := SelectEfByFid(link, file);
      s := Selection(ef.Ok?, reached);
      var _ :- ef;
      session.efSelected := Some(file.Id());
    }
    r := Result.Ok(());
  }

  lemma FilesDiffer(f: File, g: File)
    ensures f != g ==> f.No() != g.No() && f.Id() != g.Id()
  {
  }

  // ---------------------------------------------------------------- reading

  function IsoAddress(offset: nat): (p: seq<byte>)
    requires offset <= 0x7FFF
    ensures |p| == 2 && p[0] < 0x80 && FromBe16(p) == offset
  {
    Be16(offset)
  }

  function ReadBinaryApdu(offset: nat, want: nat): (a: seq<byte>)
    requires offset <= 0x7FFF && 0 < want <= ISO_READ_BINARY_CHUNK
    ensures |a| == 5
  {
    [0x00, 0xB0] + IsoAddress(offset) + [want % 256]
  }

  function UpdateBinaryApdu(offset: nat, data: seq<byte>): (a: seq<byte>)
    requires offset <= 0x7FFF && 0 < |data| <= ISO_UPDATE_BINARY_CHUNK
    ensures |a| == 5 + |data| && a[4] == |data|
  {
    [0x00, 0xD6] + IsoAddress(offset) + [|data|] + data
  }

  /** The three commands, byte by byte (NT4H2421Gx sections 10.9.1 to 10.9.3); a read of 256 bytes has Le 0. */
  lemma IsoFrames(high: byte, low: byte, want: nat, data: seq<byte>)
    requires high < 0x80 && 0 < want <= 256 && 0 < |data| <= 255
    ensures ReadBinaryApdu(256 * high as nat + low as nat, want) == [0x00, 0xB0, high, low, if want == 256 then 0 else want]
    ensures UpdateBinaryApdu(256 * high as nat + low as nat, data) == [0x00, 0xD6, high, low, |data|] + data
    ensures SelectEfApdu(CapabilityContainer.Id()) == [0x00, 0xA4, 0x00, 0x0C, 0x02, 0xE1, 0x03] && CapabilityContainer.No() == 0x01
    ensures SelectEfApdu(Ndef.Id()) == [0x00, 0xA4, 0x00, 0x0C, 0x02, 0xE1, 0x04] && Ndef.No() == 0x02
    ensures SelectEfApdu(Proprietary.Id()) == [0x00, 0xA4, 0x00, 0x0C, 0x02, 0xE1, 0x05] && Proprietary.No() == 0x03
  {
    BigEndian(high, low);
  }

  /** The link is honest, no session is open, and this plain file is the selected one. */
  ghost predicate Selected(link: Link, fileNo: byte)
    reads link
  {
    && link.honest && link.tag.session.None? && link.tag.selected == Some(fileNo)
    && fileNo in link.tag.files && link.tag.files[fileNo].mode.Plain?
  }

  /** The link is honest, no session is open, and nothing is selected that ISO commands may touch. */
  ghost predicate Barred(link: Link)
    reads link
  {
    && link.honest && link.tag.session.None?
    && (link.tag.selected.Some? && link.tag.selected.value in link.tag.files ==> !link.tag.files[link.tag.selected.value].mode.Plain?)
  }

  lemma BarredAnswer(aes: Aes128, t: T.Tag, apdu: seq<byte>)
    requires |apdu| >= 5 && apdu[0] == 0x00 && apdu[1] in {0xB0, 0xD6}
    requires t.selected.Some? && t.selected.value in t.files ==> !t.files[t.selected.value].mode.Plain?
    ensures T.Step(aes, t, apdu) == T.IsoRefuse(t, 0x69, 0x82)
  {
  }

  lemma ReadBinaryAnswer(aes: Aes128, t: T.Tag, fileNo: byte, offset: nat, want: nat)
    requires t.session.None? && t.selected == Some(fileNo) && fileNo in t.files && t.files[fileNo].mode.Plain?
    requires offset <= 0x7FFF && 0 < want <= ISO_READ_BINARY_CHUNK
    ensures var f := t.files[fileNo].data;
      T.Step(aes, t, ReadBinaryApdu(offset, want)) ==
        if offset > |f| then T.IsoRefuse(t, 0x6B, 0x00)
        else (t, T.Reply(f[offset..offset + Min(want, |f| - offset)], 0x90, 0x00))
  {
    var apdu := ReadBinaryApdu(offset, want);
    assert apdu[2..4] == IsoAddress(offset);
  }

  lemma UpdateBinaryAnswer(aes: Aes128, t: T.Tag, fileNo: byte, offset: nat, data: seq<byte>)
    requires t.session.None? && t.selected == Some(fileNo) && fileNo in t.files && t.files[fileNo].mode.Plain?
    requires offset <= 0x7FFF && 0 < |data| <= ISO_UPDATE_BINARY_CHUNK
    ensures T.Step(aes, t, UpdateBinaryApdu(offset, data)) ==
        if offset + |data| > |t.files[fileNo].data| then T.IsoRefuse(t, 0x6B, 0x00)
        else (T.Stored(t, fileNo, offset, data), T.Reply([], 0x90, 0x00))
  {
    var apdu := UpdateBinaryApdu(offset, data);
    assert apdu[2..4] == IsoAddress(offset) && apdu[5..] == data;
  }

  lemma IsoKeepsMemory(aes: Aes128, t: T.Tag, offset: nat, want: nat)
    requires offset <= 0x7FFF && 0 < want <= ISO_READ_BINARY_CHUNK
    ensures var t' := T.Step(aes, t, ReadBinaryApdu(offset, want)).0;
      T.SameMemory(t, t') && t'.selected == t.selected && t'.session == t.session
  {
  }

  /** `iso_read_binary` on the selected file. */
  method IsoReadBinary(link: Link, offset: nat, buf: array<byte>, at: nat, len: nat)
    returns (r: Result<nat, SessionError>)
    requires at + len <= buf.Length && len <= ISO_READ_BINARY_CHUNK
    modifies link, buf
    ensures len == 0 ==> r == Err(InvalidCommandParameter("buf.len()", 0)) && link.Seen() == old(link.Seen())
    ensures len > 0 && offset > 0x7FFF ==> r == Err(InvalidCommandParameter("offset", offset)) && link.Seen() == old(link.Seen())
    ensures len > 0 && offset <= 0x7FFF ==> link.log == old(link.log) + [ReadBinaryApdu(offset, len)]
    ensures T.SameMemory(old(link.tag), link.tag) && link.tag.selected == old(link.tag).selected && link.tag.session == old(link.tag).session
    ensures forall j :: 0 <= j < buf.Length && !(at <= j < at + if r.Ok? then r.value else 0) ==> buf[j] == old(buf[j])
    ensures r.Ok? ==> r.value <= len
    ensures forall fileNo :: r.Ok? && old(Selected(link, fileNo)) ==>
      var f := link.tag.files[fileNo].data;
      && Selected(link, fileNo) && offset <= |f| && r.value == Min(len, |f| - offset)
      && buf[at..at + r.value] == f[offset..offset + r.value]
    ensures old(Barred(link)) ==> r.Err? && link.tag == old(link.tag)
  {
    hide T.Step;
    if len == 0 {
      return Err(InvalidCommandParameter("buf.len()", 0));
    }
    if offset > 0x7FFF {
      return Err(InvalidCommandParameter("offset", offset));
    }
    IsoKeepsMemory(link.aes, link.tag, offset, len);
    ghost var t := link.tag;
    if Barred(link) {
      BarredAnswer(link.aes, t, ReadBinaryApdu(offset, len));
    }
    hide ReadBinaryApdu;
    var resp :- link.Transmit(ReadBinaryApdu(offset, len));
    if !(resp.sw1 == 0x90 && resp.sw2 == 0x00) {
      return Err(ErrorResponse(resp.sw1, resp.sw2));
    }
    forall fileNo | link.honest && t.session.None? && t.selected == Some(fileNo) && fileNo in t.files && t.files[fileNo].mode.Plain?
      ensures offset <= |t.files[fileNo].data|
      ensures resp.data == t.files[fileNo].data[offset..offset + Min(len, |t.files[fileNo].data| - offset)]
    {
      ReadBinaryAnswer(link.aes, t, fileNo, offset, len);
    }
    if |resp.data| > len {
      return Err(UnexpectedLength(|resp.data|, len));
    }
    CopyInto(buf, at, resp.data);
    assert buf[at..at + |resp.data|] == resp.data;
    return Result.Ok(|resp.data|);
  }

  /** Command `k` of a read: the next chunk of the `target` bytes from `offset` on. */
  function ReadCommand(offset: nat, target: nat, k: nat): seq<byte>
    requires offset + 256 * k <= 0x7FFF && 256 * k < target
  {
    ReadBinaryApdu(offset + 256 * k, Min(target - 256 * k, 256))
  }

  predicate ReadCommands(sent: seq<seq<byte>>, offset: nat, target: nat) {
    forall k :: 0 <= k < |sent| ==>
      offset + 256 * k <= 0x7FFF && 256 * k < target && sent[k] == ReadCommand(offset, target, k)
  }

  lemma NoReadCommands(offset: nat, target: nat)
    ensures ReadCommands([], offset, target)
  {
  }

  lemma ReadCommandsNext(sent: seq<seq<byte>>, offset: nat, target: nat)
    requires ReadCommands(sent, offset, target) && offset + 256 * |sent| <= 0x7FFF && 256 * |sent| < target
    ensures ReadCommands(sent + [ReadCommand(offset, target, |sent|)], offset, target)
  {
    hide ReadCommand;
  }

  lemma HoldsNext(f: seq<byte>, offset: nat, held: seq<byte>, buf: seq<byte>, total: nat, n: nat)
    requires HoldsBytes(f, offset, held, total) && |buf| == |held| && total + n <= |buf| && buf[..total] == held[..total]
    requires offset + total + n <= |f| && buf[total..total + n] == f[offset + total..offset + total + n]
    ensures HoldsBytes(f, offset, buf, total + n)
  {
    assert buf[..total + n] == buf[..total] + buf[total..total + n];
  }

  /** `data` are the bytes of the file that the tag has selected, short of `want` only at its end. */
  predicate ReadsSelected(t: T.Tag, offset: nat, want: nat, data: seq<byte>) {
    && t.selected.Some? && t.selected.value in t.files && t.files[t.selected.value].mode.Plain?
    && var f := t.files[t.selected.value].data;
    && |data| <= want && offset + |data| <= |f| && data == f[offset..offset + |data|] && (|data| == want || offset + |data| == |f|)
  }

  /** `read_file_unauthenticated`: it reads the file that the tag has selected, named or not. */
  method ReadFileUnauthenticated(session: Unauthenticated, link: Link, file: File, offset: u16, buf: array<byte>, ghost m: Memory)
    returns (r: Result<nat, SessionError>, ghost s: Selection)
    modifies session, link, buf
    ensures T.SameMemory(old(link.tag), link.tag)
    ensures r.Ok? ==> s.heard && 0 < buf.Length && r.value <= buf.Length
    ensures old(Tracks(session, link, m)) ==> Tracks(session, link, Follow(m, file, s))
    ensures old(Tracks(session, link, m)) && s.heard ==> (link.tag.selected == Some(file.No()) <==> GoesRight(m, file))
    ensures old(Tracks(session, link, m)) && m.file.Some? && !s.heard && s.reached ==> link.tag.selected == Some(file.No())
    ensures old(Tracks(session, link, m)) && m.file == Some(file) ==>
      s == Selection(true, false) && link.tag.selected == old(link.tag).selected
    ensures old(Tracks(session, link, m)) && m.file != Some(file) && s.heard ==> s.reached
    ensures old(Tracks(session, link, m)) && r.Ok? ==> ReadsSelected(link.tag, offset, buf.Length, buf[..r.value])
  {
    var selected;
    selected, s := SelectFile(session, link, file, m);
    if selected.Err? {
      r := Err(selected.error);
      return;
    }
    ghost var on := link.tag.selected;
    if buf.Length == 0 {
      r := IsoReadBinary(link, offset, buf, 0, 0);
      return;
    }
    ghost var sent;
    r, sent := ReadChunks(link, if on.Some? then on.value else 0, offset, buf);
  }

  /** The tag has this file selected, with these bytes. */
  ghost predicate Offers(link: Link, fileNo: byte, f: seq<byte>)
    reads link
  {
    Selected(link, fileNo) && link.tag.files[fileNo].data == f
  }

  /** One turn of the loop: the next chunk, behind the `total` bytes already in the buffer. */
  method ReadNext(link: Link, ghost fileNo: byte, ghost f: seq<byte>, offset: u16, buf: array<byte>, total: nat, want: nat)
    returns (r: Result<nat, SessionError>)
    requires 0 < want <= ISO_READ_BINARY_CHUNK && total + want <= buf.Length && offset + total <= 0x7FFF
    modifies link, buf
    ensures T.SameMemory(old(link.tag), link.tag) && link.tag.selected == old(link.tag).selected && link.tag.session == old(link.tag).session
    ensures link.log == old(link.log) + [ReadBinaryApdu(offset + total, want)]
    ensures r.Ok? ==> r.value <= want
    ensures r.Ok? && old(Offers(link, fileNo, f)) && HoldsBytes(f, offset, old(buf[..]), total) ==>
      && Offers(link, fileNo, f) && HoldsBytes(f, offset, buf[..], total + r.value) && offset + total + r.value <= |f|
      && (r.value == want || offset + total + r.value == |f|)
    ensures old(Barred(link)) ==> r.Err?
  {
    hide ReadBinaryApdu, HoldsBytes;
    ghost var held := buf[..];
    r := IsoReadBinary(link, offset + total, buf, total, want);
    if r.Ok? && old(Offers(link, fileNo, f)) && HoldsBytes(f, offset, held, total) {
      HoldsNext(f, offset, held, buf[..], total, r.value);
    }
  }

  method ReadChunks(link: Link, ghost fileNo: byte, offset: u16, buf: array<byte>)
    returns (r: Result<nat, SessionError>, ghost sent: seq<seq<byte>>)
    requires buf.Length > 0
    modifies link, buf
    ensures T.SameMemory(old(link.tag), link.tag)
    ensures link.log == old(link.log) + sent && ReadCommands(sent, offset, buf.Length)
    ensures r.Ok? ==> r.value <= buf.Length && |sent| == Exchanges(r.value, buf.Length, ISO_READ_BINARY_CHUNK)
    ensures r.Ok? && old(Selected(link, fileNo)) ==>
      && Selected(link, fileNo)
      && var f := link.tag.files[fileNo].data;
      && offset + r.value <= |f| && HoldsBytes(f, offset, buf[..], r.value)
      && (r.value == buf.Length || offset + r.value == |f|)
    ensures link.tag.selected == old(link.tag).selected && link.tag.session == old(link.tag).session
    ensures old(Barred(link)) ==> r.Err?
  {
    hide ReadBinaryApdu, Exchanges, ReadCommands, HoldsBytes;
    sent := [];
    ghost var ready, barred := Selected(link, fileNo), Barred(link);
    ghost var f := if ready then link.tag.files[fileNo].data else [];
    HoldsNothing(f, offset, buf[..]);
    assert ReadCommands(sent, offset, buf.Length) by { NoReadCommands(offset, buf.Length); }
    var total := 0;
    while total < buf.Length
      invariant total <= buf.Length && total <= |sent| * 256 < total + 256
      invariant total == buf.Length || total == |sent| * 256
      invariant T.SameMemory(old(link.tag), link.tag) && link.tag.selected == old(link.tag).selected && link.tag.session == old(link.tag).session
      invariant barred ==> Barred(link) && total == 0
      invariant link.log == old(link.log) + sent && ReadCommands(sent, offset, buf.Length)
      invariant ready ==> Offers(link, fileNo, f) && HoldsBytes(f, offset, buf[..], total)
      invariant ready && total > 0 ==> offset + total <= |f|
    {
      hide Offers, Selected;
      var want := Min(buf.Length - total, ISO_READ_BINARY_CHUNK);
      var abs := offset + total;
      if abs > 0x7FFF {
        r := Err(InvalidCommandParameter("offset", abs));
        return;
      }
      var one := ReadNext(link, fileNo, f, offset, buf, total, want);
      ReadCommandsNext(sent, offset, buf.Length);
      sent := sent + [ReadCommand(offset, buf.Length, |sent|)];
      var n :- one;
      total := total + n;
      if n < want {
        break;
      }
    }
    ExchangesAre(total, buf.Length, ISO_READ_BINARY_CHUNK, |sent|);
    r := Result.Ok(total);
  }

  // ---------------------------------------------------------------- writing

  /** `iso_update_binary` on the selected file. */
  method IsoUpdateBinary(link: Link, ghost fileNo: byte, offset: nat, data: seq<byte>) returns (r: Result<(), SessionError>)
    modifies link
    ensures |data| == 0 ==> r == Err(InvalidCommandParameter("data.len()", 0)) && link.Seen() == old(link.Seen())
    ensures |data| > ISO_UPDATE_BINARY_CHUNK ==> r == Err(ApduBodyTooLarge(|data|, 255)) && link.Seen() == old(link.Seen())
    ensures 0 < |data| <= ISO_UPDATE_BINARY_CHUNK ==>
      if offset > 0x7FFF then r == Err(InvalidCommandParameter("offset", offset)) && link.Seen() == old(link.Seen())
      else link.log == old(link.log) + [UpdateBinaryApdu(offset, data)]
    ensures old(Selected(link, fileNo)) ==>
      && Selected(link, fileNo)
      && (T.Wrote(old(link.tag), link.tag, fileNo, offset, data) || (r.Err? && T.SameMemory(old(link.tag), link.tag)))
    ensures old(Barred(link)) ==> r.Err? && link.tag == old(link.tag)
  {
    hide T.Step;
    if |data| == 0 {
      return Err(InvalidCommandParameter("data.len()", 0));
    }
    if |data| > ISO_UPDATE_BINARY_CHUNK {
      return Err(ApduBodyTooLarge(|data|, ISO_UPDATE_BINARY_CHUNK));
    }
    if offset > 0x7FFF {
      return Err(InvalidCommandParameter("offset", offset));
    }
    if Barred(link) {
      BarredAnswer(link.aes, link.tag, UpdateBinaryApdu(offset, data));
    }
    hide UpdateBinaryApdu;
    if Selected(link, fileNo) {
      UpdateBinaryAnswer(link.aes, link.tag, fileNo, offset, data);
    }
    var resp :- link.Transmit(UpdateBinaryApdu(offset, data));
    if !(resp.sw1 == 0x90 && resp.sw2 == 0x00) {
      return Err(ErrorResponse(resp.sw1, resp.sw2));
    }
    return Result.Ok(());
  }

  function WriteCommand(offset: nat, data: seq<byte>, k: nat): seq<byte>
    requires offset + 255 * k <= 0x7FFF && 255 * k < |data|
  {
    UpdateBinaryApdu(offset + 255 * k, data[255 * k..Min(255 * k + 255, |data|)])
  }

  predicate WriteCommands(sent: seq<seq<byte>>, offset: nat, data: seq<byte>) {
    forall k :: 0 <= k < |sent| ==>
      offset + 255 * k <= 0x7FFF && 255 * k < |data| && sent[k] == WriteCommand(offset, data, k)
  }

  method WriteChunks(link: Link, ghost fileNo: byte, offset: u16, data: seq<byte>)
    returns (r: Result<(), SessionError>, ghost sent: seq<seq<byte>>, ghost stored: nat)
    requires |data| > 0
    modifies link
    ensures link.log == old(link.log) + sent && WriteCommands(sent, offset, data)
    ensures r.Ok? ==> |sent| == Exchanges(|data|, |data|, ISO_UPDATE_BINARY_CHUNK)
    ensures old(Selected(link, fileNo)) ==>
      && Selected(link, fileNo)
      && StoredChunks(old(link.tag), link.tag, fileNo, offset, data, stored, ISO_UPDATE_BINARY_CHUNK)
      && stored <= |sent| <= stored + 1
      && (r.Ok? ==> T.Wrote(old(link.tag), link.tag, fileNo, offset, data))
    ensures old(Barred(link)) ==> r.Err? && link.tag == old(link.tag)
  {
    hide UpdateBinaryApdu, Exchanges, StoredChunks, T.Wrote;
    sent, stored := [], 0;
    ghost var ready, barred, start := Selected(link, fileNo), Barred(link), link.tag;
    StoredNone(start, fileNo, offset, data, ISO_UPDATE_BINARY_CHUNK);
    var written := 0;
    while written < |data|
      invariant written == Min(|sent| * 255, |data|) && |sent| * 255 < written + 255
      invariant link.log == old(link.log) + sent && WriteCommands(sent, offset, data)
      invariant ready ==> Selected(link, fileNo) && stored == |sent|
      invariant barred ==> link.tag == start && written == 0
      invariant ready ==> StoredChunks(start, link.tag, fileNo, offset, data, |sent|, ISO_UPDATE_BINARY_CHUNK)
    {
      var chunkLen := Min(|data| - written, ISO_UPDATE_BINARY_CHUNK);
      var abs := offset + written;
      if abs > 0x7FFF {
        r := Err(InvalidCommandParameter("offset", abs));
        return;
      }
      ghost var t := link.tag;
      var one := IsoUpdateBinary(link, fileNo, abs, data[written..written + chunkLen]);
      assert WriteCommand(offset, data, |sent|) == UpdateBinaryApdu(abs, data[written..written + chunkLen]);
      if ready {
        StoredAfter(start, t, link.tag, fileNo, offset, data, |sent|, ISO_UPDATE_BINARY_CHUNK, one.Ok?);
        stored := if StoredChunks(start, link.tag, fileNo, offset, data, |sent| + 1, ISO_UPDATE_BINARY_CHUNK) then |sent| + 1 else |sent|;
      }
      sent := sent + [UpdateBinaryApdu(abs, data[written..written + chunkLen])];
      var _ :- one;
      written := written + chunkLen;
    }
    ExchangesAre(|data|, |data|, ISO_UPDATE_BINARY_CHUNK, |sent|);
    if ready {
      StoredAll(start, link.tag, fileNo, offset, data, |sent|, ISO_UPDATE_BINARY_CHUNK);
    }
    r := Result.Ok(());
  }

  /** What a write did: nothing, or it stored these first chunks of `data` in the file that the tag has selected. */
  predicate WritesSelected(ok: bool, t: T.Tag, t': T.Tag, offset: nat, data: seq<byte>, stored: nat) {
    || (!ok && T.SameMemory(t, t'))
    || (t'.selected.Some? && StoredChunks(t, t', t'.selected.value, offset, data, stored, ISO_UPDATE_BINARY_CHUNK)
        && (ok ==> T.Wrote(t, t', t'.selected.value, offset, data)))
  }

  /** `write_file_unauthenticated`: it writes to the file that the tag has selected, named or not. */
  method WriteFileUnauthenticated(session: Unauthenticated, link: Link, file: File, offset: u16, data: seq<byte>, ghost m: Memory)
    returns (r: Result<(), SessionError>, ghost s: Selection, ghost stored: nat)
    modifies session, link
    ensures |data| == 0 ==> r.Err? && T.SameMemory(old(link.tag), link.tag)
    ensures r.Ok? ==> s.heard
    ensures !s.heard ==> T.SameMemory(old(link.tag), link.tag)
    ensures old(Tracks(session, link, m)) ==> Tracks(session, link, Follow(m, file, s))
    ensures old(Tracks(session, link, m)) && s.heard ==> (link.tag.selected == Some(file.No()) <==> GoesRight(m, file))
    ensures old(Tracks(session, link, m)) && m.file.Some? && !s.heard && s.reached ==> link.tag.selected == Some(file.No())
    ensures old(Tracks(session, link, m)) && m.file == Some(file) ==>
      s == Selection(true, false) && link.tag.selected == old(link.tag).selected
    ensures old(Tracks(session, link, m)) && m.file != Some(file) && s.heard ==> s.reached
    ensures old(Tracks(session, link, m)) ==> WritesSelected(r.Ok?, old(link.tag), link.tag, offset, data, stored)
  {
    stored := 0;
    ghost var start := link.tag;
    var selected;
    selected, s := SelectFile(session, link, file, m);
    if selected.Err? {
      r := selected;
      return;
    }
    ghost var at := link.tag;
    ghost var fileNo := if at.selected.Some? then at.selected.value else 0;
    if |data| == 0 {
      r := IsoUpdateBinary(link, fileNo, offset, data);
      return;
    }
    ghost var sent;
    r, sent, stored := WriteChunks(link, fileNo, offset, data);
    if StoredChunks(at, link.tag, fileNo, offset, data, stored, ISO_UPDATE_BINARY_CHUNK) {
      StoredFrom(start, at, link.tag, fileNo, offset, data, stored, ISO_UPDATE_BINARY_CHUNK);
    }
  }

  // ---------------------------------------------------------------- runs of a session

  datatype Access =
    | ReadAccess(file: File, offset: u16, len: nat)
    | WriteAccess(file: File, offset: u16, data: seq<byte>)

  /** One call: what it read, how many chunks it stored, how its selection went, and the tag before and after. */
  datatype Call = Call(op: Access, ok: bool, read: seq<byte>, stored: nat, selection: Selection, before: T.Tag, after: T.Tag)

  /** What the session remembers after these calls. */
  function Remembered(calls: seq<Call>): Memory {
    if |calls| == 0 then NOTHING_YET
    else
      var last := calls[|calls| - 1];
      Follow(Remembered(calls[..|calls| - 1]), last.op.file, last.selection)
  }

  /** The call worked on the file it names. */
  predicate HitsNamed(c: Call) {
    c.after.selected == Some(c.op.file.No())
  }

  /** Every call acts on the file that the tag has selected. */
  predicate ActsOnSelected(c: Call) {
    match c.op
    case ReadAccess(_, offset, len) => T.SameMemory(c.before, c.after) && (c.ok ==> ReadsSelected(c.after, offset, len, c.read))
    case WriteAccess(_, offset, data) => WritesSelected(c.ok, c.before, c.after, offset, data, c.stored)
  }

  /** What a call does after calls that leave `m`; it is of the named file exactly when it goes right. */
  predicate IsCall(m: Memory, c: Call) {
    && ActsOnSelected(c) && (c.ok ==> c.selection.heard)
    && (c.selection.heard ==> (HitsNamed(c) <==> GoesRight(m, c.op.file)))
    && (m.file.Some? && !c.selection.heard && c.selection.reached ==> HitsNamed(c))
    && (if m.file == Some(c.op.file) then c.selection == Selection(true, false) && c.after.selected == c.before.selected
        else c.selection.heard ==> c.selection.reached)
  }

  predicate CallsFit(calls: seq<Call>) {
    forall i :: 0 <= i < |calls| ==> IsCall(Remembered(calls[..i]), calls[i])
  }

  /** Each call finds the tag as the one before left it. */
  ghost predicate IsChain(calls: seq<Call>) {
    forall i :: 0 < i < |calls| ==> calls[i].before == calls[i - 1].after
  }

  ghost predicate IsRun(calls: seq<Call>) {
    CallsFit(calls) && IsChain(calls)
  }

  lemma RunOn(calls: seq<Call>, c: Call)
    requires IsRun(calls) && IsCall(Remembered(calls), c) && (|calls| > 0 ==> c.before == calls[|calls| - 1].after)
    ensures IsRun(calls + [c]) && Remembered(calls + [c]) == Follow(Remembered(calls), c.op.file, c.selection)
  {
    hide IsCall, Follow, CallsFit;
    RememberedOn(calls, c);
    CallsOn(calls, c);
  }

  lemma RememberedOn(calls: seq<Call>, c: Call)
    ensures Remembered(calls + [c]) == Follow(Remembered(calls), c.op.file, c.selection)
  {
    assert (calls + [c])[..|calls|] == calls;
  }

  lemma CallsOn(calls: seq<Call>, c: Call)
    requires CallsFit(calls) && IsCall(Remembered(calls), c)
    ensures CallsFit(calls + [c])
  {
    hide IsCall, Remembered;
    var on := calls + [c];
    forall i | 0 <= i < |on| ensures IsCall(Remembered(on[..i]), on[i]) {
      assert on[..i] == calls[..i];
      assert i == |calls| ==> calls[..i] == calls;
    }
  }

  method PerformAccess(session: Unauthenticated, link: Link, op: Access, ghost m: Memory) returns (ghost c: Call)
    requires Tracks(session, link, m)
    modifies session, link
    ensures c.op == op && c.before == old(link.tag) && c.after == link.tag && IsCall(m, c)
    ensures Tracks(session, link, Follow(m, op.file, c.selection))
  {
    hide WritesSelected, ReadsSelected, Follow;
    match op
    case ReadAccess(file, offset, len) =>
      var buf := new byte[len](i => 0);
      var n;
      ghost var s;
      n, s := ReadFileUnauthenticated(session, link, file, offset, buf, m);
      c := Call(op, n.Ok?, if n.Ok? then buf[..n.value] else [], 0, s, old(link.tag), link.tag);
    case WriteAccess(file, offset, data) =>
      var w;
      ghost var s, stored;
      w, s, stored := WriteFileUnauthenticated(session, link, file, offset, data, m);
      c := Call(op, w.Ok?, [], stored, s, old(link.tag), link.tag);
  }

  /** Any reads and writes of a new session. */
  method AccessFiles(link: Link, ops: seq<Access>) returns (session: Unauthenticated, ghost calls: seq<Call>)
    requires link.honest
    modifies link
    ensures fresh(session) && Tracks(session, link, Remembered(calls))
    ensures IsRun(calls) && |calls| == |ops| && forall i :: 0 <= i < |ops| ==> calls[i].op == ops[i]
    ensures |calls| > 0 ==> calls[0].before == old(link.tag) && calls[|calls| - 1].after == link.tag
  {
    hide IsRun, IsCall, Follow;
    session := new Unauthenticated();
    calls := [];
    assert IsRun(calls) by { EmptyRun(); }
    for i := 0 to |ops|
      invariant |calls| == i && IsRun(calls) && Tracks(session, link, Remembered(calls)) && fresh(session)
      invariant forall j :: 0 <= j < i ==> calls[j].op == ops[j]
      invariant if i > 0 then calls[0].before == old(link.tag) && calls[i - 1].after == link.tag else link.tag == old(link.tag)
    {
      ghost var c := PerformAccess(session, link, ops[i], Remembered(calls));
      RunOn(calls, c);
      calls := calls + [c];
    }
  }

  lemma EmptyRun()
    ensures IsRun([])
  {
  }

  /** The last selection whose answer was heard. */
  function LastHeard(calls: seq<Call>): (k: Option<nat>)
    ensures k.Some? ==> k.value < |calls|
  {
    if |calls| == 0 then None
    else if calls[|calls| - 1].selection == Selection(true, true) then Some(|calls| - 1)
    else LastHeard(calls[..|calls| - 1])
  }

  /** A selection that reached the tag unheard, after call `k`. */
  ghost predicate MissedAfter(calls: seq<Call>, k: nat) {
    exists j :: k < j < |calls| && calls[j].selection == Selection(false, true)
  }

  lemma MissedGrows(calls: seq<Call>, k: nat)
    requires k < |calls| - 1
    ensures MissedAfter(calls, k) <==> MissedAfter(calls[..|calls| - 1], k) || calls[|calls| - 1].selection == Selection(false, true)
  {
    var front := calls[..|calls| - 1];
    if MissedAfter(front, k) {
      var j :| k < j < |front| && front[j].selection == Selection(false, true);
      assert calls[j].selection == Selection(false, true);
    }
    if MissedAfter(calls, k) {
      var j :| k < j < |calls| && calls[j].selection == Selection(false, true);
      if j < |front| {
        assert front[j].selection == Selection(false, true);
      }
    }
  }

  lemma RunFront(calls: seq<Call>, n: nat)
    requires IsRun(calls) && n <= |calls|
    ensures IsRun(calls[..n])
  {
    hide IsCall, Remembered;
    assert forall i :: 0 <= i < n ==> calls[..n][..i] == calls[..i];
  }

  /** What is remembered is the file of the last selection heard; and whether one was missed after it. */
  lemma {:induction false} RememberedExactly(calls: seq<Call>)
    requires IsRun(calls)
    ensures var k := LastHeard(calls);
      Remembered(calls) == if k.None? then NOTHING_YET else Memory(Some(calls[k.value].op.file), MissedAfter(calls, k.value))
  {
    if |calls| > 0 {
      var front, last := calls[..|calls| - 1], calls[|calls| - 1];
      assert IsCall(Remembered(front), last);
      hide ActsOnSelected, IsRun, MissedAfter;
      RunFront(calls, |calls| - 1);
      RememberedExactly(front);
      var k := LastHeard(front);
      if last.selection == Selection(true, true) {
        NoneAfter(calls);
      } else if k.Some? {
        MissedGrows(calls, k.value);
      }
    }
  }

  lemma NoneAfter(calls: seq<Call>)
    requires |calls| > 0
    ensures !MissedAfter(calls, |calls| - 1)
  {
  }

  /**
    A call whose selection did not fail is of the file it names, unless that file is the last one heard to be
    selected and a selection reached the tag unheard since.
   */
  lemma HitsExactly(calls: seq<Call>, i: nat)
    requires IsRun(calls) && i < |calls| && calls[i].selection.heard
    ensures var before, k := calls[..i], LastHeard(calls[..i]);
      HitsNamed(calls[i]) <==> k.None? || before[k.value].op.file != calls[i].op.file || !MissedAfter(before, k.value)
  {
    hide ActsOnSelected, Follow;
    var before := calls[..i];
    RunFront(calls, i);
    RememberedExactly(before);
    assert IsCall(Remembered(before), calls[i]);
  }

  /** As long as no selection has failed, every call that succeeds is of the file it names. */
  lemma HeardCallsHitNamed(calls: seq<Call>, i: nat)
    requires IsRun(calls) && i < |calls| && calls[i].ok
    requires forall j :: 0 <= j < i ==> calls[j].selection.heard
    ensures HitsNamed(calls[i])
  {
    hide ActsOnSelected;
    assert IsCall(Remembered(calls[..i]), calls[i]);
    HitsExactly(calls, i);
  }

  /**
    Where it goes wrong: a file is remembered, the selection of another one reaches the tag and its answer is lost,
    and the next call that names the first file works on the other one, and succeeds.
   */
  lemma LostSelectionGoesWrong(calls: seq<Call>, i: nat)
    requires IsRun(calls) && i + 2 < |calls| && calls[i].selection.heard && calls[i + 2].ok
    requires calls[i + 2].op.file == calls[i].op.file != calls[i + 1].op.file
    requires !calls[i + 1].selection.heard && calls[i + 1].selection.reached
    ensures var c, other := calls[i + 2], calls[i + 1].op.file.No();
      && !HitsNamed(c) && c.after.selected == Some(other) && other in c.before.files
      && match c.op
         case ReadAccess(_, offset, _) =>
           var f := c.before.files[other].data;
           offset + |c.read| <= |f| && c.read == f[offset..offset + |c.read|]
         case WriteAccess(_, offset, data) => T.Wrote(c.before, c.after, other, offset, data)
  {
    hide ReadsSelected, T.Wrote, StoredChunks;
    assert IsCall(Remembered(calls[..i]), calls[i]);
    assert calls[..i + 1][..i] == calls[..i] && calls[..i + 2][..i + 1] == calls[..i + 1];
    assert Remembered(calls[..i + 1]).file == Some(calls[i].op.file);
    assert IsCall(Remembered(calls[..i + 1]), calls[i + 1]);
    FilesDiffer(calls[i].op.file, calls[i + 1].op.file);
    assert IsCall(Remembered(calls[..i + 2]), calls[i + 2]);
    SelectedIsFile(calls[i + 2]);
  }

  lemma SelectedIsFile(c: Call)
    requires ActsOnSelected(c) && c.ok
    ensures c.after.selected.Some? && c.after.selected.value in c.before.files
    ensures c.op.ReadAccess? ==>
      var f := c.before.files[c.after.selected.value].data;
      c.op.offset + |c.read| <= |f| && c.read == f[c.op.offset..c.op.offset + |c.read|]
    ensures c.op.WriteAccess? ==> T.Wrote(c.before, c.after, c.after.selected.value, c.op.offset, c.op.data)
  {
  }

  /** The tag's part of such a run: the third command reads from, or stores in, the file selected second. */
  lemma LostSelectionSteps(aes: Aes128, t: T.Tag, named: File, other: File, offset: nat, want: nat, data: seq<byte>)
    requires t.session.None? && other.No() in t.files && t.files[other.No()].mode.Plain?
    requires offset <= 0x7FFF && 0 < want <= ISO_READ_BINARY_CHUNK && 0 < |data| <= ISO_UPDATE_BINARY_CHUNK
    requires offset + want <= |t.files[other.No()].data| && offset + |data| <= |t.files[other.No()].data|
    ensures var first := T.Step(aes, t, SelectEfApdu(named.Id())).0;
      var lost := T.Step(aes, first, SelectEfApdu(other.Id())).0;
      && T.Step(aes, lost, ReadBinaryApdu(offset, want)).1 == T.Reply(t.files[other.No()].data[offset..offset + want], 0x90, 0x00)
      && T.Step(aes, lost, UpdateBinaryApdu(offset, data)).1 == T.Reply([], 0x90, 0x00)
      && T.Wrote(t, T.Step(aes, lost, UpdateBinaryApdu(offset, data)).0, other.No(), offset, data)
  {
    hide T.Step, SelectEfApdu, ReadBinaryApdu, UpdateBinaryApdu;
    SelectEf(aes, t, named);
    var first := T.Step(aes, t, SelectEfApdu(named.Id())).0;
    SelectEf(aes, first, other);
    var lost := T.Step(aes, first, SelectEfApdu(other.Id())).0;
    ReadBinaryAnswer(aes, lost, other.No(), offset, want);
    UpdateBinaryAnswer(aes, lost, other.No(), offset, data);
  }
}
