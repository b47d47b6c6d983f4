/** The SDM URL template compiler: `parse_template` and its helpers in sdm_url.rs. */
module Template {
  import opened Wrappers
  import opened Octets
  import opened Sdm
  import opened Utf8

  const URI_AT := 7
  const ZERO_CHAR: byte := 0x30

  datatype Field = UidField | CtrField | PiccField(content: Mirrored) | TtField | MacField

  /** What the template is made of. An escaped character is a literal like any other. */
  datatype Token = Literal(bytes: seq<byte>) | Placeholder(field: Field) | MacStart | Open | Close

  datatype TemplateError =
    | MissingMac
    | PiccWithPlainMirrors
    | NoMirror
    | DuplicatePlaceholder(name: string)
    | EncFileDataRequiresUidAndCtr
    | InvalidEncRangeLength(len: nat)
    | InvalidPlaceholder(start: nat, end: nat)
    | Unterminated(what: string)
    | UnexpectedMarker(what: string)
    | DuplicateRange(what: string)
    | PlaceholderInEncRange(name: string)
    | NestedRange(what: string)
    | MacStartAfterMac
    | OutputBufferTooSmall(needed: nat, capacity: nat)
    | FileTooLong(got: nat, max: nat)
    | FileSettingsFailed(what: string)

  function Display(f: Field): string {
    match f
    case UidField => "{uid}"
    case CtrField => "{ctr}"
    case PiccField(_) => "{picc}"
    case TtField => "{tt}"
    case MacField => "{mac}"
  }

  function FillLen(f: Field, mode: CryptoMode): nat {
    match f
    case UidField => 14
    case CtrField => 6
    case TtField => 2
    case MacField => 16
    case PiccField(_) => PiccBlobAsciiLen(mode)
  }

  // ---------------------------------------------------------------- scanning

  predicate EqAt(haystack: seq<byte>, start: nat, needle: seq<byte>) {
    start + |needle| <= |haystack| && haystack[start..start + |needle|] == needle
  }

  method BytesEqAt(haystack: seq<byte>, start: nat, needle: seq<byte>) returns (eq: bool)
    ensures eq == EqAt(haystack, start, needle)
  {
    if |haystack| < start + |needle| {
      return false;
    }
    var i := 0;
    while i < |needle|
      invariant 0 <= i <= |needle| && haystack[start..start + i] == needle[..i]
    {
      if haystack[start + i] != needle[i] {
        assert haystack[start..start + |needle|][i] != needle[i];
        return false;
      }
      assert haystack[start..start + i + 1] == haystack[start..start + i] + [needle[i]];
      assert needle[..i + 1] == needle[..i] + [needle[i]];
      i := i + 1;
    }
    assert needle[..|needle|] == needle;
    return true;
  }

  const UID_NAME: seq<byte> := [0x75, 0x69, 0x64]
  const CTR_NAME: seq<byte> := [0x63, 0x74, 0x72]
  const TT_NAME: seq<byte> := [0x74, 0x74]
  const MAC_NAME: seq<byte> := [0x6D, 0x61, 0x63]
  const PICC_NAME: seq<byte> := [0x70, 0x69, 0x63, 0x63]
  const PICC_UID_NAME: seq<byte> := PICC_NAME + [0x3A] + UID_NAME
  const PICC_CTR_NAME: seq<byte> := PICC_NAME + [0x3A] + CTR_NAME
  const PICC_UID_CTR_NAME: seq<byte> := PICC_UID_NAME + [0x2B] + CTR_NAME
  const PICC_CTR_UID_NAME: seq<byte> := PICC_CTR_NAME + [0x2B] + UID_NAME

  /** The placeholder a name between braces stands for. */
  function FieldNamed(name: seq<byte>): Option<Field> {
    if name == UID_NAME then Some(UidField)
    else if name == CTR_NAME then Some(CtrField)
    else if name == TT_NAME then Some(TtField)
    else if name == MAC_NAME then Some(MacField)
    else if name == PICC_NAME then Some(PiccField(Both))
    else if name == PICC_UID_NAME then Some(PiccField(UidOnly))
    else if name == PICC_CTR_NAME then Some(PiccField(CtrOnly))
    else if name == PICC_UID_CTR_NAME || name == PICC_CTR_UID_NAME then Some(PiccField(Both))
    else None
  }

  /** The nine names, spelled out. */
  predicate Names(name: seq<byte>, f: Field) {
    match f
    case UidField => Spells(name, "uid")
    case CtrField => Spells(name, "ctr")
    case TtField => Spells(name, "tt")
    case MacField => Spells(name, "mac")
    case PiccField(UidOnly) => Spells(name, "picc:uid")
    case PiccField(CtrOnly) => Spells(name, "picc:ctr")
    case PiccField(Both) => Spells(name, "picc") || Spells(name, "picc:uid+ctr") || Spells(name, "picc:ctr+uid")
  }

  ghost predicate IsName(name: seq<byte>) {
    exists f :: Names(name, f)
  }

  /** The field found is the one that is spelled. */
  lemma NamedExactly(name: seq<byte>, f: Field)
    ensures FieldNamed(name) == Some(f) <==> Names(name, f)
  {
    hide Spells;
    SpelledShort(name);
    SpelledPicc(name);
    NamesDiffer();
  }

  lemma SpelledShort(name: seq<byte>)
    ensures Spells(name, "uid") <==> name == UID_NAME
    ensures Spells(name, "ctr") <==> name == CTR_NAME
    ensures Spells(name, "tt") <==> name == TT_NAME
    ensures Spells(name, "mac") <==> name == MAC_NAME
    ensures Spells(name, "picc") <==> name == PICC_NAME
  {
    SpelledOnce(UID_NAME, name, "uid");
    SpelledOnce(CTR_NAME, name, "ctr");
    SpelledOnce(TT_NAME, name, "tt");
    SpelledOnce(MAC_NAME, name, "mac");
    SpelledOnce(PICC_NAME, name, "picc");
  }

  lemma SpelledPicc(name: seq<byte>)
    ensures Spells(name, "picc:uid") <==> name == PICC_UID_NAME
    ensures Spells(name, "picc:ctr") <==> name == PICC_CTR_NAME
    ensures Spells(name, "picc:uid+ctr") <==> name == PICC_UID_CTR_NAME
    ensures Spells(name, "picc:ctr+uid") <==> name == PICC_CTR_UID_NAME
  {
    SpelledOnce(PICC_UID_NAME, name, "picc:uid");
    SpelledOnce(PICC_CTR_NAME, name, "picc:ctr");
    SpelledOnce(PICC_UID_CTR_NAME, name, "picc:uid+ctr");
    SpelledOnce(PICC_CTR_UID_NAME, name, "picc:ctr+uid");
  }

  lemma NamesDiffer()
    ensures UID_NAME[0] == 0x75 && CTR_NAME[0] == 0x63 && MAC_NAME[0] == 0x6D
    ensures PICC_UID_NAME[5] == 0x75 && PICC_CTR_NAME[5] == 0x63 && PICC_UID_CTR_NAME[5] == 0x75 && PICC_CTR_UID_NAME[5] == 0x63
  {
  }

  /** The first closing brace from `j` on. */
  function ClosingBrace(url: seq<byte>, j: nat): (end: Option<nat>)
    requires j <= |url|
    ensures end.Some? ==> j <= end.value < |url| && url[end.value] == 0x7D
    decreases |url| - j
  {
    if j == |url| then None else if url[j] == 0x7D then Some(j) else ClosingBrace(url, j + 1)
  }

  /** The placeholder at `start`, and how many bytes it takes up. */
  function PlaceholderAt(url: seq<byte>, start: nat): (r: Result<(Field, nat), TemplateError>)
    requires start < |url|
    ensures r.Ok? ==> 1 < r.value.1 && start + r.value.1 <= |url| && url[start + r.value.1 - 1] == 0x7D
  {
    var end := ClosingBrace(url, start + 1);
    if end.None? then Err(Unterminated("placeholder"))
    else
      var field := FieldNamed(url[start + 1..end.value]);
      if field.None? then Err(InvalidPlaceholder(start, end.value + 1)) else Ok((field.value, end.value + 1 - start))
  }

  predicate IsFirstBrace(url: seq<byte>, start: nat, end: nat) {
    start < end < |url| && url[end] == 0x7D && forall j :: start < j < end ==> url[j] != 0x7D
  }

  lemma {:induction false} ClosingAt(url: seq<byte>, i: nat, end: nat)
    requires i <= end < |url| && url[end] == 0x7D && forall j :: i <= j < end ==> url[j] != 0x7D
    ensures ClosingBrace(url, i) == Some(end)
    decreases end - i
  {
    if i < end { ClosingAt(url, i + 1, end); }
  }

  /**
    What stands at `start`: the placeholder whose name is spelled before the first closing brace;
    no brace at all; or a name that is none of the nine.
   */
  ghost predicate IsPlaceholder(url: seq<byte>, start: nat, r: Result<(Field, nat), TemplateError>) {
    match r
    case Ok((f, n)) => n > 0 && IsFirstBrace(url, start, start + n - 1) && Names(url[start + 1..start + n - 1], f)
    case Err(Unterminated("placeholder")) => forall j :: start < j < |url| ==> url[j] != 0x7D
    case Err(InvalidPlaceholder(s, end)) =>
      s == start && 0 < end && IsFirstBrace(url, start, end - 1) && !IsName(url[start + 1..end - 1])
    case Err(_) => false
  }

  lemma PlaceholderIs(url: seq<byte>, start: nat)
    requires start < |url|
    ensures IsPlaceholder(url, start, PlaceholderAt(url, start))
  {
    hide FieldNamed, Names, ClosingBrace;
    var end := ClosingBrace(url, start + 1);
    FirstClosing(url, start + 1);
    if end.Some? {
      var name := url[start + 1..end.value];
      forall f ensures FieldNamed(name) == Some(f) <==> Names(name, f) {
        NamedExactly(name, f);
      }
      assert IsFirstBrace(url, start, end.value);
      assert FieldNamed(name).None? ==> !IsName(name);
    }
  }

  lemma {:induction false} FirstClosing(url: seq<byte>, i: nat)
    requires i <= |url|
    ensures var end := ClosingBrace(url, i);
      forall j :: i <= j < (if end.Some? then end.value else |url|) ==> url[j] != 0x7D
    decreases |url| - i
  {
    if i < |url| && url[i] != 0x7D { FirstClosing(url, i + 1); }
  }

  /** `parse_placeholder` */
  method ParsePlaceholder(url: seq<byte>, start: nat) returns (r: Result<(Field, nat), TemplateError>)
    requires start < |url|
    ensures r == PlaceholderAt(url, start)
    ensures IsPlaceholder(url, start, r)
  {
    hide FieldNamed, Names;
    PlaceholderIs(url, start);
    var end := start + 1;
    while end < |url|
      invariant start < end <= |url| && ClosingBrace(url, start + 1) == ClosingBrace(url, end)
    {
      if url[end] == 0x7D {
        var field := FieldNamed(url[start + 1..end]);
        return if field.None? then Err(InvalidPlaceholder(start, end + 1)) else Ok((field.value, end + 1 - start));
      }
      end := end + 1;
    }
    return Err(Unterminated("placeholder"));
  }

  // ---------------------------------------------------------------- the output buffer

  /** `ConstNdefBytes<N>` */
  class NdefBytes {
    const bytes: array<byte>
    var len: nat

    ghost predicate Valid()
      reads this
    {
      len <= bytes.Length
    }

    function Contents(): seq<byte>
      reads this, bytes
      requires Valid()
    {
      bytes[..len]
    }

    constructor (n: nat)
      ensures Valid() && fresh(bytes) && bytes.Length == n && Contents() == []
    {
      bytes := new byte[n](i => 0);
      len := 0;
    }

    method Push(b: byte) returns (r: Result<(), TemplateError>)
      requires Valid()
      modifies this, bytes
      ensures Valid()
      ensures if old(len) < bytes.Length then r == Ok(()) && Contents() == old(Contents()) + [b]
              else r == Err(OutputBufferTooSmall(bytes.Length + 1, bytes.Length)) && Contents() == old(Contents())
    {
      if len == bytes.Length {
        return Err(OutputBufferTooSmall(len + 1, bytes.Length));
      }
      bytes[len] := b;
      len := len + 1;
      return Ok(());
    }

    /** `extend_bytes`: all of it, or as much as fits and an error. */
    method ExtendBytes(src: seq<byte>, start: nat, count: nat) returns (r: Result<(), TemplateError>)
      requires Valid() && start + count <= |src|
      modifies this, bytes
      ensures Valid()
      ensures if old(len) + count <= bytes.Length then r == Ok(()) && Contents() == old(Contents()) + src[start..start + count]
              else r == Err(OutputBufferTooSmall(bytes.Length + 1, bytes.Length))
    {
      for i := 0 to count
        invariant Valid() && len == old(len) + i
        invariant Contents() == old(Contents()) + src[start..start + i]
      {
        var _ :- Push(src[start + i]);
      }
      return Ok(());
    }

    /** `push_zeroes`: the character '0', `count` times. */
    method PushZeroes(count: nat) returns (r: Result<(), TemplateError>)
      requires Valid()
      modifies this, bytes
      ensures Valid()
      ensures if old(len) + count <= bytes.Length then r == Ok(()) && Contents() == old(Contents()) + ZeroChars(count)
              else r == Err(OutputBufferTooSmall(bytes.Length + 1, bytes.Length))
    {
      for i := 0 to count
        invariant Valid() && len == old(len) + i
        invariant Contents() == old(Contents()) + ZeroChars(i)
      {
        var _ :- Push(ZERO_CHAR);
      }
      return Ok(());
    }
  }

  function ZeroChars(n: nat): (z: seq<byte>)
    ensures |z| == n
  {
    seq(n, i => ZERO_CHAR)
  }

  // ---------------------------------------------------------------- one token

  /** The character after a backslash. */
  function LexEscape(url: seq<byte>, i: nat): (r: Result<(Token, nat), TemplateError>)
    requires i < |url| && IsUtf8From(url, i) && url[i] == 0x5C
    ensures r.Ok? ==> 0 < r.value.1 && i + r.value.1 <= |url| && IsUtf8From(url, i + r.value.1)
  {
    if i + 1 >= |url| then Err(Unterminated("escape sequence"))
    else
      AsciiIsBoundary(url, i, i);
      var w := Width(url[i + 1]);
      Ok((Literal(url[i + 1..i + 1 + w]), 1 + w))
  }

  /** One bracket, or two. */
  function LexBracket(url: seq<byte>, i: nat): (r: Result<(Token, nat), TemplateError>)
    requires i < |url| && IsUtf8From(url, i) && url[i] == 0x5B
    ensures r.Ok? ==> 0 < r.value.1 && i + r.value.1 <= |url| && IsUtf8From(url, i + r.value.1)
  {
    AsciiIsBoundary(url, i, i);
    if i + 1 < |url| && url[i + 1] == 0x5B then
      AsciiIsBoundary(url, i, i + 1);
      Ok((MacStart, 2))
    else Ok((Open, 1))
  }

  function LexBrace(url: seq<byte>, i: nat): (r: Result<(Token, nat), TemplateError>)
    requires i < |url| && IsUtf8From(url, i) && url[i] == 0x7B
    ensures r.Ok? ==> 0 < r.value.1 && i + r.value.1 <= |url| && IsUtf8From(url, i + r.value.1)
  {
    var p :- PlaceholderAt(url, i);
    AsciiIsBoundary(url, i, i + p.1 - 1);
    Ok((Placeholder(p.0), p.1))
  }

  /** The token at `i`, and how many bytes it takes up. */
  function LexOne(url: seq<byte>, i: nat): (r: Result<(Token, nat), TemplateError>)
    requires i < |url| && IsUtf8From(url, i)
    ensures r.Ok? ==> 0 < r.value.1 && i + r.value.1 <= |url| && IsUtf8From(url, i + r.value.1)
  {
    var b := url[i];
    if b == 0x5D then Ok((Close, 1))
    else if b == 0x5B then LexBracket(url, i)
    else if b == 0x5C then LexEscape(url, i)
    else if b == 0x7B then LexBrace(url, i)
    else
      var w := Width(b);
      Ok((Literal(url[i..i + w]), w))
  }

  /** What compilation has found so far; offsets are file offsets. */
  datatype Slots = Slots(
    out: seq<byte>,
    uid: Option<nat>,
    ctr: Option<nat>,
    picc: Option<(nat, Mirrored)>,
    tt: Option<nat>,
    mac: Option<nat>,
    macStart: Option<nat>,
    encStart: Option<nat>,
    encEnd: Option<nat>,
    inEnc: bool)

  const EMPTY: Slots := Slots([], None, None, None, None, None, None, None, None, false)

  function Here(s: Slots): nat {
    URI_AT + |s.out|
  }

  /** The bytes appended to the output, if there is room. */
  function Emit(s: Slots, bytes: seq<byte>, capacity: nat): Result<Slots, TemplateError> {
    if |s.out| + |bytes| > capacity then Err(OutputBufferTooSmall(capacity + 1, capacity)) else Ok(s.(out := s.out + bytes))
  }

  /** A placeholder found at the current offset; every kind may be found once. */
  function Mark(s: Slots, f: Field): Result<Slots, TemplateError> {
    match f
    case UidField => if s.uid.Some? then Err(DuplicatePlaceholder(Display(f))) else Ok(s.(uid := Some(Here(s))))
    case CtrField => if s.ctr.Some? then Err(DuplicatePlaceholder(Display(f))) else Ok(s.(ctr := Some(Here(s))))
    case PiccField(c) => if s.picc.Some? then Err(DuplicatePlaceholder(Display(f))) else Ok(s.(picc := Some((Here(s), c))))
    case TtField => if s.tt.Some? then Err(DuplicatePlaceholder(Display(f))) else Ok(s.(tt := Some(Here(s))))
    case MacField => if s.mac.Some? then Err(DuplicatePlaceholder(Display(f))) else Ok(s.(mac := Some(Here(s))))
  }

  /** One token compiled. Inside brackets only literals and `{tt}` may stand, and all come out as zeros. */
  function Step(s: Slots, t: Token, mode: CryptoMode, capacity: nat): Result<Slots, TemplateError> {
    match t
    case Close =>
      if s.inEnc then Ok(s.(encEnd := Some(Here(s)), inEnc := false)) else Err(UnexpectedMarker("]"))
    case MacStart =>
      if s.inEnc then Err(NestedRange("[[ inside [...]"))
      else if s.macStart.Some? then Err(DuplicateRange("[["))
      else Ok(s.(macStart := Some(Here(s))))
    case Open =>
      if s.inEnc then Err(NestedRange("[...]"))
      else if s.encStart.Some? then Err(DuplicateRange("[...]"))
      else Ok(s.(encStart := Some(Here(s)), inEnc := true))
    case Literal(bytes) => Emit(s, if s.inEnc then ZeroChars(|bytes|) else bytes, capacity)
    case Placeholder(f) =>
      if s.inEnc && !f.TtField? then Err(PlaceholderInEncRange(Display(f)))
      else
        var marked :- Mark(s, f);
        Emit(marked, ZeroChars(FillLen(f, mode)), capacity)
  }

  /** Compilation of everything from `i` on. */
  function Run(url: seq<byte>, i: nat, s: Slots, mode: CryptoMode, capacity: nat): Result<Slots, TemplateError>
    requires i <= |url| && IsUtf8From(url, i)
    decreases |url| - i
  {
    if i == |url| then Ok(s)
    else
      var t :- LexOne(url, i);
      var s' :- Step(s, t.0, mode, capacity);
      Run(url, i + t.1, s', mode, capacity)
  }

  // ---------------------------------------------------------------- the checks at the end

  datatype ParsedTemplate = ParsedTemplate(
    uriContent: seq<byte>,
    uidOffset: Option<nat>,
    ctrOffset: Option<nat>,
    picc: Option<(nat, Mirrored)>,
    ttOffset: Option<nat>,
    macOffset: nat,
    macInput: nat,
    encRange: Option<(nat, nat)>)

  function IncludesUid(s: Slots): bool {
    if s.picc.Some? then !s.picc.value.1.CtrOnly? else s.uid.Some?
  }

  function IncludesCtr(s: Slots): bool {
    if s.picc.Some? then !s.picc.value.1.UidOnly? else s.ctr.Some?
  }

  function EncRangeOf(s: Slots): Result<Option<(nat, nat)>, TemplateError> {
    if s.encStart.None? && s.encEnd.None? then Ok(None)
    else if s.encStart.None? || s.encEnd.None? then Err(Unterminated("[...]"))
    else
      var len: nat := if s.encEnd.value < s.encStart.value then 0 else s.encEnd.value - s.encStart.value;
      if len == 0 || len % 32 != 0 then Err(InvalidEncRangeLength(len))
      else if !IncludesUid(s) || !IncludesCtr(s) then Err(EncFileDataRequiresUidAndCtr)
      else Ok(Some((s.encStart.value, s.encEnd.value)))
  }

  function Finish(s: Slots): Result<ParsedTemplate, TemplateError> {
    if s.inEnc then Err(Unterminated("[...]"))
    else if s.mac.None? then Err(MissingMac)
    else if s.picc.Some? && (s.uid.Some? || s.ctr.Some?) then Err(PiccWithPlainMirrors)
    else if s.picc.None? && s.uid.None? && s.ctr.None? && s.tt.None? then Err(NoMirror)
    else
      var enc :- EncRangeOf(s);
      var macInput := if s.macStart.Some? then s.macStart.value else URI_AT;
      if macInput > s.mac.value then Err(MacStartAfterMac)
      else Ok(ParsedTemplate(s.out, s.uid, s.ctr, s.picc, s.tt, s.mac.value, macInput, enc))
  }

  function Parsed(url: seq<byte>, start: nat, mode: CryptoMode, capacity: nat): Result<ParsedTemplate, TemplateError>
    requires start <= |url| && IsUtf8From(url, start)
  {
    var s :- Run(url, start, EMPTY, mode, capacity);
    Finish(s)
  }

  // ---------------------------------------------------------------- the code

  /** One token lexed and compiled: the state after it, and where the next one starts. */
  function StepAt(url: seq<byte>, i: nat, s: Slots, mode: CryptoMode, capacity: nat): (r: Result<(Slots, nat), TemplateError>)
    requires i < |url| && IsUtf8From(url, i)
    ensures r.Ok? ==> i < r.value.1 <= |url| && IsUtf8From(url, r.value.1)
  {
    var t :- LexOne(url, i);
    var s' :- Step(s, t.0, mode, capacity);
    Ok((s', i + t.1))
  }

  /** The local variables of `parse_template`. */
  class Compiler {
    const content: NdefBytes
    var uid: Option<nat>
    var ctr: Option<nat>
    var picc: Option<(nat, Mirrored)>
    var tt: Option<nat>
    var mac: Option<nat>
    var macStart: Option<nat>
    var encStart: Option<nat>
    var encEnd: Option<nat>
    var inEnc: bool

    ghost predicate Valid()
      reads this, content
    {
      content.Valid()
    }

    function View(): Slots
      reads this, content, content.bytes
      requires Valid()
    {
      Slots(content.Contents(), uid, ctr, picc, tt, mac, macStart, encStart, encEnd, inEnc)
    }

    constructor (capacity: nat)
      ensures Valid() && fresh(content) && fresh(content.bytes) && content.bytes.Length == capacity && View() == EMPTY
    {
      content := new NdefBytes(capacity);
      uid, ctr, picc, tt, mac := None, None, None, None, None;
      macStart, encStart, encEnd, inEnc := None, None, None, false;
    }

    /** The first half of the loop body: inside `[...]`. */
    method TakeInside(url: seq<byte>, i: nat, mode: CryptoMode) returns (r: Result<nat, TemplateError>)
      requires Valid() && inEnc && i < |url| && IsUtf8From(url, i)
      modifies this, content, content.bytes
      ensures Valid()
      ensures var step := StepAt(url, i, old(View()), mode, content.bytes.Length);
        if r.Ok? then step == Ok((View(), r.value)) else step == Err(r.error)
    {
      hide PlaceholderAt, IsUtf8From;
      ghost var lexed := LexOne(url, i);
      var b := url[i];
      if b == 0x5D {
        encEnd := Some(URI_AT + content.len);
        inEnc := false;
        return Ok(i + 1);
      }
      if b == 0x5B && i + 1 < |url| && url[i + 1] == 0x5B {
        return Err(NestedRange("[[ inside [...]"));
      }
      if b == 0x5B {
        return Err(NestedRange("[...]"));
      }
      if b == 0x5C {
        if i + 1 >= |url| {
          return Err(Unterminated("escape sequence"));
        }
        var width := Width(url[i + 1]);
        var _ :- content.PushZeroes(width);
        return Ok(i + 1 + width);
      }
      if b == 0x7B {
        r := TakePlaceholder(url, i, mode);
        return;
      }
      var width := Width(b);
      var _ :- content.PushZeroes(width);
      return Ok(i + width);
    }

    /** The second half: outside. */
    method TakeOutside(url: seq<byte>, i: nat, mode: CryptoMode) returns (r: Result<nat, TemplateError>)
      requires Valid() && !inEnc && i < |url| && IsUtf8From(url, i)
      modifies this, content, content.bytes
      ensures Valid()
      ensures var step := StepAt(url, i, old(View()), mode, content.bytes.Length);
        if r.Ok? then step == Ok((View(), r.value)) else step == Err(r.error)
    {
      hide PlaceholderAt, IsUtf8From;
      ghost var lexed := LexOne(url, i);
      var b := url[i];
      if b == 0x5B && i + 1 < |url| && url[i + 1] == 0x5B {
        if macStart.Some? {
          return Err(DuplicateRange("[["));
        }
        macStart := Some(URI_AT + content.len);
        return Ok(i + 2);
      }
      if b == 0x5B {
        if encStart.Some? {
          return Err(DuplicateRange("[...]"));
        }
        inEnc := true;
        encStart := Some(URI_AT + content.len);
        return Ok(i + 1);
      }
      if b == 0x5D {
        return Err(UnexpectedMarker("]"));
      }
      if b == 0x5C {
        if i + 1 >= |url| {
          return Err(Unterminated("escape sequence"));
        }
        var width := Width(url[i + 1]);
        LiteralFits(url, i);
        var _ :- content.ExtendBytes(url, i + 1, width);
        return Ok(i + 1 + width);
      }
      if b == 0x7B {
        r := TakePlaceholder(url, i, mode);
        return;
      }
      var width := Width(b);
      LiteralFits(url, i);
      var _ :- content.ExtendBytes(url, i, width);
      return Ok(i + width);
    }

    /** The branch of either half that an opening brace takes. */
    method TakePlaceholder(url: seq<byte>, i: nat, mode: CryptoMode) returns (r: Result<nat, TemplateError>)
      requires Valid() && i < |url| && url[i] == 0x7B && IsUtf8From(url, i)
      modifies this, content, content.bytes
      ensures Valid()
      ensures var step := StepAt(url, i, old(View()), mode, content.bytes.Length);
        if r.Ok? then step == Ok((View(), r.value)) else step == Err(r.error)
    {
      hide PlaceholderAt, IsUtf8From;
      ghost var lexed := LexOne(url, i);
      var p :- ParsePlaceholder(url, i);
      if inEnc && !p.0.TtField? {
        return Err(PlaceholderInEncRange(Display(p.0)));
      }
      var _ :- TakeField(p.0);
      var _ :- content.PushZeroes(FillLen(p.0, mode));
      return Ok(i + p.1);
    }

    /** The `set_once` of each kind of placeholder. */
    method TakeField(f: Field) returns (r: Result<(), TemplateError>)
      requires Valid()
      modifies this
      ensures Valid()
      ensures var marked := Mark(old(View()), f);
        if r.Ok? then marked == Ok(View()) else marked == Err(r.error)
    {
      var offset := URI_AT + content.len;
      match f {
        case UidField =>
          if uid.Some? { return Err(DuplicatePlaceholder(Display(f))); }
          uid := Some(offset);
        case CtrField =>
          if ctr.Some? { return Err(DuplicatePlaceholder(Display(f))); }
          ctr := Some(offset);
        case PiccField(c) =>
          if picc.Some? { return Err(DuplicatePlaceholder("{picc}")); }
          picc := Some((offset, c));
        case TtField =>
          if tt.Some? { return Err(DuplicatePlaceholder(Display(f))); }
          tt := Some(offset);
        case MacField =>
          if mac.Some? { return Err(DuplicatePlaceholder(Display(f))); }
          mac := Some(offset);
      }
      return Ok(());
    }
  }

  /** A whole character, and one that an escape announces, lie within the template. */
  lemma LiteralFits(url: seq<byte>, i: nat)
    requires i < |url| && IsUtf8From(url, i)
    ensures i + Width(url[i]) <= |url|
    ensures url[i] == 0x5C && i + 1 < |url| ==> i + 1 + Width(url[i + 1]) <= |url|
  {
    if url[i] == 0x5C {
      AsciiIsBoundary(url, i, i);
    }
  }

  /** `parse_template`: never reads past the template, whatever it is. */
  method ParseTemplate(url: seq<byte>, start: nat, mode: CryptoMode, capacity: nat)
    returns (r: Result<ParsedTemplate, TemplateError>)
    requires start <= |url| && IsUtf8From(url, start)
    ensures r == Parsed(url, start, mode, capacity)
  {
    hide LexOne, Step, Finish, IsUtf8From;
    var c := new Compiler(capacity);
    var i := start;
    while i < |url|
      invariant start <= i <= |url| && IsUtf8From(url, i)
      invariant c.Valid() && fresh(c) && fresh(c.content) && fresh(c.content.bytes) && c.content.bytes.Length == capacity
      invariant Run(url, start, EMPTY, mode, capacity) == Run(url, i, c.View(), mode, capacity)
    {
      if c.inEnc {
        i :- c.TakeInside(url, i, mode);
      } else {
        i :- c.TakeOutside(url, i, mode);
      }
    }
    r := Finish(c.View());
  }
}
