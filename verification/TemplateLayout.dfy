/**
  What an accepted template means. Its tokens alone determine the output, the concatenation of their
  renderings, and every offset, the length rendered before the token; acceptance is a condition on
  the tokens; and the placeholders come out apart and zero.
 */
module TemplateLayout {
  import opened Wrappers
  import opened Octets
  import opened Sdm
  import opened Utf8
  import opened Template

  // ---------------------------------------------------------------- tokens

  /** All tokens from `i` on. */
  function Lex(url: seq<byte>, i: nat): Result<seq<Token>, TemplateError>
    requires i <= |url| && IsUtf8From(url, i)
    decreases |url| - i
  {
    if i == |url| then Ok([])
    else
      var t :- LexOne(url, i);
      var rest :- Lex(url, i + t.1);
      Ok([t.0] + rest)
  }

  datatype Kind = UidK | CtrK | PiccK | TtK | MacK | MacStartK | OpenK | CloseK | LiteralK

  function KindOf(t: Token): Kind {
    match t
    case Literal(_) => LiteralK
    case Placeholder(UidField) => UidK
    case Placeholder(CtrField) => CtrK
    case Placeholder(PiccField(_)) => PiccK
    case Placeholder(TtField) => TtK
    case Placeholder(MacField) => MacK
    case MacStart => MacStartK
    case Open => OpenK
    case Close => CloseK
  }

  function Front(ts: seq<Token>): seq<Token>
    requires |ts| > 0
  {
    ts[..|ts| - 1]
  }

  function Last(ts: seq<Token>): Token
    requires |ts| > 0
  {
    ts[|ts| - 1]
  }

  predicate Occurs(ts: seq<Token>, k: Kind) {
    exists i :: 0 <= i < |ts| && KindOf(ts[i]) == k
  }

  /** After these tokens, an encrypted range is open. */
  predicate Inside(ts: seq<Token>) {
    |ts| > 0 && match Last(ts) {
      case Open => true
      case Close => false
      case _ => Inside(Front(ts))
    }
  }

  // ---------------------------------------------------------------- the specification

  /** What a token comes out as: itself, or zeros of the same length. */
  function Rendering(t: Token, inside: bool, mode: CryptoMode): seq<byte> {
    match t
    case Literal(bytes) => if inside then ZeroChars(|bytes|) else bytes
    case Placeholder(f) => ZeroChars(FillLen(f, mode))
    case _ => []
  }

  /** The output: the renderings, one after the other. */
  function Out(ts: seq<Token>, mode: CryptoMode): seq<byte> {
    if |ts| == 0 then [] else Out(Front(ts), mode) + Rendering(Last(ts), Inside(Front(ts)), mode)
  }

  /** A token's offset: 7 plus the length rendered before it. */
  function OffsetOf(ts: seq<Token>, k: Kind, mode: CryptoMode): Option<nat> {
    if |ts| == 0 then None
    else if KindOf(Last(ts)) == k then Some(URI_AT + |Out(Front(ts), mode)|)
    else OffsetOf(Front(ts), k, mode)
  }

  function PiccContent(ts: seq<Token>): Mirrored {
    if |ts| == 0 then Both
    else
      match Last(ts)
      case Placeholder(PiccField(c)) => c
      case _ => PiccContent(Front(ts))
  }

  /**
    A token may follow: markers and placeholders come at most once, `]` only closes, and inside
    brackets there are only literals and `{tt}`.
   */
  predicate MayFollow(ts: seq<Token>, t: Token) {
    && (t.Literal? || t.Close? || !Occurs(ts, KindOf(t)))
    && (t.Close? ==> Inside(ts))
    && (Inside(ts) ==> t.Literal? || t.Close? || t == Placeholder(TtField))
  }

  predicate IsOrderly(ts: seq<Token>) {
    |ts| == 0 || (IsOrderly(Front(ts)) && MayFollow(Front(ts), Last(ts)))
  }

  predicate MirrorsUid(ts: seq<Token>) {
    if Occurs(ts, PiccK) then !PiccContent(ts).CtrOnly? else Occurs(ts, UidK)
  }

  predicate MirrorsCtr(ts: seq<Token>) {
    if Occurs(ts, PiccK) then !PiccContent(ts).UidOnly? else Occurs(ts, CtrK)
  }

  function EncLen(ts: seq<Token>, mode: CryptoMode): int {
    var start, end := OffsetOf(ts, OpenK, mode), OffsetOf(ts, CloseK, mode);
    if start.None? || end.None? then 0 else end.value - start.value
  }

  /** The templates that compile. */
  predicate IsWellFormed(ts: seq<Token>, mode: CryptoMode) {
    OccursIffOffset(ts, mode);
    && IsOrderly(ts) && !Inside(ts)
    && Occurs(ts, MacK)
    && !(Occurs(ts, PiccK) && (Occurs(ts, UidK) || Occurs(ts, CtrK)))
    && (Occurs(ts, PiccK) || Occurs(ts, UidK) || Occurs(ts, CtrK) || Occurs(ts, TtK))
    && (Occurs(ts, OpenK) ==> EncLen(ts, mode) > 0 && EncLen(ts, mode) % 32 == 0 && MirrorsUid(ts) && MirrorsCtr(ts))
    && (Occurs(ts, MacStartK) ==> OffsetOf(ts, MacStartK, mode).value <= OffsetOf(ts, MacK, mode).value)
  }

  /** What a well-formed template compiles to. */
  function Layout(ts: seq<Token>, mode: CryptoMode): ParsedTemplate
    requires Occurs(ts, MacK)
  {
    OccursIffOffset(ts, mode);
    ParsedTemplate(
      Out(ts, mode), OffsetOf(ts, UidK, mode), OffsetOf(ts, CtrK, mode),
      if Occurs(ts, PiccK) then Some((OffsetOf(ts, PiccK, mode).value, PiccContent(ts))) else None,
      OffsetOf(ts, TtK, mode), OffsetOf(ts, MacK, mode).value,
      if Occurs(ts, MacStartK) then OffsetOf(ts, MacStartK, mode).value else URI_AT,
      if Occurs(ts, OpenK) && Occurs(ts, CloseK) then Some((OffsetOf(ts, OpenK, mode).value, OffsetOf(ts, CloseK, mode).value)) else None)
  }

  lemma {:induction false} OccursIffOffset(ts: seq<Token>, mode: CryptoMode)
    ensures forall k :: OffsetOf(ts, k, mode).Some? <==> Occurs(ts, k)
  {
    if |ts| > 0 {
      OccursIffOffset(Front(ts), mode);
      forall k ensures Occurs(ts, k) <==> KindOf(Last(ts)) == k || Occurs(Front(ts), k) {
        OccursStep(ts, k);
      }
    }
  }

  lemma OccursStep(ts: seq<Token>, k: Kind)
    requires |ts| > 0
    ensures Occurs(ts, k) <==> KindOf(Last(ts)) == k || Occurs(Front(ts), k)
  {
    if Occurs(ts, k) {
      var i :| 0 <= i < |ts| && KindOf(ts[i]) == k;
      assert i < |ts| - 1 ==> KindOf(Front(ts)[i]) == k;
    }
    if Occurs(Front(ts), k) {
      var i :| 0 <= i < |Front(ts)| && KindOf(Front(ts)[i]) == k;
      assert KindOf(ts[i]) == k;
    }
  }

  // ---------------------------------------------------------------- the compiler meets it

  /** Compilation, token by token. */
  function Compiled(ts: seq<Token>, mode: CryptoMode, capacity: nat): Result<Slots, TemplateError> {
    if |ts| == 0 then Ok(EMPTY)
    else
      var s :- Compiled(Front(ts), mode, capacity);
      Step(s, Last(ts), mode, capacity)
  }

  function SlotsAt(ts: seq<Token>, mode: CryptoMode): Slots {
    Slots(Out(ts, mode), OffsetOf(ts, UidK, mode), OffsetOf(ts, CtrK, mode),
          if OffsetOf(ts, PiccK, mode).Some? then Some((OffsetOf(ts, PiccK, mode).value, PiccContent(ts))) else None,
          OffsetOf(ts, TtK, mode), OffsetOf(ts, MacK, mode), OffsetOf(ts, MacStartK, mode),
          OffsetOf(ts, OpenK, mode), OffsetOf(ts, CloseK, mode), Inside(ts))
  }

  function MarkedAt(s: Slots, k: Kind): Option<nat> {
    match k
    case UidK => s.uid
    case CtrK => s.ctr
    case PiccK => if s.picc.Some? then Some(s.picc.value.0) else None
    case TtK => s.tt
    case MacK => s.mac
    case MacStartK => s.macStart
    case OpenK => s.encStart
    case CloseK => s.encEnd
    case LiteralK => None
  }

  /** A token's effect, where it may stand. */
  function Next(s: Slots, t: Token, mode: CryptoMode): Slots {
    var s' := s.(out := s.out + Rendering(t, s.inEnc, mode));
    match t
    case Literal(_) => s'
    case Placeholder(UidField) => s'.(uid := Some(Here(s)))
    case Placeholder(CtrField) => s'.(ctr := Some(Here(s)))
    case Placeholder(PiccField(c)) => s'.(picc := Some((Here(s), c)))
    case Placeholder(TtField) => s'.(tt := Some(Here(s)))
    case Placeholder(MacField) => s'.(mac := Some(Here(s)))
    case MacStart => s'.(macStart := Some(Here(s)))
    case Open => s'.(encStart := Some(Here(s)), inEnc := true)
    case Close => s'.(encEnd := Some(Here(s)), inEnc := false)
  }

  predicate MayTake(s: Slots, t: Token) {
    && (t.Literal? || t.Close? || MarkedAt(s, KindOf(t)).None?)
    && (t.Close? ==> s.inEnc)
    && (s.inEnc ==> t.Literal? || t.Close? || t == Placeholder(TtField))
  }

  lemma StepIsNext(s: Slots, t: Token, mode: CryptoMode, capacity: nat)
    requires |s.out| <= capacity
    ensures var step := Step(s, t, mode, capacity);
      && (step.Ok? <==> MayTake(s, t) && |s.out| + |Rendering(t, s.inEnc, mode)| <= capacity)
      && (step.Ok? ==> step.value == Next(s, t, mode))
  {
    if !t.Literal? && !t.Placeholder? {
      assert s.out + [] == s.out;
    }
  }

  lemma SlotsAreNext(ts: seq<Token>, mode: CryptoMode)
    requires |ts| > 0
    ensures SlotsAt(ts, mode) == Next(SlotsAt(Front(ts), mode), Last(ts), mode)
  {
    hide Rendering;
  }

  /** One token is compiled exactly when it may follow and fits, and then as the specification says. */
  lemma StepExactly(ts: seq<Token>, mode: CryptoMode, capacity: nat)
    requires |ts| > 0 && |Out(Front(ts), mode)| <= capacity
    ensures var step := Step(SlotsAt(Front(ts), mode), Last(ts), mode, capacity);
      && (step.Ok? <==> MayFollow(Front(ts), Last(ts)) && |Out(ts, mode)| <= capacity)
      && (step.Ok? ==> step.value == SlotsAt(ts, mode))
  {
    hide Occurs, Step, Next, Rendering;
    OccursIffOffset(Front(ts), mode);
    StepIsNext(SlotsAt(Front(ts), mode), Last(ts), mode, capacity);
    SlotsAreNext(ts, mode);
  }

  lemma {:induction false} CompiledExactly(ts: seq<Token>, mode: CryptoMode, capacity: nat)
    ensures Compiled(ts, mode, capacity).Ok? <==> IsOrderly(ts) && |Out(ts, mode)| <= capacity
    ensures Compiled(ts, mode, capacity).Ok? ==> Compiled(ts, mode, capacity).value == SlotsAt(ts, mode)
  {
    hide Step, SlotsAt, Rendering, MayFollow;
    if |ts| > 0 {
      CompiledExactly(Front(ts), mode, capacity);
      if |Out(Front(ts), mode)| <= capacity {
        StepExactly(ts, mode, capacity);
      }
    } else {
      EmptySlots(mode);
    }
  }

  lemma EmptySlots(mode: CryptoMode)
    ensures SlotsAt([], mode) == EMPTY
  {
  }

  lemma {:induction false} FailureStays(pre: seq<Token>, rest: seq<Token>, mode: CryptoMode, capacity: nat)
    requires Compiled(pre, mode, capacity).Err?
    ensures Compiled(pre + rest, mode, capacity).Err?
    decreases |rest|
  {
    hide Step;
    if |rest| == 0 {
      assert pre + rest == pre;
    } else {
      assert Front(pre + rest) == pre + Front(rest);
      FailureStays(pre, Front(rest), mode, capacity);
    }
  }

  /** The compiler's run from `i` on is the compilation of the tokens from `i` on. */
  lemma {:induction false} RunIsCompiled(url: seq<byte>, i: nat, pre: seq<Token>, mode: CryptoMode, capacity: nat)
    requires i <= |url| && IsUtf8From(url, i) && Compiled(pre, mode, capacity).Ok?
    ensures var run := Run(url, i, Compiled(pre, mode, capacity).value, mode, capacity);
      && (run.Ok? <==> Lex(url, i).Ok? && Compiled(pre + Lex(url, i).value, mode, capacity).Ok?)
      && (run.Ok? ==> run == Compiled(pre + Lex(url, i).value, mode, capacity))
    decreases |url| - i
  {
    hide Step, LexOne, IsUtf8From;
    if i == |url| {
      assert pre + [] == pre;
    } else {
      var one := LexOne(url, i);
      if one.Ok? {
        var t, j := one.value.0, i + one.value.1;
        var next := pre + [t];
        assert Front(next) == pre && Last(next) == t;
        if Lex(url, j).Ok? {
          assert pre + Lex(url, i).value == next + Lex(url, j).value;
        }
        if Compiled(next, mode, capacity).Ok? {
          RunIsCompiled(url, j, next, mode, capacity);
        } else if Lex(url, j).Ok? {
          FailureStays(next, Lex(url, j).value, mode, capacity);
        }
      }
    }
  }

  // ---------------------------------------------------------------- brackets

  /** In an orderly template a range is closed if it was opened and is not open any more. */
  lemma {:induction false} Brackets(ts: seq<Token>)
    requires IsOrderly(ts)
    ensures Occurs(ts, CloseK) ==> Occurs(ts, OpenK)
    ensures Inside(ts) <==> Occurs(ts, OpenK) && !Occurs(ts, CloseK)
  {
    hide Occurs;
    if |ts| > 0 {
      Brackets(Front(ts));
      OccursStep(ts, OpenK);
      OccursStep(ts, CloseK);
    } else {
      assert !Occurs(ts, OpenK) && !Occurs(ts, CloseK) by { NothingOccurs(); }
    }
  }

  lemma NothingOccurs()
    ensures forall k :: !Occurs([], k)
  {
  }

  /** A template is accepted exactly when its tokens are well formed and fit, and then means its layout. */
  lemma AcceptsExactly(url: seq<byte>, start: nat, mode: CryptoMode, capacity: nat)
    requires start <= |url| && IsUtf8From(url, start)
    ensures var parsed := Parsed(url, start, mode, capacity);
      && (parsed.Ok? <==> Lex(url, start).Ok? && IsWellFormed(Lex(url, start).value, mode) && |Out(Lex(url, start).value, mode)| <= capacity)
      && (parsed.Ok? ==> parsed.value == Layout(Lex(url, start).value, mode))
  {
    hide Run, Lex, Out, OffsetOf, Occurs, Inside, IsOrderly, Finish;
    RunIsCompiled(url, start, [], mode, capacity);
    if Lex(url, start).Ok? {
      var ts := Lex(url, start).value;
      assert [] + ts == ts;
      CompiledExactly(ts, mode, capacity);
      if IsOrderly(ts) {
        FinishExactly(ts, mode);
      }
    }
  }

  lemma {:induction false} OffsetBounds(ts: seq<Token>, mode: CryptoMode)
    ensures forall k :: OffsetOf(ts, k, mode).Some? ==> URI_AT <= OffsetOf(ts, k, mode).value <= URI_AT + |Out(ts, mode)|
  {
    if |ts| > 0 {
      OffsetBounds(Front(ts), mode);
    }
  }

  lemma FinishExactly(ts: seq<Token>, mode: CryptoMode)
    requires IsOrderly(ts)
    ensures var done := Finish(SlotsAt(ts, mode));
      (done.Ok? <==> IsWellFormed(ts, mode)) && (done.Ok? ==> done.value == Layout(ts, mode))
  {
    hide Out, OffsetOf, Occurs, Inside, IsOrderly;
    OccursIffOffset(ts, mode);
    OffsetBounds(ts, mode);
    Brackets(ts);
  }

  // ---------------------------------------------------------------- where the placeholders come out

  predicate IsField(k: Kind) {
    k.UidK? || k.CtrK? || k.PiccK? || k.TtK? || k.MacK?
  }

  function FieldLen(k: Kind, mode: CryptoMode): nat {
    match k
    case UidK => 14
    case CtrK => 6
    case PiccK => PiccBlobAsciiLen(mode)
    case TtK => 2
    case MacK => 16
    case _ => 0
  }

  /** The file bytes of a placeholder. */
  function FieldRange(ts: seq<Token>, k: Kind, mode: CryptoMode): Option<Range> {
    if IsField(k) && OffsetOf(ts, k, mode).Some? then Some(Range(OffsetOf(ts, k, mode).value, FieldLen(k, mode))) else None
  }

  /** These file bytes are in the output, and zero. */
  predicate ZeroAt(out: seq<byte>, r: Range) {
    && URI_AT <= r.start && r.End() <= URI_AT + |out|
    && forall i :: r.start - URI_AT <= i < r.End() - URI_AT ==> out[i] == 0x30
  }

  lemma ZeroStays(out: seq<byte>, more: seq<byte>, r: Range)
    requires ZeroAt(out, r)
    ensures ZeroAt(out + more, r)
  {
  }

  lemma ZeroAppended(out: seq<byte>, n: nat)
    ensures ZeroAt(out + ZeroChars(n), Range(URI_AT + |out|, n))
  {
  }

  /** The field a token is, if it is one, ends the output with its zeros. */
  lemma LastField(ts: seq<Token>, mode: CryptoMode)
    requires |ts| > 0 && IsField(KindOf(Last(ts)))
    ensures var k, before := KindOf(Last(ts)), Out(Front(ts), mode);
      Out(ts, mode) == before + ZeroChars(FieldLen(k, mode)) && FieldRange(ts, k, mode) == Some(Range(URI_AT + |before|, FieldLen(k, mode)))
  {
  }

  lemma OtherField(ts: seq<Token>, k: Kind, mode: CryptoMode)
    requires |ts| > 0 && k != KindOf(Last(ts))
    ensures FieldRange(ts, k, mode) == FieldRange(Front(ts), k, mode) && OffsetOf(ts, k, mode) == OffsetOf(Front(ts), k, mode)
  {
  }

  /** Every placeholder comes out as zeros. */
  lemma {:induction false} FieldsAreZero(ts: seq<Token>, mode: CryptoMode)
    ensures forall k :: FieldRange(ts, k, mode).Some? ==> ZeroAt(Out(ts, mode), FieldRange(ts, k, mode).value)
  {
    hide ZeroAt, FieldRange, Rendering, OffsetOf;
    if |ts| > 0 {
      FieldsAreZero(Front(ts), mode);
      forall k | FieldRange(ts, k, mode).Some? ensures ZeroAt(Out(ts, mode), FieldRange(ts, k, mode).value) {
        if k == KindOf(Last(ts)) {
          FieldIsField(ts, k, mode);
          LastField(ts, mode);
          ZeroAppended(Out(Front(ts), mode), FieldLen(k, mode));
        } else {
          OtherField(ts, k, mode);
          ZeroStays(Out(Front(ts), mode), Rendering(Last(ts), Inside(Front(ts)), mode), FieldRange(ts, k, mode).value);
        }
      }
    } else {
      NoFields(mode);
    }
  }

  lemma FieldIsField(ts: seq<Token>, k: Kind, mode: CryptoMode)
    requires FieldRange(ts, k, mode).Some?
    ensures IsField(k)
  {
  }

  lemma NoFields(mode: CryptoMode)
    ensures forall k :: FieldRange([], k, mode).None?
  {
  }

  /** No two placeholders share a byte. */
  lemma {:induction false} FieldsApart(ts: seq<Token>, mode: CryptoMode)
    ensures forall j, k :: j != k ==> !Overlap(FieldRange(ts, j, mode), FieldRange(ts, k, mode))
  {
    hide FieldRange, RangesOverlap, Out;
    if |ts| > 0 {
      FieldsApart(Front(ts), mode);
      forall j, k | j != k ensures !Overlap(FieldRange(ts, j, mode), FieldRange(ts, k, mode)) {
        if j != KindOf(Last(ts)) && k != KindOf(Last(ts)) {
          OtherField(ts, j, mode);
          OtherField(ts, k, mode);
        } else if j == KindOf(Last(ts)) {
          LastFieldApart(ts, k, mode);
          OverlapSymmetric(FieldRange(ts, j, mode), FieldRange(ts, k, mode));
        } else {
          LastFieldApart(ts, j, mode);
        }
      }
    } else {
      NoFields(mode);
    }
  }

  lemma LastFieldApart(ts: seq<Token>, j: Kind, mode: CryptoMode)
    requires |ts| > 0 && j != KindOf(Last(ts))
    ensures !Overlap(FieldRange(ts, j, mode), FieldRange(ts, KindOf(Last(ts)), mode))
  {
    OtherField(ts, j, mode);
    FieldsAreZero(Front(ts), mode);
    if IsField(KindOf(Last(ts))) {
      LastField(ts, mode);
    }
  }

  // ---------------------------------------------------------------- the encrypted range

  /** Where the encrypted range ends so far. */
  function EncEnd(ts: seq<Token>, mode: CryptoMode): nat {
    if OffsetOf(ts, CloseK, mode).Some? then OffsetOf(ts, CloseK, mode).value else URI_AT + |Out(ts, mode)|
  }

  /** The encrypted range, if one was opened: zeros, with every placeholder outside, or `{tt}` inside. */
  predicate EncIsApart(ts: seq<Token>, mode: CryptoMode) {
    OffsetOf(ts, OpenK, mode).Some? ==>
      var start, end := OffsetOf(ts, OpenK, mode).value, EncEnd(ts, mode);
      && URI_AT <= start <= end <= URI_AT + |Out(ts, mode)|
      && ZeroAt(Out(ts, mode), Range(start, end - start))
      && (forall k :: FieldRange(ts, k, mode).Some? ==>
            var f := FieldRange(ts, k, mode).value;
            || f.End() <= start || (!Inside(ts) && end <= f.start)
            || (k.TtK? && start <= f.start && f.End() <= end))
  }

  lemma {:induction false} EncApart(ts: seq<Token>, mode: CryptoMode)
    requires IsOrderly(ts)
    ensures EncIsApart(ts, mode)
  {
    hide EncIsApart, IsOrderly, MayFollow;
    if |ts| > 0 {
      OrderlyFront(ts);
      EncApart(Front(ts), mode);
      Brackets(Front(ts));
      OccursIffOffset(Front(ts), mode);
      EncStep(ts, mode);
    } else {
      EncNone(mode);
    }
  }

  lemma OrderlyFront(ts: seq<Token>)
    requires IsOrderly(ts) && |ts| > 0
    ensures IsOrderly(Front(ts)) && MayFollow(Front(ts), Last(ts))
  {
  }

  lemma EncNone(mode: CryptoMode)
    ensures EncIsApart([], mode)
  {
  }

  lemma EncStep(ts: seq<Token>, mode: CryptoMode)
    requires |ts| > 0 && EncIsApart(Front(ts), mode) && MayFollow(Front(ts), Last(ts))
    requires Inside(Front(ts)) <==> OffsetOf(Front(ts), OpenK, mode).Some? && OffsetOf(Front(ts), CloseK, mode).None?
    requires OffsetOf(Front(ts), CloseK, mode).Some? ==> OffsetOf(Front(ts), OpenK, mode).Some?
    requires forall k :: OffsetOf(Front(ts), k, mode).Some? <==> Occurs(Front(ts), k)
    ensures EncIsApart(ts, mode)
  {
    hide Occurs, ZeroAt, FieldRange, Out, EncIsApart;
    if Last(ts).Open? {
      EncOpens(ts, mode);
    } else {
      EarlierFields(ts, mode);
      if OffsetOf(Front(ts), OpenK, mode).Some? {
        EncStays(ts, mode);
      } else {
        NoEnc(ts, mode);
      }
    }
  }

  lemma EncOpens(ts: seq<Token>, mode: CryptoMode)
    requires |ts| > 0 && Last(ts).Open? && OffsetOf(Front(ts), CloseK, mode).None?
    ensures EncIsApart(ts, mode)
  {
    hide ZeroAt, FieldRange, Out;
    OutStep(ts, mode);
    EarlierFields(ts, mode);
    ZeroAppended(Out(Front(ts), mode), 0);
  }

  lemma EncStays(ts: seq<Token>, mode: CryptoMode)
    requires |ts| > 0 && EncIsApart(Front(ts), mode) && MayFollow(Front(ts), Last(ts)) && !Last(ts).Open?
    requires Inside(Front(ts)) <==> OffsetOf(Front(ts), OpenK, mode).Some? && OffsetOf(Front(ts), CloseK, mode).None?
    requires OffsetOf(Front(ts), OpenK, mode).Some? && OffsetOf(ts, OpenK, mode) == OffsetOf(Front(ts), OpenK, mode)
    ensures EncIsApart(ts, mode)
  {
    hide Occurs, ZeroAt, FieldRange, Out;
    OutStep(ts, mode);
    EarlierFields(ts, mode);
    EncGrows(ts, mode);
  }

  lemma NoEnc(ts: seq<Token>, mode: CryptoMode)
    requires OffsetOf(ts, OpenK, mode).None?
    ensures EncIsApart(ts, mode)
  {
  }

  /** Where the placeholders stand once one more token is out. */
  lemma EarlierFields(ts: seq<Token>, mode: CryptoMode)
    requires |ts| > 0
    ensures var front, j, end := Front(ts), KindOf(Last(ts)), URI_AT + |Out(Front(ts), mode)|;
      && (forall k | k != j :: FieldRange(ts, k, mode) == FieldRange(front, k, mode) && OffsetOf(ts, k, mode) == OffsetOf(front, k, mode))
      && (forall k | FieldRange(front, k, mode).Some? :: FieldRange(front, k, mode).value.End() <= end)
      && (forall k | OffsetOf(front, k, mode).Some? :: URI_AT <= OffsetOf(front, k, mode).value <= end)
      && FieldRange(ts, j, mode) == if IsField(j) then Some(Range(end, FieldLen(j, mode))) else None
  {
    hide ZeroAt, FieldRange, Out, OffsetOf;
    var front, t, out := Front(ts), Last(ts), Out(Front(ts), mode);
    FieldsAreZero(front, mode);
    OffsetBounds(front, mode);
    forall k | k != KindOf(t) ensures FieldRange(ts, k, mode) == FieldRange(front, k, mode) && OffsetOf(ts, k, mode) == OffsetOf(front, k, mode) {
      OtherField(ts, k, mode);
    }
    forall k | FieldRange(front, k, mode).Some? ensures FieldRange(front, k, mode).value.End() <= URI_AT + |out| {
      ZeroBounds(out, FieldRange(front, k, mode).value);
    }
    if IsField(KindOf(t)) {
      LastField(ts, mode);
    } else {
      NotField(ts, mode);
    }
  }

  lemma OutStep(ts: seq<Token>, mode: CryptoMode)
    requires |ts| > 0
    ensures Out(ts, mode) == Out(Front(ts), mode) + Rendering(Last(ts), Inside(Front(ts)), mode)
  {
  }

  lemma ZeroBounds(out: seq<byte>, r: Range)
    requires ZeroAt(out, r)
    ensures URI_AT <= r.start && r.End() <= URI_AT + |out|
  {
  }

  lemma NotField(ts: seq<Token>, mode: CryptoMode)
    requires |ts| > 0 && !IsField(KindOf(Last(ts)))
    ensures FieldRange(ts, KindOf(Last(ts)), mode).None?
  {
  }

  /** The zeros of the range, one token later. */
  lemma EncGrows(ts: seq<Token>, mode: CryptoMode)
    requires |ts| > 0 && EncIsApart(Front(ts), mode) && MayFollow(Front(ts), Last(ts)) && !Last(ts).Open?
    requires Inside(Front(ts)) <==> OffsetOf(Front(ts), OpenK, mode).Some? && OffsetOf(Front(ts), CloseK, mode).None?
    requires OffsetOf(Front(ts), OpenK, mode).Some? && OffsetOf(ts, OpenK, mode) == OffsetOf(Front(ts), OpenK, mode)
    ensures var start, end := OffsetOf(ts, OpenK, mode).value, EncEnd(ts, mode);
      && URI_AT <= start <= end <= URI_AT + |Out(ts, mode)|
      && ZeroAt(Out(ts, mode), Range(start, end - start))
      && (!Inside(Front(ts)) ==> end == EncEnd(Front(ts), mode))
  {
    var front, t, out := Front(ts), Last(ts), Out(Front(ts), mode);
    OtherOrClose(ts, mode);
  }

  lemma OtherOrClose(ts: seq<Token>, mode: CryptoMode)
    requires |ts| > 0
    ensures Last(ts).Close? ==> OffsetOf(ts, CloseK, mode) == Some(URI_AT + |Out(Front(ts), mode)|) && Out(ts, mode) == Out(Front(ts), mode)
    ensures !Last(ts).Close? ==> OffsetOf(ts, CloseK, mode) == OffsetOf(Front(ts), CloseK, mode)
  {
  }
}
