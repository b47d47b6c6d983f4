/**
  The template language: whatever string is escaped, and whatever placeholders are written behind it,
  the template builds if it fits, mirrors what the placeholders say where they stand, and parses back.
 */
module Escaping {
  import opened Wrappers
  import opened Octets
  import opened Sdm
  import opened Utf8
  import opened Blocks
  import opened Template
  import opened TemplateLayout
  import opened NdefUri

  // ---------------------------------------------------------------- escaping

  /** Reserved characters, each behind a backslash. */
  function Escape(s: seq<byte>): seq<byte> {
    if |s| == 0 then []
    else if IsReserved(s[0]) then [0x5C, s[0]] + Escape(s[1..])
    else [s[0]] + Escape(s[1..])
  }

  /** A stretch without a backslash is a stretch of the original. */
  lemma {:induction false} EscapedFront(s: seq<byte>, n: nat)
    requires n <= |Escape(s)| && forall i :: 0 <= i < n ==> !IsReserved(Escape(s)[i])
    ensures n <= |s| && Escape(s)[..n] == s[..n] && Escape(s)[n..] == Escape(s[n..])
    decreases n
  {
    if n == 0 {
      assert s[0..] == s && Escape(s)[0..] == Escape(s);
    } else {
      assert Escape(s)[0] == s[0] && !IsReserved(s[0]);
      assert Escape(s)[1..] == Escape(s[1..]);
      forall i | 0 <= i < n - 1 ensures !IsReserved(Escape(s[1..])[i]) {
        assert Escape(s[1..])[i] == Escape(s)[i + 1];
      }
      EscapedFront(s[1..], n - 1);
      assert s[1..][n - 1..] == s[n..];
      assert Escape(s)[n..] == Escape(s)[1..][n - 1..];
      assert s[..n] == [s[0]] + s[1..][..n - 1];
      assert Escape(s)[..n] == [s[0]] + Escape(s)[1..][..n - 1];
    }
  }

  lemma {:induction false} EscapePlain(a: seq<byte>, rest: seq<byte>)
    requires forall i :: 0 <= i < |a| ==> !IsReserved(a[i])
    ensures Escape(a + rest) == a + Escape(rest)
  {
    if |a| == 0 {
      assert a + rest == rest && a + Escape(rest) == Escape(rest);
    } else {
      assert (a + rest)[1..] == a[1..] + rest;
      EscapePlain(a[1..], rest);
      assert a + Escape(rest) == [a[0]] + (a[1..] + Escape(rest));
    }
  }

  /** One character escaped. */
  lemma EscapeChar(c: seq<byte>, rest: seq<byte>)
    requires IsChar(c)
    ensures Escape(c + rest) == (if IsReserved(c[0]) then [0x5C] + c else c) + Escape(rest)
  {
    WidthOfChar(c);
    if IsReserved(c[0]) {
      assert c == [c[0]] && (c + rest)[1..] == rest;
      assert [0x5C, c[0]] == [0x5C] + c;
    } else {
      EscapePlain(c, rest);
    }
  }

  /** The characters of a string, as literals. */
  function Chars(s: seq<byte>): (ts: seq<Token>)
    requires IsUtf8(s)
    decreases |s|
  {
    if |s| == 0 then []
    else
      Suffix(s, s[Width(s[0])..], Width(s[0]), 0);
      [Literal(s[..Width(s[0])])] + Chars(s[Width(s[0])..])
  }

  lemma CharsNone(s: seq<byte>)
    requires |s| == 0
    ensures IsUtf8(s) && Chars(s) == []
  {
  }

  lemma CharsCons(s: seq<byte>)
    requires IsUtf8(s) && |s| > 0
    ensures var w := Width(s[0]);
      w <= |s| && IsChar(s[..w]) && IsUtf8(s[w..]) && Chars(s) == [Literal(s[..w])] + Chars(s[w..])
  {
    var w := Width(s[0]);
    Suffix(s, s[w..], w, 0);
    assert s[..w] == s[0..w];
  }

  // ---------------------------------------------------------------- the grammar

  /** How a token is written. Any character may stand behind a backslash, and the four reserved ones must. */
  ghost predicate IsWritten(b: seq<byte>, t: Token) {
    match t
    case Open => Spells(b, "[")
    case Close => Spells(b, "]")
    case MacStart => Spells(b, "[[")
    case Literal(c) => IsChar(c) && (b == [0x5C] + c || (b == c && !IsReserved(c[0])))
    case Placeholder(f) => exists name :: IsBraced(b, name, f)
  }

  predicate IsBraced(b: seq<byte>, name: seq<byte>, f: Field) {
    Names(name, f) && b == [0x7B] + name + [0x7D]
  }

  /** The tokens, written one behind the other; a single bracket has no second one behind it. */
  ghost predicate IsText(b: seq<byte>, ts: seq<Token>) {
    if |ts| == 0 then |b| == 0
    else exists n :: 0 < n <= |b| && IsWritten(b[..n], ts[0]) && (ts[0].Open? ==> n == |b| || b[n] != 0x5B) && IsText(b[n..], ts[1..])
  }

  lemma LexOneIsWritten(url: seq<byte>, i: nat)
    requires i < |url| && IsUtf8From(url, i) && LexOne(url, i).Ok?
    ensures var (t, n) := LexOne(url, i).value;
      IsWritten(url[i..i + n], t) && (t.Open? ==> i + 1 == |url| || url[i + 1] != 0x5B)
  {
    hide PlaceholderAt, IsChar, IsUtf8From;
    match url[i]
    case 0x7B => BraceIsWritten(url, i);
    case 0x5C => EscapeIsWritten(url, i);
    case 0x5B => assert url[i..i + LexOne(url, i).value.1] == if LexOne(url, i).value.0.Open? then [0x5B] else [0x5B, 0x5B];
    case 0x5D => assert url[i..i + 1] == [0x5D];
    case _ => LexedLiteral(url, i);
  }

  lemma BraceIsWritten(url: seq<byte>, i: nat)
    requires i < |url| && IsUtf8From(url, i) && url[i] == 0x7B && LexOne(url, i).Ok?
    ensures var (t, n) := LexOne(url, i).value; t.Placeholder? && IsWritten(url[i..i + n], t)
  {
    hide IsUtf8From, Names, PlaceholderAt, IsWritten;
    PlaceholderIs(url, i);
    var (f, n) := PlaceholderAt(url, i).value;
    assert LexOne(url, i) == Ok((Placeholder(f), n));
    BracedIsWritten(url[i..i + n], url[i + 1..i + n - 1], f);
  }

  lemma BracedIsWritten(b: seq<byte>, name: seq<byte>, f: Field)
    requires Names(name, f) && b == [0x7B] + name + [0x7D]
    ensures IsWritten(b, Placeholder(f))
  {
    hide Names;
    assert IsBraced(b, name, f);
  }

  lemma EscapeIsWritten(url: seq<byte>, i: nat)
    requires i < |url| && IsUtf8From(url, i) && url[i] == 0x5C && LexEscape(url, i).Ok?
    ensures var (t, n) := LexEscape(url, i).value; t.Literal? && IsWritten(url[i..i + n], t)
  {
    hide IsChar, Names;
    AsciiIsBoundary(url, i, i);
    var c := url[i + 1..i + 1 + Width(url[i + 1])];
    assert LexEscape(url, i).value == (Literal(c), 1 + |c|) && IsChar(c);
    assert url[i..i + 1 + |c|] == [0x5C] + c;
  }

  lemma WrittenIsLexed(url: seq<byte>, i: nat, n: nat, t: Token)
    requires i < i + n <= |url| && IsUtf8From(url, i) && IsWritten(url[i..i + n], t)
    requires t.Open? ==> i + 1 == |url| || url[i + 1] != 0x5B
    ensures LexOne(url, i) == Ok((t, n))
  {
    hide PlaceholderAt, IsChar, Names, IsUtf8From;
    var b := url[i..i + n];
    assert forall k :: 0 <= k < n ==> b[k] == url[i + k];
    match t {
      case Placeholder(f) =>
        var name :| IsBraced(b, name, f);
        FieldAt(url, i, name, f);
      case Literal(c) => LiteralIsLexed(url, i, n, c);
      case _ =>
    }
  }

  lemma LiteralIsLexed(url: seq<byte>, i: nat, n: nat, c: seq<byte>)
    requires i < i + n <= |url| && IsUtf8From(url, i) && IsWritten(url[i..i + n], Literal(c))
    ensures LexOne(url, i) == Ok((Literal(c), n))
  {
    hide PlaceholderAt, IsChar, Names, IsUtf8From;
    WidthOfChar(c);
    var b := url[i..i + n];
    assert url[i] == b[0];
    if b == [0x5C] + c {
      assert url[i + 1..i + n] == b[1..] == c;
      assert url[i + 1] == c[0];
    }
  }

  /** The templates that have these tokens are the ones that are written so. */
  lemma {:induction false} LexedExactly(url: seq<byte>, i: nat, ts: seq<Token>)
    requires i <= |url| && IsUtf8From(url, i)
    ensures Lex(url, i) == Ok(ts) <==> IsText(url[i..], ts)
    decreases |url| - i
  {
    hide LexOne, IsWritten, IsUtf8From, Lex, IsText;
    if Lex(url, i) == Ok(ts) {
      if i == |url| {
        NoText(url, i, ts);
      } else {
        var n := FirstLexed(url, i, ts);
        LexedExactly(url, i + n, ts[1..]);
        TextCons(url, i, n, ts);
      }
    }
    if IsText(url[i..], ts) {
      if |ts| == 0 {
        NoText(url, i, ts);
      } else {
        var n := FirstWritten(url, i, ts);
        LexedExactly(url, i + n, ts[1..]);
        LexCons(url, i, n, ts);
      }
    }
  }

  lemma NoText(url: seq<byte>, i: nat, ts: seq<Token>)
    requires i <= |url| && IsUtf8From(url, i)
    ensures i == |url| ==> (Lex(url, i) == Ok(ts) <==> |ts| == 0)
    ensures |ts| == 0 ==> (IsText(url[i..], ts) <==> i == |url|)
  {
  }

  lemma FirstLexed(url: seq<byte>, i: nat, ts: seq<Token>) returns (n: nat)
    requires i < |url| && IsUtf8From(url, i) && Lex(url, i) == Ok(ts)
    ensures 0 < n <= |url| - i && |ts| > 0 && IsUtf8From(url, i + n) && Lex(url, i + n) == Ok(ts[1..])
    ensures IsWritten(url[i..i + n], ts[0]) && (ts[0].Open? ==> i + n == |url| || url[i + n] != 0x5B)
  {
    hide LexOne, IsWritten, IsUtf8From;
    LexOneIsWritten(url, i);
    n := LexOne(url, i).value.1;
    OpenIsOne(url[i..i + n], ts[0]);
  }

  lemma TextCons(url: seq<byte>, i: nat, n: nat, ts: seq<Token>)
    requires i < i + n <= |url| && |ts| > 0 && IsText(url[i + n..], ts[1..])
    requires IsWritten(url[i..i + n], ts[0]) && (ts[0].Open? ==> i + n == |url| || url[i + n] != 0x5B)
    ensures IsText(url[i..], ts)
  {
    hide IsWritten;
    var b := url[i..];
    assert b[..n] == url[i..i + n] && b[n..] == url[i + n..];
  }

  lemma FirstWritten(url: seq<byte>, i: nat, ts: seq<Token>) returns (n: nat)
    requires i <= |url| && IsUtf8From(url, i) && |ts| > 0 && IsText(url[i..], ts)
    ensures 0 < n <= |url| - i && IsText(url[i + n..], ts[1..]) && LexOne(url, i) == Ok((ts[0], n)) && IsUtf8From(url, i + n)
  {
    hide IsWritten, IsUtf8From, LexOne, IsText;
    var b := url[i..];
    n := TextSplit(b, ts);
    assert b[..n] == url[i..i + n] && b[n..] == url[i + n..];
    OpenIsOne(b[..n], ts[0]);
    WrittenIsLexed(url, i, n, ts[0]);
  }

  lemma TextSplit(b: seq<byte>, ts: seq<Token>) returns (n: nat)
    requires |ts| > 0 && IsText(b, ts)
    ensures 0 < n <= |b| && IsWritten(b[..n], ts[0]) && (ts[0].Open? ==> n == |b| || b[n] != 0x5B) && IsText(b[n..], ts[1..])
  {
    hide IsWritten;
    n :| 0 < n <= |b| && IsWritten(b[..n], ts[0]) && (ts[0].Open? ==> n == |b| || b[n] != 0x5B) && IsText(b[n..], ts[1..]);
  }

  lemma LexCons(url: seq<byte>, i: nat, n: nat, ts: seq<Token>)
    requires i < |url| && IsUtf8From(url, i) && |ts| > 0 && LexOne(url, i) == Ok((ts[0], n)) && Lex(url, i + n) == Ok(ts[1..])
    ensures Lex(url, i) == Ok(ts)
  {
    hide LexOne, IsUtf8From;
    assert ts == [ts[0]] + ts[1..];
  }

  lemma OpenIsOne(b: seq<byte>, t: Token)
    requires IsWritten(b, t)
    ensures t.Open? ==> |b| == 1
  {
  }

  // ---------------------------------------------------------------- placeholders

  /** Placeholders written one behind the other. */
  function Written(names: seq<seq<byte>>): seq<byte> {
    if |names| == 0 then [] else ([0x7B] + names[0] + [0x7D]) + Written(names[1..])
  }

  function Mirrors(fields: seq<Field>): seq<Token> {
    seq(|fields|, i requires 0 <= i < |fields| => Placeholder(fields[i]))
  }

  predicate AllNamed(names: seq<seq<byte>>, fields: seq<Field>) {
    |names| == |fields| && forall i :: 0 <= i < |names| ==> Names(names[i], fields[i])
  }

  lemma NameIsPlain(name: seq<byte>, f: Field)
    requires Names(name, f)
    ensures forall k :: 0 <= k < |name| ==> name[k] < 0x7B
  {
    NamedExactly(name, f);
  }

  lemma {:induction false} AsciiSuffix(url: seq<byte>, i: nat, j: nat)
    requires i <= j <= |url| && IsUtf8From(url, j) && forall k :: i <= k < j ==> url[k] < 0x80
    ensures IsUtf8From(url, i)
    decreases j - i
  {
    if i < j {
      assert url[i..i + 1] == [url[i]];
      AsciiSuffix(url, i + 1, j);
    }
  }

  /** Placeholders written one behind the other are read one after the other. */
  lemma {:induction false} LexWritten(url: seq<byte>, i: nat, names: seq<seq<byte>>, fields: seq<Field>)
    requires AllNamed(names, fields) && i <= |url| && url[i..] == Written(names)
    ensures IsUtf8From(url, i) && Lex(url, i) == Ok(Mirrors(fields))
    decreases |names|
  {
    hide IsUtf8From, Lex, Names;
    if |names| == 0 {
      assert i == |url| && Mirrors(fields) == [];
      LexEnd(url);
    } else {
      var one := [0x7B] + names[0] + [0x7D];
      SplitAt(url, i, one, Written(names[1..]));
      LexWritten(url, i + |one|, names[1..], fields[1..]);
      LexField(url, i, names[0], fields[0]);
      assert Mirrors(fields) == [Placeholder(fields[0])] + Mirrors(fields[1..]);
    }
  }

  lemma LexEnd(url: seq<byte>)
    ensures IsUtf8From(url, |url|) && Lex(url, |url|) == Ok([])
  {
  }

  /** One placeholder, and what follows it. */
  lemma LexField(url: seq<byte>, i: nat, name: seq<byte>, f: Field)
    requires Names(name, f) && i + |name| + 2 <= |url| && url[i..i + |name| + 2] == [0x7B] + name + [0x7D]
    requires IsUtf8From(url, i + |name| + 2) && Lex(url, i + |name| + 2).Ok?
    ensures IsUtf8From(url, i) && Lex(url, i) == Ok([Placeholder(f)] + Lex(url, i + |name| + 2).value)
  {
    hide Names, IsUtf8From, PlaceholderAt;
    FieldAt(url, i, name, f);
    AsciiSuffix(url, i, i + |name| + 2);
    assert LexOne(url, i) == Ok((Placeholder(f), |name| + 2));
  }

  lemma FieldAt(url: seq<byte>, i: nat, name: seq<byte>, f: Field)
    requires Names(name, f) && i + |name| + 2 <= |url| && url[i..i + |name| + 2] == [0x7B] + name + [0x7D]
    ensures url[i] == 0x7B && (forall k :: i <= k < i + |name| + 2 ==> url[k] < 0x80)
    ensures PlaceholderAt(url, i) == Ok((f, |name| + 2))
  {
    hide FieldNamed, Names, ClosingBrace;
    var end := i + 1 + |name|;
    var one := url[i..end + 1];
    assert forall k :: i <= k <= end ==> url[k] == one[k - i];
    NameIsPlain(name, f);
    ClosingAt(url, i + 1, end);
    assert url[i + 1..end] == name;
    NamedExactly(name, f);
  }

  /** What stands at `i`: an escaped character, and the rest. */
  lemma EscapedAt(url: seq<byte>, i: nat, c: seq<byte>, rest: seq<byte>, suffix: seq<byte>)
    requires i <= |url| && IsChar(c) && url[i..] == Escape(c + rest) + suffix
    ensures var skip := if IsReserved(c[0]) then 1 else 0;
      var j := i + skip + |c|;
      j <= |url| && url[i + skip..j] == c && (skip == 1 ==> url[i] == 0x5C) && url[j..] == Escape(rest) + suffix
  {
    WidthOfChar(c);
    hide Escape, IsChar;
    EscapeChar(c, rest);
    var lead := if IsReserved(c[0]) then [0x5C] + c else c;
    ConcatAssoc(lead, Escape(rest), suffix);
    SplitAt(url, i, lead, Escape(rest) + suffix);
    var j := i + |lead|;
    if IsReserved(c[0]) {
      assert url[i] == url[i..j][0] && url[i + 1..j] == url[i..j][1..] == c;
    }
  }

  lemma SplitAt(url: seq<byte>, i: nat, lead: seq<byte>, rest: seq<byte>)
    requires i <= |url| && url[i..] == lead + rest
    ensures i + |lead| <= |url| && url[i..i + |lead|] == lead && url[i + |lead|..] == rest
  {
    var tail := url[i..];
    assert url[i + |lead|..] == tail[|lead|..];
    assert url[i..i + |lead|] == tail[..|lead|];
  }

  /** An escaped string and placeholders behind it are read as its characters and the placeholders. */
  lemma {:induction false} LexEscaped(url: seq<byte>, i: nat, s: seq<byte>, names: seq<seq<byte>>, fields: seq<Field>)
    requires i <= |url| && IsUtf8(s) && AllNamed(names, fields) && url[i..] == Escape(s) + Written(names)
    ensures IsUtf8From(url, i) && Lex(url, i) == Ok(Chars(s) + Mirrors(fields))
    decreases |s|
  {
    hide Escape, Chars, IsUtf8From, IsChar, LexOne, AllNamed, Written, Mirrors;
    if |s| == 0 {
      EscapeNone(s, Written(names));
      LexWritten(url, i, names, fields);
      CharsNone(s);
      assert Chars(s) + Mirrors(fields) == Mirrors(fields);
    } else {
      var w := Width(s[0]);
      CharsCons(s);
      var c, rest := s[..w], s[w..];
      assert s == c + rest;
      WidthOfChar(c);
      EscapedAt(url, i, c, rest, Written(names));
      var j := i + (if IsReserved(c[0]) then 1 else 0) + w;
      LexEscaped(url, j, rest, names, fields);
      LexChar(url, i, c);
      assert ([Literal(c)] + Chars(rest)) + Mirrors(fields) == [Literal(c)] + (Chars(rest) + Mirrors(fields));
    }
  }

  lemma EscapeNone(s: seq<byte>, suffix: seq<byte>)
    requires |s| == 0
    ensures Escape(s) + suffix == suffix
  {
    assert Escape(s) == [];
  }

  /** One character, escaped if it is reserved, lexes to itself. */
  lemma LexChar(url: seq<byte>, i: nat, c: seq<byte>)
    requires IsChar(c)
    requires var skip := if IsReserved(c[0]) then 1 else 0;
      && i + skip + |c| <= |url| && url[i + skip..i + skip + |c|] == c && (skip == 1 ==> url[i] == 0x5C)
      && IsUtf8From(url, i + skip + |c|)
    ensures var skip := if IsReserved(c[0]) then 1 else 0;
      IsUtf8From(url, i) && LexOne(url, i) == Ok((Literal(c), skip + |c|))
  {
    hide PlaceholderAt;
    WidthOfChar(c);
    if IsReserved(c[0]) {
      assert url[i + 1] == url[i + 1..i + 1 + |c|][0] == c[0];
      assert url[i..i + 1] == [0x5C];
      assert IsUtf8From(url, i + 1);
    } else {
      assert url[i] == url[i..i + |c|][0] == c[0];
    }
  }

  lemma WrittenStarts(names: seq<seq<byte>>)
    requires |names| > 0
    ensures |Written(names)| > 0 && Written(names)[0] == 0x7B
  {
  }

  /** The tokens of such a template: the characters behind the prefix, and the placeholders. */
  lemma EscapedTokens(s: seq<byte>, names: seq<seq<byte>>, fields: seq<Field>)
    requires IsUtf8(s) && AllNamed(names, fields) && |names| > 0
    ensures var url := Escape(s) + Written(names);
      var n := |Prefix(FirstMatch(url, 1))|;
      && IsUtf8(url) && n <= |s| && url[..n] == s[..n] && IsUtf8(s[n..])
      && Tokens(url) == Ok(Chars(s[n..]) + Mirrors(fields))
  {
    hide Prefix, FirstMatch, Lex, Escape, Chars, AllNamed, Mirrors, Written, IsUtf8From;
    WrittenStarts(names);
    var url := Escape(s) + Written(names);
    assert url[0..] == url;
    LexEscaped(url, 0, s, names, fields);
    var code := FirstMatch(url, 1);
    var n := |Prefix(code)|;
    PrefixBytes(code);
    PrefixEnds(url, code);
    assert url[..n] == url[0..n] == Prefix(code);
    PrefixWithin(Escape(s), Written(names), Prefix(code));
    forall i | 0 <= i < n ensures !IsReserved(Escape(s)[i]) {
      assert Escape(s)[i] == url[..n][i];
    }
    EscapedFront(s, n);
    assert url[n..] == Escape(s)[n..] + Written(names) && url[..n] == Escape(s)[..n];
    RestIsUtf8(s, n, Prefix(code));
    LexEscaped(url, n, s[n..], names, fields);
  }

  lemma PrefixWithin(e: seq<byte>, suffix: seq<byte>, p: seq<byte>)
    requires |p| <= |e| + |suffix| && p == (e + suffix)[..|p|] && forall i :: 0 <= i < |p| ==> !IsReserved(p[i])
    requires |suffix| > 0 && suffix[0] == 0x7B
    ensures |p| <= |e|
  {
    assert forall k :: 0 <= k < |p| ==> p[k] == (e + suffix)[k];
    assert (e + suffix)[|e|] == suffix[0];
  }

  lemma RestIsUtf8(s: seq<byte>, n: nat, prefix: seq<byte>)
    requires IsUtf8(s) && n <= |s| && s[..n] == prefix && forall i :: 0 <= i < n ==> prefix[i] < 0x80
    ensures IsUtf8(s[n..])
  {
    if n > 0 {
      assert s[n - 1] == prefix[n - 1];
      AsciiIsBoundary(s, 0, n - 1);
    }
    Suffix(s, s[n..], n, 0);
  }

  // ---------------------------------------------------------------- where the placeholders stand

  predicate AllLiterals(ts: seq<Token>) {
    forall i :: 0 <= i < |ts| ==> ts[i].Literal?
  }

  lemma {:induction false} CharsAreLiterals(s: seq<byte>)
    requires IsUtf8(s)
    ensures AllLiterals(Chars(s))
    decreases |s|
  {
    if |s| > 0 {
      CharsCons(s);
      CharsAreLiterals(s[Width(s[0])..]);
    }
  }

  lemma {:induction false} LiteralsAreOrderly(ts: seq<Token>)
    requires AllLiterals(ts)
    ensures IsOrderly(ts) && !Inside(ts) && forall k :: k != LiteralK ==> !Occurs(ts, k)
  {
    if |ts| > 0 {
      LiteralsAreOrderly(Front(ts));
    }
  }

  lemma {:induction false} OutCons(t: Token, ts: seq<Token>, mode: CryptoMode)
    requires t.Literal? && AllLiterals(ts)
    ensures Out([t] + ts, mode) == t.bytes + Out(ts, mode)
  {
    hide IsOrderly, Occurs;
    LiteralsAreOrderly(ts);
    if |ts| == 0 {
      assert [t] + ts == [t] && Front([t]) == [];
      assert Out([t], mode) == Out([], mode) + t.bytes;
      assert [] + t.bytes == t.bytes + [];
    } else {
      assert Front([t] + ts) == [t] + Front(ts) && Last([t] + ts) == Last(ts);
      OutCons(t, Front(ts), mode);
      LiteralsAreOrderly([t] + Front(ts));
      LiteralsAreOrderly(Front(ts));
      ConcatAssoc(t.bytes, Out(Front(ts), mode), Rendering(Last(ts), false, mode));
    }
  }

  lemma NothingOut(s: seq<byte>, mode: CryptoMode)
    requires |s| == 0
    ensures IsUtf8(s) && Out(Chars(s), mode) == s
  {
  }

  /** The characters come out as they are. */
  lemma {:induction false} OutChars(s: seq<byte>, mode: CryptoMode)
    requires IsUtf8(s)
    ensures AllLiterals(Chars(s)) && Out(Chars(s), mode) == s
    decreases |s|
  {
    hide IsUtf8From, AllLiterals, Chars, Out, IsChar;
    CharsAreLiterals(s);
    if |s| == 0 {
      NothingOut(s, mode);
    } else {
      var w := Width(s[0]);
      CharsCons(s);
      OutChars(s[w..], mode);
      OutCons(Literal(s[..w]), Chars(s[w..]), mode);
      assert s == s[..w] + s[w..];
    }
  }

  /** The length of the mirrors of these placeholders together. */
  function FillSum(fields: seq<Field>, mode: CryptoMode): nat {
    if |fields| == 0 then 0 else FillSum(fields[..|fields| - 1], mode) + FillLen(fields[|fields| - 1], mode)
  }

  function FieldKind(f: Field): Kind {
    KindOf(Placeholder(f))
  }

  predicate AreDistinct(fields: seq<Field>) {
    forall i, j :: 0 <= i < j < |fields| ==> FieldKind(fields[i]) != FieldKind(fields[j])
  }

  predicate HasKind(fields: seq<Field>, k: Kind) {
    exists i :: 0 <= i < |fields| && FieldKind(fields[i]) == k
  }

  /** A placeholder of a kind that has not occurred may follow, outside brackets. */
  lemma FieldFollows(ts: seq<Token>, f: Field)
    requires IsOrderly(ts) && !Inside(ts) && !Occurs(ts, FieldKind(f))
    ensures var more := ts + [Placeholder(f)];
      IsOrderly(more) && !Inside(more) && forall k :: Occurs(more, k) <==> k == FieldKind(f) || Occurs(ts, k)
  {
    hide Occurs;
    var more := ts + [Placeholder(f)];
    assert Front(more) == ts && Last(more) == Placeholder(f);
    forall k ensures Occurs(more, k) <==> k == FieldKind(f) || Occurs(ts, k) {
      OccursStep(more, k);
    }
  }

  lemma KindsStep(fields: seq<Field>, k: Kind)
    requires |fields| > 0
    ensures HasKind(fields, k) <==> FieldKind(fields[|fields| - 1]) == k || HasKind(fields[..|fields| - 1], k)
  {
    var front := fields[..|fields| - 1];
    if HasKind(front, k) {
      var i :| 0 <= i < |front| && FieldKind(front[i]) == k;
      assert FieldKind(fields[i]) == k;
    }
    if HasKind(fields, k) {
      var i :| 0 <= i < |fields| && FieldKind(fields[i]) == k;
      assert i < |front| ==> FieldKind(front[i]) == k;
    }
  }

  /** Placeholders of different kinds may stand behind any literals, and come out as zeros. */
  lemma {:induction false} MirrorsFollow(ts: seq<Token>, fields: seq<Field>, mode: CryptoMode)
    requires AllLiterals(ts) && AreDistinct(fields)
    ensures var all := ts + Mirrors(fields);
      && IsOrderly(all) && !Inside(all)
      && (forall k :: k != LiteralK ==> (Occurs(all, k) <==> HasKind(fields, k)))
      && Out(all, mode) == Out(ts, mode) + ZeroChars(FillSum(fields, mode))
    decreases |fields|
  {
    hide Occurs, HasKind, IsOrderly, Inside, AllLiterals;
    if |fields| == 0 {
      assert ts + Mirrors(fields) == ts && ZeroChars(0) == [] && Out(ts, mode) + [] == Out(ts, mode);
      LiteralsAreOrderly(ts);
      assert forall k :: !HasKind(fields, k) by { NoKind(fields); }
    } else {
      var front, f := fields[..|fields| - 1], fields[|fields| - 1];
      MirrorsFollow(ts, front, mode);
      var before := ts + Mirrors(front);
      MirrorsSnoc(ts, fields);
      forall k ensures HasKind(fields, k) <==> FieldKind(f) == k || HasKind(front, k) {
        KindsStep(fields, k);
      }
      KindIsNew(fields);
      FieldFollows(before, f);
      OutSnoc(before, f, mode);
      ConcatAssoc(Out(ts, mode), ZeroChars(FillSum(front, mode)), ZeroChars(FillLen(f, mode)));
      assert ZeroChars(FillSum(front, mode)) + ZeroChars(FillLen(f, mode)) == ZeroChars(FillSum(fields, mode));
    }
  }

  lemma NoKind(fields: seq<Field>)
    requires |fields| == 0
    ensures forall k :: !HasKind(fields, k)
  {
  }

  lemma MirrorsSnoc(ts: seq<Token>, fields: seq<Field>)
    requires |fields| > 0
    ensures ts + Mirrors(fields) == (ts + Mirrors(fields[..|fields| - 1])) + [Placeholder(fields[|fields| - 1])]
  {
  }

  lemma KindIsNew(fields: seq<Field>)
    requires |fields| > 0 && AreDistinct(fields)
    ensures !HasKind(fields[..|fields| - 1], FieldKind(fields[|fields| - 1]))
  {
  }

  lemma OutSnoc(ts: seq<Token>, f: Field, mode: CryptoMode)
    ensures Out(ts + [Placeholder(f)], mode) == Out(ts, mode) + ZeroChars(FillLen(f, mode))
  {
    assert Front(ts + [Placeholder(f)]) == ts && Last(ts + [Placeholder(f)]) == Placeholder(f);
  }

  /** Each stands behind the literals and the placeholders before it. */
  lemma {:induction false} MirrorStands(ts: seq<Token>, fields: seq<Field>, i: nat, mode: CryptoMode)
    requires AllLiterals(ts) && AreDistinct(fields) && i < |fields|
    ensures var all, f := ts + Mirrors(fields), fields[i];
      && OffsetOf(all, FieldKind(f), mode) == Some(URI_AT + |Out(ts, mode)| + FillSum(fields[..i], mode))
      && (f.PiccField? ==> PiccContent(all) == f.content)
    decreases |fields|
  {
    hide Out, Occurs, AllLiterals, FillSum, IsOrderly, Inside;
    var n := |fields| - 1;
    var before, all := ts + Mirrors(fields[..n]), ts + Mirrors(fields);
    MirrorsSnoc(ts, fields);
    assert Front(all) == before && Last(all) == Placeholder(fields[n]);
    if i == n {
      MirrorsFollow(ts, fields[..n], mode);
    } else {
      assert FieldKind(fields[i]) != FieldKind(fields[n]);
      MirrorStands(ts, fields[..n], i, mode);
      assert fields[..n][..i] == fields[..i];
    }
  }

  // ---------------------------------------------------------------- which templates are well formed

  /** Placeholders that make a template: no kind twice, a MAC, something of the tag, and that either sealed or in the clear. */
  predicate IsChoice(fields: seq<Field>) {
    && AreDistinct(fields) && HasKind(fields, MacK)
    && (HasKind(fields, PiccK) || HasKind(fields, UidK) || HasKind(fields, CtrK) || HasKind(fields, TtK))
    && !(HasKind(fields, PiccK) && (HasKind(fields, UidK) || HasKind(fields, CtrK)))
  }

  lemma NoMarkers(fields: seq<Field>, k: Kind)
    requires k == MacStartK || k == OpenK || k == CloseK
    ensures !HasKind(fields, k)
  {
  }

  lemma ChoiceIsWellFormed(ts: seq<Token>, fields: seq<Field>, mode: CryptoMode)
    requires AllLiterals(ts)
    ensures IsChoice(fields) ==> IsWellFormed(ts + Mirrors(fields), mode) && EncFits(Layout(ts + Mirrors(fields), mode))
  {
    hide Occurs, Inside, IsOrderly, OffsetOf, HasKind, AreDistinct, Out;
    if IsChoice(fields) {
      MirrorsFollow(ts, fields, mode);
      NoMarkers(fields, MacStartK);
      NoMarkers(fields, OpenK);
      NoMarkers(fields, CloseK);
      OccursIffOffset(ts + Mirrors(fields), mode);
    }
  }

  // ---------------------------------------------------------------- what such a template plans

  /** The settings mirror what the placeholders say, where they stand: the first of them at `at`. */
  predicate IsPlanned(fields: seq<Field>, at: nat, mode: CryptoMode, opts: Options, s: Settings) {
    && (forall i :: 0 <= i < |fields| ==> IsMirrored(fields, fields[i], at + FillSum(fields[..i], mode), opts, s))
    && (s.tamperStatus.Some? ==> HasKind(fields, TtK))
    && (s.picc.Plain? ==> HasKind(fields, UidK) || HasKind(fields, CtrK))
    && (s.picc.EncryptedPicc? ==> HasKind(fields, PiccK))
  }

  predicate IsMirrored(fields: seq<Field>, f: Field, offset: nat, opts: Options, s: Settings) {
    match f
    case UidField => s.picc.Plain? && s.picc.mirror.UidOffset() == Some(offset) && s.picc.mirror.UidAndRCtr? == HasKind(fields, CtrK)
    case CtrField => s.picc.Plain? && s.picc.mirror.RCtrOffset() == Some(offset) && s.picc.mirror.UidAndRCtr? == HasKind(fields, UidK)
    case PiccField(content) => s.picc.EncryptedPicc? && s.picc.key == opts.piccKey && s.picc.offset == offset && s.picc.content == content
    case TtField => s.tamperStatus.Some? && s.tamperStatus.value == offset
    case MacField =>
      && s.fileRead.Some? && s.fileRead.value.MacOnly? && s.fileRead.value.key == opts.macKey
      && s.fileRead.value.window.input == 7 && s.fileRead.value.window.mac == offset
  }

  lemma ChoiceIsPlanned(ts: seq<Token>, fields: seq<Field>, mode: CryptoMode, opts: Options)
    requires AllLiterals(ts) && IsChoice(fields) && IsWellFormed(ts + Mirrors(fields), mode) && IsSmall(Layout(ts + Mirrors(fields), mode))
    ensures IsPlanned(fields, URI_AT + |Out(ts, mode)|, mode, opts, LayoutSettings(Layout(ts + Mirrors(fields), mode), opts))
  {
    hide Occurs, Inside, IsOrderly, OffsetOf, HasKind, AreDistinct, Out, FillSum, PiccContent;
    var all := ts + Mirrors(fields);
    MirrorsFollow(ts, fields, mode);
    NoMarkers(fields, MacStartK);
    NoMarkers(fields, OpenK);
    OccursIffOffset(all, mode);
    var s := LayoutSettings(Layout(all, mode), opts);
    forall i | 0 <= i < |fields|
      ensures IsMirrored(fields, fields[i], URI_AT + |Out(ts, mode)| + FillSum(fields[..i], mode), opts, s)
    {
      MirrorStands(ts, fields, i, mode);
      assert HasKind(fields, FieldKind(fields[i])) by { KindAt(fields, i); }
    }
  }

  lemma KindAt(fields: seq<Field>, i: nat)
    requires i < |fields|
    ensures HasKind(fields, FieldKind(fields[i]))
  {
  }

  /**
    A string escaped, with any choice of placeholders behind it: the template builds exactly when it fits,
    nothing else can go wrong with it; and it plans to mirror what the names spell, where they stand.
   */
  lemma EscapedBuilds(s: seq<byte>, names: seq<seq<byte>>, fields: seq<Field>, mode: CryptoMode, opts: Options)
    requires IsUtf8(s) && AllNamed(names, fields) && IsChoice(fields)
    ensures var url := Escape(s) + Written(names);
      && IsUtf8(url) && |Prefix(FirstMatch(url, 1))| <= |s|
      && var at := 7 + |s| - |Prefix(FirstMatch(url, 1))|;
      var size := at + FillSum(fields, mode);
      && (Built(url, mode, opts).Ok? <==> size <= 256 && size <= opts.maxFileSize)
      && (Built(url, mode, opts).Ok? ==> IsPlanned(fields, at, mode, opts, Built(url, mode, opts).value.settings))
  {
    hide Prefix, FirstMatch, Built, Out, Tokens, Chars, Escape, IsChoice, AllNamed, IsWellFormed, Layout, IsPlanned, Written,
         LayoutSettings, EncFits, IsUtf8From, FillSum, Mirrors, SettingsOf, NdefBytesOf, LiteralsAreChars, IsSmall, Straddles;
    SomeNamed(names, fields);
    EscapedTokens(s, names, fields);
    var url := Escape(s) + Written(names);
    var body := s[|Prefix(FirstMatch(url, 1))|..];
    OutChars(body, mode);
    ChoiceIsWellFormed(Chars(body), fields, mode);
    OutChoice(body, fields, mode);
    BuildsExactly(url, mode, opts);
    if Built(url, mode, opts).Ok? {
      BuiltFromTokens(url, mode, opts);
      SettingsExactly(Chars(body) + Mirrors(fields), mode, opts);
      ChoiceIsPlanned(Chars(body), fields, mode, opts);
    }
  }

  lemma SomeNamed(names: seq<seq<byte>>, fields: seq<Field>)
    requires AllNamed(names, fields) && IsChoice(fields)
    ensures |names| > 0
  {
  }

  lemma OutChoice(s: seq<byte>, fields: seq<Field>, mode: CryptoMode)
    requires IsUtf8(s) && IsChoice(fields)
    ensures Out(Chars(s) + Mirrors(fields), mode) == s + ZeroChars(FillSum(fields, mode))
  {
    hide Out, Chars, HasKind, Occurs, IsOrderly, Inside;
    OutChars(s, mode);
    MirrorsFollow(Chars(s), fields, mode);
  }

  /**
    Escaping reserved characters is enough: for every string and choice of placeholders, the template built
    of them parses back to the string and zeros; without `alloc`, exactly when these have at most 256 bytes.
   */
  lemma EscapeRoundTrip(s: seq<byte>, names: seq<seq<byte>>, fields: seq<Field>, mode: CryptoMode, opts: Options, rest: seq<byte>)
    requires IsUtf8(s) && AllNamed(names, fields) && IsChoice(fields)
    ensures var url, n := Escape(s) + Written(names), FillSum(fields, mode);
      && IsUtf8(url)
      && (Built(url, mode, opts).Ok? ==>
            var file := Built(url, mode, opts).value.ndefBytes + rest;
            && Parse(file, true) == Finished(Ok(s + ZeroChars(n)))
            && Parse(file, false) == (if |s| + n <= ARRAY_STRING_CAPACITY then Finished(Ok(s + ZeroChars(n))) else Panicked))
  {
    hide Prefix, FirstMatch, Built, Out, Tokens, ParsedUri, IsParseable, Escape, Chars, Parse, IsUtf8From, ZeroChars, EqAt,
         IsWellFormed, NdefBytesOf, SettingsOf, Layout, LiteralsAreChars, IsChoice, AllNamed, Mirrors, Written, FillSum;
    SomeNamed(names, fields);
    var url := Escape(s) + Written(names);
    EscapedTokens(s, names, fields);
    var n := |Prefix(FirstMatch(url, 1))|;
    OutChoice(s[n..], fields, mode);
    if Built(url, mode, opts).Ok? {
      BuiltFromTokens(url, mode, opts);
      BuiltParsesBack(url, mode, opts, rest);
      ConcatAssoc(s[..n], s[n..], ZeroChars(FillSum(fields, mode)));
      assert s == s[..n] + s[n..];
    }
  }

  // ---------------------------------------------------------------- two templates at the limits

  /** `https://www.` and `n` times the letter a. */
  function LongUrl(n: nat): seq<byte> {
    Prefix(2) + seq(n, i => 0x61)
  }

  lemma LongUrlIsPlain(n: nat)
    ensures |Prefix(2)| == 12 && IsUtf8(LongUrl(n)) && Escape(LongUrl(n)) == LongUrl(n)
  {
    PrefixBytes(2);
    var s := LongUrl(n);
    hide Prefix;
    AsciiSuffix(s, 0, |s|);
    EscapePlain(s, []);
    assert s + [] == s && s + Escape([]) == s;
    assert |PrefixName(2)| == 12;
    TwelveBytes();
  }

  lemma TwelveBytes()
    ensures |Prefix(2)| == 12
  {
  }

  lemma LongUrlPrefix(n: nat, suffix: seq<byte>)
    ensures FirstMatch(LongUrl(n) + suffix, 1) == 2
  {
    var url := LongUrl(n) + suffix;
    assert url[0..12] == Prefix(2);
    assert url[4] == Prefix(2)[4] == 0x73 && Prefix(1)[4] == 0x3A;
    MatchAt(url, Prefix(1), 4);
    assert FirstMatch(url, 2) == 2;
  }

  /** A template that builds, and whose record the build without `alloc` panics on. */
  lemma LongUrlPanics(mode: CryptoMode, rest: seq<byte>)
    ensures var url := Escape(LongUrl(219)) + Written([UID_NAME, MAC_NAME]);
      && IsUtf8(url) && Built(url, mode, Options(1, 2, 256)).Ok?
      && Parse(Built(url, mode, Options(1, 2, 256)).value.ndefBytes + rest, false) == Panicked
  {
    var names, fields := [UID_NAME, MAC_NAME], [UidField, MacField];
    ShortChoice(mode);
    hide Prefix, FirstMatch, Built, Escape, Parse, Written, FillSum, IsChoice, AllNamed;
    LongUrlIsPlain(219);
    LongUrlPrefix(219, Written(names));
    EscapedBuilds(LongUrl(219), names, fields, mode, Options(1, 2, 256));
    EscapeRoundTrip(LongUrl(219), names, fields, mode, Options(1, 2, 256), rest);
  }

  /** `{uid}{mac}` and `{uid}{mac}{tt}` */
  lemma ShortChoice(mode: CryptoMode)
    ensures AllNamed([UID_NAME, MAC_NAME], [UidField, MacField]) && IsChoice([UidField, MacField])
    ensures FillSum([UidField, MacField], mode) == 30
    ensures AllNamed([UID_NAME, MAC_NAME, TT_NAME], [UidField, MacField, TtField]) && IsChoice([UidField, MacField, TtField])
    ensures FillSum([UidField, MacField, TtField], mode) == 32
  {
    var two: seq<Field>, three: seq<Field> := [UidField, MacField], [UidField, MacField, TtField];
    assert FieldKind(two[0]) == UidK && FieldKind(two[1]) == MacK && FieldKind(three[0]) == UidK && FieldKind(three[1]) == MacK;
    assert two[..1] == [UidField] && [UidField][..0] == [] && three[..2] == two;
    assert FillSum([UidField], mode) == 14;
  }
}
