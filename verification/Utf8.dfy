/** Well-formed UTF-8 (RFC 3629 section 4), as Rust's `str` guarantees it. */
module Utf8 {
  import opened Octets

  /** `utf8_char_width`: told from the first byte alone. */
  function Width(first: byte): (w: nat)
    ensures 1 <= w <= 4
  {
    if first < 0x80 then 1 else if first / 32 == 6 then 2 else if first / 16 == 14 then 3 else 4
  }

  predicate IsTail(b: byte) {
    0x80 <= b <= 0xBF
  }

  /** One encoded character: no overlong forms, no surrogates, nothing above U+10FFFF. */
  predicate IsChar(c: seq<byte>) {
    match |c|
    case 1 => c[0] < 0x80
    case 2 => 0xC2 <= c[0] <= 0xDF && IsTail(c[1])
    case 3 =>
      && 0xE0 <= c[0] <= 0xEF && IsTail(c[1]) && IsTail(c[2])
      && (c[0] == 0xE0 ==> c[1] >= 0xA0) && (c[0] == 0xED ==> c[1] <= 0x9F)
    case 4 =>
      && 0xF0 <= c[0] <= 0xF4 && IsTail(c[1]) && IsTail(c[2]) && IsTail(c[3])
      && (c[0] == 0xF0 ==> c[1] >= 0x90) && (c[0] == 0xF4 ==> c[1] <= 0x8F)
    case _ => false
  }

  /** A Unicode scalar value: a code point that is no surrogate. */
  predicate IsScalar(n: nat) {
    n < 0xD800 || 0xDFFF < n < 0x11_0000
  }

  /** The encoding of a code point (RFC 3629 section 3). */
  function Encoded(n: nat): seq<byte>
    requires IsScalar(n)
  {
    if n < 0x80 then [n]
    else if n < 0x800 then [0xC0 + n / 0x40, 0x80 + n % 0x40]
    else if n < 0x1_0000 then [0xE0 + n / 0x40 / 0x40, 0x80 + n / 0x40 % 0x40, 0x80 + n % 0x40]
    else [0xF0 + n / 0x40 / 0x40 / 0x40, 0x80 + n / 0x40 / 0x40 % 0x40, 0x80 + n / 0x40 % 0x40, 0x80 + n % 0x40]
  }

  /** The characters are the encodings of the scalar values. */
  lemma CharsAreScalars(c: seq<byte>)
    ensures IsChar(c) <==> exists n :: IsScalar(n) && c == Encoded(n)
  {
    hide IsChar, Encoded;
    if IsChar(c) {
      CharIsEncoded(c);
    }
    forall n | IsScalar(n) && c == Encoded(n) ensures IsChar(c) {
      EncodedIsChar(n);
    }
  }

  lemma EncodedIsChar(n: nat)
    requires IsScalar(n)
    ensures IsChar(Encoded(n))
  {
  }

  /** Six more bits. */
  function SixMore(q: nat, tail: byte): (n: nat)
    requires IsTail(tail)
    ensures n / 0x40 == q && 0x80 + n % 0x40 == tail as nat
  {
    q * 0x40 + (tail as nat - 0x80)
  }

  lemma CharIsEncoded(c: seq<byte>)
    requires IsChar(c)
    ensures exists n :: IsScalar(n) && c == Encoded(n)
  {
    hide SixMore;
    match |c|
    case 1 => assert c == Encoded(c[0]);
    case 2 => assert c == Encoded(SixMore(c[0] as nat - 0xC0, c[1]));
    case 3 => assert c == Encoded(SixMore(SixMore(c[0] as nat - 0xE0, c[1]), c[2]));
    case 4 => assert c == Encoded(SixMore(SixMore(SixMore(c[0] as nat - 0xF0, c[1]), c[2]), c[3]));
  }

  /** From `i` on, `s` is a sequence of whole characters. */
  predicate IsUtf8From(s: seq<byte>, i: nat)
    requires i <= |s|
    decreases |s| - i
  {
    i == |s| || (i + Width(s[i]) <= |s| && IsChar(s[i..i + Width(s[i])]) && IsUtf8From(s, i + Width(s[i])))
  }

  predicate IsUtf8(s: seq<byte>) {
    IsUtf8From(s, 0)
  }

  lemma WidthOfChar(c: seq<byte>)
    requires IsChar(c)
    ensures Width(c[0]) == |c|
    ensures forall k :: 0 < k < |c| ==> c[k] >= 0x80
  {
  }

  /** An ASCII byte is always a character of its own. */
  lemma {:induction false} AsciiIsBoundary(s: seq<byte>, i: nat, j: nat)
    requires i <= j < |s| && IsUtf8From(s, i) && s[j] < 0x80
    ensures IsUtf8From(s, j) && IsUtf8From(s, j + 1)
    decreases j - i
  {
    if i < j {
      var w := Width(s[i]);
      var c := s[i..i + w];
      WidthOfChar(c);
      assert forall k :: i < k < i + w ==> s[k] == c[k - i];
      if i + w <= j {
        AsciiIsBoundary(s, i + w, j);
      }
    }
  }

  /** What stands before does not matter. */
  lemma {:induction false} Suffix(s: seq<byte>, t: seq<byte>, i: nat, j: nat)
    requires i <= |s| && j <= |t| && s[i..] == t[j..]
    ensures IsUtf8From(s, i) == IsUtf8From(t, j)
    decreases |s| - i
  {
    assert |s| - i == |t| - j;
    if i < |s| {
      assert s[i] == s[i..][0] == t[j];
      var w := Width(s[i]);
      if i + w <= |s| {
        assert s[i..i + w] == s[i..][..w] == t[j..j + w];
        assert s[i + w..] == s[i..][w..] == t[j..][w..] == t[j + w..];
        Suffix(s, t, i + w, j + w);
      }
    }
  }

  lemma {:induction false} Concat(a: seq<byte>, b: seq<byte>, i: nat)
    requires i <= |a| && IsUtf8From(a, i) && IsUtf8(b)
    ensures IsUtf8From(a + b, i)
    decreases |a| - i
  {
    if i == |a| {
      assert (a + b)[i..] == b[0..];
      Suffix(a + b, b, i, 0);
    } else {
      var w := Width(a[i]);
      assert (a + b)[i..i + w] == a[i..i + w];
      Concat(a, b, i + w);
    }
  }

  lemma CharIsUtf8(c: seq<byte>)
    requires IsChar(c)
    ensures IsUtf8(c)
  {
    WidthOfChar(c);
    assert c[0..|c|] == c;
  }

  /** Putting ASCII bytes in the place of ASCII bytes keeps a string well formed. */
  lemma {:induction false} AsciiReplaced(s: seq<byte>, t: seq<byte>, i: nat)
    requires |s| == |t| && i <= |s| && IsUtf8From(s, i)
    requires forall k :: i <= k < |s| ==> t[k] == s[k] || (s[k] < 0x80 && t[k] < 0x80)
    ensures IsUtf8From(t, i)
    decreases |s| - i
  {
    if i < |s| {
      var w := Width(s[i]);
      var c, d := s[i..i + w], t[i..i + w];
      WidthOfChar(c);
      assert c[0] == s[i];
      if w > 1 {
        assert forall k :: 0 <= k < w ==> c[k] >= 0x80;
        assert d == c;
      }
      AsciiReplaced(s, t, i + w);
    }
  }
}
