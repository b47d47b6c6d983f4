/**
  Bytes, exclusive or, and positional numerals.

  A byte is an integer below 256. Exclusive or is defined by halving, so that one
  definition serves bytes, 32-bit CRC registers and 128-bit field elements. Numerals
  are most significant digit first, in any base: base 256 for counters on the wire,
  base 16 for LRP nibble strings.
 */
module Octets {

  type byte = n: int | 0 <= n < 256

  type Block = b: seq<byte> | |b| == 16 witness seq(16, i => 0)

  type u16 = n: nat | n < 0x1_0000
  type u32 = n: nat | n < 0x1_0000_0000

  function Min(a: nat, b: nat): nat {
    if a < b then a else b
  }

  function Zeros(n: nat): (z: seq<byte>)
    ensures |z| == n && forall i :: 0 <= i < n ==> z[i] == 0
  {
    seq(n, i => 0)
  }

  /** `f` with the bytes from `offset` on replaced by `data`. */
  function Splice(f: seq<byte>, offset: nat, data: seq<byte>): (r: seq<byte>)
    requires offset + |data| <= |f|
    ensures |r| == |f|
  {
    f[..offset] + data + f[offset + |data|..]
  }

  lemma SpliceIs(f: seq<byte>, offset: nat, data: seq<byte>, i: nat)
    requires offset + |data| <= |f| && i < |f|
    ensures Splice(f, offset, data)[i] == if offset <= i < offset + |data| then data[i - offset] else f[i]
  {
  }

  lemma SpliceTwice(f: seq<byte>, offset: nat, a: seq<byte>, b: seq<byte>)
    requires offset + |a| + |b| <= |f|
    ensures Splice(Splice(f, offset, a), offset + |a|, b) == Splice(f, offset, a + b)
  {
  }

  // ---------------------------------------------------------------- powers

  function Pow(b: nat, e: nat): (p: nat)
    ensures b > 0 ==> p > 0
  {
    if e == 0 then 1 else b * Pow(b, e - 1)
  }

  lemma {:induction false} Pow16Twice(n: nat)
    ensures Pow(16, 2 * n) == Pow(256, n)
  {
    if n > 0 {
      Pow16Twice(n - 1);
      assert Pow(16, 2 * n) == 16 * (16 * Pow(16, 2 * (n - 1)));
    }
  }

  // ---------------------------------------------------------------- exclusive or

  function Bit(b: bool): nat {
    if b then 1 else 0
  }

  function Xor(a: nat, b: nat): nat
    decreases a, b
  {
    if a == 0 && b == 0 then 0 else 2 * Xor(a / 2, b / 2) + Bit(a % 2 != b % 2)
  }

  lemma {:induction false} XorUnfold(a: nat, b: nat)
    ensures Xor(a, b) == 2 * Xor(a / 2, b / 2) + Bit(a % 2 != b % 2)
  {
  }

  /** Bit `k` of a number, from the least significant one on. */
  function BitAt(n: nat, k: nat): nat
    decreases k
  {
    if k == 0 then n % 2 else BitAt(n / 2, k - 1)
  }

  /** Exclusive or is the sum modulo 2 of every bit. */
  lemma {:induction false} XorBits(a: nat, b: nat, k: nat)
    ensures BitAt(Xor(a, b), k) == (BitAt(a, k) + BitAt(b, k)) % 2
    decreases k
  {
    XorHalf(a, b);
    if k > 0 {
      XorBits(a / 2, b / 2, k - 1);
    }
  }

  lemma {:induction false} XorComm(a: nat, b: nat)
    ensures Xor(a, b) == Xor(b, a)
    decreases a, b
  {
    if a != 0 || b != 0 { XorComm(a / 2, b / 2); }
  }

  lemma {:induction false} XorZero(a: nat)
    ensures Xor(a, 0) == a && Xor(0, a) == a
    decreases a
  {
    if a != 0 { XorZero(a / 2); }
  }

  lemma {:induction false} XorSelf(a: nat)
    ensures Xor(a, a) == 0
    decreases a
  {
    if a != 0 { XorSelf(a / 2); }
  }

  /** The halving steps of exclusive or, for any operands. */
  lemma {:induction false} XorHalf(a: nat, b: nat)
    ensures Xor(a, b) / 2 == Xor(a / 2, b / 2)
    ensures Xor(a, b) % 2 == Bit(a % 2 != b % 2)
  {
  }

  lemma {:induction false} XorAssoc(a: nat, b: nat, c: nat)
    ensures Xor(Xor(a, b), c) == Xor(a, Xor(b, c))
    decreases a, b, c
  {
    if a != 0 || b != 0 || c != 0 {
      XorAssoc(a / 2, b / 2, c / 2);
      XorAssocStep(a, b, c, Xor(a, b), Xor(b, c));
    }
  }

  lemma {:induction false} XorAssocStep(a: nat, b: nat, c: nat, ab: nat, bc: nat)
    requires ab == Xor(a, b) && bc == Xor(b, c)
    requires Xor(Xor(a / 2, b / 2), c / 2) == Xor(a / 2, Xor(b / 2, c / 2))
    ensures Xor(ab, c) == Xor(a, bc)
  {
    XorHalf(a, b);
    XorHalf(b, c);
    XorUnfold(ab, c);
    XorUnfold(a, bc);
  }

  lemma XorCancel(a: nat, b: nat)
    ensures Xor(Xor(a, b), b) == a
  {
    XorAssoc(a, b, b);
    XorSelf(b);
    XorZero(a);
  }

  /** (a ^ b) ^ (c ^ d) == (a ^ c) ^ (b ^ d) */
  lemma XorSwap(a: nat, b: nat, c: nat, d: nat)
    ensures Xor(Xor(a, b), Xor(c, d)) == Xor(Xor(a, c), Xor(b, d))
  {
    XorAssoc(a, b, Xor(c, d));
    XorAssoc(b, c, d);
    XorComm(b, c);
    XorAssoc(c, b, d);
    XorAssoc(a, c, Xor(b, d));
  }

  /** `a` shifted left by `k` bits. */
  function Shl(a: nat, k: nat): nat {
    if k == 0 then a else 2 * Shl(a, k - 1)
  }

  /** Exclusive or acts separately on the bits above and below position `k`. */
  lemma {:induction false} XorSplit(k: nat, a: nat, b: nat, c: nat, d: nat)
    requires b < Shl(1, k) && d < Shl(1, k)
    ensures Xor(Shl(a, k) + b, Shl(c, k) + d) == Shl(Xor(a, c), k) + Xor(b, d)
    ensures Xor(b, d) < Shl(1, k)
    decreases k
  {
    if k == 0 {
      assert b == 0 && d == 0;
    } else {
      XorSplit(k - 1, a, b / 2, c, d / 2);
      XorSplitStep(Shl(a, k) + b, Shl(c, k) + d, b, d, Shl(Xor(a, c), k - 1));
    }
  }

  lemma {:induction false} XorSplitStep(x: nat, y: nat, b: nat, d: nat, h: nat)
    requires Xor(x / 2, y / 2) == h + Xor(b / 2, d / 2)
    requires x % 2 == b % 2 && y % 2 == d % 2
    ensures Xor(x, y) == 2 * h + Xor(b, d)
  {
    XorUnfold(x, y);
    XorUnfold(b, d);
  }

  lemma {:induction false} ShlAdd(a: nat, m: nat, n: nat)
    ensures Shl(Shl(a, m), n) == Shl(a, m + n)
  {
    if n > 0 {
      ShlAdd(a, m, n - 1);
    }
  }

  lemma {:induction false} ShlZero(k: nat)
    ensures Shl(0, k) == 0
  {
    if k > 0 {
      ShlZero(k - 1);
    }
  }

  lemma ShlConstants(a: nat)
    ensures Shl(a, 8) == 0x100 * a && Shl(a, 24) == 0x100_0000 * a && Shl(a, 32) == 0x1_0000_0000 * a
  {
    forall x: nat ensures Shl(x, 8) == 0x100 * x {
      assert Shl(x, 8) == 2 * Shl(x, 7) == 4 * Shl(x, 6) == 8 * Shl(x, 5) == 16 * Shl(x, 4);
      assert Shl(x, 4) == 2 * Shl(x, 3) == 4 * Shl(x, 2) == 8 * Shl(x, 1) == 16 * Shl(x, 0);
    }
    ShlAdd(a, 8, 8);
    ShlAdd(a, 16, 8);
    ShlAdd(a, 24, 8);
  }

  lemma XorBound(k: nat, a: nat, b: nat)
    requires a < Shl(1, k) && b < Shl(1, k)
    ensures Xor(a, b) < Shl(1, k)
  {
    XorSplit(k, 0, a, 0, b);
  }

  function XorByte(a: byte, b: byte): (r: byte)
    ensures r == Xor(a, b)
  {
    ShlConstants(1);
    XorBound(8, a, b);
    Xor(a, b)
  }

  function XorBytes(a: seq<byte>, b: seq<byte>): (r: seq<byte>)
    requires |a| == |b|
    ensures |r| == |a|
  {
    seq(|a|, i requires 0 <= i < |a| => XorByte(a[i], b[i]))
  }

  lemma XorBytesCancel(a: seq<byte>, b: seq<byte>)
    requires |a| == |b|
    ensures XorBytes(XorBytes(a, b), b) == a
  {
    forall i | 0 <= i < |a| ensures XorBytes(XorBytes(a, b), b)[i] == a[i] {
      XorCancel(a[i], b[i]);
    }
  }

  lemma XorBytesComm(a: seq<byte>, b: seq<byte>)
    requires |a| == |b|
    ensures XorBytes(a, b) == XorBytes(b, a)
  {
    forall i | 0 <= i < |a| ensures XorBytes(a, b)[i] == XorBytes(b, a)[i] {
      XorComm(a[i], b[i]);
    }
  }

  lemma XorBytesAssoc(a: seq<byte>, b: seq<byte>, c: seq<byte>)
    requires |a| == |b| == |c|
    ensures XorBytes(XorBytes(a, b), c) == XorBytes(a, XorBytes(b, c))
  {
    forall i | 0 <= i < |a| ensures XorBytes(XorBytes(a, b), c)[i] == XorBytes(a, XorBytes(b, c))[i] {
      XorAssoc(a[i], b[i], c[i]);
    }
  }

  lemma XorBytesZeros(a: seq<byte>)
    ensures XorBytes(a, Zeros(|a|)) == a && XorBytes(Zeros(|a|), a) == a
  {
    forall i | 0 <= i < |a| ensures Xor(a[i], 0) == a[i] && Xor(0, a[i]) == a[i] {
      XorZero(a[i]);
    }
  }

  // ---------------------------------------------------------------- numerals

  predicate AreDigits(base: nat, s: seq<nat>) {
    forall i :: 0 <= i < |s| ==> s[i] < base
  }

  /** The number a digit string denotes, most significant digit first. */
  function Value(base: nat, s: seq<nat>): nat {
    if |s| == 0 then 0 else Value(base, s[..|s| - 1]) * base + s[|s| - 1]
  }

  /** The last `len` digits of `n`, most significant digit first. */
  function Digits(base: nat, n: nat, len: nat): (s: seq<nat>)
    requires base > 0
    ensures |s| == len && AreDigits(base, s)
    decreases len
  {
    if len == 0 then [] else Digits(base, n / base, len - 1) + [n % base]
  }

  lemma {:induction false} ValueConcat(base: nat, a: seq<nat>, b: seq<nat>)
    ensures Value(base, a + b) == Value(base, a) * Pow(base, |b|) + Value(base, b)
  {
    if |b| == 0 {
      assert a + b == a;
    } else {
      var b' := b[..|b| - 1];
      assert (a + b)[..|a + b| - 1] == a + b';
      ValueConcat(base, a, b');
      MulOut(Value(base, a), Pow(base, |b'|), Value(base, b'), base);
    }
  }

  lemma MulOut(v: nat, p: nat, w: nat, b: nat)
    ensures (v * p + w) * b == v * (b * p) + w * b
  {
    MulDist(v * p, w, b);
    MulRotate(v, p, b);
  }

  lemma {:induction false} ValueBound(base: nat, s: seq<nat>)
    requires AreDigits(base, s)
    ensures Value(base, s) < Pow(base, |s|)
  {
    if |s| > 0 {
      ValueBound(base, s[..|s| - 1]);
      MulBound(Value(base, s[..|s| - 1]), Pow(base, |s| - 1), base, s[|s| - 1]);
    }
  }

  /** Reading back a digit string: the value is the number modulo base^len. */
  lemma {:induction false} ValueDigits(base: nat, n: nat, len: nat)
    requires base > 0
    ensures Value(base, Digits(base, n, len)) == n % Pow(base, len)
    decreases len
  {
    if len > 0 {
      var s := Digits(base, n / base, len - 1);
      ValueDigits(base, n / base, len - 1);
      ModStep(n, base, Pow(base, len - 1));
      ValueSnoc(base, s, n % base);
    }
  }

  lemma ValueSnoc(base: nat, s: seq<nat>, d: nat)
    ensures Value(base, s + [d]) == Value(base, s) * base + d
  {
    assert (s + [d])[..|s|] == s;
  }

  lemma MulDist(x: int, y: int, b: int)
    ensures (x + y) * b == x * b + y * b
  {
  }

  lemma MulRotate(h: int, p: int, b: int)
    ensures (h * p) * b == h * (b * p)
  {
  }

  lemma MulAtLeast(e: nat, m: nat)
    requires e > 0
    ensures e * m >= m
  {
    MulDist(e - 1, 1, m);
    assert (e - 1) * m >= 0;
  }

  lemma MulBound(v: nat, p: nat, base: nat, d: nat)
    requires v < p && d < base
    ensures v * base + d < base * p
  {
    MulAtLeast(p - v, base);
    MulDist(p - v, v, base);
  }

  lemma ModStep(n: nat, b: nat, p: nat)
    requires b > 0 && p > 0
    ensures b * p > 0 && n % (b * p) == (n / b) % p * b + n % b
  {
    ModStepAt(n, b, p, n / b, n % b, (n / b) / p, (n / b) % p);
  }

  lemma ModStepAt(n: nat, b: nat, p: nat, q: nat, r: nat, h: nat, l: nat)
    requires n == q * b + r && r < b && q == h * p + l && l < p
    ensures b * p > 0 && n % (b * p) == l * b + r
  {
    MulDist(h * p, l, b);
    MulRotate(h, p, b);
    MulBound(l, p, b, r);
    ModUnique(n, b * p, h, l * b + r);
  }

  lemma ModAddOne(n: nat, m: nat)
    requires m > 0
    ensures (n % m + 1) % m == (n + 1) % m
  {
    ModAddOneAt(n, m, n / m, n % m);
  }

  lemma ModAddOneAt(n: nat, m: nat, q: nat, r: nat)
    requires m > 0 && n == q * m + r && r < m
    ensures (r + 1) % m == (n + 1) % m
  {
    MulDist(q, 1, m);
    if r + 1 < m {
      ModUnique(n + 1, m, q, r + 1);
      ModUnique(r + 1, m, 0, r + 1);
    } else {
      ModUnique(n + 1, m, q + 1, 0);
      ModUnique(m, m, 1, 0);
    }
  }

  lemma ModDistinct(a: nat, d: nat, m: nat)
    requires 0 < d < m
    ensures (a + d) % m != a % m
  {
    ModDistinctAt(a, d, m, a / m, a % m);
  }

  lemma ModDistinctAt(a: nat, d: nat, m: nat, q: nat, r: nat)
    requires 0 < d < m && a == q * m + r && r < m
    ensures (a + d) % m != r
  {
    MulDist(q, 1, m);
    if r + d < m {
      ModUnique(a + d, m, q, r + d);
    } else {
      ModUnique(a + d, m, q + 1, r + d - m);
    }
  }

  lemma ModUnique(n: nat, m: nat, q: nat, r: nat)
    requires m > 0 && n == q * m + r && r < m
    ensures n % m == r && n / m == q
  {
    var q', r' := n / m, n % m;
    MulDist(q - q', q', m);
    MulDist(q' - q, q, m);
    if q > q' {
      MulAtLeast(q - q', m);
    } else if q < q' {
      MulAtLeast(q' - q, m);
    }
  }

  /** A digit string is determined by its value. */
  lemma {:induction false} DigitsValue(base: nat, s: seq<nat>)
    requires base > 0 && AreDigits(base, s)
    ensures Digits(base, Value(base, s), |s|) == s
  {
    if |s| > 0 {
      var v, d := Value(base, s[..|s| - 1]), s[|s| - 1];
      DigitsValue(base, s[..|s| - 1]);
      ModUnique(v * base + d, base, v, d);
      assert s == s[..|s| - 1] + [d];
    }
  }

  lemma {:induction false} DigitsMod(base: nat, n: nat, len: nat)
    requires base > 0
    ensures Digits(base, n % Pow(base, len), len) == Digits(base, n, len)
  {
    ValueDigits(base, n, len);
    DigitsValue(base, Digits(base, n, len));
  }

  /** Every digit at its maximum: the last value before wrap-around. */
  lemma {:induction false} ValueAllMax(base: nat, s: seq<nat>)
    requires base > 0 && forall i :: 0 <= i < |s| ==> s[i] == base - 1
    ensures Value(base, s) == Pow(base, |s|) - 1
  {
    if |s| > 0 {
      ValueAllMax(base, s[..|s| - 1]);
    }
  }

  lemma {:induction false} ValueAllZero(base: nat, s: seq<nat>)
    requires forall i :: 0 <= i < |s| ==> s[i] == 0
    ensures Value(base, s) == 0
  {
    if |s| > 0 {
      ValueAllZero(base, s[..|s| - 1]);
    }
  }

  // ---------------------------------------------------------------- fixed-width integers

  /** Least significant byte first, both ways. */
  lemma LittleEndian(a: byte, b: byte, c: byte)
    ensures Le16(a as nat + 256 * b as nat) == [a, b]
    ensures Le24(a as nat + 256 * b as nat + 0x1_0000 * c as nat) == [a, b, c]
    ensures FromLe24([a, b, c]) == a as nat + 256 * b as nat + 0x1_0000 * c as nat
  {
  }

  /** Most significant byte first. */
  lemma BigEndian(a: byte, b: byte)
    ensures Be16(256 * a as nat + b as nat) == [a, b] && FromBe16([a, b]) == 256 * a as nat + b as nat
    ensures Value(256, [a, b]) == 256 * a as nat + b as nat
  {
    ValueSnoc(256, [a], b);
    assert [a] + [b] == [a, b] && Value(256, [a]) == a as nat;
  }

  function Le16(n: nat): (r: seq<byte>)
    requires n < 0x1_0000
    ensures |r| == 2
  {
    [n % 256, n / 256]
  }

  lemma Le16Injective(m: nat, n: nat)
    requires m < 0x1_0000 && n < 0x1_0000 && Le16(m) == Le16(n)
    ensures m == n
  {
    assert m % 256 == n % 256 && m / 256 == n / 256;
  }

  /** The low three bytes of `n.to_le_bytes()`; higher bytes are dropped. */
  function Le24(n: nat): (r: seq<byte>)
    ensures |r| == 3
  {
    [n % 256, n / 256 % 256, n / 0x1_0000 % 256]
  }

  function FromLe24(s: seq<byte>): nat
    requires |s| == 3
  {
    s[0] as nat + 256 * s[1] as nat + 0x1_0000 * s[2] as nat
  }

  lemma FromLe24RoundTrip(n: nat)
    ensures FromLe24(Le24(n)) == n % 0x100_0000
  {
    var m := n / 256;
    var h := m / 256;
    Split24(n, m, h, h / 256, n % 256, m % 256, h % 256);
  }

  lemma Split24(n: nat, m: nat, h: nat, q: nat, a: nat, b: nat, c: nat)
    requires n == 256 * m + a && m == 256 * h + b && h == 256 * q + c && a < 256 && b < 256 && c < 256
    ensures Le24(n) == [a, b, c] && n % 0x100_0000 == a + 256 * b + 0x1_0000 * c
  {
    ModUnique(n, 256, m, a);
    ModUnique(m, 256, h, b);
    ModUnique(h, 256, q, c);
    ModUnique(n, 0x1_0000, h, 256 * b + a);
    ModUnique(n, 0x100_0000, q, a + 256 * b + 0x1_0000 * c);
  }

  function Be16(n: nat): (r: seq<byte>)
    requires n < 0x1_0000
    ensures |r| == 2
  {
    [n / 256, n % 256]
  }

  function FromBe16(s: seq<byte>): (n: nat)
    requires |s| == 2
    ensures n < 0x1_0000
    ensures Be16(n) == s
  {
    256 * s[0] as nat + s[1] as nat
  }

  /** ASCII text as bytes. */
  predicate Spells(b: seq<byte>, text: string) {
    |b| == |text| && forall i :: 0 <= i < |b| ==> b[i] as nat == text[i] as nat
  }

  lemma SpelledSame()
    ensures forall a, b, text :: Spells(a, text) && Spells(b, text) ==> a == b
  {
  }

  lemma SpelledOnce(a: seq<byte>, b: seq<byte>, text: string)
    requires Spells(a, text)
    ensures Spells(b, text) <==> b == a
  {
  }
}
