/** The key checksum of ChangeKey: the CRC32 register of commands/change_key.rs. */
module Crc {
  import opened Octets

  const POLY: u32 := 0xEDB8_8320

  function XorWord(a: u32, b: u32): (r: u32)
    ensures r == Xor(a, b)
  {
    ShlConstants(1);
    XorBound(32, a, b);
    Xor(a, b)
  }

  /** One turn of the inner loop: shift right, and subtract the polynomial if a one fell out. */
  function Shift(r: u32): u32 {
    if r % 2 != 0 then XorWord(r / 2, POLY) else r / 2
  }

  function Shifts(r: u32, n: nat): u32
    decreases n
  {
    if n == 0 then r else Shifts(Shift(r), n - 1)
  }

  /** One turn of the outer loop. */
  function Feed(r: u32, b: byte): u32 {
    Shifts(XorWord(r, b), 8)
  }

  /** The register after `data`, from register `r`. */
  function Register(r: u32, data: seq<byte>): u32
    decreases |data|
  {
    if |data| == 0 then r else Register(Feed(r, data[0]), data[1..])
  }

  function Le32(n: u32): (r: seq<byte>)
    ensures |r| == 4
  {
    [n % 256, n / 0x100 % 256, n / 0x1_0000 % 256, n / 0x100_0000]
  }

  /** `crc32`: no final complement, little-endian output. */
  function Crc32(data: seq<byte>): (c: seq<byte>)
    ensures |c| == 4
  {
    Le32(Register(0xFFFF_FFFF, data))
  }

  /**
    The registers of one run of the reflected CRC-32 of IEEE 802.3: all ones at first; every byte is added, and then
    eight times the register is shifted, and the polynomial added if a one falls out.
   */
  predicate IsRun(data: seq<byte>, rs: seq<seq<u32>>) {
    && |rs| == |data| + 1 && (forall i :: 0 <= i <= |data| ==> |rs[i]| == 9)
    && rs[0][8] == 0xFFFF_FFFF
    && (forall i :: 0 <= i < |data| ==> rs[i + 1][0] == Xor(rs[i][8], data[i]))
    && (forall i, k :: 0 < i <= |data| && 0 <= k < 8 ==> 
        rs[i][k + 1] == if rs[i][k] % 2 == 1 then Xor(rs[i][k] / 2, 0xEDB8_8320) else rs[i][k] / 2)
  }

  /** The checksum is the last register, least significant byte first and without complement. */
  lemma ChecksumIs(data: seq<byte>, rs: seq<seq<u32>>)
    requires IsRun(data, rs)
    ensures var r := rs[|data|][8];
      Crc32(data) == [r % 256, r / 0x100 % 256, r / 0x1_0000 % 256, r / 0x100_0000]
  {
    RunFrom(data, rs, 0);
    assert data[0..] == data;
  }

  lemma {:induction false} RunFrom(data: seq<byte>, rs: seq<seq<u32>>, i: nat)
    requires IsRun(data, rs) && i <= |data|
    ensures Register(rs[i][8], data[i..]) == rs[|data|][8]
    decreases |data| - i
  {
    hide Xor;
    if i < |data| {
      var s := rs[i + 1];
      ShiftsIs(s, 0);
      assert data[i..][0] == data[i] && data[i..][1..] == data[i + 1..];
      RunFrom(data, rs, i + 1);
    }
  }

  lemma {:induction false} ShiftsIs(s: seq<u32>, k: nat)
    requires |s| == 9 && k <= 8
    requires forall i :: 0 <= i < 8 ==> s[i + 1] == if s[i] % 2 == 1 then Xor(s[i] / 2, 0xEDB8_8320) else s[i] / 2
    ensures Shifts(s[k], 8 - k) == s[8]
    decreases 8 - k
  {
    hide Xor;
    if k < 8 {
      ShiftsIs(s, k + 1);
    }
  }

  method ComputeCrc32(data: seq<byte>) returns (c: seq<byte>)
    ensures c == Crc32(data)
  {
    hide Xor;
    var crc: u32 := 0xFFFF_FFFF;
    for i := 0 to |data|
      invariant Register(crc, data[i..]) == Register(0xFFFF_FFFF, data)
    {
      ghost var before := crc;
      assert data[i..][1..] == data[i + 1..];
      crc := XorWord(crc, data[i]);
      for n := 0 to 8
        invariant Shifts(crc, 8 - n) == Feed(before, data[i])
      {
        crc := if crc % 2 != 0 then XorWord(crc / 2, POLY) else crc / 2;
      }
    }
    c := Le32(crc);
  }

  // ---------------------------------------------------------------- linearity

  lemma {:induction false} ShiftLinear(a: u32, b: u32)
    ensures Shift(XorWord(a, b)) == XorWord(Shift(a), Shift(b))
  {
    XorHalf(a, b);
    var h, k := a / 2, b / 2;
    if a % 2 != 0 && b % 2 != 0 {
      XorSwap(h, POLY, k, POLY);
      XorSelf(POLY);
      XorZero(Xor(h, k));
    } else if a % 2 != 0 {
      XorAssoc(h, POLY, k);
      XorComm(POLY, k);
      XorAssoc(h, k, POLY);
    } else if b % 2 != 0 {
      XorAssoc(h, k, POLY);
    }
  }

  lemma {:induction false} ShiftsLinear(a: u32, b: u32, n: nat)
    ensures Shifts(XorWord(a, b), n) == XorWord(Shifts(a, n), Shifts(b, n))
    decreases n
  {
    if n > 0 {
      ShiftLinear(a, b);
      ShiftsLinear(Shift(a), Shift(b), n - 1);
    }
  }

  lemma FeedLinear(r: u32, s: u32, b: byte, c: byte)
    ensures Feed(XorWord(r, s), XorByte(b, c)) == XorWord(Feed(r, b), Feed(s, c))
  {
    XorSwap(r, s, b, c);
    ShiftsLinear(XorWord(r, b), XorWord(s, c), 8);
  }

  /** The register is linear in its start and its input together. */
  lemma {:induction false} RegisterLinear(r: u32, s: u32, a: seq<byte>, b: seq<byte>)
    requires |a| == |b|
    ensures Register(XorWord(r, s), XorBytes(a, b)) == XorWord(Register(r, a), Register(s, b))
    decreases |a|
  {
    if |a| > 0 {
      FeedLinear(r, s, a[0], b[0]);
      assert XorBytes(a, b)[0] == XorByte(a[0], b[0]);
      assert XorBytes(a, b)[1..] == XorBytes(a[1..], b[1..]);
      RegisterLinear(Feed(r, a[0]), Feed(s, b[0]), a[1..], b[1..]);
    }
  }

  /**
    The checksum is affine: over equal lengths, the checksums of two strings differ by the
    register of their difference from zero.
   */
  lemma Crc32Affine(a: seq<byte>, b: seq<byte>)
    requires |a| == |b|
    ensures Register(0xFFFF_FFFF, a) == XorWord(Register(0xFFFF_FFFF, b), Register(0, XorBytes(a, b)))
  {
    XorZero(0xFFFF_FFFF);
    RegisterLinear(0xFFFF_FFFF, 0, b, XorBytes(a, b));
    XorBytesComm(b, XorBytes(a, b));
    XorBytesCancel(a, b);
  }

  // ---------------------------------------------------------------- injectivity

  /** The top bit of a shifted register is the bit that fell out, so a shift can be undone. */
  lemma ShiftInjective(a: u32, b: u32)
    requires Shift(a) == Shift(b)
    ensures a == b
  {
    TopBit(a / 2);
    TopBit(b / 2);
    XorCancel(a / 2, POLY);
    XorCancel(b / 2, POLY);
  }

  lemma TopBit(h: nat)
    requires h < 0x8000_0000
    ensures Xor(h, POLY) >= 0x8000_0000
  {
    var l := POLY - 0x8000_0000;
    ShlConstants(1);
    assert Shl(1, 32) == 2 * Shl(1, 31);
    XorSplit(31, 0, h, 1, l);
    ShlZero(31);
    XorZero(1);
  }

  lemma {:induction false} ShiftsInjective(a: u32, b: u32, n: nat)
    requires Shifts(a, n) == Shifts(b, n)
    ensures a == b
    decreases n
  {
    if n > 0 {
      ShiftsInjective(Shift(a), Shift(b), n - 1);
      ShiftInjective(a, b);
    }
  }

  lemma FeedInjective(r: u32, s: u32, b: byte)
    requires Feed(r, b) == Feed(s, b)
    ensures r == s
  {
    ShiftsInjective(XorWord(r, b), XorWord(s, b), 8);
    XorCancel(r, b);
    XorCancel(s, b);
  }

  lemma {:induction false} RegisterInjective(r: u32, s: u32, data: seq<byte>)
    requires Register(r, data) == Register(s, data)
    ensures r == s
    decreases |data|
  {
    if |data| > 0 {
      RegisterInjective(Feed(r, data[0]), Feed(s, data[0]), data[1..]);
      FeedInjective(r, s, data[0]);
    }
  }

  // ---------------------------------------------------------------- bursts

  lemma {:induction false} ShiftsOfMultiple(x: nat, n: nat)
    requires Shl(x, n) < 0x1_0000_0000
    ensures Shifts(Shl(x, n), n) == x
    decreases n
  {
    if n > 0 {
      assert Shift(Shl(x, n)) == Shl(x, n - 1);
      ShiftsOfMultiple(x, n - 1);
    }
  }

  /** Feeding `b` into a register that is a multiple of 256 apart from its low byte. */
  lemma FeedHigh(low: byte, high: nat, b: byte)
    requires high < 0x100_0000
    ensures Feed(256 * high + low, b) == XorWord(Feed(low, b), high)
  {
    hide Xor, Shl, Shifts;
    ShlConstants(high);
    ShlConstants(0);
    XorZero(high);
    ShlConstants(1);
    XorSplit(8, high, low, 0, b);
    var w := XorByte(low, b);
    assert XorWord(256 * high + low, b) == 256 * high + w;
    XorSplit(8, high, 0, 0, w);
    XorZero(w);
    assert XorWord(256 * high, w) == 256 * high + w;
    ShiftsLinear(256 * high, w, 8);
    ShiftsOfMultiple(high, 8);
    XorComm(high, Shifts(w, 8));
  }

  lemma {:induction false} RegisterOfFour(r: u32, d: seq<byte>)
    requires |d| == 4
    ensures Register(r, d) == Feed(Feed(Feed(Feed(r, d[0]), d[1]), d[2]), d[3])
  {
    hide Feed;
    var r1 := Feed(r, d[0]);
    var r2 := Feed(r1, d[1]);
    var r3 := Feed(r2, d[2]);
    assert Register(r, d) == Register(r1, d[1..]);
    assert d[1..][1..] == d[2..] && d[2..][1..] == d[3..] && d[3..][1..] == [];
    assert Register(r1, d[1..]) == Register(r2, d[2..]);
    assert Register(r2, d[2..]) == Register(r3, d[3..]);
    assert Register(r3, d[3..]) == Register(Feed(r3, d[3]), []);
  }

  /** Four bytes fed into an empty register: the register is their little-endian word, shifted out. */
  lemma FeedWord(d: seq<byte>)
    requires |d| == 4
    ensures var w := d[0] as nat + 0x100 * d[1] as nat + 0x1_0000 * d[2] as nat + 0x100_0000 * d[3] as nat;
            Register(0, d) == Register(w, [0, 0, 0, 0])
  {
    hide Feed, Register, Xor;
    var w2 := d[2] as nat + 0x100 * d[3] as nat;
    var w1 := d[1] as nat + 0x100 * w2;
    var w := d[0] as nat + 0x100 * w1;
    var r1 := Feed(0, d[0]);
    var r2 := Feed(r1, d[1]);
    var r3 := Feed(r2, d[2]);
    XorZero(w);
    WordStep(0, d[0], w1);
    WordStep(r1, d[1], w2);
    WordStep(r2, d[2], d[3]);
    WordStep(r3, d[3], 0);
    XorZero(Feed(r3, d[3]));
    RegisterOfFour(0, d);
    RegisterOfFour(w, [0, 0, 0, 0]);
  }

  /** Bytes waiting above the low byte enter the register unchanged, one place down. */
  lemma WordStep(r: u32, b: byte, waiting: nat)
    requires waiting < 0x100_0000
    ensures Feed(XorWord(r, b as nat + 0x100 * waiting), 0) == XorWord(Feed(r, b), waiting)
  {
    assert Feed(XorWord(r, b), 0) == Feed(r, b) by { XorZero(XorWord(r, b)); }
    hide Xor, Feed;
    var w := b as nat + 0x100 * waiting;
    FeedLinear(r, w, 0, 0);
    XorSelf(0);
    FeedHigh(b, waiting, 0);
    XorAssoc(Feed(r, 0), Feed(b, 0), waiting);
    FeedLinear(r, b, 0, 0);
  }

  lemma {:induction false} RegisterZeros(n: nat)
    ensures Register(0, Zeros(n)) == 0
    decreases n
  {
    if n > 0 {
      XorZero(0);
      assert Feed(0, 0) == 0;
      assert Zeros(n)[1..] == Zeros(n - 1);
      RegisterZeros(n - 1);
    }
  }

  lemma {:induction false} RegisterConcat(r: u32, a: seq<byte>, b: seq<byte>)
    ensures Register(r, a + b) == Register(Register(r, a), b)
    decreases |a|
  {
    if |a| == 0 {
      assert a + b == b;
    } else {
      assert (a + b)[1..] == a[1..] + b;
      RegisterConcat(Feed(r, a[0]), a[1..], b);
    }
  }

  /** Feeding a register its own little-endian bytes empties it. */
  lemma AppendedRegisterIsZero(start: u32, data: seq<byte>)
    ensures Register(start, data + Le32(Register(start, data))) == 0
  {
    hide Register, Xor;
    var r := Register(start, data);
    var d := Le32(r);
    RegisterConcat(start, data, d);
    Le32Word(r);
    FeedWord(d);
    RegisterLinear(r, 0, Zeros(4), d);
    XorBytesZeros(d);
    XorZero(r);
    assert Zeros(4) == [0, 0, 0, 0];
    XorSelf(Register(r, [0, 0, 0, 0]));
  }

  /** The residue property: a string and its checksum together leave nothing. */
  lemma AppendedCrcIsZero(data: seq<byte>)
    ensures Register(0xFFFF_FFFF, data + Crc32(data)) == 0
  {
    AppendedRegisterIsZero(0xFFFF_FFFF, data);
  }

  /** Two strings of one length have one checksum exactly when their difference leaves nothing. */
  lemma SameCrc(a: seq<byte>, b: seq<byte>)
    requires |a| == |b|
    ensures Crc32(a) == Crc32(b) <==> Register(0, XorBytes(a, b)) == 0
  {
    hide Register, Xor, Le32;
    var ra, rb, d := Register(0xFFFF_FFFF, a), Register(0xFFFF_FFFF, b), Register(0, XorBytes(a, b));
    Crc32Affine(a, b);
    Le32Word(ra);
    Le32Word(rb);
    XorZero(rb);
    XorAssoc(d, rb, rb);
    XorComm(d, rb);
    XorSelf(rb);
    XorZero(d);
  }

  lemma Le32Word(n: u32)
    ensures var d := Le32(n);
            d[0] as nat + 0x100 * d[1] as nat + 0x1_0000 * d[2] as nat + 0x100_0000 * d[3] as nat == n
  {
    var m, h := n / 0x100, n / 0x1_0000;
    assert n == 256 * m + n % 256 && m == 256 * h + m % 256;
  }

  /** A string that is zero except in one run of at most four bytes. */
  predicate IsBurst(d: seq<byte>, at: nat) {
    at + 4 <= |d| && forall i :: 0 <= i < |d| && !(at <= i < at + 4) ==> d[i] == 0
  }

  /** No non-zero burst leaves the register empty: the checksum detects every one. */
  lemma BurstDetected(d: seq<byte>, at: nat)
    requires IsBurst(d, at) && Register(0, d) == 0
    ensures forall i :: 0 <= i < |d| ==> d[i] == 0
  {
    hide Register, Xor;
    var mid, tail := d[at..at + 4], d[at + 4..];
    assert d == Zeros(at) + (mid + tail);
    assert tail == Zeros(|tail|);
    RegisterConcat(0, Zeros(at), mid + tail);
    RegisterZeros(at);
    RegisterConcat(0, mid, tail);
    RegisterZeros(|tail|);
    RegisterInjective(Register(0, mid), 0, tail);
    FeedWord(mid);
    assert Zeros(4) == [0, 0, 0, 0];
    RegisterZeros(4);
    var w := mid[0] as nat + 0x100 * mid[1] as nat + 0x1_0000 * mid[2] as nat + 0x100_0000 * mid[3] as nat;
    RegisterInjective(w, 0, [0, 0, 0, 0]);
    forall i | at <= i < at + 4 ensures d[i] == 0 {
      assert d[i] == mid[i - at];
    }
  }
}
