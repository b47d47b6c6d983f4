/** AES-128 as a keyed permutation of 16-byte blocks; its rounds are not modelled. */
module Aes {
  import opened Octets

  datatype BlockCipher = BlockCipher(enc: (Block, Block) -> Block, dec: (Block, Block) -> Block)

  ghost predicate IsPermutation(c: BlockCipher) {
    && (forall k: Block, b: Block :: c.dec(k, c.enc(k, b)) == b)
    && (forall k: Block, b: Block :: c.enc(k, c.dec(k, b)) == b)
  }

  /** Any keyed permutation: every result below holds for all of them, AES-128 among them. */
  type Aes128 = c: BlockCipher | IsPermutation(c)
    ghost witness BlockCipher((k, b) => b, (k, b) => b)
}

/** CMAC (NIST SP 800-38B section 6.2) over any 16-byte block function. */
module Cmac {
  import opened Octets

  /**
    Multiplication by x in GF(2^128) with the polynomial x^128 + x^7 + x^2 + x + 1, on
    the number whose bits are the coefficients.
   */
  function MulX(v: nat): nat {
    if 2 * v >= Shl(1, 128) then Xor(2 * v, Shl(1, 128) + 0x87) else 2 * v
  }

  /** The low 16 bytes of `n`, most significant first. */
  function ToBlock(n: nat): (b: Block)
    ensures b == Digits(256, n, 16)
  {
    Digits(256, n, 16)
  }

  function Double(b: Block): Block {
    ToBlock(MulX(Value(256, b)))
  }

  /** Method 2 padding of an incomplete last block. */
  function PadBlock(m: seq<byte>): (b: Block)
    requires |m| < 16
    ensures b == m + [0x80] + Zeros(15 - |m|)
  {
    m + [0x80] + Zeros(15 - |m|)
  }

  function CmacFrom(f: Block -> Block, k1: Block, k2: Block, state: Block, m: seq<byte>): Block
    decreases |m|
  {
    if |m| > 16 then
      CmacFrom(f, k1, k2, f(XorBytes(m[..16], state)), m[16..])
    else if |m| == 16 then
      f(XorBytes(XorBytes(m, k1), state))
    else
      f(XorBytes(XorBytes(PadBlock(m), k2), state))
  }

  function Cmac(f: Block -> Block, m: seq<byte>): Block {
    var k1 := Double(f(Zeros(16)));
    CmacFrom(f, k1, Double(k1), Zeros(16), m)
  }

  /** The subkeys of NIST SP 800-38B section 6.1: as 128-bit numbers, doubled, and reduced by 0x87 where a bit falls out. */
  predicate IsDoubled(b: Block, d: Block) {
    var v := Value(256, b);
    Value(256, d) ==
      if v < 0x8000_0000_0000_0000_0000_0000_0000_0000 then 2 * v
      else Xor(2 * v - 0x1_0000_0000_0000_0000_0000_0000_0000_0000, 0x87)
  }

  lemma DoubleIsDoubled(b: Block)
    ensures IsDoubled(b, Double(b))
  {
    hide Value, Digits, Xor, Pow;
    var v, p := Value(256, b), 0x1_0000_0000_0000_0000_0000_0000_0000_0000;
    TwoTo128();
    ValueBound(256, b);
    hide Shl;
    if 2 * v >= p {
      XorAbove(2 * v - p, 0x87);
    }
    ValueDigits(256, MulX(v), 16);
    ModUnique(MulX(v), p, 0, MulX(v));
  }

  lemma TwoTo128()
    ensures Shl(1, 128) == Pow(256, 16) == 0x1_0000_0000_0000_0000_0000_0000_0000_0000
  {
    forall x: nat ensures Shl(x, 32) == 0x1_0000_0000 * x {
      ShlConstants(x);
    }
    ShlAdd(1, 32, 32);
    ShlAdd(1, 64, 32);
    ShlAdd(1, 96, 32);
    hide Shl;
    assert Pow(256, 2) == 0x1_0000;
    assert Pow(256, 4) == 256 * (256 * Pow(256, 2)) == 0x1_0000_0000;
    assert Pow(256, 8) == 256 * (256 * (256 * (256 * Pow(256, 4)))) == 0x1_0000_0000_0000_0000;
    assert Pow(256, 12) == 256 * (256 * (256 * (256 * Pow(256, 8))));
    assert Pow(256, 16) == 256 * (256 * (256 * (256 * Pow(256, 12))));
  }

  /** A common bit at position 128 cancels. */
  lemma XorAbove(a: nat, b: nat)
    requires a < 0x1_0000_0000_0000_0000_0000_0000_0000_0000 && b < 0x1_0000_0000_0000_0000_0000_0000_0000_0000
    ensures var p := 0x1_0000_0000_0000_0000_0000_0000_0000_0000;
      Xor(p + a, p + b) == Xor(a, b) < p
  {
    hide Xor, Pow;
    TwoTo128();
    hide Shl;
    XorSplit(128, 1, a, 1, b);
    XorSelf(1);
    ShlZero(128);
  }

  /**
    CMAC (NIST SP 800-38B section 6.2): `x` are the chaining values over the blocks before the last; a whole
    last block is masked with the first subkey, any other one padded and masked with the second.
   */
  predicate IsChain(f: Block -> Block, m: seq<byte>, x: seq<Block>) {
    && |x| > 0 && x[0] == Zeros(16) && 16 * (|x| - 1) <= |m| <= 16 * |x|
    && (|x| > 1 ==> 16 * (|x| - 1) < |m|)
    && forall i :: 0 <= i < |x| - 1 ==> x[i + 1] == f(XorBytes(m[16 * i..16 * i + 16], x[i]))
  }

  lemma CmacIs(f: Block -> Block, m: seq<byte>, x: seq<Block>)
    requires IsChain(f, m, x)
    ensures var k1 := Double(f(Zeros(16)));
      var k2, at, last := Double(k1), x[|x| - 1], m[16 * (|x| - 1)..];
      && IsDoubled(f(Zeros(16)), k1) && IsDoubled(k1, k2)
      && Cmac(f, m) ==
           if |last| == 16 then f(XorBytes(XorBytes(last, k1), at))
           else f(XorBytes(XorBytes(last + [0x80] + Zeros(15 - |last|), k2), at))
  {
    hide Double, XorBytes, IsDoubled;
    var k1 := Double(f(Zeros(16)));
    DoubleIsDoubled(f(Zeros(16)));
    DoubleIsDoubled(k1);
    ChainFrom(f, k1, Double(k1), m, x, 0);
    assert m[16 * 0..] == m;
  }

  lemma {:induction false} ChainFrom(f: Block -> Block, k1: Block, k2: Block, m: seq<byte>, x: seq<Block>, i: nat)
    requires IsChain(f, m, x) && i < |x|
    ensures CmacFrom(f, k1, k2, x[i], m[16 * i..]) == CmacFrom(f, k1, k2, x[|x| - 1], m[16 * (|x| - 1)..])
    decreases |x| - i
  {
    hide XorBytes;
    if i < |x| - 1 {
      assert m[16 * i..][..16] == m[16 * i..16 * i + 16] && m[16 * i..][16..] == m[16 * (i + 1)..];
      ChainFrom(f, k1, k2, m, x, i + 1);
    }
  }

  /** The even-numbered bytes of a full CMAC, counting from one. */
  function Truncate(full: Block): (mac: seq<byte>)
    ensures mac == [full[1], full[3], full[5], full[7], full[9], full[11], full[13], full[15]]
  {
    seq(8, i requires 0 <= i < 8 => full[2 * i + 1])
  }
}
