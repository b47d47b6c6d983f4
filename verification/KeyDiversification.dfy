/** Deriving keys per tag: crypto/key_diversification.rs, and the keys high_level derives with it. */
module KeyDiversification {
  import opened Octets
  import opened Aes
  import opened Blocks
  import opened Suite
  import opened Wire
  import Cmac
  import Cbc

  // ---------------------------------------------------------------- doubling

  lemma {:induction false} PowIsShl(n: nat)
    ensures Pow(256, n) == Shl(1, 8 * n)
  {
    if n > 0 {
      PowIsShl(n - 1);
      ShlAdd(1, 8 * (n - 1), 8);
      ShlConstants(Shl(1, 8 * (n - 1)));
    }
  }

  lemma ValueCons(x: byte, s: seq<byte>)
    ensures Value(256, [x] + s) == x as nat * Pow(256, |s|) + Value(256, s)
  {
    ValueConcat(256, [x], s);
    assert Value(256, [x]) == x by { assert [x][..0] == []; }
  }

  /** One step of the shift: the carry of the lower bytes goes into this one, and its top bit out. */
  lemma ShiftStep(x: byte, s: seq<byte>, y: byte, out: seq<byte>, carry: nat)
    requires |out| == |s| && 2 * x as nat == 256 * (x as nat / 128) + (y as nat - carry)
    requires carry * Pow(256, |s|) + Value(256, out) == 2 * Value(256, s)
    ensures (x as nat / 128) * Pow(256, |s| + 1) + Value(256, [y] + out) == 2 * Value(256, [x] + s)
  {
    hide Value;
    ValueCons(x, s);
    ValueCons(y, out);
    ShiftAt(x, x as nat / 128, y, carry, Pow(256, |s|), Value(256, s), Value(256, out));
  }

  lemma ShiftAt(x: nat, top: nat, y: nat, carry: nat, p: nat, vs: nat, vo: nat)
    requires 2 * x == 256 * top + (y - carry) && carry * p + vo == 2 * vs
    ensures top * (256 * p) + (y * p + vo) == 2 * (x * p + vs)
  {
    MulDist(256 * top, y - carry, p);
    MulDist(y - carry, carry, p);
    MulRotate(top, 256, p);
    MulRotate(2, x, p);
  }

  lemma ShiftedByte(x: byte, carry: nat)
    requires carry <= 1
    ensures 2 * x as nat % 256 + carry < 256
    ensures 2 * x as nat == 256 * (x as nat / 128) + 2 * x as nat % 256
  {
  }

  /** `double`: the byte loop is multiplication by x. */
  method Double(b: Block) returns (r: Block)
    ensures r == Cmac.Double(b)
  {
    hide Value, Digits, Pow, Xor, Cmac.MulX;
    var out := new byte[16](i => 0);
    var carry: nat := 0;
    var i := 16;
    NothingShifted();
    while i > 0
      invariant 0 <= i <= 16 && carry <= 1
      invariant carry == if i == 16 then 0 else b[i] as nat / 128
      invariant carry * Pow(256, 16 - i) + Value(256, out[i..]) == 2 * Value(256, b[i..])
    {
      i := i - 1;
      ghost var lower := out[i + 1..];
      ShiftedByte(b[i], carry);
      out[i] := 2 * b[i] as nat % 256 + carry;
      ShiftStep(b[i], b[i + 1..], out[i], lower, carry);
      carry := b[i] as nat / 128;
      assert out[i + 1..] == lower;
      assert out[i..] == [out[i]] + lower && b[i..] == [b[i]] + b[i + 1..];
    }
    ghost var shifted := out[..];
    assert out[0..] == shifted && b[0..] == b;
    if b[0] >= 0x80 {
      out[15] := XorByte(out[15], 0x87);
    }
    Reduced(b, carry, shifted, out[..]);
    r := out[..];
  }

  lemma NothingShifted()
    ensures forall out: Block :: Value(256, out[16..]) == 0
  {
  }

  /** The reduction at the end of the loop. */
  lemma Reduced(b: Block, carry: nat, shifted: Block, out: Block)
    requires carry <= 1 && carry * Pow(256, 16) + Value(256, shifted) == 2 * Value(256, b)
    requires out == if carry == 1 then shifted[15 := XorByte(shifted[15], 0x87)] else shifted
    ensures out == Cmac.Double(b)
  {
    hide Value, Digits, Pow, Xor, Shl, Cmac.MulX;
    PowIsShl(16);
    ValueBound(256, shifted);
    if carry == 0 {
      NotReduced(Value(256, b), Value(256, shifted));
    } else {
      ReduceByte(shifted, out);
      ReducedOnce(Value(256, b), Value(256, shifted));
    }
    DigitsValue(256, out);
  }

  lemma NotReduced(v: nat, low: nat)
    requires low == 2 * v && low < Shl(1, 128)
    ensures Cmac.MulX(v) == low
  {
  }

  lemma ReducedOnce(v: nat, low: nat)
    requires Shl(1, 128) + low == 2 * v && low < Shl(1, 128)
    ensures Cmac.MulX(v) == Xor(low, 0x87)
  {
    hide Xor, Shl;
    SmallerThanShl128();
    XorSplit(128, 1, low, 1, 0x87);
    XorSelf(1);
    ShlZero(128);
  }

  lemma SmallerThanShl128()
    ensures 0x87 < Shl(1, 128)
  {
    ShlAdd(1, 8, 120);
    ShlConstants(1);
    ShlGrows(256, 120);
  }

  lemma {:induction false} ShlGrows(a: nat, k: nat)
    ensures Shl(a, k) >= a
  {
    if k > 0 { ShlGrows(a, k - 1); }
  }

  /** Exclusive or with the last byte is exclusive or with the number. */
  lemma ReduceByte(s: Block, out: Block)
    requires out == s[15 := XorByte(s[15], 0x87)]
    ensures Value(256, out) == Xor(Value(256, s), 0x87)
  {
    hide Xor;
    var h := Value(256, s[..15]);
    assert out[..15] == s[..15];
    ShlConstants(h);
    ShlConstants(1);
    ShlConstants(0);
    XorSplit(8, h, s[15], 0, 0x87);
    XorZero(h);
  }

  lemma DoubleInjective(a: Block, b: Block)
    requires Cmac.Double(a) == Cmac.Double(b)
    ensures a == b
  {
    hide Value, Digits, Pow, Shl, Cmac.MulX;
    var v, w := Value(256, a), Value(256, b);
    PowIsShl(16);
    ValueBound(256, a);
    ValueBound(256, b);
    MulXBound(v);
    MulXBound(w);
    DigitsInjective(Cmac.MulX(v), Cmac.MulX(w));
    MulXInjective(v, w);
    DigitsValue(256, a);
    DigitsValue(256, b);
  }

  lemma DigitsInjective(m: nat, n: nat)
    requires m < Pow(256, 16) && n < Pow(256, 16) && Digits(256, m, 16) == Digits(256, n, 16)
    ensures m == n
  {
    hide Value, Digits, Pow;
    ValueDigits(256, m, 16);
    ValueDigits(256, n, 16);
    ModUnique(m, Pow(256, 16), 0, m);
    ModUnique(n, Pow(256, 16), 0, n);
  }

  lemma MulXBound(v: nat)
    requires v < Shl(1, 128)
    ensures Cmac.MulX(v) < Shl(1, 128)
  {
    hide Xor, Shl;
    var m := Shl(1, 128);
    if 2 * v >= m {
      SmallerThanShl128();
      XorSplit(128, 1, 2 * v - m, 1, 0x87);
      XorSelf(1);
      ShlZero(128);
    }
  }

  lemma ShlOdd(n: nat)
    ensures (Shl(1, n + 1) + 0x87) % 2 == 1
  {
    assert Shl(1, n + 1) == 2 * Shl(1, n);
  }

  lemma MulXInjective(v: nat, w: nat)
    requires Cmac.MulX(v) == Cmac.MulX(w)
    ensures v == w
  {
    hide Xor, Shl;
    ShlOdd(127);
    ReducedInjective(Shl(1, 128), Shl(1, 128) + 0x87, v, w);
  }

  /** Reducing by an odd number makes doubled numbers odd, and so can be told and undone. */
  lemma ReducedInjective(m: nat, c: nat, v: nat, w: nat)
    requires c % 2 == 1
    requires (if 2 * v >= m then Xor(2 * v, c) else 2 * v) == (if 2 * w >= m then Xor(2 * w, c) else 2 * w)
    ensures v == w
  {
    hide Xor;
    XorOdd(v, c);
    XorOdd(w, c);
    XorCancel(2 * v, c);
    XorCancel(2 * w, c);
  }

  lemma XorOdd(v: nat, c: nat)
    requires c % 2 == 1
    ensures Xor(2 * v, c) % 2 == 1
  {
    XorUnfold(2 * v, c);
  }

  // ---------------------------------------------------------------- diversify_aes128

  const DIV_CONST_AES128: byte := 0x01

  /** D = 0x01 || M, padded to two blocks. */
  function Input(m: seq<byte>): (d: seq<byte>)
    requires 1 <= |m| <= 31
    ensures |d| == 32
  {
    if |m| < 31 then [DIV_CONST_AES128] + m + [0x80] + Zeros(30 - |m|) else [DIV_CONST_AES128] + m
  }

  /** The fixed two-block form of AN10922 section 2.2. */
  function Diversified(f: Block -> Block, m: seq<byte>): Block
    requires 1 <= |m| <= 31
  {
    var d, k1 := Input(m), Cmac.Double(f(Zeros(16)));
    f(XorBytes(XorBytes(d[16..], if |m| < 31 then Cmac.Double(k1) else k1), f(d[..16])))
  }

  /** D, filled in and its second block masked with the subkey. */
  method MaskedInput(m: seq<byte>, k1: Block, k2: Block) returns (d: seq<byte>)
    requires 1 <= |m| <= 31
    ensures d == Input(m)[..16] + XorBytes(Input(m)[16..], if |m| < 31 then k2 else k1)
  {
    hide Xor, Input;
    var buf := FillInput(m);
    var subkey := if |m| < 31 then k2 else k1;
    ghost var was := buf[..];
    for i := 0 to 16
      invariant forall j :: 0 <= j < 32 && !(16 <= j < 16 + i) ==> buf[j] == was[j]
      invariant forall j :: 16 <= j < 16 + i ==> buf[j] == XorByte(was[j], subkey[j - 16])
    {
      buf[16 + i] := XorByte(buf[16 + i], subkey[i]);
    }
    d := buf[..];
    assert d[..16] == was[..16] && d[16..] == XorBytes(was[16..], subkey);
  }

  method FillInput(m: seq<byte>) returns (d: array<byte>)
    requires 1 <= |m| <= 31
    ensures fresh(d) && d.Length == 32 && d[..] == Input(m)
  {
    d := new byte[32](i => 0);
    var n := Append(d, 0, [DIV_CONST_AES128]);
    n := Append(d, n, m);
    assert d[..n] == [DIV_CONST_AES128] + m;
    if |m| < 31 {
      n := Append(d, n, [0x80]);
    }
    assert d[..] == d[..n] + Zeros(32 - n);
  }

  /** `diversify_aes128` */
  method DiversifyAes128(aes: Aes128, masterKey: Block, m: seq<byte>) returns (key: Block)
    requires 1 <= |m| <= 31
    ensures key == Diversified(AesCipher(aes, masterKey), m)
  {
    hide XorBytes, Cmac.Double, Input;
    var l := aes.enc(masterKey, Zeros(16));
    var k1 := Double(l);
    var k2 := Double(k1);
    var d := MaskedInput(m, k1, k2);
    assert d[..16] == Input(m)[..16];
    assert d[16..] == XorBytes(Input(m)[16..], if |m| < 31 then k2 else k1);
    key := CbcMac(aes, masterKey, d);
  }

  /** CBC-MAC of two blocks, in a running state that starts at zero. */
  method CbcMac(aes: Aes128, key: Block, d: seq<byte>) returns (mac: Block)
    requires |d| == 32
    ensures mac == aes.enc(key, XorBytes(d[16..], aes.enc(key, d[..16])))
  {
    hide XorBytes;
    var state := new byte[16](i => 0);
    assert state[0..16] == Zeros(16);
    Cbc.XorInto(state, 0, d[..16]);
    assert state[..] == state[0..16];
    XorBytesZeros(d[..16]);
    var first := aes.enc(key, state[..]);
    CopyInto(state, 0, first);
    assert state[..] == first;
    assert state[0..16] == first;
    Cbc.XorInto(state, 0, d[16..]);
    assert state[..] == state[0..16];
    XorBytesComm(first, d[16..]);
    mac := aes.enc(key, state[..]);
  }

  /** From 16 bytes on, the two-block form is CMAC of 0x01 || M (NIST SP 800-38B section 6.2). */
  lemma DiversifiedIsCmac(f: Block -> Block, m: seq<byte>)
    requires 16 <= |m| <= 31
    ensures Diversified(f, m) == Cmac.Cmac(f, [DIV_CONST_AES128] + m)
  {
    hide XorBytes, Cmac.Double;
    var msg, d := [DIV_CONST_AES128] + m, Input(m);
    assert msg[..16] == d[..16];
    XorBytesZeros(d[..16]);
    var rest, k1, st := msg[16..], Cmac.Double(f(Zeros(16))), f(d[..16]);
    assert Cmac.Cmac(f, msg) == Cmac.CmacFrom(f, k1, Cmac.Double(k1), st, rest);
    if |m| < 31 {
      assert Cmac.PadBlock(rest) == d[16..];
    } else {
      assert rest == d[16..];
    }
  }

  /** Up to 30 bytes, it is CMAC of both padded blocks with the second one masked beforehand, by both subkeys. */
  lemma DiversifiedPadded(f: Block -> Block, m: seq<byte>, d: seq<byte>)
    requires 1 <= |m| < 31 && d == [0x01] + m + [0x80] + Zeros(30 - |m|)
    ensures var k1 := Cmac.Double(f(Zeros(16)));
      Diversified(f, m) == Cmac.Cmac(f, d[..16] + XorBytes(XorBytes(d[16..], k1), Cmac.Double(k1)))
  {
    hide XorBytes, Cmac.Double;
    var k1 := Cmac.Double(f(Zeros(16)));
    var k2 := Cmac.Double(k1);
    var last := XorBytes(XorBytes(d[16..], k1), k2);
    var msg := d[..16] + last;
    assert d == Input(m) && msg[..16] == d[..16] && msg[16..] == last;
    XorBytesZeros(d[..16]);
    assert Cmac.Cmac(f, msg) == Cmac.CmacFrom(f, k1, k2, f(d[..16]), last);
    MaskedTwice(d[16..], k1, k2);
  }

  lemma MaskedTwice(x: Block, k1: Block, k2: Block)
    ensures XorBytes(XorBytes(XorBytes(x, k1), k2), k1) == XorBytes(x, k2)
  {
    hide XorBytes;
    XorBytesAssoc(x, k1, k2);
    XorBytesComm(k1, k2);
    XorBytesAssoc(x, k2, k1);
    XorBytesCancel(XorBytes(x, k2), k1);
  }

  /** 31 bytes fill both blocks: CMAC of 0x01 || M. */
  lemma DiversifiedWhole(f: Block -> Block, m: seq<byte>)
    requires |m| == 31
    ensures Diversified(f, m) == Cmac.Cmac(f, [0x01] + m)
  {
    DiversifiedIsCmac(f, m);
  }

  /** A block function on which the two forms come apart: exclusive or with one. */
  function One(): Block {
    Zeros(15) + [1]
  }

  function XorCipher(): (aes: Aes128)
    ensures forall k: Block, b: Block :: aes.enc(k, b) == XorBytes(b, One())
  {
    forall b: Block ensures XorBytes(XorBytes(b, One()), One()) == b {
      XorBytesCancel(b, One());
    }
    BlockCipher((k, b) => XorBytes(b, One()), (k, b) => XorBytes(b, One()))
  }

  lemma SmallDouble(x: byte)
    requires x < 64
    ensures Cmac.Double(Zeros(15) + [x]) == Zeros(15) + [2 * x]
  {
    hide Value, Digits, Xor, Shl;
    SmallValue(x);
    SmallValue(2 * x);
    SmallerThanShl128();
    assert Cmac.MulX(x) == 2 * x as nat;
    DigitsValue(256, Zeros(15) + [2 * x]);
  }

  lemma SmallValue(x: byte)
    ensures Value(256, Zeros(15) + [x]) == x
  {
    ValueAllZero(256, Zeros(15));
    ValueSnoc(256, Zeros(15), x);
  }

  /** The subkeys of that block function. */
  lemma SmallSubkeys(key: Block)
    ensures var k1 := Cmac.Double(AesCipher(XorCipher(), key)(Zeros(16)));
      k1 == Zeros(15) + [2] && Cmac.Double(k1) == Zeros(15) + [4]
  {
    hide XorBytes, Cmac.Double;
    XorBytesZeros(One());
    SmallDouble(1);
    SmallDouble(2);
  }

  lemma ByteOfA(d0: Block, d1: Block, k: Block, i: nat)
    requires i < 16
    ensures XorBytes(XorBytes(d1, k), XorBytes(d0, One()))[i] == Xor(Xor(d1[i], k[i]), Xor(d0[i], One()[i]))
  {
  }

  lemma ParityDiffers(x: nat)
    ensures Xor(Xor(0, 4), Xor(x, 1)) != Xor(x, 4)
  {
    hide Xor;
    XorZero(4);
    XorComm(x, 4);
    XorAssoc(4, x, 1);
    XorUnfold(Xor(4, x), 1);
  }

  /** Below 16 bytes it is not: CMAC would take a single block. */
  lemma DiversifiedIsNotCmac(m: seq<byte>, key: Block)
    requires 1 <= |m| <= 15
    ensures var f := AesCipher(XorCipher(), key);
      Diversified(f, m) != Cmac.Cmac(f, [DIV_CONST_AES128] + m)
  {
    hide XorBytes, Cmac.Double, Xor;
    var f := AesCipher(XorCipher(), key);
    var d, msg := Input(m), [DIV_CONST_AES128] + m;
    SmallSubkeys(key);
    var k1, k2: Block := Zeros(15) + [2], Zeros(15) + [4];
    var d0: Block, d1: Block := d[..16], d[16..];
    var kk := if |m| == 15 then k1 else k2;
    var a, b := XorBytes(XorBytes(d1, k2), XorBytes(d0, One())), XorBytes(d0, kk);
    XorBytesZeros(b);
    XorBytesComm(b, Zeros(16));
    if |m| == 15 {
      assert msg == d0;
    } else {
      assert Cmac.PadBlock(msg) == d0;
    }
    assert Diversified(f, m) == f(a) && Cmac.Cmac(f, msg) == f(b);
    XorBytesCancel(a, One());
    XorBytesCancel(b, One());
    BytesDiffer(d0, d1, |m|, a, b);
  }

  lemma BytesDiffer(d0: Block, d1: Block, n: nat, a: Block, b: Block)
    requires 1 <= n <= 15 && d0[0] == 1
    requires d1 == if n == 15 then [0x80] + Zeros(15) else Zeros(16)
    requires a == XorBytes(XorBytes(d1, Zeros(15) + [4]), XorBytes(d0, One()))
    requires b == XorBytes(d0, Zeros(15) + [if n == 15 then 2 else 4])
    ensures a != b
  {
    hide Xor;
    if n == 15 {
      ByteOfA(d0, d1, Zeros(15) + [4], 0);
      XorZero(0x80);
      XorZero(1);
      XorUnfold(0x80, 1);
      XorUnfold(0x40, 0);
      XorZero(0x40);
      assert b[0] == Xor(1, 0);
    } else {
      ByteOfA(d0, d1, Zeros(15) + [4], 15);
      ParityDiffers(d0[15]);
      assert b[15] == Xor(d0[15], 4);
    }
  }

  // ---------------------------------------------------------------- the inputs never meet

  /** The padded block, and whether it was padded, determine the input: no two inputs share both. */
  lemma InputInjective(m: seq<byte>, m': seq<byte>)
    requires 1 <= |m| <= 31 && 1 <= |m'| <= 31
    requires Input(m) == Input(m') && (|m| < 31) == (|m'| < 31)
    ensures m == m'
  {
    if |m| < 31 {
      StripFinds(Input(m), 1 + |m|);
      StripFinds(Input(m'), 1 + |m'|);
    }
    assert m == Input(m)[1..1 + |m|] && m' == Input(m')[1..1 + |m'|];
  }

  type Uid = u: seq<byte> | |u| == 7 witness Zeros(7)

  const NTAG424_AID: seq<byte> := [0xD2, 0x76, 0x00, 0x00, 0x85, 0x01, 0x01]
  const PICC: seq<byte> := [0x50, 0x49, 0x43, 0x43]

  /** UID || AID || KeyNo || SysId */
  function TagInput(uid: Uid, keyNo: byte, systemId: seq<byte>): (m: seq<byte>)
    requires |systemId| <= 16
    ensures 15 <= |m| <= 31
  {
    uid + NTAG424_AID + [keyNo] + systemId
  }

  /**
    Domain separation: two derivations with one padded block are for the same UID, key number and
    system identifier, and none of them is the PICC key's. It rests on the lengths and the padding:
    the inputs start with the UID, so their first byte tells nothing.
   */
  lemma TagInputsSeparate(uid: Uid, uid': Uid, keyNo: byte, keyNo': byte, systemId: seq<byte>, systemId': seq<byte>)
    requires |systemId| <= 16 && |systemId'| <= 16
    ensures var m, m' := TagInput(uid, keyNo, systemId), TagInput(uid', keyNo', systemId');
      && (Input(m) == Input(m') && (|m| < 31) == (|m'| < 31) <==> uid == uid' && keyNo == keyNo' && systemId == systemId')
      && !(Input(m) == Input(PICC) && |m| < 31)
  {
    var m, m' := TagInput(uid, keyNo, systemId), TagInput(uid', keyNo', systemId');
    assert m[..7] == uid && m[14] == keyNo && m[15..] == systemId;
    assert m'[..7] == uid' && m'[14] == keyNo' && m'[15..] == systemId';
    if Input(m) == Input(m') && (|m| < 31) == (|m'| < 31) {
      InputInjective(m, m');
    }
    if Input(m) == Input(PICC) && |m| < 31 {
      InputInjective(m, PICC);
    }
  }

  // ---------------------------------------------------------------- the keys of one tag

  const SYSTEM_IDENTIFIER: seq<byte> := [0x4E, 0x54, 0x41, 0x47, 0x34, 0x32, 0x34, 0x44, 0x4E, 0x41]

  method DiversifyNtag424(aes: Aes128, masterKey: Block, uid: Uid, keyNo: byte, systemId: seq<byte>) returns (key: Block)
    requires |systemId| <= 16
    ensures key == Diversified(AesCipher(aes, masterKey), TagInput(uid, keyNo, systemId))
  {
    hide Diversified;
    var m := new byte[31](i => 0);
    var n := Append(m, 0, uid);
    n := Append(m, n, NTAG424_AID);
    n := Append(m, n, [keyNo]);
    n := Append(m, n, systemId);
    assert m[..n] == TagInput(uid, keyNo, systemId);
    key := DiversifyAes128(aes, masterKey, m[..n]);
  }

  /** What is diversified for key `i` of a tag: Key 1 has no UID in it, so one server key opens every tag. */
  function InputOf(uid: Uid, i: byte): seq<byte> {
    if i == 1 then PICC else TagInput(uid, i, SYSTEM_IDENTIFIER)
  }

  /** The inputs in full: "PICC" for Key 1, and UID, AID, key number and "NTAG424DNA" for the others. */
  lemma InputsInFull(uid: Uid, i: byte)
    ensures InputOf(uid, 1) == [0x50, 0x49, 0x43, 0x43]
    ensures i != 1 ==>
      InputOf(uid, i) == uid + [0xD2, 0x76, 0x00, 0x00, 0x85, 0x01, 0x01, i, 0x4E, 0x54, 0x41, 0x47, 0x34, 0x32, 0x34, 0x44, 0x4E, 0x41]
  {
    ConcatAssoc(uid + NTAG424_AID, [i], SYSTEM_IDENTIFIER);
    ConcatAssoc(uid, NTAG424_AID, [i] + SYSTEM_IDENTIFIER);
    assert NTAG424_AID + ([i] + SYSTEM_IDENTIFIER)
        == [0xD2, 0x76, 0x00, 0x00, 0x85, 0x01, 0x01, i, 0x4E, 0x54, 0x41, 0x47, 0x34, 0x32, 0x34, 0x44, 0x4E, 0x41];
  }

  /** `derive_keys_for_uid` */
  method DeriveKeysForUid(aes: Aes128, masterKey: Block, uid: Uid) returns (keys: seq<Block>)
    ensures |keys| == 5
    ensures forall i: byte :: i < 5 ==> keys[i] == Diversified(AesCipher(aes, masterKey), InputOf(uid, i))
  {
    hide Diversified;
    var key1 := DiversifyAes128(aes, masterKey, PICC);
    var key0 := DiversifyNtag424(aes, masterKey, uid, 0, SYSTEM_IDENTIFIER);
    var key2 := DiversifyNtag424(aes, masterKey, uid, 2, SYSTEM_IDENTIFIER);
    var key3 := DiversifyNtag424(aes, masterKey, uid, 3, SYSTEM_IDENTIFIER);
    var key4 := DiversifyNtag424(aes, masterKey, uid, 4, SYSTEM_IDENTIFIER);
    keys := [key0, key1, key2, key3, key4];
  }

  /** All keys of all tags come from different padded blocks, except the shared Key 1. */
  lemma DerivedInputsDistinct(uid: Uid, uid': Uid, i: byte, j: byte)
    requires i < 5 && j < 5
    ensures Input(InputOf(uid, i)) == Input(InputOf(uid', j)) <==> i == j && (i == 1 || uid == uid')
  {
    TagInputsSeparate(uid, uid', i, j, SYSTEM_IDENTIFIER, SYSTEM_IDENTIFIER);
    TagInputsSeparate(uid', uid, j, i, SYSTEM_IDENTIFIER, SYSTEM_IDENTIFIER);
  }
}
