/** In-place CBC of crypto/suite.rs, against the recursive definition of NIST SP 800-38A. */
module Cbc {
  import opened Octets
  import opened Aes
  import opened Blocks

  function Encrypted(aes: Aes128, key: Block, iv: Block, data: seq<byte>): (ct: seq<byte>)
    requires |data| % 16 == 0
    ensures |ct| == |data|
    decreases |data|
  {
    if |data| == 0 then []
    else
      var c: Block := aes.enc(key, XorBytes(data[..16], iv));
      c + Encrypted(aes, key, c, data[16..])
  }

  function Decrypted(aes: Aes128, key: Block, iv: Block, data: seq<byte>): (pt: seq<byte>)
    requires |data| % 16 == 0
    ensures |pt| == |data|
    decreases |data|
  {
    if |data| == 0 then []
    else XorBytes(aes.dec(key, data[..16]), iv) + Decrypted(aes, key, data[..16], data[16..])
  }

  /** The chaining value after ciphertext `ct`: its last block, or the IV before the first. */
  function Chain(iv: Block, ct: seq<byte>): Block
    requires |ct| % 16 == 0
  {
    if |ct| == 0 then iv else ct[|ct| - 16..]
  }

  lemma {:induction false} DecryptUndoesEncrypt(aes: Aes128, key: Block, iv: Block, data: seq<byte>)
    requires |data| % 16 == 0
    ensures Decrypted(aes, key, iv, Encrypted(aes, key, iv, data)) == data
    decreases |data|
  {
    if |data| > 0 {
      var c: Block := aes.enc(key, XorBytes(data[..16], iv));
      var rest := Encrypted(aes, key, c, data[16..]);
      SplitBlock(c, rest);
      SplitBlock(data, []);
      XorBytesCancel(data[..16], iv);
      DecryptUndoesEncrypt(aes, key, c, data[16..]);
    }
  }

  lemma ChainOn(iv: Block, c: Block, rest: seq<byte>)
    requires |rest| % 16 == 0
    ensures Chain(iv, c + rest) == Chain(c, rest)
  {
  }

  /** Splitting law: the last ciphertext block of `a` is the IV for `b`. */
  lemma {:induction false} EncryptSplit(aes: Aes128, key: Block, iv: Block, a: seq<byte>, b: seq<byte>)
    requires |a| % 16 == 0 && |b| % 16 == 0
    ensures var ca := Encrypted(aes, key, iv, a);
            Encrypted(aes, key, iv, a + b) == ca + Encrypted(aes, key, Chain(iv, ca), b)
    decreases |a|
  {
    if |a| == 0 {
      assert a + b == b;
    } else {
      var c: Block := aes.enc(key, XorBytes(a[..16], iv));
      var rest := Encrypted(aes, key, c, a[16..]);
      SplitBlock(a, b);
      EncryptSplit(aes, key, c, a[16..], b);
      ChainOn(iv, c, rest);
      ConcatAssoc(c, rest, Encrypted(aes, key, Chain(c, rest), b));
    }
  }

  /** The block of `s` that ends at `i`, or the IV at the start. */
  function Before(iv: Block, s: seq<byte>, i: nat): Block
    requires i == 0 || 16 <= i <= |s|
  {
    if i == 0 then iv else s[i - 16..i]
  }

  lemma BeforeNext(iv: Block, s: seq<byte>, i: nat)
    requires i + 16 <= |s|
    ensures Before(iv, s, i + 16) == s[i..i + 16]
  {
  }

  lemma BeforeStart(iv: Block, s: seq<byte>)
    ensures Before(iv, s, 0) == iv
  {
  }

  lemma BeforeOn(iv: Block, c: Block, rest: seq<byte>, i: nat)
    requires 16 <= i <= 16 + |rest| && (i == 16 || 32 <= i)
    ensures Before(iv, c + rest, i) == Before(c, rest, i - 16)
  {
  }

  /** The ciphertext block at `i`, from the plaintext block and the ciphertext block before it. */
  lemma {:induction false} EncryptAt(aes: Aes128, key: Block, iv: Block, data: seq<byte>, i: nat)
    requires |data| % 16 == 0 && i % 16 == 0 && i + 16 <= |data|
    ensures var ct := Encrypted(aes, key, iv, data);
            ct[i..i + 16] == aes.enc(key, XorBytes(data[i..i + 16], Before(iv, ct, i)))
    decreases i
  {
    var c: Block := aes.enc(key, XorBytes(data[..16], iv));
    var rest := Encrypted(aes, key, c, data[16..]);
    if i == 0 {
      SplitBlock(c, rest);
    } else {
      EncryptAt(aes, key, c, data[16..], i - 16);
      LaterBlock(c, rest, i);
      LaterBlock(data[..16], data[16..], i);
      SplitBlock(data, []);
      BeforeOn(iv, c, rest, i);
    }
  }

  lemma {:induction false} DecryptAt(aes: Aes128, key: Block, iv: Block, data: seq<byte>, i: nat)
    requires |data| % 16 == 0 && i % 16 == 0 && i + 16 <= |data|
    ensures Decrypted(aes, key, iv, data)[i..i + 16]
         == XorBytes(aes.dec(key, data[i..i + 16]), Before(iv, data, i))
    decreases i
  {
    var p := XorBytes(aes.dec(key, data[..16]), iv);
    var rest := Decrypted(aes, key, data[..16], data[16..]);
    if i == 0 {
      SplitBlock(p, rest);
    } else {
      DecryptAt(aes, key, data[..16], data[16..], i - 16);
      LaterBlock(p, rest, i);
      LaterBlock(data[..16], data[16..], i);
      SplitBlock(data, []);
      BeforeOn(iv, data[..16], data[16..], i);
    }
  }

  /** The block before block `n`, or the IV. */
  function BlockBefore(iv: Block, s: seq<byte>, n: nat): Block
    requires 16 * n <= |s|
  {
    if n == 0 then iv else s[16 * n - 16..16 * n]
  }

  /** CBC block by block: each ciphertext block is the encipherment of its plaintext block and the ciphertext block before it. */
  ghost predicate IsCbc(aes: Aes128, key: Block, iv: Block, pt: seq<byte>, ct: seq<byte>) {
    && |pt| == |ct|
    && forall n: nat :: 16 * n + 16 <= |pt| ==>
      BlockOf(ct, n) == aes.enc(key, XorBytes(BlockOf(pt, n), BlockBefore(iv, ct, n)))
  }

  lemma EncryptedIsCbc(aes: Aes128, key: Block, iv: Block, data: seq<byte>)
    requires |data| % 16 == 0
    ensures IsCbc(aes, key, iv, data, Encrypted(aes, key, iv, data))
  {
    hide Encrypted, XorBytes;
    var ct := Encrypted(aes, key, iv, data);
    forall n: nat | 16 * n + 16 <= |data|
      ensures BlockOf(ct, n) == aes.enc(key, XorBytes(BlockOf(data, n), BlockBefore(iv, ct, n)))
    {
      EncryptAt(aes, key, iv, data, 16 * n);
    }
  }

  /** Deciphering yields the plaintext that CBC makes this ciphertext of. */
  lemma DecryptedIsCbc(aes: Aes128, key: Block, iv: Block, data: seq<byte>)
    requires |data| % 16 == 0
    ensures IsCbc(aes, key, iv, Decrypted(aes, key, iv, data), data)
  {
    hide Decrypted, XorBytes;
    var pt := Decrypted(aes, key, iv, data);
    forall n: nat | 16 * n + 16 <= |data|
      ensures BlockOf(data, n) == aes.enc(key, XorBytes(BlockOf(pt, n), BlockBefore(iv, data, n)))
    {
      DecryptAt(aes, key, iv, data, 16 * n);
      XorBytesCancel(aes.dec(key, BlockOf(data, n)), BlockBefore(iv, data, n));
    }
  }

  /** `*b ^= *p` over one block of the buffer. */
  method XorInto(buf: array<byte>, i: nat, block: Block)
    requires i + 16 <= buf.Length
    modifies buf
    ensures buf[i..i + 16] == XorBytes(old(buf[i..i + 16]), block)
    ensures forall j :: 0 <= j < buf.Length && !(i <= j < i + 16) ==> buf[j] == old(buf[j])
  {
    for j := 0 to 16
      invariant forall k :: i <= k < i + j ==> buf[k] == XorByte(old(buf[k]), block[k - i])
      invariant forall k :: 0 <= k < i || i + j <= k < buf.Length ==> buf[k] == old(buf[k])
    {
      buf[i + j] := XorByte(buf[i + j], block[j]);
    }
  }

  /** The body of the encryption loop: chain, encrypt in place, and return the new chaining value. */
  method EncryptChunk(aes: Aes128, key: Block, prev: Block, buf: array<byte>, i: nat) returns (out: Block)
    requires i + 16 <= buf.Length
    modifies buf
    ensures out == aes.enc(key, XorBytes(old(buf[i..i + 16]), prev)) && buf[i..i + 16] == out
    ensures forall j :: 0 <= j < buf.Length && !(i <= j < i + 16) ==> buf[j] == old(buf[j])
  {
    XorInto(buf, i, prev);
    out := aes.enc(key, buf[i..i + 16]);
    CopyInto(buf, i, out);
  }

  method DecryptChunk(aes: Aes128, key: Block, prev: Block, buf: array<byte>, i: nat) returns (save: Block)
    requires i + 16 <= buf.Length
    modifies buf
    ensures save == old(buf[i..i + 16]) && buf[i..i + 16] == XorBytes(aes.dec(key, save), prev)
    ensures forall j :: 0 <= j < buf.Length && !(i <= j < i + 16) ==> buf[j] == old(buf[j])
  {
    save := buf[i..i + 16];
    CopyInto(buf, i, aes.dec(key, save));
    assert buf[i..i + 16] == aes.dec(key, save);
    XorInto(buf, i, prev);
  }

  /** One turn of the loop, on the block at `i`. */
  method EncryptStep(aes: Aes128, key: Block, ghost iv: Block, ghost was: seq<byte>, prev: Block, buf: array<byte>, i: nat)
    returns (next: Block)
    requires |was| == buf.Length && buf.Length % 16 == 0 && i % 16 == 0 && i + 16 <= buf.Length
    requires prev == Before(iv, Encrypted(aes, key, iv, was), i) && forall j :: i <= j < i + 16 ==> buf[j] == was[j]
    modifies buf
    ensures next == Before(iv, Encrypted(aes, key, iv, was), i + 16)
    ensures forall j :: i <= j < i + 16 ==> buf[j] == Encrypted(aes, key, iv, was)[j]
    ensures forall j :: 0 <= j < buf.Length && !(i <= j < i + 16) ==> buf[j] == old(buf[j])
  {
    hide Encrypted, XorBytes, Before;
    ghost var image := Encrypted(aes, key, iv, was);
    EncryptAt(aes, key, iv, was, i);
    BeforeNext(iv, image, i);
    assert buf[i..i + 16] == was[i..i + 16];
    next := EncryptChunk(aes, key, prev, buf, i);
    assert forall j :: i <= j < i + 16 ==> buf[j] == buf[i..i + 16][j - i] == image[i..i + 16][j - i];
  }

  method EncryptBlocks(aes: Aes128, key: Block, iv: Block, buf: array<byte>)
    requires buf.Length % 16 == 0
    modifies buf
    ensures buf[..] == Encrypted(aes, key, iv, old(buf[..]))
  {
    ghost var was, image := buf[..], Encrypted(aes, key, iv, buf[..]);
    hide Encrypted, Before;
    var prev := iv;
    BeforeStart(iv, image);
    for n := 0 to buf.Length / 16
      invariant prev == Before(iv, image, 16 * n)
      invariant forall j :: 0 <= j < 16 * n ==> buf[j] == image[j]
      invariant forall j :: 16 * n <= j < buf.Length ==> buf[j] == was[j]
    {
      prev := EncryptStep(aes, key, iv, was, prev, buf, 16 * n);
    }
  }

  /** One turn of the loop, on the block at `i`. */
  method DecryptStep(aes: Aes128, key: Block, ghost iv: Block, ghost was: seq<byte>, prev: Block, buf: array<byte>, i: nat)
    returns (next: Block)
    requires |was| == buf.Length && buf.Length % 16 == 0 && i % 16 == 0 && i + 16 <= buf.Length
    requires prev == Before(iv, was, i) && forall j :: i <= j < i + 16 ==> buf[j] == was[j]
    modifies buf
    ensures next == Before(iv, was, i + 16)
    ensures forall j :: i <= j < i + 16 ==> buf[j] == Decrypted(aes, key, iv, was)[j]
    ensures forall j :: 0 <= j < buf.Length && !(i <= j < i + 16) ==> buf[j] == old(buf[j])
  {
    hide Decrypted, XorBytes, Before;
    ghost var image := Decrypted(aes, key, iv, was);
    DecryptAt(aes, key, iv, was, i);
    BeforeNext(iv, was, i);
    assert buf[i..i + 16] == was[i..i + 16];
    next := DecryptChunk(aes, key, prev, buf, i);
    assert forall j :: i <= j < i + 16 ==> buf[j] == buf[i..i + 16][j - i] == image[i..i + 16][j - i];
  }

  method DecryptBlocks(aes: Aes128, key: Block, iv: Block, buf: array<byte>)
    requires buf.Length % 16 == 0
    modifies buf
    ensures buf[..] == Decrypted(aes, key, iv, old(buf[..]))
  {
    ghost var was, image := buf[..], Decrypted(aes, key, iv, buf[..]);
    hide Decrypted, Before;
    var prev := iv;
    BeforeStart(iv, was);
    for n := 0 to buf.Length / 16
      invariant prev == Before(iv, was, 16 * n)
      invariant forall j :: 0 <= j < 16 * n ==> buf[j] == image[j]
      invariant forall j :: 16 * n <= j < buf.Length ==> buf[j] == was[j]
    {
      prev := DecryptStep(aes, key, iv, was, prev, buf, 16 * n);
    }
  }

  /** `aes_cbc_encrypt`; `ok` is false exactly where the source returns `None`. */
  method Encrypt(aes: Aes128, key: Block, iv: Block, buf: array<byte>) returns (ok: bool)
    modifies buf
    ensures ok == (buf.Length > 0 && buf.Length % 16 == 0)
    ensures buf[..] == if ok then Encrypted(aes, key, iv, old(buf[..])) else old(buf[..])
    ensures ok ==> IsCbc(aes, key, iv, old(buf[..]), buf[..])
  {
    hide Encrypted, IsCbc;
    if buf.Length == 0 || buf.Length % 16 != 0 {
      return false;
    }
    EncryptedIsCbc(aes, key, iv, buf[..]);
    EncryptBlocks(aes, key, iv, buf);
    return true;
  }

  method Decrypt(aes: Aes128, key: Block, iv: Block, buf: array<byte>) returns (ok: bool)
    modifies buf
    ensures ok == (buf.Length > 0 && buf.Length % 16 == 0)
    ensures buf[..] == if ok then Decrypted(aes, key, iv, old(buf[..])) else old(buf[..])
    ensures ok ==> IsCbc(aes, key, iv, buf[..], old(buf[..]))
  {
    hide Decrypted, IsCbc;
    if buf.Length == 0 || buf.Length % 16 != 0 {
      return false;
    }
    DecryptedIsCbc(aes, key, iv, buf[..]);
    DecryptBlocks(aes, key, iv, buf);
    return true;
  }
}
