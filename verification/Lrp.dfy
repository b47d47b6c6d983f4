/**
  The Leakage Resilient Primitive of AN12304 (crypto/lrp.rs): evaluation, the nibble
  counter, and LRICB encryption in place.
 */
module Lrp {
  import opened Octets
  import opened Aes
  import opened Blocks

  type nibble = n: int | 0 <= n < 16

  const COUNTER_MAX_BYTES := 16

  datatype Parts = Parts(plaintexts: seq<Block>, kPrime: Block)

  type Key = p: Parts | |p.plaintexts| == 16
    witness Parts(seq(16, i => Zeros(16)), Zeros(16))

  function Fill(b: byte): Block {
    seq(16, i => b)
  }

  // ---------------------------------------------------------------- key tables

  /** The i-th chaining value of the two key-expansion ladders. */
  function Rung(aes: Aes128, h: Block, i: nat): Block {
    if i == 0 then h else aes.enc(Rung(aes, h, i - 1), Fill(0x55))
  }

  function Plaintexts(aes: Aes128, k: Block): (p: seq<Block>)
    ensures |p| == 16
  {
    seq(16, i requires i >= 0 => PlaintextAt(aes, k, i))
  }

  function PlaintextAt(aes: Aes128, k: Block, i: nat): Block {
    aes.enc(Rung(aes, aes.enc(k, Fill(0x55)), i), Fill(0xAA))
  }

  function UpdatedKey(aes: Aes128, k: Block, i: nat): Block {
    aes.enc(Rung(aes, aes.enc(k, Fill(0xAA)), i), Fill(0xAA))
  }

  function FromBaseKey(aes: Aes128, k: Block): Key {
    Parts(Plaintexts(aes, k), UpdatedKey(aes, k, 0))
  }

  /** The running keys of AN12304 section 2.3: `first` enciphered under `k`, then each one enciphering 0x55. */
  predicate IsLadder(aes: Aes128, k: Block, first: byte, h: seq<Block>) {
    && |h| > 0 && h[0] == aes.enc(k, Fill(first))
    && forall i :: 0 <= i < |h| - 1 ==> h[i + 1] == aes.enc(h[i], Fill(0x55))
  }

  lemma {:induction false} LadderIs(aes: Aes128, k: Block, first: byte, h: seq<Block>, i: nat)
    requires IsLadder(aes, k, first, h) && i < |h|
    ensures h[i] == Rung(aes, aes.enc(k, Fill(first)), i)
  {
    if i > 0 {
      LadderIs(aes, k, first, h, i - 1);
    }
  }

  /** The secret plaintexts and the updated keys: each running key of its ladder enciphers 0xAA. */
  lemma TablesAre(aes: Aes128, k: Block, h: seq<Block>, g: seq<Block>)
    requires IsLadder(aes, k, 0x55, h) && |h| == 16 && IsLadder(aes, k, 0xAA, g)
    ensures forall i :: 0 <= i < 16 ==> Plaintexts(aes, k)[i] == aes.enc(h[i], Fill(0xAA))
    ensures forall i :: 0 <= i < |g| ==> UpdatedKey(aes, k, i) == aes.enc(g[i], Fill(0xAA))
    ensures FromBaseKey(aes, k).plaintexts == Plaintexts(aes, k) && FromBaseKey(aes, k).kPrime == aes.enc(g[0], Fill(0xAA))
  {
    forall i | 0 <= i < 16 ensures Plaintexts(aes, k)[i] == aes.enc(h[i], Fill(0xAA)) {
      LadderIs(aes, k, 0x55, h, i);
    }
    forall i | 0 <= i < |g| ensures UpdatedKey(aes, k, i) == aes.enc(g[i], Fill(0xAA)) {
      LadderIs(aes, k, 0xAA, g, i);
    }
  }

  method GeneratePlaintexts(aes: Aes128, k: Block) returns (p: seq<Block>)
    ensures p == Plaintexts(aes, k)
  {
    var h := aes.enc(k, Fill(0x55));
    p := [];
    for i := 0 to 16
      invariant |p| == i && h == Rung(aes, aes.enc(k, Fill(0x55)), i)
      invariant forall j :: 0 <= j < i ==> p[j] == Plaintexts(aes, k)[j]
    {
      p := p + [aes.enc(h, Fill(0xAA))];
      h := aes.enc(h, Fill(0x55));
    }
  }

  method GenerateUpdatedKeys(aes: Aes128, k: Block, n: nat) returns (uk: seq<Block>)
    ensures |uk| == n && forall j :: 0 <= j < n ==> uk[j] == UpdatedKey(aes, k, j)
  {
    var h := aes.enc(k, Fill(0xAA));
    uk := [];
    for i := 0 to n
      invariant |uk| == i && h == Rung(aes, aes.enc(k, Fill(0xAA)), i)
      invariant forall j :: 0 <= j < i ==> uk[j] == UpdatedKey(aes, k, j)
    {
      uk := uk + [aes.enc(h, Fill(0xAA))];
      h := aes.enc(h, Fill(0x55));
    }
  }

  // ---------------------------------------------------------------- evaluation

  function Walk(aes: Aes128, plaintexts: seq<Block>, y: Block, inputs: seq<nibble>): Block
    requires |plaintexts| == 16
    decreases |inputs|
  {
    if |inputs| == 0 then y
    else Walk(aes, plaintexts, aes.enc(y, plaintexts[inputs[0]]), inputs[1..])
  }

  /** Algorithm 3 of AN12304 section 2.2. */
  function Eval(aes: Aes128, plaintexts: seq<Block>, updatedKey: Block, inputs: seq<nibble>, last: bool): Block
    requires |plaintexts| == 16
  {
    var y := Walk(aes, plaintexts, updatedKey, inputs);
    if last then aes.enc(y, Zeros(16)) else y
  }

  /** The values of Algorithm 3, one for each input and one before: every input picks the plaintext to encipher. */
  predicate IsWalk(aes: Aes128, plaintexts: seq<Block>, updatedKey: Block, inputs: seq<nibble>, ys: seq<Block>)
    requires |plaintexts| == 16
  {
    && |ys| == |inputs| + 1 && ys[0] == updatedKey
    && forall i :: 0 <= i < |inputs| ==> ys[i + 1] == aes.enc(ys[i], plaintexts[inputs[i]])
  }

  lemma {:induction false} WalkIs(aes: Aes128, plaintexts: seq<Block>, updatedKey: Block, inputs: seq<nibble>) returns (ys: seq<Block>)
    requires |plaintexts| == 16
    ensures IsWalk(aes, plaintexts, updatedKey, inputs, ys) && ys[|inputs|] == Walk(aes, plaintexts, updatedKey, inputs)
    decreases |inputs|
  {
    if |inputs| == 0 {
      ys := [updatedKey];
    } else {
      var rest := WalkIs(aes, plaintexts, aes.enc(updatedKey, plaintexts[inputs[0]]), inputs[1..]);
      ys := [updatedKey] + rest;
      forall i | 0 <= i < |inputs| ensures ys[i + 1] == aes.enc(ys[i], plaintexts[inputs[i]]) {
        if i > 0 {
          assert rest[i] == aes.enc(rest[i - 1], plaintexts[inputs[1..][i - 1]]);
        }
      }
    }
  }

  /** LRP of `inputs` (AN12304 section 2.2 with a final step): the last value enciphers the zero block. */
  ghost predicate IsLrp(aes: Aes128, key: Key, inputs: seq<nibble>, y: Block) {
    exists ys: seq<Block> :: IsWalk(aes, key.plaintexts, key.kPrime, inputs, ys) && y == aes.enc(ys[|inputs|], Zeros(16))
  }

  lemma EvalIsLrp(aes: Aes128, key: Key, inputs: seq<nibble>)
    ensures IsLrp(aes, key, inputs, Eval(aes, key.plaintexts, key.kPrime, inputs, true))
  {
    var ys := WalkIs(aes, key.plaintexts, key.kPrime, inputs);
  }

  method EvalLrp(aes: Aes128, plaintexts: seq<Block>, updatedKey: Block, inputs: seq<nibble>, last: bool)
    returns (y: Block)
    requires |plaintexts| == 16
    ensures y == Eval(aes, plaintexts, updatedKey, inputs, last)
    ensures exists ys: seq<Block> ::
      IsWalk(aes, plaintexts, updatedKey, inputs, ys) && y == if last then aes.enc(ys[|inputs|], Zeros(16)) else ys[|inputs|]
  {
    ghost var ys := WalkIs(aes, plaintexts, updatedKey, inputs);
    y := updatedKey;
    for i := 0 to |inputs|
      invariant Walk(aes, plaintexts, y, inputs[i..]) == Walk(aes, plaintexts, updatedKey, inputs)
    {
      assert inputs[i..][1..] == inputs[i + 1..];
      y := aes.enc(y, plaintexts[inputs[i]]);
    }
    if last {
      y := aes.enc(y, Zeros(16));
    }
  }

  /** Two nibbles per byte, high nibble first. */
  function ToNibbles(s: seq<byte>): (r: seq<nibble>)
    ensures |r| == 2 * |s|
  {
    seq(2 * |s|, i requires 0 <= i < 2 * |s| => if i % 2 == 0 then s[i / 2] / 16 else s[i / 2] % 16)
  }

  lemma {:induction false} ToNibblesValue(s: seq<byte>)
    ensures Value(16, ToNibbles(s)) == Value(256, s)
  {
    if |s| > 0 {
      var s', b := s[..|s| - 1], s[|s| - 1];
      ToNibblesValue(s');
      var n := ToNibbles(s');
      assert ToNibbles(s) == (n + [b / 16]) + [b % 16];
      ValueSnoc(16, n + [b / 16], b % 16);
      ValueSnoc(16, n, b / 16);
    }
  }

  /** LRP as a block function; CMAC over it is the CMAC_LRP of AN12304 section 2.4. */
  function EncryptBlock(aes: Aes128, key: Key, b: Block): Block {
    Eval(aes, key.plaintexts, key.kPrime, ToNibbles(b), true)
  }

  lemma BlockIsLrp(aes: Aes128, key: Key, b: Block)
    ensures IsLrp(aes, key, ToNibbles(b), EncryptBlock(aes, key, b))
  {
    EvalIsLrp(aes, key, ToNibbles(b));
  }

  function AsCipher(aes: Aes128, key: Key): Block -> Block {
    (b: Block) => EncryptBlock(aes, key, b)
  }

  // ---------------------------------------------------------------- the nibble counter

  /** A counter of `k` nibbles holding `n` modulo 16^k. */
  function CounterNibbles(n: nat, k: nat): (s: seq<nibble>)
    ensures |s| == k && s == Digits(16, n, k)
  {
    Digits(16, n, k)
  }

  /** One step of the counter: one more, modulo 16^length. */
  function Incremented(s: seq<nibble>): (r: seq<nibble>)
    ensures |r| == |s|
  {
    CounterNibbles(Value(16, s) + 1, |s|)
  }

  lemma {:induction false} ValueAround(s: seq<nat>, i: nat)
    requires i < |s|
    ensures Value(16, s) == (Value(16, s[..i]) * 16 + s[i]) * Pow(16, |s| - i - 1) + Value(16, s[i + 1..])
  {
    assert s == (s[..i] + [s[i]]) + s[i + 1..];
    ValueSnoc(16, s[..i], s[i]);
    ValueConcat(16, s[..i] + [s[i]], s[i + 1..]);
  }

  lemma IncStops(was: seq<nat>, now: seq<nat>, i: nat)
    requires |was| == |now| && i < |was| && AreDigits(16, now)
    requires was[..i] == now[..i] && now[i] == was[i] + 1
    requires forall j :: i < j < |was| ==> was[j] == 15 && now[j] == 0
    ensures now == Digits(16, Value(16, was) + 1, |was|)
  {
    hide Value, Digits, Pow;
    var h, p := Value(16, was[..i]) * 16 + was[i], Pow(16, |was| - i - 1);
    BeforeStop(was, i);
    AtStop(now, i);
    MulDist(h, 1, p);
    DigitsValue(16, now);
  }

  lemma BeforeStop(was: seq<nat>, i: nat)
    requires i < |was| && forall j :: i < j < |was| ==> was[j] == 15
    ensures Value(16, was) == (Value(16, was[..i]) * 16 + was[i]) * Pow(16, |was| - i - 1) + (Pow(16, |was| - i - 1) - 1)
  {
    hide Value, Pow;
    ValueAround(was, i);
    ValueAllMax(16, was[i + 1..]);
  }

  lemma AtStop(now: seq<nat>, i: nat)
    requires i < |now| && forall j :: i < j < |now| ==> now[j] == 0
    ensures Value(16, now) == (Value(16, now[..i]) * 16 + now[i]) * Pow(16, |now| - i - 1)
  {
    hide Value, Pow;
    ValueAround(now, i);
    ValueAllZero(16, now[i + 1..]);
  }

  lemma IncWraps(was: seq<nat>, now: seq<nat>)
    requires |was| == |now|
    requires forall j :: 0 <= j < |was| ==> was[j] == 15 && now[j] == 0
    ensures now == Digits(16, Value(16, was) + 1, |was|)
  {
    ValueAllMax(16, was);
    ValueAllZero(16, now);
    DigitsValue(16, now);
    DigitsMod(16, Pow(16, |was|), |was|);
    ModUnique(Pow(16, |was|), Pow(16, |was|), 1, 0);
  }

  /** The carry chain adds one, modulo 16^length. */
  method Inc(counter: array<nibble>)
    modifies counter
    ensures counter[..] == Incremented(old(counter[..]))
  {
    ghost var was := counter[..];
    var i := counter.Length;
    while i > 0
      invariant 0 <= i <= counter.Length
      invariant forall j :: i <= j < counter.Length ==> was[j] == 15 && counter[j] == 0
      invariant forall j :: 0 <= j < i ==> counter[j] == was[j]
    {
      i := i - 1;
      if counter[i] == 15 {
        counter[i] := 0;
      } else {
        counter[i] := counter[i] + 1;
        IncStops(was, counter[..], i);
        return;
      }
    }
    IncWraps(was, counter[..]);
  }

  method LoadCounter(counter: seq<byte>) returns (ok: bool, nibs: array<nibble>)
    ensures ok == (1 <= |counter| <= COUNTER_MAX_BYTES)
    ensures fresh(nibs)
    ensures ok ==> nibs[..] == ToNibbles(counter)
  {
    ok := 1 <= |counter| <= COUNTER_MAX_BYTES;
    nibs := new nibble[2 * |counter|];
    if ok {
      for i := 0 to |counter|
        invariant forall j :: 0 <= j < 2 * i ==> nibs[j] == ToNibbles(counter)[j]
      {
        nibs[2 * i] := counter[i] / 16;
        nibs[2 * i + 1] := counter[i] % 16;
      }
    }
  }

  method StoreCounter(nibs: array<nibble>, counter: array<byte>)
    requires nibs.Length == 2 * counter.Length
    modifies counter
    ensures ToNibbles(counter[..]) == nibs[..]
  {
    for i := 0 to counter.Length
      invariant forall j :: 0 <= j < i ==> counter[j] == 16 * (nibs[2 * j] as int) + nibs[2 * j + 1] as int
    {
      counter[i] := 16 * (nibs[2 * i] as int) + nibs[2 * i + 1] as int;
    }
  }

  // ---------------------------------------------------------------- LRICB

  /** The AES key for one block: LRP of the counter's nibbles. */
  function BlockKey(aes: Aes128, key: Key, ctr: nat, k: nat): Block {
    Eval(aes, key.plaintexts, key.kPrime, CounterNibbles(ctr, k), true)
  }

  /** `LRICBEnc` of AN12304 section 3.3 from counter `ctr` of `k` nibbles. */
  function Encrypted(aes: Aes128, key: Key, ctr: nat, k: nat, data: seq<byte>): (ct: seq<byte>)
    requires |data| % 16 == 0
    ensures |ct| == |data|
    decreases |data|
  {
    if |data| == 0 then []
    else aes.enc(BlockKey(aes, key, ctr, k), data[..16]) + Encrypted(aes, key, ctr + 1, k, data[16..])
  }

  function Decrypted(aes: Aes128, key: Key, ctr: nat, k: nat, data: seq<byte>): (pt: seq<byte>)
    requires |data| % 16 == 0
    ensures |pt| == |data|
    decreases |data|
  {
    if |data| == 0 then []
    else aes.dec(BlockKey(aes, key, ctr, k), data[..16]) + Decrypted(aes, key, ctr + 1, k, data[16..])
  }

  lemma {:induction false} DecryptUndoesEncrypt(aes: Aes128, key: Key, ctr: nat, k: nat, data: seq<byte>)
    requires |data| % 16 == 0
    ensures Decrypted(aes, key, ctr, k, Encrypted(aes, key, ctr, k, data)) == data
    decreases |data|
  {
    if |data| > 0 {
      var c: Block := aes.enc(BlockKey(aes, key, ctr, k), data[..16]);
      var rest := Encrypted(aes, key, ctr + 1, k, data[16..]);
      assert (c + rest)[..16] == c && (c + rest)[16..] == rest;
      DecryptUndoesEncrypt(aes, key, ctr + 1, k, data[16..]);
    }
  }

  /** Splitting law: the second part starts at the counter the first part reached. */
  lemma {:induction false} EncryptSplit(aes: Aes128, key: Key, ctr: nat, k: nat, a: seq<byte>, b: seq<byte>)
    requires |a| % 16 == 0 && |b| % 16 == 0
    ensures Encrypted(aes, key, ctr, k, a + b)
         == Encrypted(aes, key, ctr, k, a) + Encrypted(aes, key, ctr + |a| / 16, k, b)
    decreases |a|
  {
    if |a| == 0 {
      assert a + b == b;
    } else {
      hide BlockKey;
      SplitBlock(a, b);
      EncryptSplit(aes, key, ctr + 1, k, a[16..], b);
      ConcatAssoc(aes.enc(BlockKey(aes, key, ctr, k), a[..16]), Encrypted(aes, key, ctr + 1, k, a[16..]),
                  Encrypted(aes, key, ctr + |a| / 16, k, b));
    }
  }

  lemma DecryptedCons(aes: Aes128, key: Key, ctr: nat, k: nat, data: seq<byte>)
    requires |data| > 0 && |data| % 16 == 0
    ensures Decrypted(aes, key, ctr, k, data) == aes.dec(BlockKey(aes, key, ctr, k), data[..16]) + Decrypted(aes, key, ctr + 1, k, data[16..])
  {
  }

  lemma {:induction false} DecryptSplit(aes: Aes128, key: Key, ctr: nat, k: nat, a: seq<byte>, b: seq<byte>)
    requires |a| % 16 == 0 && |b| % 16 == 0
    ensures Decrypted(aes, key, ctr, k, a + b)
         == Decrypted(aes, key, ctr, k, a) + Decrypted(aes, key, ctr + |a| / 16, k, b)
    decreases |a|
  {
    hide BlockKey, Decrypted;
    if |a| == 0 {
      assert a + b == b && Decrypted(aes, key, ctr, k, a) == [];
    } else {
      SplitBlock(a, b);
      assert ctr + 1 + |a[16..]| / 16 == ctr + |a| / 16;
      DecryptedCons(aes, key, ctr, k, a);
      DecryptedCons(aes, key, ctr, k, a + b);
      DecryptSplit(aes, key, ctr + 1, k, a[16..], b);
      ConcatAssoc(aes.dec(BlockKey(aes, key, ctr, k), a[..16]), Decrypted(aes, key, ctr + 1, k, a[16..]),
                  Decrypted(aes, key, ctr + |a| / 16, k, b));
    }
  }

  /** A counter that has wrapped around enciphers as its reduced value does. */
  lemma {:induction false} EncryptWraps(aes: Aes128, key: Key, m: nat, n: nat, k: nat, data: seq<byte>)
    requires |data| % 16 == 0 && CounterNibbles(m, k) == CounterNibbles(n, k)
    ensures Encrypted(aes, key, m, k, data) == Encrypted(aes, key, n, k, data)
    ensures Decrypted(aes, key, m, k, data) == Decrypted(aes, key, n, k, data)
    decreases |data|
  {
    if |data| > 0 {
      IncrementedCounter(m, k);
      IncrementedCounter(n, k);
      EncryptWraps(aes, key, m + 1, n + 1, k, data[16..]);
    }
  }

  /** Adding one to a counter commutes with reducing it to `k` nibbles. */
  lemma IncrementedCounter(n: nat, k: nat)
    ensures Incremented(CounterNibbles(n, k)) == CounterNibbles(n + 1, k)
  {
    ValueDigits(16, n, k);
    DigitsMod(16, n + 1, k);
    DigitsMod(16, n % Pow(16, k) + 1, k);
    ModAddOne(n, Pow(16, k));
  }

  /** Up to 16^k blocks, no two blocks of a message share a counter. */
  lemma CountersDistinct(ctr: nat, k: nat, i: nat, j: nat)
    requires i < j < Pow(16, k)
    ensures CounterNibbles(ctr + i, k) != CounterNibbles(ctr + j, k)
  {
    ValueDigits(16, ctr + i, k);
    ValueDigits(16, ctr + j, k);
    ModDistinct(ctr + i, j - i, Pow(16, k));
  }

  /** The ciphertext block `n`: its key is the LRP of the n-th counter. */
  lemma {:induction false} EncryptAt(aes: Aes128, key: Key, ctr: nat, k: nat, data: seq<byte>, n: nat)
    requires |data| % 16 == 0 && 16 * n + 16 <= |data|
    ensures Encrypted(aes, key, ctr, k, data)[16 * n..16 * n + 16]
         == aes.enc(BlockKey(aes, key, ctr + n, k), data[16 * n..16 * n + 16])
    decreases n
  {
    var c: Block := aes.enc(BlockKey(aes, key, ctr, k), data[..16]);
    var rest := Encrypted(aes, key, ctr + 1, k, data[16..]);
    if n == 0 {
      SplitBlock(c, rest);
    } else {
      EncryptAt(aes, key, ctr + 1, k, data[16..], n - 1);
      LaterBlock(c, rest, 16 * n);
      LaterBlock(data[..16], data[16..], 16 * n);
      SplitBlock(data, []);
    }
  }

  lemma {:induction false} DecryptAt(aes: Aes128, key: Key, ctr: nat, k: nat, data: seq<byte>, n: nat)
    requires |data| % 16 == 0 && 16 * n + 16 <= |data|
    ensures Decrypted(aes, key, ctr, k, data)[16 * n..16 * n + 16]
         == aes.dec(BlockKey(aes, key, ctr + n, k), data[16 * n..16 * n + 16])
    decreases n
  {
    var c: Block := aes.dec(BlockKey(aes, key, ctr, k), data[..16]);
    var rest := Decrypted(aes, key, ctr + 1, k, data[16..]);
    if n == 0 {
      SplitBlock(c, rest);
    } else {
      DecryptAt(aes, key, ctr + 1, k, data[16..], n - 1);
      LaterBlock(c, rest, 16 * n);
      LaterBlock(data[..16], data[16..], 16 * n);
      SplitBlock(data, []);
    }
  }

  /** What storing the advanced nibbles leaves in the caller's counter. */
  lemma StoredCounter(counter: seq<byte>, n: nat)
    requires ToNibbles(counter) == CounterNibbles(n, 2 * |counter|)
    ensures counter == Digits(256, n, |counter|)
  {
    ToNibblesValue(counter);
    ValueDigits(16, n, 2 * |counter|);
    Pow16Twice(|counter|);
    DigitsValue(256, counter);
    DigitsMod(256, n, |counter|);
  }

  lemma LoadedCounter(counter: seq<byte>)
    ensures ToNibbles(counter) == CounterNibbles(Value(256, counter), 2 * |counter|)
  {
    ToNibblesValue(counter);
    DigitsValue(16, ToNibbles(counter));
  }

  /** `ct` is `pt` enciphered under the LRP of these nibbles. */
  ghost predicate IsLrpBlock(aes: Aes128, key: Key, nibbles: seq<nibble>, pt: Block, ct: Block) {
    exists y: Block :: IsLrp(aes, key, nibbles, y) && ct == aes.enc(y, pt)
  }

  /** LRICB block by block: block `n` under counter `ctr + n`. */
  ghost predicate IsLricb(aes: Aes128, key: Key, ctr: nat, k: nat, pt: seq<byte>, ct: seq<byte>) {
    && |pt| == |ct|
    && forall n: nat :: 16 * n + 16 <= |pt| ==>
      IsLrpBlock(aes, key, CounterNibbles(ctr + n, k), BlockOf(pt, n), BlockOf(ct, n))
  }

  lemma EncryptedIsLricb(aes: Aes128, key: Key, ctr: nat, k: nat, data: seq<byte>)
    requires |data| % 16 == 0
    ensures IsLricb(aes, key, ctr, k, data, Encrypted(aes, key, ctr, k, data))
  {
    hide Encrypted, IsLrp, CounterNibbles, Eval;
    var ct := Encrypted(aes, key, ctr, k, data);
    forall n: nat | 16 * n + 16 <= |data|
      ensures IsLrpBlock(aes, key, CounterNibbles(ctr + n, k), BlockOf(data, n), BlockOf(ct, n))
    {
      EncryptAt(aes, key, ctr, k, data, n);
      EvalIsLrp(aes, key, CounterNibbles(ctr + n, k));
      var y := BlockKey(aes, key, ctr + n, k);
      assert IsLrp(aes, key, CounterNibbles(ctr + n, k), y) && BlockOf(ct, n) == aes.enc(y, BlockOf(data, n));
    }
  }

  lemma DecryptedIsLricb(aes: Aes128, key: Key, ctr: nat, k: nat, data: seq<byte>)
    requires |data| % 16 == 0
    ensures IsLricb(aes, key, ctr, k, Decrypted(aes, key, ctr, k, data), data)
  {
    hide Decrypted, IsLrp, CounterNibbles, Eval;
    var pt := Decrypted(aes, key, ctr, k, data);
    forall n: nat | 16 * n + 16 <= |data|
      ensures IsLrpBlock(aes, key, CounterNibbles(ctr + n, k), BlockOf(pt, n), BlockOf(data, n))
    {
      DecryptAt(aes, key, ctr, k, data, n);
      EvalIsLrp(aes, key, CounterNibbles(ctr + n, k));
      var y := BlockKey(aes, key, ctr + n, k);
      assert IsLrp(aes, key, CounterNibbles(ctr + n, k), y) && BlockOf(data, n) == aes.enc(y, BlockOf(pt, n));
    }
  }

  /** The body of the encryption loop, with `ctr` in the nibbles: encipher one block, step the counter. */
  method EncryptChunk(aes: Aes128, key: Key, nibs: array<nibble>, buf: array<byte>, i: nat, ghost ctr: nat)
    requires nibs as object != buf as object && i + 16 <= buf.Length
    requires nibs[..] == CounterNibbles(ctr, nibs.Length)
    modifies nibs, buf
    ensures buf[i..i + 16] == aes.enc(BlockKey(aes, key, ctr, nibs.Length), old(buf[i..i + 16]))
    ensures forall j :: 0 <= j < buf.Length && !(i <= j < i + 16) ==> buf[j] == old(buf[j])
    ensures nibs[..] == CounterNibbles(ctr + 1, nibs.Length)
  {
    hide Digits, Value, Eval, CounterNibbles, Incremented;
    var y := EvalLrp(aes, key.plaintexts, key.kPrime, nibs[..], true);
    var out: Block := aes.enc(y, buf[i..i + 16]);
    CopyInto(buf, i, out);
    IncrementedCounter(ctr, nibs.Length);
    Inc(nibs);
    assert buf[i..i + 16] == out;
  }

  method DecryptChunk(aes: Aes128, key: Key, nibs: array<nibble>, buf: array<byte>, i: nat, ghost ctr: nat)
    requires nibs as object != buf as object && i + 16 <= buf.Length
    requires nibs[..] == CounterNibbles(ctr, nibs.Length)
    modifies nibs, buf
    ensures buf[i..i + 16] == aes.dec(BlockKey(aes, key, ctr, nibs.Length), old(buf[i..i + 16]))
    ensures forall j :: 0 <= j < buf.Length && !(i <= j < i + 16) ==> buf[j] == old(buf[j])
    ensures nibs[..] == CounterNibbles(ctr + 1, nibs.Length)
  {
    hide Digits, Value, Eval, CounterNibbles, Incremented;
    var y := EvalLrp(aes, key.plaintexts, key.kPrime, nibs[..], true);
    var out: Block := aes.dec(y, buf[i..i + 16]);
    CopyInto(buf, i, out);
    IncrementedCounter(ctr, nibs.Length);
    Inc(nibs);
    assert buf[i..i + 16] == out;
  }

  /** The block loop, from nibbles that hold `ctr`. */
  method EncryptBlocks(aes: Aes128, key: Key, nibs: array<nibble>, buf: array<byte>, ghost ctr: nat)
    requires nibs as object != buf as object && buf.Length % 16 == 0
    requires nibs[..] == CounterNibbles(ctr, nibs.Length)
    modifies nibs, buf
    ensures buf[..] == Encrypted(aes, key, ctr, nibs.Length, old(buf[..]))
    ensures nibs[..] == CounterNibbles(ctr + buf.Length / 16, nibs.Length)
  {
    hide Digits, Value, Eval, CounterNibbles, Encrypted;
    ghost var was, image := buf[..], Encrypted(aes, key, ctr, nibs.Length, buf[..]);
    for n := 0 to buf.Length / 16
      invariant nibs[..] == CounterNibbles(ctr + n, nibs.Length)
      invariant forall j :: 0 <= j < 16 * n ==> buf[j] == image[j]
      invariant forall j :: 16 * n <= j < buf.Length ==> buf[j] == was[j]
    {
      EncryptAt(aes, key, ctr, nibs.Length, was, n);
      assert buf[16 * n..16 * n + 16] == was[16 * n..16 * n + 16];
      EncryptChunk(aes, key, nibs, buf, 16 * n, ctr + n);
      assert forall j :: 16 * n <= j < 16 * n + 16 ==> buf[j] == image[16 * n..16 * n + 16][j - 16 * n];
    }
  }

  method DecryptBlocks(aes: Aes128, key: Key, nibs: array<nibble>, buf: array<byte>, ghost ctr: nat)
    requires nibs as object != buf as object && buf.Length % 16 == 0
    requires nibs[..] == CounterNibbles(ctr, nibs.Length)
    modifies nibs, buf
    ensures buf[..] == Decrypted(aes, key, ctr, nibs.Length, old(buf[..]))
    ensures nibs[..] == CounterNibbles(ctr + buf.Length / 16, nibs.Length)
  {
    hide Digits, Value, Eval, CounterNibbles, Decrypted;
    ghost var was, image := buf[..], Decrypted(aes, key, ctr, nibs.Length, buf[..]);
    for n := 0 to buf.Length / 16
      invariant nibs[..] == CounterNibbles(ctr + n, nibs.Length)
      invariant forall j :: 0 <= j < 16 * n ==> buf[j] == image[j]
      invariant forall j :: 16 * n <= j < buf.Length ==> buf[j] == was[j]
    {
      DecryptAt(aes, key, ctr, nibs.Length, was, n);
      assert buf[16 * n..16 * n + 16] == was[16 * n..16 * n + 16];
      DecryptChunk(aes, key, nibs, buf, 16 * n, ctr + n);
      assert forall j :: 16 * n <= j < 16 * n + 16 ==> buf[j] == image[16 * n..16 * n + 16][j - 16 * n];
    }
  }

  /** `lricb_encrypt_in_place`; `ok` is false exactly where the source returns `None`. */
  method EncryptInPlace(aes: Aes128, key: Key, counter: array<byte>, buf: array<byte>) returns (ok: bool)
    requires counter != buf
    modifies counter, buf
    ensures ok == (buf.Length > 0 && buf.Length % 16 == 0 && 1 <= counter.Length <= COUNTER_MAX_BYTES)
    ensures !ok ==> buf[..] == old(buf[..]) && counter[..] == old(counter[..])
    ensures ok ==> var ctr := Value(256, old(counter[..]));
      && buf[..] == Encrypted(aes, key, ctr, 2 * counter.Length, old(buf[..]))
      && IsLricb(aes, key, ctr, 2 * counter.Length, old(buf[..]), buf[..])
      && counter[..] == Digits(256, ctr + buf.Length / 16, counter.Length)
  {
    if buf.Length == 0 || buf.Length % 16 != 0 {
      return false;
    }
    var loaded, nibs := LoadCounter(counter[..]);
    if !loaded {
      return false;
    }
    hide Digits, Value, Encrypted, IsLricb;
    ghost var ctr := Value(256, counter[..]);
    EncryptedIsLricb(aes, key, ctr, 2 * counter.Length, buf[..]);
    LoadedCounter(counter[..]);
    EncryptBlocks(aes, key, nibs, buf, ctr);
    StoreCounter(nibs, counter);
    StoredCounter(counter[..], ctr + buf.Length / 16);
    return true;
  }

  method DecryptInPlace(aes: Aes128, key: Key, counter: array<byte>, buf: array<byte>) returns (ok: bool)
    requires counter != buf
    modifies counter, buf
    ensures ok == (buf.Length > 0 && buf.Length % 16 == 0 && 1 <= counter.Length <= COUNTER_MAX_BYTES)
    ensures !ok ==> buf[..] == old(buf[..]) && counter[..] == old(counter[..])
    ensures ok ==> var ctr := Value(256, old(counter[..]));
      && buf[..] == Decrypted(aes, key, ctr, 2 * counter.Length, old(buf[..]))
      && IsLricb(aes, key, ctr, 2 * counter.Length, buf[..], old(buf[..]))
      && counter[..] == Digits(256, ctr + buf.Length / 16, counter.Length)
  {
    if buf.Length == 0 || buf.Length % 16 != 0 {
      return false;
    }
    var loaded, nibs := LoadCounter(counter[..]);
    if !loaded {
      return false;
    }
    hide Digits, Value, Decrypted, IsLricb;
    ghost var ctr := Value(256, counter[..]);
    DecryptedIsLricb(aes, key, ctr, 2 * counter.Length, buf[..]);
    LoadedCounter(counter[..]);
    DecryptBlocks(aes, key, nibs, buf, ctr);
    StoreCounter(nibs, counter);
    StoredCounter(counter[..], ctr + buf.Length / 16);
    return true;
  }
}
