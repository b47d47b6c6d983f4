/** What code over byte buffers shares: copying into place, and taking block strings apart. */
module Blocks {
  import opened Octets

  /** The first block of `a + b`, when `a` is not empty. */
  lemma SplitBlock(a: seq<byte>, b: seq<byte>)
    requires |a| >= 16
    ensures a == a[..16] + a[16..]
    ensures (a + b)[..16] == a[..16] && (a + b)[16..] == a[16..] + b
  {
  }

  lemma ConcatAssoc(a: seq<byte>, b: seq<byte>, c: seq<byte>)
    ensures a + (b + c) == (a + b) + c
  {
  }

  /** Block `i / 16` of a string whose first block is `head`. */
  lemma LaterBlock(head: Block, rest: seq<byte>, i: nat)
    requires 16 <= i && i + 16 <= 16 + |rest|
    ensures (head + rest)[i..i + 16] == rest[i - 16..i]
  {
  }

  /** Block `n` of a string of blocks. */
  function BlockOf(s: seq<byte>, n: nat): Block
    requires 16 * n + 16 <= |s|
  {
    s[16 * n..16 * n + 16]
  }

  /** `dst[at..at + src.len()].copy_from_slice(src)` */
  method CopyInto(dst: array<byte>, at: nat, src: seq<byte>)
    requires at + |src| <= dst.Length
    modifies dst
    ensures forall j :: at <= j < at + |src| ==> dst[j] == src[j - at]
    ensures forall j :: 0 <= j < dst.Length && !(at <= j < at + |src|) ==> dst[j] == old(dst[j])
  {
    forall j | 0 <= j < |src| {
      dst[at + j] := src[j];
    }
  }

  /** The same, for a buffer filled from the front: what it holds up to `end` grows by `src`. */
  method Append(dst: array<byte>, at: nat, src: seq<byte>) returns (end: nat)
    requires at + |src| <= dst.Length
    modifies dst
    ensures end == at + |src| && dst[..end] == old(dst[..at]) + src
    ensures forall j :: end <= j < dst.Length ==> dst[j] == old(dst[j])
  {
    CopyInto(dst, at, src);
    end := at + |src|;
  }
}
