/** ASCII hex as SDM mirrors it: crypto/sdm/hex.rs. */
module Hex {
  import opened Wrappers
  import opened Octets

  datatype SdmError =
    | MacMismatch
    | NdefTooShort(needed: int, have: int)
    | InvalidHex(offset: int)
    | InvalidPiccDataTag(tag: byte)
    | InvalidConfiguration(reason: string)

  function HexNibble(b: byte, offset: nat): (r: Result<nat, SdmError>)
    ensures r.Ok? ==> r.value < 16
  {
    if 0x30 <= b <= 0x39 then Ok(b - 0x30)
    else if 0x41 <= b <= 0x46 then Ok(b - 0x41 + 10)
    else if 0x61 <= b <= 0x66 then Ok(b - 0x61 + 10)
    else Err(InvalidHex(offset))
  }

  /** A character is the hex digit of value `d`, in upper or lower case. */
  predicate IsHexOf(c: byte, d: nat) {
    || (d <= 9 && c == 0x30 + d)
    || (10 <= d <= 15 && (c == 0x41 + (d - 10) || c == 0x61 + (d - 10)))
  }

  /** The characters 0-9, A-F and a-f have their values, and nothing else has one. */
  lemma NibbleIs(c: byte, d: nat, offset: nat)
    ensures HexNibble(c, offset) == Ok(d) <==> IsHexOf(c, d)
    ensures HexNibble(c, offset).Err? ==> HexNibble(c, offset) == Err(InvalidHex(offset)) && !IsHexOf(c, d)
    ensures d < 16 ==> IsHexOf(HexDigit(d), d) && (HexDigit(d) <= 0x39 || 0x41 <= HexDigit(d) <= 0x46)
  {
  }

  /** Byte `i` of the decoded string is made of two digits, the high one first. */
  lemma {:induction false} DecodedIs(data: seq<byte>, offset: nat, n: nat, i: nat, hi: nat, lo: nat)
    requires offset + 2 * n <= |data| && i < n && DecodeHex(data, offset, n).Ok?
    requires IsHexOf(data[offset + 2 * i], hi) && IsHexOf(data[offset + 2 * i + 1], lo)
    ensures DecodeHex(data, offset, n).value[i] as nat == 16 * hi + lo
    decreases n
  {
    if i < n - 1 {
      DecodedIs(data, offset, n - 1, i, hi, lo);
    } else {
      NibbleIs(data[offset + 2 * i], hi, offset + 2 * i);
      NibbleIs(data[offset + 2 * i + 1], lo, offset + 2 * i + 1);
    }
  }

  /** The byte two hex characters denote; of two bad characters the first is reported. */
  function HexByte(data: seq<byte>, offset: nat): Result<byte, SdmError>
    requires offset + 2 <= |data|
  {
    var hi :- HexNibble(data[offset], offset);
    var lo :- HexNibble(data[offset + 1], offset + 1);
    Ok(16 * hi + lo)
  }

  /** `n` bytes from `2 * n` characters, or the first bad character. */
  function DecodeHex(data: seq<byte>, offset: nat, n: nat): (r: Result<seq<byte>, SdmError>)
    requires offset + 2 * n <= |data|
    ensures r.Ok? ==> |r.value| == n
  {
    if n == 0 then Ok([])
    else
      var front :- DecodeHex(data, offset, n - 1);
      var b :- HexByte(data, offset + 2 * (n - 1));
      Ok(front + [b])
  }

  lemma {:induction false} DecodeHexFails(data: seq<byte>, offset: nat, m: nat, n: nat)
    requires m <= n && offset + 2 * n <= |data| && DecodeHex(data, offset, m).Err?
    ensures DecodeHex(data, offset, n) == DecodeHex(data, offset, m)
  {
    if m < n { DecodeHexFails(data, offset, m, n - 1); }
  }

  /** `decode_hex_into`; `decode_hex_array` is the same loop over an array of its own. */
  method DecodeHexInto(out: array<byte>, data: seq<byte>, offset: nat) returns (r: Result<(), SdmError>)
    requires offset + 2 * out.Length <= |data|
    modifies out
    ensures var d := DecodeHex(data, offset, out.Length);
      if r.Ok? then d == Ok(out[..]) else d == Err(r.error)
  {
    for i := 0 to out.Length
      invariant DecodeHex(data, offset, i) == Ok(out[..i])
    {
      if DecodeHex(data, offset, i + 1).Err? {
        DecodeHexFails(data, offset, i + 1, out.Length);
      }
      var hi :- HexNibble(data[offset + 2 * i], offset + 2 * i);
      var lo :- HexNibble(data[offset + 2 * i + 1], offset + 2 * i + 1);
      ghost var done := out[..i];
      out[i] := 16 * hi + lo;
      assert out[..i + 1] == done + [out[i]];
    }
    assert out[..out.Length] == out[..];
    return Ok(());
  }

  /** `ensure_len` */
  function EnsureLen(data: seq<byte>, needed: nat): Result<(), SdmError> {
    if |data| < needed then Err(NdefTooShort(needed, |data|)) else Ok(())
  }

  // ---------------------------------------------------------------- what the tag writes

  function HexDigit(n: nat): byte
    requires n < 16
  {
    if n < 10 then 0x30 + n else 0x41 + n - 10
  }

  /** Upper-case hex, two characters a byte. */
  function Render(bytes: seq<byte>): (r: seq<byte>)
    ensures |r| == 2 * |bytes|
  {
    if |bytes| == 0 then []
    else Render(bytes[..|bytes| - 1]) + [HexDigit(bytes[|bytes| - 1] / 16), HexDigit(bytes[|bytes| - 1] % 16)]
  }

  lemma RenderedByte(b: byte, offset: nat)
    ensures HexByte([HexDigit(b / 16), HexDigit(b % 16)], 0) == Ok(b)
  {
  }

  lemma RenderedFront(bytes: seq<byte>)
    requires |bytes| > 0
    ensures var n := |bytes| - 1;
      && Render(bytes)[..2 * n] == Render(bytes[..n])
      && Render(bytes)[2 * n] == HexDigit(bytes[n] / 16) && Render(bytes)[2 * n + 1] == HexDigit(bytes[n] % 16)
  {
  }

  /** Decoding finds what was rendered, wherever it stands. */
  lemma {:induction false} DecodeRender(data: seq<byte>, offset: nat, bytes: seq<byte>)
    requires offset + 2 * |bytes| <= |data| && data[offset..offset + 2 * |bytes|] == Render(bytes)
    ensures DecodeHex(data, offset, |bytes|) == Ok(bytes)
  {
    hide Render, HexDigit;
    if |bytes| > 0 {
      var n := |bytes| - 1;
      var all := data[offset..offset + 2 * |bytes|];
      RenderedFront(bytes);
      assert data[offset..offset + 2 * n] == all[..2 * n];
      DecodeRender(data, offset, bytes[..n]);
      RenderedByte(bytes[n], 0);
      assert data[offset + 2 * n] == all[2 * n] && data[offset + 2 * n + 1] == all[2 * n + 1];
      HexByteAnywhere(data, offset + 2 * n);
      assert bytes == bytes[..n] + [bytes[n]];
    }
  }

  lemma HexByteAnywhere(data: seq<byte>, offset: nat)
    requires offset + 2 <= |data| && HexByte([data[offset], data[offset + 1]], 0).Ok?
    ensures HexByte(data, offset) == HexByte([data[offset], data[offset + 1]], 0)
  {
  }

  /** Every rendered character is a hex digit. */
  lemma {:induction false} RenderedIsHex(bytes: seq<byte>, i: nat)
    requires i < 2 * |bytes|
    ensures HexNibble(Render(bytes)[i], 0).Ok?
  {
    if i < 2 * (|bytes| - 1) { RenderedIsHex(bytes[..|bytes| - 1], i); }
  }

  // ---------------------------------------------------------------- shifted buffers

  /** The same error, seen `s` bytes further on. */
  function ShiftedError(e: SdmError, s: int): SdmError {
    match e
    case NdefTooShort(needed, have) => NdefTooShort(needed + s, have + s)
    case InvalidHex(offset) => InvalidHex(offset + s)
    case _ => e
  }

  function Shifted<T>(r: Result<T, SdmError>, s: int): Result<T, SdmError> {
    if r.Ok? then r else Err(ShiftedError(r.error, s))
  }

  /** `data'` continues, `s` bytes further on, what `data` holds from `start` on. */
  predicate Continues(data: seq<byte>, data': seq<byte>, s: int, start: nat) {
    && |data'| == |data| + s && start + s >= 0
    && forall i :: start <= i < |data| ==> data'[i + s] == data[i]
  }

  lemma {:induction false} DecodeHexShifts(data: seq<byte>, data': seq<byte>, s: int, start: nat, offset: nat, n: nat)
    requires Continues(data, data', s, start) && start <= offset && offset + 2 * n <= |data|
    ensures DecodeHex(data', offset + s, n) == Shifted(DecodeHex(data, offset, n), s)
  {
    if n > 0 {
      DecodeHexShifts(data, data', s, start, offset, n - 1);
      var i := offset + 2 * (n - 1);
      assert data'[i + s] == data[i] && data'[i + 1 + s] == data[i + 1];
    }
  }
}
