/**
 * Bytes, unsigned 32-bit words in little-endian order, and the block copy
 * that places a run of bytes into a byte array at an offset.
 */
module Bytes {

  newtype byte = x: int | 0 <= x < 0x100

  /** One more than the largest value an unsigned 32-bit word holds. */
  const U32_LIMIT: int := 0x1_0000_0000

  newtype u32 = x: int | 0 <= x < U32_LIMIT

  /** One more than the largest array length a signed 32-bit `int` can express. */
  const INT_LIMIT: int := 0x8000_0000

  /**
   * The four bytes the writer stores for a 32-bit value `n`:
   * `(byte)(n >> 0)`, `(byte)(n >> 8)`, `(byte)(n >> 16)`, `(byte)(n >> 24)`.
   * For `0 <= n`, shifting right by `8k` is division by `256^k`, and the
   * cast to byte keeps the remainder modulo 256.
   */
  function LE32(n: nat): (b: seq<byte>)
    requires n < U32_LIMIT
    ensures |b| == 4
  {
    [ (n % 0x100) as byte,
      (n / 0x100 % 0x100) as byte,
      (n / 0x1_0000 % 0x100) as byte,
      (n / 0x100_0000 % 0x100) as byte ]
  }

  /** The value a reader obtains from four little-endian bytes. */
  function DecodeLE32(b: seq<byte>): (n: nat)
    requires |b| == 4
    ensures n < U32_LIMIT
  {
    (b[0] as int) + 0x100 * (b[1] as int) + 0x1_0000 * (b[2] as int) + 0x100_0000 * (b[3] as int)
  }

  /** Reading back the four bytes written for `n` gives `n`. */
  lemma DecodeEncodeLE32(n: nat)
    requires n < U32_LIMIT
    ensures DecodeLE32(LE32(n)) == n
  {
    var q1, q2, q3 := n / 0x100, n / 0x1_0000, n / 0x100_0000;
    assert q1 / 0x100 == q2;
    assert q2 / 0x100 == q3;
    assert q3 < 0x100;
    assert n == n % 0x100 + 0x100 * q1;
    assert q1 == q1 % 0x100 + 0x100 * q2;
    assert q2 == q2 % 0x100 + 0x100 * q3;
  }

  /** Every four-byte word is the encoding of the value it decodes to. */
  lemma EncodeDecodeLE32(b: seq<byte>)
    requires |b| == 4
    ensures LE32(DecodeLE32(b)) == b
  {
    var n := DecodeLE32(b);
    var b0, b1, b2, b3 := b[0] as int, b[1] as int, b[2] as int, b[3] as int;
    assert n / 0x100 == b1 + 0x100 * b2 + 0x1_0000 * b3;
    assert n / 0x1_0000 == b2 + 0x100 * b3;
    assert n / 0x100_0000 == b3;
    assert LE32(n)[0] == b[0];
    assert LE32(n)[1] == b[1];
    assert LE32(n)[2] == b[2];
    assert LE32(n)[3] == b[3];
  }

  /** Two values with the same four bytes are the same value. */
  lemma LE32Injective(m: nat, n: nat)
    requires m < U32_LIMIT && n < U32_LIMIT
    requires LE32(m) == LE32(n)
    ensures m == n
  {
    DecodeEncodeLE32(m);
    DecodeEncodeLE32(n);
  }

  /**
   * Stores the four bytes `(byte)(n >> 0)` .. `(byte)(n >> 24)` at
   * `dst[at]` .. `dst[at + 3]`; nothing else in `dst` changes.
   */
  method WriteLE32(dst: array<byte>, at: nat, n: nat)
    requires at + 4 <= dst.Length
    requires n < U32_LIMIT
    modifies dst
    ensures dst[..at] == old(dst[..at])
    ensures dst[at..at + 4] == LE32(n)
    ensures dst[at + 4..] == old(dst[at + 4..])
  {
    dst[at] := (n % 0x100) as byte;
    dst[at + 1] := (n / 0x100 % 0x100) as byte;
    dst[at + 2] := (n / 0x1_0000 % 0x100) as byte;
    dst[at + 3] := (n / 0x100_0000 % 0x100) as byte;
  }

  /**
   * Copies `src` into `dst` starting at index `at`, like
   * `Buffer.BlockCopy(src, 0, dst, at, src.Length)`: the bytes before `at`
   * and after the copied run are left as they were.
   */
  method BlockCopy(src: seq<byte>, dst: array<byte>, at: nat)
    requires at + |src| <= dst.Length
    modifies dst
    ensures dst[..at] == old(dst[..at])
    ensures dst[at..at + |src|] == src
    ensures dst[at + |src|..] == old(dst[at + |src|..])
  {
    for j := 0 to |src|
      invariant forall k :: 0 <= k < at ==> dst[k] == old(dst[k])
      invariant forall k :: 0 <= k < j ==> dst[at + k] == src[k]
      invariant forall k :: at + j <= k < dst.Length ==> dst[k] == old(dst[k])
    {
      dst[at + j] := src[j];
    }
  }
}
