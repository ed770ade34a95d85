/**
 * Raw memory as the storage engine sees it: bytes, 32-bit unsigned values,
 * the 4-byte image `memcpy` gives an `unsigned`, and `memcpy` into a buffer.
 *
 * The engine copies `unsigned` values with `memcpy`, i.e. in the machine's
 * native byte order; the model fixes that order to little-endian.
 */
module Bytes {

  /** An unsigned char. */
  type byte = x: int | 0 <= x < 256

  const U32_MODULUS: int := 0x1_0000_0000

  /** A C `unsigned` (32 bits). */
  type u32 = x: int | 0 <= x < 0x1_0000_0000

  /** A C `unsigned short` (16 bits). */
  type u16 = x: int | 0 <= x < 0x1_0000

  /** `x + 1` in unsigned 32-bit arithmetic. */
  function Inc32(x: u32): (r: u32)
    ensures x < U32_MODULUS - 1 ==> r == x + 1
    ensures x == U32_MODULUS - 1 ==> r == 0
  {
    (x + 1) % U32_MODULUS
  }

  /** Counting up from a value already reduced modulo 2^32 is counting up modulo 2^32. */
  lemma Inc32OfMod(a: nat)
    ensures Inc32(a % U32_MODULUS) == (a + 1) % U32_MODULUS
  {
    var q, r := a / U32_MODULUS, a % U32_MODULUS;
    assert a == q * U32_MODULUS + r;
    if r + 1 == U32_MODULUS {
      assert a + 1 == (q + 1) * U32_MODULUS;
    } else {
      assert a + 1 == q * U32_MODULUS + (r + 1);
    }
  }

  /** `a - b` in unsigned 32-bit arithmetic (wraps below zero). */
  function Sub32(a: u32, b: u32): (r: u32)
    ensures b <= a ==> r == a - b
    ensures a < b ==> r == a - b + U32_MODULUS
  {
    (a - b) % U32_MODULUS
  }

  /** The four bytes `memcpy` copies out of an `unsigned`. */
  function EncodeU32(v: u32): (r: seq<byte>)
    ensures |r| == 4
  {
    [v % 256, (v / 256) % 256, (v / 65536) % 256, v / 16777216]
  }

  /** The `unsigned` that `memcpy` assembles from four bytes. */
  function DecodeU32(s: seq<byte>): u32
    requires |s| == 4
  {
    s[0] as int + 256 * (s[1] as int) + 65536 * (s[2] as int) + 16777216 * (s[3] as int)
  }

  lemma SplitDigit(r: int, q: int)
    requires 0 <= r < 256 && 0 <= q
    ensures (r + 256 * q) % 256 == r && (r + 256 * q) / 256 == q
  {
  }

  lemma Digits(a: int, b: int, c: int, d: int)
    requires 0 <= a < 256 && 0 <= b < 256 && 0 <= c < 256 && 0 <= d < 256
    ensures var v := a + 256 * b + 65536 * c + 16777216 * d;
      v % 256 == a && (v / 256) % 256 == b && (v / 65536) % 256 == c && v / 16777216 == d
  {
    var v := a + 256 * b + 65536 * c + 16777216 * d;
    var q2 := c + 256 * d;
    var q1 := b + 256 * q2;
    assert v == a + 256 * q1;
    SplitDigit(a, q1);
    SplitDigit(b, q2);
    SplitDigit(c, d);
    assert v / 65536 == (v / 256) / 256;
    assert v / 16777216 == (v / 65536) / 256;
  }

  /** Reading back the image of a value gives the value. */
  lemma DecodeEncode(v: u32)
    ensures DecodeU32(EncodeU32(v)) == v
  {
    var a, b, c, d := v % 256, (v / 256) % 256, (v / 65536) % 256, v / 16777216;
    assert v == a + 256 * (v / 256);
    assert v / 256 == b + 256 * (v / 65536);
    assert v / 65536 == c + 256 * d;
  }

  /** Every 4-byte string is the image of exactly the value it decodes to. */
  lemma EncodeDecode(s: seq<byte>)
    requires |s| == 4
    ensures EncodeU32(DecodeU32(s)) == s
  {
    Digits(s[0], s[1], s[2], s[3]);
  }

  /** `memcpy(p + at, src, |src|)`: the buffer with `src` copied in at `at`. */
  function Write(p: seq<byte>, at: nat, src: seq<byte>): (r: seq<byte>)
    requires at + |src| <= |p|
    ensures |r| == |p|
    ensures r[at..at + |src|] == src
  {
    p[..at] + src + p[at + |src|..]
  }

  /** Byte i after a write: the copied byte inside the written range, the old byte elsewhere. */
  lemma WriteIndex(p: seq<byte>, at: nat, src: seq<byte>, i: nat)
    requires at + |src| <= |p| && i < |p|
    ensures Write(p, at, src)[i] == if at <= i < at + |src| then src[i - at] else p[i]
  {
  }

  /** `memcpy(dst + at, src, |src|)` on an array. */
  method CopyInto(dst: array<byte>, at: nat, src: seq<byte>)
    requires at + |src| <= dst.Length
    modifies dst
    ensures dst[..] == Write(old(dst[..]), at, src)
  {
    forall i | 0 <= i < |src| {
      dst[at + i] := src[i];
    }
    forall i | 0 <= i < dst.Length
      ensures dst[..][i] == Write(old(dst[..]), at, src)[i]
    {
      WriteIndex(old(dst[..]), at, src, i);
    }
  }

  /** `memcpy(&v, p + at, 4)`: the `unsigned` stored at byte `at`. */
  function ReadU32(p: seq<byte>, at: nat): u32
    requires at + 4 <= |p|
  {
    DecodeU32(p[at..at + 4])
  }

  /** A slice that does not overlap the bytes written is unchanged by the write. */
  lemma WriteKeepsSlice(p: seq<byte>, at: nat, src: seq<byte>, lo: nat, hi: nat)
    requires at + |src| <= |p| && lo <= hi <= |p|
    requires hi <= at || at + |src| <= lo
    ensures Write(p, at, src)[lo..hi] == p[lo..hi]
  {
    var r := Write(p, at, src);
    forall i | lo <= i < hi
      ensures r[i] == p[i]
    {
      WriteIndex(p, at, src, i);
    }
  }

  /** Copying the next piece of `d` behind a prefix of `d` gives a longer prefix of `d`. */
  lemma WriteExtendsPrefix(p: seq<byte>, at: nat, src: seq<byte>, d: seq<byte>)
    requires at + |src| <= |p| && at + |src| <= |d|
    requires p[..at] == d[..at] && src == d[at..at + |src|]
    ensures Write(p, at, src)[..at + |src|] == d[..at + |src|]
  {
    var r := Write(p, at, src);
    forall i | 0 <= i < at + |src|
      ensures r[i] == d[i]
    {
      WriteIndex(p, at, src, i);
      if i < at {
        assert p[..at][i] == d[..at][i];
      }
    }
  }

  /** A second copy to the same place overwrites the first entirely. */
  lemma WriteTwice(p: seq<byte>, at: nat, x: seq<byte>, y: seq<byte>)
    requires at + |x| <= |p| && |x| == |y|
    ensures Write(Write(p, at, x), at, y) == Write(p, at, y)
  {
  }

  /** Writing the image of `v` at `at`, then reading there, gives `v`. */
  lemma ReadU32AfterWrite(p: seq<byte>, at: nat, v: u32)
    requires at + 4 <= |p|
    ensures ReadU32(Write(p, at, EncodeU32(v)), at) == v
  {
    DecodeEncode(v);
  }

  /** Reading an `unsigned` that does not overlap the bytes written sees the old value. */
  lemma ReadU32AfterOtherWrite(p: seq<byte>, at: nat, src: seq<byte>, b: nat)
    requires at + |src| <= |p| && b + 4 <= |p|
    requires b + 4 <= at || at + |src| <= b
    ensures ReadU32(Write(p, at, src), b) == ReadU32(p, b)
  {
    WriteKeepsSlice(p, at, src, b, b + 4);
  }
}
