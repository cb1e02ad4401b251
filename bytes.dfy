/**
 * Fixed-width integers and their byte encodings: the unsigned 8-, 16- and
 * 32-bit values the container stores, Go's uint32 wrap-around, and the
 * four-byte encoding of a u32 in either byte order (Go's binary.LittleEndian,
 * Rust's to_ne_bytes on a little- or big-endian host).
 */
module Bytes {

  const TWO_32: int := 0x1_0000_0000

  type Byte = b: int | 0 <= b < 256
  type U16 = n: int | 0 <= n < 0x1_0000
  type U32 = n: int | 0 <= n < 0x1_0000_0000

  /** Go's conversion of an int (or of a wider product) to uint32: keep the low 32 bits. */
  function Wrap32(n: int): (r: U32)
    ensures 0 <= n < TWO_32 ==> r == n
  {
    n % TWO_32
  }

  /** Byte order of a multi-byte integer on disk. */
  datatype Endian = Little | Big

  /** The four bytes of `n`, least significant first for Little, last for Big. */
  function U32Bytes(e: Endian, n: U32): (b: seq<Byte>)
    ensures |b| == 4
  {
    var le := [n % 256, (n / 256) % 256, (n / 65536) % 256, n / 16777216];
    match e
    case Little => le
    case Big => [le[3], le[2], le[1], le[0]]
  }

  /** The u32 that four bytes denote in byte order `e` (binary.LittleEndian.Uint32 for Little). */
  function U32Value(e: Endian, b: seq<Byte>): (v: U32)
    requires |b| == 4
    ensures v % 256 == (match e case Little => b[0] case Big => b[3])
    ensures (v / 256) % 256 == (match e case Little => b[1] case Big => b[2])
    ensures (v / 65536) % 256 == (match e case Little => b[2] case Big => b[1])
    ensures v / 16777216 == (match e case Little => b[3] case Big => b[0])
  {
    var le: seq<int> := match e case Little => b case Big => [b[3], b[2], b[1], b[0]];
    var t1, t2 := le[1] + 256 * (le[2] + 256 * le[3]), le[2] + 256 * le[3];
    var v := le[0] + 256 * le[1] + 65536 * le[2] + 16777216 * le[3];
    assert v == le[0] + 256 * t1 == (le[0] + 256 * le[1]) + 65536 * t2;
    DivDigit(le[0], t1, 256);
    DivDigit(le[1], t2, 256);
    DivDigit(le[0] + 256 * le[1], t2, 65536);
    DivDigit(le[2], le[3], 256);
    DivDigit(le[0] + 256 * le[1] + 65536 * le[2], le[3], 16777216);
    v
  }

  /** Reading back what was written recovers the number. */
  lemma U32RoundTrip(e: Endian, n: U32)
    ensures U32Value(e, U32Bytes(e, n)) == n
  {
    var b0, b1, b2, b3 := n % 256, (n / 256) % 256, (n / 65536) % 256, n / 16777216;
    assert n / 256 == b1 + 256 * (n / 65536);
    assert n / 65536 == b2 + 256 * b3;
    assert n == b0 + 256 * (n / 256);
  }

  /** A multiple of d other than 0 is at least d away from 0. */
  lemma MulBeyond(d: int, t: int)
    requires d > 0
    ensures t >= 1 ==> d * t >= d
    ensures t <= -1 ==> d * t <= -d
  {
    if t >= 1 {
      var u: nat := t - 1;
      assert d * t == d * u + d;
    } else if t <= -1 {
      var u: nat := -t - 1;
      assert d * t == -(d * u) - d;
    }
  }

  /** Dividing lo + d·hi by d, for a digit lo below d, gives hi with remainder lo. */
  lemma DivDigit(lo: int, hi: int, d: int)
    requires 0 <= lo < d
    ensures (lo + d * hi) / d == hi && (lo + d * hi) % d == lo
  {
    var x := lo + d * hi;
    var q, r := x / d, x % d;
    assert x == d * q + r;
    assert d * (hi - q) == r - lo;
    MulBeyond(d, hi - q);
  }

  /** Every four-byte field is the encoding of exactly one u32. */
  lemma U32BytesOfValue(e: Endian, b: seq<Byte>)
    requires |b| == 4
    ensures U32Bytes(e, U32Value(e, b)) == b
  {
    var le: seq<int> := match e case Little => b case Big => [b[3], b[2], b[1], b[0]];
    var n := U32Value(e, b);
    var t1, t2 := le[1] + 256 * (le[2] + 256 * le[3]), le[2] + 256 * le[3];
    assert n == le[0] + 256 * t1;
    assert n == (le[0] + 256 * le[1]) + 65536 * t2;
    assert n == (le[0] + 256 * le[1] + 65536 * le[2]) + 16777216 * le[3];
    DivDigit(le[0], t1, 256);
    DivDigit(le[1], t2, 256);
    DivDigit(le[0] + 256 * le[1], t2, 65536);
    DivDigit(le[2], le[3], 256);
    DivDigit(le[0] + 256 * le[1] + 65536 * le[2], le[3], 16777216);
  }
}
