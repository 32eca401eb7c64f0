/** Bytes and the fixed-width integer encodings of Go's `encoding/binary`. */
module Bytes {
  type byte = b: int | 0 <= b < 256

  function Min(a: nat, b: nat): nat { if a < b then a else b }
  function Max(a: int, b: int): int { if a < b then b else a }

  const TWO32: int := 0x1_0000_0000

  /** `uint16(hi)<<8 | uint16(lo)`, as every length field is decoded. */
  function U16(hi: byte, lo: byte): nat { hi * 256 + lo }

  function BE16(x: nat): (r: seq<byte>)
    requires x < 0x1_0000
    ensures |r| == 2 && U16(r[0], r[1]) == x
  { [x / 256, x % 256] }

  function U32(b3: byte, b2: byte, b1: byte, b0: byte): (r: nat)
    ensures r < TWO32
  { ((b3 * 256 + b2) * 256 + b1) * 256 + b0 }

  /** Addition of two uint32 values. */
  function Add32(a: nat, b: nat): (r: nat)
    requires a < TWO32 && b < TWO32
    ensures r == if a + b < TWO32 then a + b else a + b - TWO32
  { (a + b) % TWO32 }

  lemma Mod32(x: nat, a: nat, r: nat) requires x == TWO32 * a + r && r < TWO32 ensures x % TWO32 == r {}

  /** The low 32 bits of `x`, split into bytes. */
  lemma LowBytes(x: nat)
    ensures U32(x / 256 / 256 / 256 % 256, x / 256 / 256 % 256, x / 256 % 256, x % 256) == x % TWO32
  {
    var y, b0 := x / 256, x % 256;
    var z, b1 := y / 256, y % 256;
    var w, b2 := z / 256, z % 256;
    var v, b3 := w / 256, w % 256;
    assert x == TWO32 * v + U32(b3, b2, b1, b0);
    Mod32(x, v, U32(b3, b2, b1, b0));
  }

  /** `binary.BigEndian.PutUint32(_, uint32(x))`: the conversion keeps the low 32 bits. */
  function BE32(x: nat): (r: seq<byte>)
    ensures |r| == 4 && U32(r[0], r[1], r[2], r[3]) == x % TWO32
  {
    LowBytes(x);
    [x / 256 / 256 / 256 % 256, x / 256 / 256 % 256, x / 256 % 256, x % 256]
  }

  /** `binary.LittleEndian.PutUint32(_, uint32(x))`. */
  function LE32(x: nat): (r: seq<byte>)
    ensures |r| == 4 && U32(r[3], r[2], r[1], r[0]) == x % TWO32
  {
    LowBytes(x);
    [x % 256, x / 256 % 256, x / 256 / 256 % 256, x / 256 / 256 / 256 % 256]
  }

  /** The first element of `right` moves over to `left`. */
  lemma Shift<T>(left: seq<T>, right: seq<T>)
    requires right != []
    ensures left + right == (left + [right[0]]) + right[1..]
  {
  }

  lemma SubSlice<T>(s: seq<T>, lo: nat, hi: nat, i: nat, j: nat)
    requires lo <= hi <= |s| && i <= j <= hi - lo
    ensures s[lo..hi][i..j] == s[lo + i..lo + j]
  {
    var x, y := s[lo..hi][i..j], s[lo + i..lo + j];
    assert forall k :: 0 <= k < |x| ==> x[k] == y[k];
  }
}
