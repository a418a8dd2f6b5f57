/** Bytes and the fixed-width little-endian integers the wire frames use. */
module Bytes {

  type Byte = x: int | 0 <= x < 0x100

  type uint32 = x: int | 0 <= x < 0x1_0000_0000

  /** `n` zero bytes, as produced by a Go byte-slice literal of zeros. */
  function Zeros(n: nat): (z: seq<Byte>)
    ensures |z| == n
    ensures forall i :: 0 <= i < n ==> z[i] == 0
  {
    seq(n, _ => 0)
  }

  /** True when every byte of `s` is zero. */
  predicate AllZero(s: seq<Byte>)
  {
    forall i :: 0 <= i < |s| ==> s[i] == 0
  }

  lemma ZerosIffAllZero(s: seq<Byte>)
    ensures AllZero(s) <==> s == Zeros(|s|)
  {
  }

  /** Value of a 4-byte little-endian field. */
  function FromLE32(b: seq<Byte>): (n: uint32)
    requires |b| == 4
  {
    b[0] as int + 0x100 * (b[1] as int + 0x100 * (b[2] as int + 0x100 * (b[3] as int)))
  }

  /** Splitting `q * 256 + r` by 256 recovers the digit and the rest. */
  lemma DivModByte(q: int, r: int)
    requires 0 <= q && 0 <= r < 0x100
    ensures (r + 0x100 * q) % 0x100 == r
    ensures (r + 0x100 * q) / 0x100 == q
  {
  }

  /** The 4-byte little-endian encoding of `n`, least significant byte first. */
  function LE32(n: uint32): (b: seq<Byte>)
    ensures |b| == 4
    ensures FromLE32(b) == n
  {
    var n1 := n / 0x100;
    var n2 := n1 / 0x100;
    var n3 := n2 / 0x100;
    assert n3 < 0x100;
    [(n % 0x100), (n1 % 0x100), (n2 % 0x100), n3]
  }

  /** Decoding a 4-byte field and encoding the value again gives the field back. */
  lemma LE32OfFromLE32(b: seq<Byte>)
    requires |b| == 4
    ensures LE32(FromLE32(b)) == b
  {
    var x0, x1, x2, x3: int := b[0], b[1], b[2], b[3];
    var n2 := x2 + 0x100 * x3;
    var n1 := x1 + 0x100 * n2;
    var n := x0 + 0x100 * n1;
    assert n == FromLE32(b);
    DivModByte(n1, x0);
    DivModByte(n2, x1);
    DivModByte(x3, x2);
  }

  /** A value below 256 occupies the first byte alone. */
  lemma LE32OneByte(n: uint32)
    requires n < 0x100
    ensures LE32(n) == [n, 0, 0, 0]
  {
  }
}
