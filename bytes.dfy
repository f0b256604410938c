/**
 * Byte-level encodings used by the GDF writer: the little-endian integers that
 * `struct.pack('i', ...)` and `struct.pack('B', ...)` produce on the little-endian
 * machines GPT runs on, and IEEE-754 doubles, which the model carries as their
 * 64-bit patterns so that no floating-point arithmetic enters the proofs.
 */
module Bytes {

  newtype byte = x: int | 0 <= x < 256

  function Pow256(n: nat): (r: nat)
    ensures r > 0
  {
    if n == 0 then 1 else 256 * Pow256(n - 1)
  }

  /** The n least significant base-256 digits of u, least significant first. */
  function LittleEndian(u: nat, n: nat): (r: seq<byte>)
    ensures |r| == n
  {
    if n == 0 then [] else [(u % 256) as byte] + LittleEndian(u / 256, n - 1)
  }

  /** The number whose little-endian digits are s. */
  function FromLittleEndian(s: seq<byte>): (r: nat)
    ensures r < Pow256(|s|)
  {
    if s == [] then 0
    else
      var rest := FromLittleEndian(s[1..]);
      assert rest <= Pow256(|s| - 1) - 1;
      s[0] as nat + 256 * rest
  }

  lemma {:induction false} LittleEndianRoundTrip(u: nat, n: nat)
    requires u < Pow256(n)
    ensures FromLittleEndian(LittleEndian(u, n)) == u
  {
    if n > 0 {
      var s := LittleEndian(u, n);
      assert s[1..] == LittleEndian(u / 256, n - 1);
      assert u / 256 < Pow256(n - 1);
      LittleEndianRoundTrip(u / 256, n - 1);
    }
  }

  lemma Pow256Of4And8()
    ensures Pow256(4) == 0x1_0000_0000
    ensures Pow256(8) == 0x1_0000_0000_0000_0000
  {
    assert Pow256(2) == 0x1_0000;
    assert Pow256(4) == 0x1_0000_0000;
    assert Pow256(6) == 0x1_0000_0000_0000;
  }

  // ---------------------------------------------------------------- int32 ('i')

  /** `struct.pack('i', v)` succeeds exactly for the values of a signed 32-bit int. */
  predicate FitsInt32(v: int) {
    -0x8000_0000 <= v < 0x8000_0000
  }

  /** The four bytes of v in two's complement, least significant first. */
  function PackInt32(v: int): (r: seq<byte>)
    requires FitsInt32(v)
    ensures |r| == 4
  {
    LittleEndian(if v < 0 then v + 0x1_0000_0000 else v, 4)
  }

  function UnpackInt32(s: seq<byte>): (v: int)
    requires |s| == 4
    ensures FitsInt32(v)
  {
    Pow256Of4And8();
    var u := FromLittleEndian(s);
    if u < 0x8000_0000 then u else u - 0x1_0000_0000
  }

  lemma Int32RoundTrip(v: int)
    requires FitsInt32(v)
    ensures UnpackInt32(PackInt32(v)) == v
  {
    Pow256Of4And8();
    LittleEndianRoundTrip(if v < 0 then v + 0x1_0000_0000 else v, 4);
  }

  // ---------------------------------------------------------------- doubles ('d')

  const TWO_TO_64: nat := 0x1_0000_0000_0000_0000

  /**
   * An IEEE-754 binary64 value, represented by its bit pattern. The model does no
   * arithmetic on it: conversions and products are parameters of the operations
   * that need them.
   */
  type Double = x: nat | x < TWO_TO_64

  /** `struct.pack('d', d)`: the eight bytes of the bit pattern, least significant first. */
  function EncodeDouble(d: Double): (r: seq<byte>)
    ensures |r| == 8
  {
    LittleEndian(d, 8)
  }

  function DecodeDouble(s: seq<byte>): Double
    requires |s| == 8
  {
    Pow256Of4And8();
    FromLittleEndian(s)
  }

  lemma DoubleRoundTrip(d: Double)
    ensures DecodeDouble(EncodeDouble(d)) == d
  {
    Pow256Of4And8();
    LittleEndianRoundTrip(d, 8);
  }

  /** `struct.pack('<n>d', *ds)`: the doubles one after another. */
  function EncodeDoubles(ds: seq<Double>): (r: seq<byte>)
    ensures |r| == 8 * |ds|
  {
    if ds == [] then [] else EncodeDouble(ds[0]) + EncodeDoubles(ds[1..])
  }

  /** Reads back the doubles from a payload whose length is a multiple of eight. */
  function DecodeDoubles(s: seq<byte>): (ds: seq<Double>)
    requires |s| % 8 == 0
    ensures |ds| == |s| / 8
  {
    if s == [] then [] else [DecodeDouble(s[..8])] + DecodeDoubles(s[8..])
  }

  lemma {:induction false} EncodeDoublesAppend(a: seq<Double>, b: seq<Double>)
    ensures EncodeDoubles(a + b) == EncodeDoubles(a) + EncodeDoubles(b)
  {
    if a != [] {
      assert (a + b)[1..] == a[1..] + b;
      EncodeDoublesAppend(a[1..], b);
    } else {
      assert a + b == b;
    }
  }

  /** Decoding a double payload recovers exactly the doubles that were encoded, in order. */
  lemma {:induction false} DoublesRoundTrip(ds: seq<Double>)
    ensures DecodeDoubles(EncodeDoubles(ds)) == ds
  {
    if ds != [] {
      var s := EncodeDoubles(ds);
      assert s[..8] == EncodeDouble(ds[0]);
      assert s[8..] == EncodeDoubles(ds[1..]);
      DoubleRoundTrip(ds[0]);
      DoublesRoundTrip(ds[1..]);
    }
  }
}
