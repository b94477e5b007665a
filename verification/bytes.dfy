/** Fixed-width integers and their byte encodings.

    Rust's `u8`, `u16`, `u32` and `i32` are modelled as subset types of the
    unbounded `int`; a value outside the range cannot be built, so every
    wrap-around the source relies on is written out where it happens.
    `bytes_of` writes fields in native byte order, which this model takes to
    be little-endian. */
module Bytes {

  type Byte = b: int | 0 <= b < 0x100
  type U16 = v: int | 0 <= v < 0x1_0000
  type U32 = v: int | 0 <= v < 0x1_0000_0000
  type I32 = v: int | -0x8000_0000 <= v < 0x8000_0000

  const U32Modulus: int := 0x1_0000_0000

  /** 256 to the power `n`: the number of values `n` bytes can hold. */
  function Pow256(n: nat): (p: nat)
    ensures p > 0
  {
    if n == 0 then 1 else 256 * Pow256(n - 1)
  }

  lemma Pow256Values()
    ensures Pow256(2) == 0x1_0000
    ensures Pow256(4) == U32Modulus
  {
    assert Pow256(1) == 256;
    assert Pow256(3) == 0x100_0000;
  }

  /** The unsigned number whose little-endian bytes are `bs`. */
  function FromLE(bs: seq<Byte>): (v: nat)
    ensures v < Pow256(|bs|)
  {
    if |bs| == 0 then 0
    else
      var rest := FromLE(bs[1..]);
      assert rest <= Pow256(|bs| - 1) - 1;
      assert 256 * rest <= 256 * Pow256(|bs| - 1) - 256;
      bs[0] + 256 * rest
  }

  /** The `n` little-endian bytes of `v`. */
  function ToLE(v: nat, n: nat): (bs: seq<Byte>)
    requires v < Pow256(n)
    ensures |bs| == n
  {
    if n == 0 then []
    else
      assert v / 256 < Pow256(n - 1);
      [v % 256] + ToLE(v / 256, n - 1)
  }

  lemma {:induction false} FromToLE(v: nat, n: nat)
    requires v < Pow256(n)
    ensures FromLE(ToLE(v, n)) == v
  {
    if n > 0 {
      var bs := ToLE(v, n);
      assert bs[1..] == ToLE(v / 256, n - 1);
      FromToLE(v / 256, n - 1);
    }
  }

  lemma {:induction false} ToFromLE(bs: seq<Byte>)
    ensures ToLE(FromLE(bs), |bs|) == bs
  {
    if |bs| > 0 {
      var v := FromLE(bs);
      assert v % 256 == bs[0] && v / 256 == FromLE(bs[1..]);
      ToFromLE(bs[1..]);
    }
  }

  /** The four bytes a `u32` field occupies in a `#[repr(C)]` struct,
      least significant first. */
  function EncodeU32(v: U32): (bs: seq<Byte>)
    ensures |bs| == 4
    ensures DecodeU32(bs) == v
  {
    EncodeU32IsLE(v);
    FromToLE(v, 4);
    var bs := ToLE(v, 4);
    DecodeU32IsLE(bs);
    [v % 0x100, v / 0x100 % 0x100, v / 0x1_0000 % 0x100, v / 0x100_0000]
  }

  function DecodeU32(bs: seq<Byte>): (v: U32)
    requires |bs| == 4
  {
    DecodeU32IsLE(bs);
    bs[0] as int + 0x100 * bs[1] as int + 0x1_0000 * bs[2] as int + 0x100_0000 * bs[3] as int
  }

  /** The explicit four-byte forms agree with the general little-endian
      codec. */
  lemma EncodeU32IsLE(v: U32)
    ensures Pow256(4) == U32Modulus
    ensures [v % 0x100, v / 0x100 % 0x100, v / 0x1_0000 % 0x100, v / 0x100_0000] == ToLE(v, 4)
  {
    Pow256Values();
    var bs := ToLE(v, 4);
    assert bs[1..] == ToLE(v / 256, 3);
    assert bs[2..] == ToLE(v / 256 / 256, 2);
    assert bs[3..] == ToLE(v / 256 / 256 / 256, 1);
  }

  lemma DecodeU32IsLE(bs: seq<Byte>)
    requires |bs| == 4
    ensures Pow256(4) == U32Modulus
    ensures bs[0] as int + 0x100 * bs[1] as int + 0x1_0000 * bs[2] as int + 0x100_0000 * bs[3] as int
      == FromLE(bs)
  {
    Pow256Values();
    assert FromLE(bs[3..]) == bs[3] by { assert bs[3..][1..] == []; }
    assert bs[2..][1..] == bs[3..] && bs[1..][1..] == bs[2..];
    var b1, b2, b3: int := bs[1], bs[2], bs[3];
    assert FromLE(bs[2..]) == b2 + 256 * b3;
    assert FromLE(bs[1..]) == b1 + 256 * (b2 + 256 * b3);
  }

  lemma DecodeEncodeU32(bs: seq<Byte>)
    requires |bs| == 4
    ensures EncodeU32(DecodeU32(bs)) == bs
  {
    EncodeU32IsLE(DecodeU32(bs));
    DecodeU32IsLE(bs);
    ToFromLE(bs);
  }

  /** Two's-complement bits of an `i32`, as `bytemuck` sees them. */
  function I32Bits(x: I32): (u: U32)
    ensures I32OfBits(u) == x
    ensures (u < 0x8000_0000) == (x >= 0)
  {
    if x >= 0 then x else x + U32Modulus
  }

  /** The `i32` whose two's-complement bits are `u`. */
  function I32OfBits(u: U32): (x: I32)
  {
    if u < 0x8000_0000 then u else u - U32Modulus
  }

  lemma I32BitsOfBits(u: U32)
    ensures I32Bits(I32OfBits(u)) == u
  {
  }

  /** `u16::to_be_bytes`: most significant byte first. */
  function U16ToBE(v: U16): (bs: seq<Byte>)
    ensures |bs| == 2
    ensures U16OfBE(bs) == v
  {
    [v / 0x100, v % 0x100]
  }

  function U16OfBE(bs: seq<Byte>): (v: U16)
    requires |bs| == 2
  {
    bs[0] as int * 0x100 + bs[1] as int
  }

  lemma U16OfBEToBE(bs: seq<Byte>)
    requires |bs| == 2
    ensures U16ToBE(U16OfBE(bs)) == bs
  {
  }
}
