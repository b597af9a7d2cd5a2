/**
 * Octets, the two fixed integer widths of the wire format, and big-endian
 * conversion between unsigned integers and byte sequences (Rust's
 * `to_be_bytes` / `from_be_bytes`).
 */
module Bytes {

  /** An octet, Rust's `u8`. */
  type Byte = b: int | 0 <= b < 256

  /** Width in bytes of the frame's length prefix, a `u32`. */
  const LENGTH_WIDTH: nat := 4

  /** Width in bytes of an identifier: `usize` on a 64-bit target. */
  const ID_WIDTH: nat := 8

  /** 2^32: the values a `u32` can hold. */
  const U32_LIMIT: nat := 0x1_0000_0000

  /** An identifier, Rust's `usize` on a 64-bit target. */
  type Usize = x: int | 0 <= x < 0x1_0000_0000_0000_0000

  /** 256^n: the number of values an n-byte unsigned integer can hold. */
  function Pow256(n: nat): (p: nat)
    ensures p > 0
  {
    if n == 0 then 1 else 256 * Pow256(n - 1)
  }

  /** The two widths the protocol uses hold exactly a `u32` and a 64-bit `usize`. */
  lemma WidthLimits()
    ensures Pow256(LENGTH_WIDTH) == U32_LIMIT
    ensures Pow256(ID_WIDTH) == 0x1_0000_0000_0000_0000
  {
  }

  /** The `width` bytes of `x`, most significant first. */
  function ToBigEndian(x: nat, width: nat): (r: seq<Byte>)
    requires x < Pow256(width)
    ensures |r| == width
  {
    if width == 0 then [] else ToBigEndian(x / 256, width - 1) + [x % 256]
  }

  /** The unsigned integer whose bytes, most significant first, are `s`. */
  function FromBigEndian(s: seq<Byte>): (r: nat)
    ensures r < Pow256(|s|)
  {
    if s == [] then 0 else FromBigEndian(s[..|s| - 1]) * 256 + s[|s| - 1]
  }

  /** Reading back the bytes of `x` gives `x`. */
  lemma {:induction false} FromToBigEndian(x: nat, width: nat)
    requires x < Pow256(width)
    ensures FromBigEndian(ToBigEndian(x, width)) == x
  {
    if width > 0 {
      var init := ToBigEndian(x / 256, width - 1);
      var s := init + [x % 256];
      assert s[..|s| - 1] == init;
      FromToBigEndian(x / 256, width - 1);
    }
  }

  /** Every byte sequence is the big-endian form of the integer it denotes. */
  lemma {:induction false} ToFromBigEndian(s: seq<Byte>)
    ensures ToBigEndian(FromBigEndian(s), |s|) == s
  {
    if s != [] {
      var init := s[..|s| - 1];
      var v := FromBigEndian(s);
      assert v / 256 == FromBigEndian(init) && v % 256 == s[|s| - 1];
      ToFromBigEndian(init);
      assert s == init + [s[|s| - 1]];
    }
  }

  /** The big-endian form of an identifier. */
  function IdBytes(id: Usize): (r: seq<Byte>)
    ensures |r| == ID_WIDTH
    ensures FromBigEndian(r) == id
  {
    WidthLimits();
    FromToBigEndian(id, ID_WIDTH);
    ToBigEndian(id, ID_WIDTH)
  }

  /** The identifier held by `ID_WIDTH` bytes, most significant first. */
  function ReadId(s: seq<Byte>): (id: Usize)
    requires |s| == ID_WIDTH
    ensures IdBytes(id) == s
  {
    WidthLimits();
    ToFromBigEndian(s);
    FromBigEndian(s)
  }
}
