/**
 * UTF-8 well-formedness as Rust's `String::from_utf8` checks it: the
 * well-formed byte sequences of Table 3-7 of the Unicode Standard (no
 * overlong forms, no surrogates, nothing above U+10FFFF).
 */
module Utf8 {
  import opened Wrappers
  import opened Bytes

  /** True when `b` is a continuation byte in `lo..hi` (inclusive). */
  predicate InRange(b: Byte, lo: Byte, hi: Byte) {
    lo <= b <= hi
  }

  /** The range the second byte of a multi-byte sequence may take, given its lead byte. */
  function SecondLow(lead: Byte): Byte {
    if lead == 0xE0 then 0xA0 else if lead == 0xF0 then 0x90 else 0x80
  }

  function SecondHigh(lead: Byte): Byte {
    if lead == 0xED then 0x9F else if lead == 0xF4 then 0x8F else 0xBF
  }

  /**
   * The length of the well-formed sequence that `s` starts with, or 0 when
   * `s` does not start with one.
   */
  function SequenceLength(s: seq<Byte>): (n: nat)
    requires |s| > 0
    ensures n <= 4 && n <= |s|
    ensures n == 1 <==> s[0] < 0x80
  {
    var lead := s[0];
    var width :=
      if lead < 0x80 then 1
      else if 0xC2 <= lead <= 0xDF then 2
      else if 0xE0 <= lead <= 0xEF then 3
      else if 0xF0 <= lead <= 0xF4 then 4
      else 0;
    if width == 0 || |s| < width then 0
    else if width == 1 then 1
    else if !InRange(s[1], SecondLow(lead), SecondHigh(lead)) then 0
    else if width >= 3 && !InRange(s[2], 0x80, 0xBF) then 0
    else if width == 4 && !InRange(s[3], 0x80, 0xBF) then 0
    else width
  }

  /** True when `s` is a concatenation of well-formed UTF-8 sequences. */
  predicate ValidUtf8(s: seq<Byte>)
    decreases |s|
  {
    s == [] || (SequenceLength(s) > 0 && ValidUtf8(s[SequenceLength(s)..]))
  }

  /** The bytes of a Rust `String`: always valid UTF-8. */
  type Text = s: seq<Byte> | ValidUtf8(s) witness []

  /** `String::from_utf8(bytes).ok()`: the text when the bytes are valid UTF-8. */
  function FromUtf8(bytes: seq<Byte>): (r: Option<Text>)
    ensures r.Some? <==> ValidUtf8(bytes)
    ensures r.Some? ==> r.value == bytes
  {
    if ValidUtf8(bytes) then Some(bytes) else None
  }

  // ---------------------------------------------- scalar values and their encoding

  /** A Unicode scalar value: a code point that is not a surrogate. */
  predicate IsScalar(cp: int) {
    0 <= cp <= 0x10FFFF && !(0xD800 <= cp <= 0xDFFF)
  }

  type Scalar = cp: int | IsScalar(cp)

  /** The UTF-8 form of a scalar value: its bits spread over 1 to 4 bytes. */
  function EncodeScalar(cp: Scalar): (s: seq<Byte>)
    ensures 1 <= |s| <= 4
  {
    assert IsScalar(cp);
    var low: Byte := 0x80 + cp % 0x40;
    var mid: Byte := 0x80 + cp / 0x40 % 0x40;
    var high: Byte := 0x80 + cp / 0x1000 % 0x40;
    if cp < 0x80 then [cp as Byte]
    else if cp < 0x800 then [(0xC0 + cp / 0x40) as Byte, low]
    else if cp < 0x1_0000 then [(0xE0 + cp / 0x1000) as Byte, mid, low]
    else [(0xF0 + cp / 0x4_0000) as Byte, high, mid, low]
  }

  /**
   * The form of every scalar value is a well-formed sequence, and it is
   * recognised as one whole character whatever bytes follow it.
   */
  lemma EncodeScalarWellFormed(cp: Scalar, more: seq<Byte>)
    ensures SequenceLength(EncodeScalar(cp) + more) == |EncodeScalar(cp)|
  {
    assert IsScalar(cp);
    var e := EncodeScalar(cp);
    var s := e + more;
    assert s[..|e|] == e;
    if 0x800 <= cp < 0x1_0000 {
      var c1 := cp / 0x40;
      assert s[0] == 0xE0 + cp / 0x1000 && s[1] == 0x80 + c1 % 0x40;
      if cp < 0x1000 {
        assert c1 % 0x40 == c1 >= 0x20;
      } else if cp / 0x1000 == 0xD {
        assert 0x340 <= c1 < 0x360;
        assert c1 % 0x40 == c1 - 0x340;
      }
    } else if cp >= 0x1_0000 {
      var c2 := cp / 0x1000;
      assert s[0] == 0xF0 + cp / 0x4_0000 && s[1] == 0x80 + c2 % 0x40;
      if cp < 0x4_0000 {
        assert c2 % 0x40 == c2 >= 0x10;
      } else if cp / 0x4_0000 == 4 {
        assert 0x100 <= c2 < 0x110;
        assert c2 % 0x40 == c2 - 0x100;
      }
    }
  }

  /** The six payload bits of a continuation byte. */
  function Low6(b: Byte): int {
    b as int - 0x80
  }

  /** The value a two-byte sequence denotes. */
  function TwoByteValue(s: seq<Byte>): int
    requires |s| >= 2
  {
    (s[0] as int - 0xC0) * 0x40 + Low6(s[1])
  }

  /** The value a three-byte sequence denotes. */
  function ThreeByteValue(s: seq<Byte>): int
    requires |s| >= 3
  {
    (s[0] as int - 0xE0) * 0x1000 + Low6(s[1]) * 0x40 + Low6(s[2])
  }

  /** The value a four-byte sequence denotes. */
  function FourByteValue(s: seq<Byte>): int
    requires |s| >= 4
  {
    (s[0] as int - 0xF0) * 0x4_0000 + Low6(s[1]) * 0x1000 + Low6(s[2]) * 0x40 + Low6(s[3])
  }

  /** The well-formed two-byte sequences are exactly the forms of U+0080..U+07FF. */
  lemma DecodeTwo(s: seq<Byte>)
    requires |s| >= 2 && SequenceLength(s) == 2
    ensures IsScalar(TwoByteValue(s)) && EncodeScalar(TwoByteValue(s)) == s[..2]
  {
    var cp := TwoByteValue(s);
    assert cp / 0x40 == s[0] as int - 0xC0 && cp % 0x40 == Low6(s[1]);
  }

  /** The well-formed three-byte sequences are exactly the forms of U+0800..U+FFFF less the surrogates. */
  lemma DecodeThree(s: seq<Byte>)
    requires |s| >= 3 && SequenceLength(s) == 3
    ensures IsScalar(ThreeByteValue(s)) && EncodeScalar(ThreeByteValue(s)) == s[..3]
  {
    var cp := ThreeByteValue(s);
    var c1 := (s[0] as int - 0xE0) * 0x40 + Low6(s[1]);
    assert cp == c1 * 0x40 + Low6(s[2]);
    assert cp / 0x40 == c1 && cp % 0x40 == Low6(s[2]);
    assert c1 % 0x40 == Low6(s[1]);
    assert cp / 0x1000 == s[0] as int - 0xE0;
  }

  /** The well-formed four-byte sequences are exactly the forms of U+10000..U+10FFFF. */
  lemma DecodeFour(s: seq<Byte>)
    requires |s| >= 4 && SequenceLength(s) == 4
    ensures IsScalar(FourByteValue(s)) && EncodeScalar(FourByteValue(s)) == s[..4]
  {
    var cp := FourByteValue(s);
    var c2 := (s[0] as int - 0xF0) * 0x40 + Low6(s[1]);
    var c1 := c2 * 0x40 + Low6(s[2]);
    assert cp == c1 * 0x40 + Low6(s[3]);
    assert cp / 0x40 == c1 && cp % 0x40 == Low6(s[3]);
    assert c1 % 0x40 == Low6(s[2]);
    assert cp / 0x1000 == c2 && c2 % 0x40 == Low6(s[1]);
    assert cp / 0x4_0000 == s[0] as int - 0xF0;
  }

  /**
   * The scalar value a well-formed sequence denotes: the sequence is exactly
   * that value's UTF-8 form, so Table 3-7 admits nothing else.
   */
  function DecodeScalar(s: seq<Byte>): (cp: Scalar)
    requires |s| > 0 && SequenceLength(s) > 0
    ensures EncodeScalar(cp) == s[..SequenceLength(s)]
  {
    var n := SequenceLength(s);
    if n == 1 then
      assert EncodeScalar(s[0]) == s[..1];
      s[0]
    else if n == 2 then
      DecodeTwo(s);
      TwoByteValue(s)
    else if n == 3 then
      DecodeThree(s);
      ThreeByteValue(s)
    else
      DecodeFour(s);
      FourByteValue(s)
  }

  /** The UTF-8 form of a string of scalar values: their forms end to end. */
  function EncodeScalars(cps: seq<Scalar>): (s: seq<Byte>)
    ensures |s| >= |cps|
  {
    if cps == [] then [] else EncodeScalar(cps[0]) + EncodeScalars(cps[1..])
  }

  /** Encoding one more scalar value in front puts its UTF-8 form in front. */
  lemma EncodeScalarsCons(head: Scalar, tail: seq<Scalar>)
    ensures EncodeScalars([head] + tail) == EncodeScalar(head) + EncodeScalars(tail)
  {
    assert ([head] + tail)[1..] == tail;
  }

  /** Every string of scalar values encodes to valid UTF-8. */
  lemma {:induction false} EncodeScalarsValid(cps: seq<Scalar>)
    ensures ValidUtf8(EncodeScalars(cps))
  {
    if cps != [] {
      var head := EncodeScalar(cps[0]);
      var tail := EncodeScalars(cps[1..]);
      EncodeScalarWellFormed(cps[0], tail);
      assert (head + tail)[|head|..] == tail;
      EncodeScalarsValid(cps[1..]);
    }
  }

  /** The scalar values valid UTF-8 denotes; encoding them gives the bytes back. */
  function DecodeScalars(s: seq<Byte>): (cps: seq<Scalar>)
    requires ValidUtf8(s)
    ensures EncodeScalars(cps) == s
    decreases |s|
  {
    if s == [] then []
    else
      var n := SequenceLength(s);
      var head := DecodeScalar(s);
      var tail := DecodeScalars(s[n..]);
      EncodeScalarsCons(head, tail);
      assert s == s[..n] + s[n..];
      [head] + tail
  }

  /**
   * `String::from_utf8` accepts exactly the UTF-8 forms of strings of
   * scalar values.
   */
  lemma FromUtf8Characterization(bytes: seq<Byte>)
    ensures FromUtf8(bytes).Some? <==> exists cps: seq<Scalar> :: EncodeScalars(cps) == bytes
  {
    if ValidUtf8(bytes) {
      var cps := DecodeScalars(bytes);
      assert EncodeScalars(cps) == bytes;
    } else {
      forall cps: seq<Scalar> ensures EncodeScalars(cps) != bytes {
        EncodeScalarsValid(cps);
      }
    }
  }
}
