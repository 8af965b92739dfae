/**
 * Unicode scalar values and their UTF-8 encoding, as defined in section 3 of
 * RFC 3629. A Rust `char` is modelled by its `u32` value (`c as u32`), a
 * 32-bit word known to be a scalar value; bytes are 8-bit words. The bit
 * operations below are those the `chstr!` macro performs on that word.
 */
module Utf8 {

  /**
   * A scalar value: a code point that is at most U+10FFFF and not a
   * surrogate. It is the value of a `char`; Rust's type cannot hold another.
   */
  type Scalar = code: bv32 | code <= 0x10FFFF && !(0xD800 <= code <= 0xDFFF)

  // Tag bits of a continuation byte and of the three multi-byte lead bytes.
  const TagCont: bv8 := 0x80
  const TagTwoB: bv8 := 0xC0
  const TagThreeB: bv8 := 0xE0
  const TagFourB: bv8 := 0xF0

  /** `char::len_utf8`: the number of bytes of the UTF-8 form of `c`. */
  function LenUtf8(c: Scalar): (n: nat)
    ensures 1 <= n <= 4
  {
    if c < 0x80 then 1
    else if c < 0x800 then 2
    else if c < 0x1_0000 then 3
    else 4
  }

  /**
   * How many code points an n-byte form can hold: its payload is 7, 11, 16
   * or 21 bits wide.
   */
  function Capacity(n: nat): bv32
    requires 1 <= n <= 4
  {
    if n == 1 then 1 << 7
    else if n == 2 then 1 << 11
    else if n == 3 then 1 << 16
    else 1 << 21
  }

  /** Minimality: `c` fits the payload of its own length and of no shorter one. */
  lemma LenUtf8Shortest(c: Scalar)
    ensures c < Capacity(LenUtf8(c))
    ensures forall m :: 1 <= m < LenUtf8(c) ==> c >= Capacity(m)
  {
  }

  /** The UTF-8 form of one scalar value: the arm of the macro's `match` for its length. */
  function EncodeChar(c: Scalar): (bytes: seq<bv8>)
    ensures |bytes| == LenUtf8(c)
  {
    var len := LenUtf8(c);
    if len == 1 then Form1(c)
    else if len == 2 then Form2(c)
    else if len == 3 then Form3(c)
    else Form4(c)
  }

  // The bytes each arm writes for `code`, with the macro's shifts, masks and tags.

  function Form1(code: bv32): (bytes: seq<bv8>)
    requires code < 0x80
    ensures |bytes| == 1 && bytes[0] as bv32 == code
  {
    [code as bv8]
  }

  function Form2(code: bv32): (bytes: seq<bv8>)
    ensures |bytes| == 2 && bytes[0] & 0xE0 == TagTwoB && IsContinuation(bytes[1])
  {
    [ ((code >> 6) & 0x1F) as bv8 | TagTwoB,
      (code & 0x3F) as bv8 | TagCont ]
  }

  function Form3(code: bv32): (bytes: seq<bv8>)
    ensures |bytes| == 3 && bytes[0] & 0xF0 == TagThreeB
    ensures IsContinuation(bytes[1]) && IsContinuation(bytes[2])
  {
    [ ((code >> 12) & 0x0F) as bv8 | TagThreeB,
      ((code >> 6) & 0x3F) as bv8 | TagCont,
      (code & 0x3F) as bv8 | TagCont ]
  }

  function Form4(code: bv32): (bytes: seq<bv8>)
    ensures |bytes| == 4 && bytes[0] & 0xF8 == TagFourB
    ensures IsContinuation(bytes[1]) && IsContinuation(bytes[2]) && IsContinuation(bytes[3])
  {
    [ ((code >> 18) & 0x07) as bv8 | TagFourB,
      ((code >> 12) & 0x3F) as bv8 | TagCont,
      ((code >> 6) & 0x3F) as bv8 | TagCont,
      (code & 0x3F) as bv8 | TagCont ]
  }

  /** `10xxxxxx`: the form of every byte after the first. */
  predicate IsContinuation(b: bv8) {
    b & 0xC0 == TagCont
  }

  /**
   * The length a lead byte announces by its tag: `0xxxxxxx` 1, `110xxxxx` 2,
   * `1110xxxx` 3, `11110xxx` 4; 0 when the byte cannot start a character.
   */
  function LeadLen(b: bv8): (n: nat)
    ensures n <= 4
  {
    if b & 0x80 == 0 then 1
    else if b & 0xE0 == TagTwoB then 2
    else if b & 0xF0 == TagThreeB then 3
    else if b & 0xF8 == TagFourB then 4
    else 0
  }

  /**
   * Tag correctness: the first byte announces the length of the form and
   * every later byte is a continuation byte, so no payload bit lands in a tag.
   */
  lemma EncodeCharTags(c: Scalar)
    ensures LeadLen(EncodeChar(c)[0]) == LenUtf8(c)
    ensures forall k :: 1 <= k < LenUtf8(c) ==> IsContinuation(EncodeChar(c)[k])
  {
  }

  /** The length pass: the sum of `LenUtf8` over the input; zero only for no chars. */
  function TotalLen(s: seq<Scalar>): (n: nat)
    ensures n == 0 <==> s == []
  {
    if s == [] then 0 else LenUtf8(s[0]) + TotalLen(s[1..])
  }

  lemma {:induction false} TotalLenAppend(a: seq<Scalar>, b: seq<Scalar>)
    ensures TotalLen(a + b) == TotalLen(a) + TotalLen(b)
  {
    if a == [] {
      assert a + b == b;
    } else {
      assert (a + b)[1..] == a[1..] + b;
      TotalLenAppend(a[1..], b);
    }
  }

  /** Every scalar value takes between one and four bytes. */
  lemma {:induction false} TotalLenBounds(s: seq<Scalar>)
    ensures |s| <= TotalLen(s) <= 4 * |s|
  {
    if s != [] {
      TotalLenBounds(s[1..]);
    }
  }

  /** The UTF-8 encoding of a sequence of scalar values: the forms one after another. */
  function Encode(s: seq<Scalar>): (bytes: seq<bv8>)
    ensures |bytes| == TotalLen(s)
  {
    if s == [] then [] else EncodeChar(s[0]) + Encode(s[1..])
  }

  /** The encoding of a nonempty list starts with the form of its head. */
  lemma EncodeCons(c: Scalar, rest: seq<Scalar>)
    ensures Encode([c] + rest) == EncodeChar(c) + Encode(rest)
  {
    assert ([c] + rest)[1..] == rest;
  }

  lemma {:induction false} EncodeAppend(a: seq<Scalar>, b: seq<Scalar>)
    ensures Encode(a + b) == Encode(a) + Encode(b)
  {
    if a == [] {
      assert a + b == b;
    } else {
      assert (a + b)[1..] == a[1..] + b;
      EncodeAppend(a[1..], b);
    }
  }

  /** A one-element list: its length and its encoding are those of the element. */
  lemma Single(c: Scalar)
    ensures TotalLen([c]) == LenUtf8(c)
    ensures Encode([c]) == EncodeChar(c)
  {
    assert [c][1..] == [];
  }

  /** The doc example's bytes, and one scalar value for each multi-byte form length. */
  lemma EncodeExamples()
    ensures Encode([]) == []
    ensures Encode([0x61, 0x62, 0x63]) == [0x61, 0x62, 0x63]
    ensures EncodeChar(0xA2) == [0xC2, 0xA2]
    ensures EncodeChar(0x20AC) == [0xE2, 0x82, 0xAC]
    ensures EncodeChar(0x1_F600) == [0xF0, 0x9F, 0x98, 0x80]
  {
    var abc: seq<Scalar> := [0x61, 0x62, 0x63];
    assert abc[1..] == [0x62, 0x63] && abc[1..][1..] == [0x63];
  }
}
