/**
 * A strict UTF-8 decoder and the round-trip lemmas that tie it to the
 * encoder: they state what `from_utf8_unchecked` needs of the buffer the
 * macro builds, that it is valid UTF-8 and reads back as the input.
 */
module Utf8Decode {
  import opened Wrappers
  import opened Utf8

  /** The least code point an n-byte form may carry; a smaller one is overlong. */
  function MinCode(n: nat): bv32
    requires 1 <= n <= 4
  {
    if n == 1 then 0 else if n == 2 then 0x80 else if n == 3 then 0x800 else 0x1_0000
  }

  /** The payload bits of a form, put back together without their tags. */
  function Payload(b: seq<bv8>): bv32
    requires 1 <= |b| <= 4
  {
    if |b| == 1 then b[0] as bv32
    else if |b| == 2 then Payload2(b[0], b[1])
    else if |b| == 3 then Payload3(b[0], b[1], b[2])
    else Payload4(b[0], b[1], b[2], b[3])
  }

  function Payload2(b0: bv8, b1: bv8): bv32 {
    ((b0 & 0x1F) as bv32 << 6) | (b1 & 0x3F) as bv32
  }

  function Payload3(b0: bv8, b1: bv8, b2: bv8): bv32 {
    ((b0 & 0x0F) as bv32 << 12) | ((b1 & 0x3F) as bv32 << 6) | (b2 & 0x3F) as bv32
  }

  function Payload4(b0: bv8, b1: bv8, b2: bv8, b3: bv8): bv32 {
    ((b0 & 0x07) as bv32 << 18) | ((b1 & 0x3F) as bv32 << 12)
    | ((b2 & 0x3F) as bv32 << 6) | (b3 & 0x3F) as bv32
  }

  /**
   * One form whose lead byte announces its length: the scalar value it
   * carries, or None for a bad continuation byte, an overlong form, a
   * surrogate or a value above U+10FFFF.
   */
  function DecodeScalar(b: seq<bv8>): Option<Scalar>
    requires 1 <= |b| <= 4 && LeadLen(b[0]) == |b|
  {
    var v := Payload(b);
    if (forall k :: 1 <= k < |b| ==> IsContinuation(b[k]))
       && MinCode(|b|) <= v && v <= 0x10FFFF && !(0xD800 <= v <= 0xDFFF)
    then Some(v)
    else None
  }

  /** Strict UTF-8 decoding of a whole byte sequence. */
  function Decode(bytes: seq<bv8>): (r: Option<seq<Scalar>>)
    ensures r.Some? ==> |r.value| <= |bytes| <= 4 * |r.value|
    decreases |bytes|
  {
    if bytes == [] then Some([])
    else
      var n := LeadLen(bytes[0]);
      if n == 0 || |bytes| < n then None
      else
        match DecodeScalar(bytes[..n])
        case None => None
        case Some(c) =>
          match Decode(bytes[n..])
          case None => None
          case Some(rest) => Some([c] + rest)
  }

  /**
   * The masks keep payload and tag bits apart: the payload fields of the form
   * the macro writes for `c` put back together give `c` (one lemma per length).
   */
  lemma Payload2Inverts(c: bv32)
    requires 0x80 <= c < 0x800
    ensures Payload2(((c >> 6) & 0x1F) as bv8 | TagTwoB, (c & 0x3F) as bv8 | TagCont) == c
  {
  }

  lemma Payload3Inverts(c: bv32)
    requires 0x800 <= c < 0x1_0000
    ensures Payload3(((c >> 12) & 0x0F) as bv8 | TagThreeB, ((c >> 6) & 0x3F) as bv8 | TagCont,
                     (c & 0x3F) as bv8 | TagCont) == c
  {
  }

  lemma Payload4Inverts(c: bv32)
    requires 0x1_0000 <= c <= 0x10FFFF
    ensures Payload4(((c >> 18) & 0x07) as bv8 | TagFourB, ((c >> 12) & 0x3F) as bv8 | TagCont,
                     ((c >> 6) & 0x3F) as bv8 | TagCont, (c & 0x3F) as bv8 | TagCont) == c
  {
  }

  /** The form of one scalar value decodes back to it. */
  lemma DecodeEncodeChar(c: Scalar)
    ensures LeadLen(EncodeChar(c)[0]) == |EncodeChar(c)|
    ensures DecodeScalar(EncodeChar(c)) == Some(c)
  {
    if c < 0x80 {
      Encoded1(c);
    } else if c < 0x800 {
      Encoded2(c);
    } else if c < 0x1_0000 {
      Encoded3(c);
    } else {
      Encoded4(c);
    }
  }

  // DecodeEncodeChar for each length of form.

  lemma Encoded1(c: Scalar)
    requires c < 0x80
    ensures LeadLen(EncodeChar(c)[0]) == |EncodeChar(c)| && DecodeScalar(EncodeChar(c)) == Some(c)
  {
    assert EncodeChar(c) == Form1(c);
  }

  lemma Encoded2(c: Scalar)
    requires 0x80 <= c < 0x800
    ensures LeadLen(EncodeChar(c)[0]) == |EncodeChar(c)| && DecodeScalar(EncodeChar(c)) == Some(c)
  {
    assert EncodeChar(c) == Form2(c);
    Payload2Inverts(c);
  }

  lemma Encoded3(c: Scalar)
    requires 0x800 <= c < 0x1_0000
    ensures LeadLen(EncodeChar(c)[0]) == |EncodeChar(c)| && DecodeScalar(EncodeChar(c)) == Some(c)
  {
    assert EncodeChar(c) == Form3(c);
    Payload3Inverts(c);
  }

  lemma Encoded4(c: Scalar)
    requires 0x1_0000 <= c
    ensures LeadLen(EncodeChar(c)[0]) == |EncodeChar(c)| && DecodeScalar(EncodeChar(c)) == Some(c)
  {
    assert EncodeChar(c) == Form4(c);
    Payload4Inverts(c);
  }

  /**
   * A correctly tagged form whose value is not overlong is what the encoder
   * writes for that value (one lemma per length).
   */
  lemma Reencode2(b0: bv8, b1: bv8)
    requires LeadLen(b0) == 2 && IsContinuation(b1) && 0x80 <= Payload2(b0, b1)
    ensures Payload2(b0, b1) < 0x800 && EncodeChar(Payload2(b0, b1)) == [b0, b1]
  {
    var c: Scalar := Payload2(b0, b1);
    Payload2Fields(b0, b1);
    assert EncodeChar(c) == Form2(c);
  }

  lemma Reencode3(b0: bv8, b1: bv8, b2: bv8)
    requires LeadLen(b0) == 3 && IsContinuation(b1) && IsContinuation(b2)
    requires 0x800 <= Payload3(b0, b1, b2) && !(0xD800 <= Payload3(b0, b1, b2) <= 0xDFFF)
    ensures Payload3(b0, b1, b2) < 0x1_0000 && EncodeChar(Payload3(b0, b1, b2)) == [b0, b1, b2]
  {
    var c: Scalar := Payload3(b0, b1, b2);
    Payload3Fields(b0, b1, b2);
    assert EncodeChar(c) == Form3(c);
  }

  lemma Reencode4(b0: bv8, b1: bv8, b2: bv8, b3: bv8)
    requires LeadLen(b0) == 4 && IsContinuation(b1) && IsContinuation(b2) && IsContinuation(b3)
    requires 0x1_0000 <= Payload4(b0, b1, b2, b3) <= 0x10FFFF
    ensures EncodeChar(Payload4(b0, b1, b2, b3)) == [b0, b1, b2, b3]
  {
    var c: Scalar := Payload4(b0, b1, b2, b3);
    Payload4Fields(b0, b1, b2, b3);
    Form4Fields(c, b0, b1, b2, b3);
    EncodeChar4(c);
  }

  /**
   * Re-tagging the payload fields of a correctly tagged form gives back its
   * bytes, and the value fits the form (one lemma per length).
   */
  lemma Payload2Fields(b0: bv8, b1: bv8)
    requires LeadLen(b0) == 2 && IsContinuation(b1)
    ensures var c := Payload2(b0, b1);
      c < 0x800
      && ((c >> 6) & 0x1F) as bv8 | TagTwoB == b0
      && (c & 0x3F) as bv8 | TagCont == b1
  {
  }

  lemma Payload3Fields(b0: bv8, b1: bv8, b2: bv8)
    requires LeadLen(b0) == 3 && IsContinuation(b1) && IsContinuation(b2)
    ensures var c := Payload3(b0, b1, b2);
      c < 0x1_0000
      && ((c >> 12) & 0x0F) as bv8 | TagThreeB == b0
      && ((c >> 6) & 0x3F) as bv8 | TagCont == b1
      && (c & 0x3F) as bv8 | TagCont == b2
  {
  }

  lemma Payload4Fields(b0: bv8, b1: bv8, b2: bv8, b3: bv8)
    requires LeadLen(b0) == 4 && IsContinuation(b1) && IsContinuation(b2) && IsContinuation(b3)
    ensures var c := Payload4(b0, b1, b2, b3);
      c < 0x20_0000
      && ((c >> 18) & 0x07) as bv8 | TagFourB == b0
      && ((c >> 12) & 0x3F) as bv8 | TagCont == b1
      && ((c >> 6) & 0x3F) as bv8 | TagCont == b2
      && (c & 0x3F) as bv8 | TagCont == b3
  {
  }

  lemma Form4Fields(c: bv32, b0: bv8, b1: bv8, b2: bv8, b3: bv8)
    requires ((c >> 18) & 0x07) as bv8 | TagFourB == b0
    requires ((c >> 12) & 0x3F) as bv8 | TagCont == b1
    requires ((c >> 6) & 0x3F) as bv8 | TagCont == b2
    requires (c & 0x3F) as bv8 | TagCont == b3
    ensures Form4(c) == [b0, b1, b2, b3]
  {
  }

  lemma EncodeChar4(c: Scalar)
    requires 0x1_0000 <= c
    ensures EncodeChar(c) == Form4(c)
  {
  }

  /** A form the decoder accepts is the one the encoder writes for its value. */
  lemma EncodeDecodeChar(b: seq<bv8>)
    requires 1 <= |b| <= 4 && LeadLen(b[0]) == |b|
    requires DecodeScalar(b).Some?
    ensures EncodeChar(DecodeScalar(b).value) == b
  {
    Literal(b);
    if |b| == 1 {
      Decoded1(b);
    } else if |b| == 2 {
      Decoded2(b);
    } else if |b| == 3 {
      Decoded3(b);
    } else {
      Decoded4(b);
    }
  }

  // EncodeDecodeChar for each length: the decoded value re-encodes to the listed bytes.

  lemma Decoded1(b: seq<bv8>)
    requires |b| == 1 && LeadLen(b[0]) == 1 && DecodeScalar(b).Some?
    ensures EncodeChar(DecodeScalar(b).value) == [b[0]]
  {
    var c := DecodeScalar(b).value;
    assert c == b[0] as bv32 && c < 0x80;
    assert EncodeChar(c) == Form1(c);
  }

  lemma Decoded2(b: seq<bv8>)
    requires |b| == 2 && LeadLen(b[0]) == 2 && DecodeScalar(b).Some?
    ensures EncodeChar(DecodeScalar(b).value) == [b[0], b[1]]
  {
    assert DecodeScalar(b).value == Payload2(b[0], b[1]);
    assert IsContinuation(b[1]);
    Reencode2(b[0], b[1]);
  }

  lemma Decoded3(b: seq<bv8>)
    requires |b| == 3 && LeadLen(b[0]) == 3 && DecodeScalar(b).Some?
    ensures EncodeChar(DecodeScalar(b).value) == [b[0], b[1], b[2]]
  {
    assert DecodeScalar(b).value == Payload3(b[0], b[1], b[2]);
    assert IsContinuation(b[1]) && IsContinuation(b[2]);
    Reencode3(b[0], b[1], b[2]);
  }

  lemma Decoded4(b: seq<bv8>)
    requires |b| == 4 && LeadLen(b[0]) == 4 && DecodeScalar(b).Some?
    ensures EncodeChar(DecodeScalar(b).value) == [b[0], b[1], b[2], b[3]]
  {
    assert DecodeScalar(b).value == Payload4(b[0], b[1], b[2], b[3]);
    assert IsContinuation(b[1]) && IsContinuation(b[2]) && IsContinuation(b[3]);
    Reencode4(b[0], b[1], b[2], b[3]);
  }

  /** A short sequence is the display of its elements. */
  lemma Literal<T>(b: seq<T>)
    requires 1 <= |b| <= 4
    ensures |b| == 1 ==> [b[0]] == b
    ensures |b| == 2 ==> [b[0], b[1]] == b
    ensures |b| == 3 ==> [b[0], b[1], b[2]] == b
    ensures |b| == 4 ==> [b[0], b[1], b[2], b[3]] == b
  {
  }

  /** Round trip: the encoding of any scalar sequence decodes to exactly that sequence. */
  lemma {:induction false} DecodeEncode(s: seq<Scalar>)
    ensures Decode(Encode(s)) == Some(s)
  {
    if s != [] {
      var head, tail := EncodeChar(s[0]), Encode(s[1..]);
      var bytes := Encode(s);
      assert bytes == head + tail;
      DecodeEncodeChar(s[0]);
      assert bytes[0] == head[0];
      assert bytes[..|head|] == head;
      assert bytes[|head|..] == tail;
      DecodeEncode(s[1..]);
      assert [s[0]] + s[1..] == s;
    }
  }

  /**
   * The other way round: a byte sequence the decoder accepts is the encoding
   * of what it decodes to, so every scalar sequence has exactly one UTF-8
   * form and it is the one the encoder produces (there are no overlong forms).
   */
  lemma {:induction false} EncodeDecode(bytes: seq<bv8>)
    requires Decode(bytes).Some?
    ensures Encode(Decode(bytes).value) == bytes
    decreases |bytes|
  {
    if bytes != [] {
      DecodeCons(bytes);
      var n := LeadLen(bytes[0]);
      EncodeDecodeChar(bytes[..n]);
      EncodeDecode(bytes[n..]);
      EncodeCons(DecodeScalar(bytes[..n]).value, Decode(bytes[n..]).value);
      SplitJoin(bytes, n);
    }
  }

  lemma SplitJoin(bytes: seq<bv8>, n: nat)
    requires n <= |bytes|
    ensures bytes[..n] + bytes[n..] == bytes
  {
  }

  /** One step of the decoder: a decodable sequence starts with one decodable form. */
  lemma DecodeCons(bytes: seq<bv8>)
    requires bytes != [] && Decode(bytes).Some?
    ensures var n := LeadLen(bytes[0]);
      1 <= n <= |bytes| && LeadLen(bytes[..n][0]) == n
      && DecodeScalar(bytes[..n]).Some? && Decode(bytes[n..]).Some?
      && Decode(bytes).value == [DecodeScalar(bytes[..n]).value] + Decode(bytes[n..]).value
  {
  }

  /** Different scalar sequences never share an encoding. */
  lemma EncodeInjective(s: seq<Scalar>, t: seq<Scalar>)
    requires Encode(s) == Encode(t)
    ensures s == t
  {
    DecodeEncode(s);
    DecodeEncode(t);
  }

  /** The decoder's one-character case, as the single-char doc example reads it. */
  lemma DecodeSingle(c: Scalar)
    ensures Decode(EncodeChar(c)) == Some([c])
  {
    var s := [c];
    assert s[1..] == [];
    assert Encode(s) == EncodeChar(c) + Encode(s[1..]);
    assert Encode(s) == EncodeChar(c);
    DecodeEncode(s);
  }
}
