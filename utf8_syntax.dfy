/**
 * The syntax of UTF-8 byte sequences in section 4 of RFC 3629, written
 * directly as byte ranges, and its agreement with the decoder: a byte
 * sequence is well formed exactly when the strict decoder accepts it. The
 * grammar is independent of the tag and mask arithmetic, so it is a second
 * witness that the buffer handed to `from_utf8_unchecked` is valid UTF-8.
 */
module Utf8Syntax {
  import opened Utf8
  import opened Utf8Decode

  /** UTF8-tail = %x80-BF */
  predicate IsTail(b: bv8) {
    0x80 <= b <= 0xBF
  }

  /** UTF8-1 = %x00-7F */
  predicate WellFormed1(b0: bv8) {
    b0 <= 0x7F
  }

  /** UTF8-2 = %xC2-DF UTF8-tail */
  predicate WellFormed2(b0: bv8, b1: bv8) {
    0xC2 <= b0 <= 0xDF && IsTail(b1)
  }

  /** UTF8-3 = %xE0 %xA0-BF UTF8-tail / %xE1-EC 2( UTF8-tail ) / %xED %x80-9F UTF8-tail / %xEE-EF 2( UTF8-tail ) */
  predicate WellFormed3(b0: bv8, b1: bv8, b2: bv8) {
    ((b0 == 0xE0 && 0xA0 <= b1 <= 0xBF)
     || (0xE1 <= b0 <= 0xEC && IsTail(b1))
     || (b0 == 0xED && 0x80 <= b1 <= 0x9F)
     || (0xEE <= b0 <= 0xEF && IsTail(b1)))
    && IsTail(b2)
  }

  /** UTF8-4 = %xF0 %x90-BF 2( UTF8-tail ) / %xF1-F3 3( UTF8-tail ) / %xF4 %x80-8F 2( UTF8-tail ) */
  predicate WellFormed4(b0: bv8, b1: bv8, b2: bv8, b3: bv8) {
    ((b0 == 0xF0 && 0x90 <= b1 <= 0xBF)
     || (0xF1 <= b0 <= 0xF3 && IsTail(b1))
     || (b0 == 0xF4 && 0x80 <= b1 <= 0x8F))
    && IsTail(b2) && IsTail(b3)
  }

  /** UTF8-char = UTF8-1 / UTF8-2 / UTF8-3 / UTF8-4 */
  predicate WellFormedChar(b: seq<bv8>) {
    (|b| == 1 && WellFormed1(b[0]))
    || (|b| == 2 && WellFormed2(b[0], b[1]))
    || (|b| == 3 && WellFormed3(b[0], b[1], b[2]))
    || (|b| == 4 && WellFormed4(b[0], b[1], b[2], b[3]))
  }

  /** UTF8-octets = *( UTF8-char ) */
  ghost predicate WellFormed(bytes: seq<bv8>)
    decreases |bytes|
  {
    bytes == []
    || exists n :: 1 <= n <= |bytes| && WellFormedChar(bytes[..n]) && WellFormed(bytes[n..])
  }

  lemma WellFormed2Iff(b0: bv8, b1: bv8)
    ensures WellFormed2(b0, b1)
        <==> LeadLen(b0) == 2 && IsContinuation(b1) && 0x80 <= Payload2(b0, b1)
  {
  }

  lemma WellFormed3Iff(b0: bv8, b1: bv8, b2: bv8)
    ensures WellFormed3(b0, b1, b2)
        <==> LeadLen(b0) == 3 && IsContinuation(b1) && IsContinuation(b2)
             && 0x800 <= Payload3(b0, b1, b2) && !(0xD800 <= Payload3(b0, b1, b2) <= 0xDFFF)
  {
  }

  lemma WellFormed4Iff(b0: bv8, b1: bv8, b2: bv8, b3: bv8)
    ensures WellFormed4(b0, b1, b2, b3)
        <==> LeadLen(b0) == 4 && IsContinuation(b1) && IsContinuation(b2) && IsContinuation(b3)
             && 0x1_0000 <= Payload4(b0, b1, b2, b3) <= 0x10FFFF
  {
    // The plane number and the top of the plane offset, from the first two bytes.
    var high := ((b0 & 0x07) as bv32 << 6) | (b1 & 0x3F) as bv32;
    var v := Payload4(b0, b1, b2, b3);
    assert v >> 12 == high;
    assert (0x1_0000 <= v <= 0x10FFFF) <==> (0x10 <= high <= 0x10F);
  }

  /** One character: the grammar and the decoder accept the same forms. */
  lemma WellFormedCharIffDecodes(b: seq<bv8>)
    requires 1 <= |b| <= 4
    ensures WellFormedChar(b) <==> LeadLen(b[0]) == |b| && DecodeScalar(b).Some?
  {
    if |b| == 2 {
      WellFormed2Iff(b[0], b[1]);
    } else if |b| == 3 {
      WellFormed3Iff(b[0], b[1], b[2]);
    } else if |b| == 4 {
      WellFormed4Iff(b[0], b[1], b[2], b[3]);
    }
  }

  /** A byte sequence is valid UTF-8 by the grammar exactly when the decoder accepts it. */
  lemma {:induction false} WellFormedIffDecodes(bytes: seq<bv8>)
    ensures WellFormed(bytes) <==> Decode(bytes).Some?
    decreases |bytes|
  {
    if bytes != [] {
      if WellFormed(bytes) {
        var n :| 1 <= n <= |bytes| && WellFormedChar(bytes[..n]) && WellFormed(bytes[n..]);
        assert n <= 4;
        WellFormedCharIffDecodes(bytes[..n]);
        assert bytes[..n][0] == bytes[0];
        WellFormedIffDecodes(bytes[n..]);
      }
      if Decode(bytes).Some? {
        var n := LeadLen(bytes[0]);
        assert bytes[..n][0] == bytes[0];
        WellFormedCharIffDecodes(bytes[..n]);
        WellFormedIffDecodes(bytes[n..]);
      }
    }
  }

  /** The encoder's output is well formed by the grammar. */
  lemma EncodeWellFormed(s: seq<Scalar>)
    ensures WellFormed(Encode(s))
  {
    DecodeEncode(s);
    WellFormedIffDecodes(Encode(s));
  }
}
