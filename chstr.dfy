/**
 * The `chstr!` macro: a fixed list of scalar values becomes constant text in
 * two passes, a length pass that computes `LEN` and an encode pass that fills
 * a zeroed `[u8; LEN]` buffer at a running offset. The buffer is then taken as
 * text without validation, which is sound because the encode pass produces
 * valid UTF-8 that decodes back to the input.
 */
module ChStr {
  import opened Wrappers
  import opened Utf8
  import opened Utf8Decode
  import opened Utf8Syntax

  /**
   * One step of either loop: extending the prefix done so far by the next
   * char adds its length to the sum, and the sum never passes `LEN`.
   */
  lemma PrefixLen(chars: seq<Scalar>, i: nat)
    requires i < |chars|
    ensures TotalLen(chars[..i + 1]) == TotalLen(chars[..i]) + LenUtf8(chars[i])
    ensures TotalLen(chars[..i + 1]) <= TotalLen(chars)
  {
    var c := chars[i];
    assert chars[..i + 1] == chars[..i] + [c];
    assert chars == chars[..i + 1] + chars[i + 1..];
    Single(c);
    TotalLenAppend(chars[..i], [c]);
    TotalLenAppend(chars[..i + 1], chars[i + 1..]);
  }

  /** One step of the encode loop: the next char's form follows the prefix's encoding. */
  lemma PrefixEncode(chars: seq<Scalar>, i: nat)
    requires i < |chars|
    ensures Encode(chars[..i + 1]) == Encode(chars[..i]) + EncodeChar(chars[i])
  {
    var c := chars[i];
    assert chars[..i + 1] == chars[..i] + [c];
    Single(c);
    EncodeAppend(chars[..i], [c]);
  }

  /**
   * After one pass of the encode loop: the bytes before `offset` are as they
   * were and the form of `chars[i]` follows them, so the buffer holds the
   * encoding of one more char.
   */
  lemma Written(chars: seq<Scalar>, i: nat, offset: nat, before: seq<bv8>, after: seq<bv8>)
    requires i < |chars| && offset == TotalLen(chars[..i])
    requires |after| == |before| && offset + LenUtf8(chars[i]) <= |before|
    requires before[..offset] == Encode(chars[..i])
    requires forall k :: 0 <= k < LenUtf8(chars[i]) ==> after[offset + k] == EncodeChar(chars[i])[k]
    requires forall k :: 0 <= k < offset ==> after[k] == before[k]
    ensures after[..offset + LenUtf8(chars[i])] == Encode(chars[..i + 1])
  {
    PrefixEncode(chars, i);
    Splice(before, after, offset, EncodeChar(chars[i]));
  }

  /** Bytes that agree with `before` below `offset` and hold `form` from there on. */
  lemma Splice(before: seq<bv8>, after: seq<bv8>, offset: nat, form: seq<bv8>)
    requires |after| == |before| && offset + |form| <= |before|
    requires forall k :: 0 <= k < |form| ==> after[offset + k] == form[k]
    requires forall k :: 0 <= k < offset ==> after[k] == before[k]
    ensures after[..offset + |form|] == before[..offset] + form
  {
    forall k | offset <= k < offset + |form|
      ensures after[k] == form[k - offset]
    {
      assert after[offset + (k - offset)] == form[k - offset];
    }
  }

  /** The length pass: `LEN` is the number of bytes of the encoding. */
  method Len(chars: seq<Scalar>) returns (len: nat)
    ensures len == TotalLen(chars)
  {
    len := 0;
    var i := 0;
    while i < |chars|
      invariant 0 <= i <= |chars|
      invariant len == TotalLen(chars[..i])
    {
      var c := chars[i];
      PrefixLen(chars, i);
      len := len + LenUtf8(c);
      i := i + 1;
    }
    assert chars[..i] == chars;
  }

  /**
   * The body of the encode loop for one scalar value: the `match` on its
   * length writes its form at `offset` and touches no other byte.
   */
  method WriteScalar(buf: array<bv8>, offset: nat, c: Scalar)
    requires offset + LenUtf8(c) <= buf.Length
    modifies buf
    ensures forall k :: 0 <= k < LenUtf8(c) ==> buf[offset + k] == EncodeChar(c)[k]
    ensures forall k :: 0 <= k < buf.Length && !(offset <= k < offset + LenUtf8(c)) ==> buf[k] == old(buf[k])
  {
    var code := c;
    var len := LenUtf8(c);
    if len == 1 {
      assert EncodeChar(c) == Form1(c);
      buf[offset + 0] := code as bv8;
    } else if len == 2 {
      assert EncodeChar(c) == Form2(c);
      buf[offset + 0] := ((code >> 6) & 0x1F) as bv8 | TagTwoB;
      buf[offset + 1] := (code & 0x3F) as bv8 | TagCont;
    } else if len == 3 {
      assert EncodeChar(c) == Form3(c);
      buf[offset + 0] := ((code >> 12) & 0x0F) as bv8 | TagThreeB;
      buf[offset + 1] := ((code >> 6) & 0x3F) as bv8 | TagCont;
      buf[offset + 2] := (code & 0x3F) as bv8 | TagCont;
    } else if len == 4 {
      assert EncodeChar(c) == Form4(c);
      buf[offset + 0] := ((code >> 18) & 0x07) as bv8 | TagFourB;
      buf[offset + 1] := ((code >> 12) & 0x3F) as bv8 | TagCont;
      buf[offset + 2] := ((code >> 6) & 0x3F) as bv8 | TagCont;
      buf[offset + 3] := (code & 0x3F) as bv8 | TagCont;
    } else {
      // The `unreachable!()` arm: a scalar value's length is always 1 to 4.
      assert false;
    }
  }

  /**
   * The encode pass: given the `LEN` of the length pass, a zeroed buffer of
   * that size ends up holding exactly the encoding of `chars`.
   */
  method Buf(chars: seq<Scalar>, len: nat) returns (buf: array<bv8>)
    requires len == TotalLen(chars)
    ensures fresh(buf)
    ensures buf[..] == Encode(chars)
  {
    buf := new bv8[len](_ => 0);
    var offset := 0;
    var i := 0;
    while i < |chars|
      invariant 0 <= i <= |chars|
      invariant buf.Length == len
      invariant offset == TotalLen(chars[..i]) <= len
      invariant buf[..offset] == Encode(chars[..i])
      invariant forall k :: offset <= k < len ==> buf[k] == 0
    {
      var c := chars[i];
      PrefixLen(chars, i);
      ghost var before := buf[..];
      WriteScalar(buf, offset, c);
      Written(chars, i, offset, before, buf[..]);
      offset := offset + LenUtf8(c);
      i := i + 1;
    }
    assert chars[..i] == chars;
  }

  /**
   * `chstr![c0, c1, ...]`: the bytes of the resulting text. They are the
   * UTF-8 encoding of the input, `LEN` long, well formed, and they decode to
   * exactly the input, which is what `from_utf8_unchecked` requires.
   */
  method Str(chars: seq<Scalar>) returns (text: seq<bv8>)
    ensures text == Encode(chars)
    ensures |text| == TotalLen(chars)
    ensures text == [] <==> chars == []
    ensures WellFormed(text)
    ensures Decode(text) == Some(chars)
  {
    var len := Len(chars);
    var buf := Buf(chars, len);
    text := buf[..];
    TotalLenBounds(chars);
    EncodeWellFormed(chars);
    DecodeEncode(chars);
  }
}
