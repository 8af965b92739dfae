# chstr: a verified model of the `chstr!` UTF-8 encoder

`chstr!['a', 'b', 'c']` turns a fixed list of `char`s into a constant `&str`.
The macro works in two passes. The length pass sums `len_utf8` over the list
to get `LEN`. The encode pass writes the 1 to 4 byte UTF-8 form of each
`char` into a zeroed `[u8; LEN]` buffer, at a running `offset`. The buffer is
then handed to `from_utf8_unchecked`. That call is sound only if the buffer is
valid UTF-8.

The model has five modules:

- `Utf8` (`utf8.dfy`) holds the encoding of section 3 of RFC 3629. A `char` is
  modelled by its `u32` value: `Scalar` is a `bv32` that is at most U+10FFFF
  and not a surrogate. It defines `LenUtf8` (Rust's `char::len_utf8`), the four
  tag constants, and `EncodeChar`. `EncodeChar` picks one of `Form1` to
  `Form4` by length; each applies the shifts, masks and tag ors of one arm of
  the macro's `match`. It also defines `Encode` (the forms one after another) and
  `TotalLen` (the sum the length pass computes).
- `Utf8Decode` (`utf8_decode.dfy`) is a strict decoder. It rejects bad lead
  bytes, bad continuation bytes, truncated forms, overlong forms, surrogates
  and values above U+10FFFF. It carries the round-trip lemmas in both
  directions.
- `Utf8Syntax` (`utf8_syntax.dfy`) writes the byte-range grammar of section 4
  of RFC 3629. It proves that the grammar accepts exactly what the decoder
  accepts.
- `ChStr` (`chstr.dfy`) is the macro itself, as imperative Dafny. `Len` is the
  length loop. `Buf` is the encode loop over an `array<bv8>` created zeroed;
  `WriteScalar` is that loop's `match`. `Str` is the whole macro.
- `Wrappers` (`wrappers.dfy`) holds the `Option` type the decoder returns.

The loops are proved against the spec functions. `Len` returns
`TotalLen(chars)`. `Buf` leaves `buf[..] == Encode(chars)`. Its invariants say
that `offset` is the length of the prefix encoded so far, that
`buf[..offset]` holds that prefix's encoding, and that the rest of the buffer
is still zero. `WriteScalar` states its effect byte by byte, and the lemma
`Written` turns that into the next state of the invariant. Every write is in
bounds. The `unreachable!()` arm is a dead
branch, closed by `assert false`. `Str` then states what
`from_utf8_unchecked` needs: the bytes are well formed by the grammar and
decode to exactly the input.

## Model

| member | source | states |
|---|---|---|
| `Utf8.LenUtf8` | src/lib.rs:59-61 | the length of a scalar value's form is always 1, 2, 3 or 4, so only the four real arms of the `match` can be taken |
| `Utf8.LenUtf8Shortest` | src/lib.rs:59 | minimality: a value fits the payload of its chosen length (7, 11, 16 or 21 bits) and of no shorter length, so no form is overlong |
| `Utf8.EncodeChar` | src/lib.rs:61-81 | the bytes written for one scalar value are exactly `len_utf8` many |
| `Utf8.Form1` | src/lib.rs:63 | the 1-byte arm: one byte, and because the value is below `0x80` the `code as u8` cast loses nothing (the byte converts back to the value) |
| `Utf8.Form2` | src/lib.rs:66-67 | the 2-byte arm: two bytes, a lead byte tagged `110xxxxx` and a continuation byte `10xxxxxx`, for any 32-bit value |
| `Utf8.Form3` | src/lib.rs:70-72 | the 3-byte arm: three bytes, a lead byte tagged `1110xxxx` and two continuation bytes, for any 32-bit value |
| `Utf8.Form4` | src/lib.rs:75-78 | the 4-byte arm: four bytes, a lead byte tagged `11110xxx` and three continuation bytes, for any 32-bit value |
| `Utf8.EncodeCharTags` | src/lib.rs:47-50 | tag correctness: the lead byte has the form `0xxxxxxx`, `110xxxxx`, `1110xxxx` or `11110xxx` matching the length, and every later byte has the form `10xxxxxx` |
| `Utf8.TotalLen` | src/lib.rs:32-43 | the value of `LEN`, the sum of `len_utf8` over the chars; it is zero exactly when the list is empty |
| `Utf8.TotalLenAppend` | src/lib.rs:32-43 | the length sum is additive over concatenation, which is what lets the loop add one `len_utf8` per step |
| `Utf8.TotalLenBounds` | src/lib.rs:32-43 | `LEN` lies between the number of chars and four times it |
| `Utf8.Encode` | src/lib.rs:45-52 | the encoding is exactly `LEN` bytes long, the size of the buffer |
| `Utf8.EncodeAppend` | src/lib.rs:53-85 | encoding is a homomorphism: the encoding of a concatenation is the concatenation of the encodings, as the running offset appends forms in input order |
| `Utf8.EncodeExamples` | src/lib.rs:10-12 | an empty list encodes to no bytes; `['a','b','c']` encodes to the bytes of `"abc"`; U+00A2, U+20AC and U+1F600 encode to `C2 A2`, `E2 82 AC` and `F0 9F 98 80` |
| `Utf8Decode.Decode` | src/lib.rs:90 | a byte sequence that decodes holds between one and four bytes per decoded scalar value |
| `Utf8Decode.Payload2Inverts` | src/lib.rs:66-67 | the `0x1F` and `0x3F` masks keep payload bits out of the tag bits: the payload fields of a 2-byte form give back its value |
| `Utf8Decode.Payload3Inverts` | src/lib.rs:70-72 | the same for the `0x0F`/`0x3F` masks of a 3-byte form |
| `Utf8Decode.Payload4Inverts` | src/lib.rs:75-78 | the same for the `0x07`/`0x3F` masks of a 4-byte form |
| `Utf8Decode.DecodeEncodeChar` | src/lib.rs:61-81 | the form written for one scalar value announces its own length and decodes back to that value |
| `Utf8Decode.Reencode2` | src/lib.rs:66-67 | a correctly tagged, non-overlong 2-byte form is exactly what the macro writes for the value it carries |
| `Utf8Decode.Reencode3` | src/lib.rs:70-72 | the same for a 3-byte form that carries no surrogate |
| `Utf8Decode.Reencode4` | src/lib.rs:75-78 | the same for a 4-byte form carrying a value from U+10000 to U+10FFFF |
| `Utf8Decode.Payload4Fields` | src/lib.rs:75-78 | re-tagging the four payload fields of a correctly tagged 4-byte form gives back its bytes |
| `Utf8Decode.EncodeDecodeChar` | src/lib.rs:61-81 | any single form the strict decoder accepts is the one the macro writes for its value |
| `Utf8Decode.DecodeEncode` | src/lib.rs:90 | round trip: decoding the encoding of any scalar sequence gives exactly that sequence, in order |
| `Utf8Decode.EncodeDecode` | src/lib.rs:90 | the converse: every byte sequence the strict decoder accepts is the encoding of what it decodes to, so each scalar sequence has exactly one valid UTF-8 form |
| `Utf8Decode.EncodeInjective` | src/lib.rs:45-88 | different inputs never produce the same buffer |
| `Utf8Decode.DecodeSingle` | src/lib.rs:16-23 | the single-char doc example: the text of one char yields that char and then nothing |
| `Utf8Syntax.WellFormed2Iff` | src/lib.rs:90 | the 2-byte line of the grammar of RFC 3629 section 4 accepts exactly the correctly tagged, non-overlong 2-byte forms |
| `Utf8Syntax.WellFormed3Iff` | src/lib.rs:90 | the 3-byte lines accept exactly the correctly tagged 3-byte forms that are not overlong and carry no surrogate |
| `Utf8Syntax.WellFormed4Iff` | src/lib.rs:90 | the 4-byte lines accept exactly the correctly tagged 4-byte forms carrying U+10000 to U+10FFFF |
| `Utf8Syntax.WellFormedCharIffDecodes` | src/lib.rs:90 | for one character, the grammar and the strict decoder accept the same byte sequences |
| `Utf8Syntax.WellFormedIffDecodes` | src/lib.rs:90 | a whole byte sequence is well formed by the grammar if and only if the strict decoder accepts it |
| `Utf8Syntax.EncodeWellFormed` | src/lib.rs:90 | the encoder's output is always well-formed UTF-8 |
| `ChStr.Len` | src/lib.rs:32-43 | the length loop returns the sum of `len_utf8` over all the chars |
| `ChStr.PrefixLen` | src/lib.rs:36-39 | one step of a loop adds the next char's `len_utf8` to the running sum, and the sum never passes `LEN`, so `offset + len` stays within the buffer |
| `ChStr.WriteScalar` | src/lib.rs:57-81 | the `match` writes exactly the form of the char at `buf[offset..offset+len]` and leaves every other byte of the buffer unchanged; every write is in bounds and the `unreachable!()` arm is never taken |
| `ChStr.Written` | src/lib.rs:82 | after one pass, with the bytes before `offset` unchanged and the char's form written from `offset` on, the bytes up to `offset + len` hold the encoding of one more char |
| `ChStr.Buf` | src/lib.rs:45-88 | the encode loop over a zeroed `LEN`-byte buffer leaves it holding exactly the encoding of the chars |
| `ChStr.Str` | src/lib.rs:26-91 | the macro's bytes are the encoding, `LEN` long, empty exactly for an empty list, well formed by the grammar, and they decode to exactly the input chars: the condition `from_utf8_unchecked` relies on |

## Left out

- The `macro_rules!` expansion and the const-evaluation context (src/lib.rs:25-30). The algorithm is modelled as ordinary methods over a `seq` of scalar values.
- The `from_utf8_unchecked` call itself (src/lib.rs:90). It is a foreign conversion. Its precondition is stated instead as a postcondition of `ChStr.Str`: the bytes are valid UTF-8 and decode to the input.
- Dafny's `char` type is not used. A `char` is represented by the `u32` value the macro computes with (`c as u32`), which gives the same bit operations as the source.
- `usize` arithmetic: `LEN` and `offset` are unbounded `nat`s. In the source an overflow would abort compilation, and `LEN` is at most four times the number of chars (`Utf8.TotalLenBounds`).
- The value of `std::path::MAIN_SEPARATOR` in the second doc example (src/lib.rs:18) depends on the platform. Only its single-char round trip is modelled, for an arbitrary scalar value (`Utf8Decode.DecodeSingle`).
- `#![no_std]` (src/lib.rs:1) only configures the build.
- Rust's run-time checks are not modelled: a panic on an out-of-bounds index and the `unreachable!()` panic. Both are proved never to fire.
