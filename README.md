# galacticbuf in Dafny

This project models the galacticbuf wire format in `src/galacticbuf.rs` and proves properties of it. galacticbuf is a compact, self-describing binary encoding. A message is a 4-byte header (version, field count, total length), followed by a map from field names to tagged field values. A value is an integer, a string, a homogeneous list, or a nested object.

The model follows the source's trait implementations one by one. Each `serialize` is an encoder function from a value to bytes. Each `deserialize` is a decoder function from bytes to `Result<(value, remainder)>`.

Modules:

- `Wire` holds the shared pieces:
  - bytes, 16-bit lengths and 64-bit integers;
  - the error kinds, plus a context path that says where a nested error occurred;
  - the `Decoded`/`Decoder` types;
  - big-endian conversion and 64-bit two's complement;
  - the predicates that every decoder used as a building block satisfies:
    - `WellBehaved`: it is defined on all short enough buffers, and its remainder is never longer than its input;
    - `ConsumesPrefix`: its remainder is a suffix of its input.
- `Utf8` holds UTF-8 well-formedness, following the table in section 4 of RFC 3629. `Text` is the type of well-formed byte strings. Rust `String`, `FieldName` and `StringValue` are modelled by their UTF-8 bytes.
- `Assoc` models a Rust `HashMap`. It is an association list with unique keys. `Collect` is the last-write-wins fold that `collect::<HashMap<_, _>>()` performs.
- `Combinators` holds the generic codecs, parameterised by the element codecs:
  - `Vec<T>`: `EncodeSeq`/`DecodeSeq`. The decoding `for` loop is also the method `DecodeSeqLoop`, which is proved equal to `DecodeSeq`.
  - `(U, V)`: `EncodePair`/`DecodePair`.
  - `HashMap<K, V>`: `EncodeMap`/`DecodeMap`.
- `Scalars` holds the fixed-width and length-prefixed codecs: `i64`, raw `String`, `StringValue`, `FieldName` and `Header`.
- `Values` holds the recursive codecs for `FieldValue`, `List` and `Object`, with the value round trip.
- `Messages` holds the `Message` codec with its version and length checks.
- `Vectors` holds the two byte buffers of the source's unit tests and proves that each decodes to the expected message with no trailing bytes.

The recursive decoders hand bounded decoders to the generic combinators:

- `ObjectBelow(n)` is `DecodeObject` restricted to buffers shorter than `n`.
- `ValueBelow(n)` does the same for `DecodeFieldValue`.

Termination then follows from the buffer getting shorter.

## Model

| member | source | states |
|---|---|---|
| Wire.FromBigEndianOfBigEndian | src/galacticbuf.rs:71-87 | reading back the `width` big-endian bytes of any `n < 256^width` gives `n` |
| Wire.BigEndian | src/galacticbuf.rs:64-68 | `to_be_bytes`: a number below `256^width` is written as exactly `width` bytes; `Wire.FromBigEndianOfBigEndian` is its inverse |
| Wire.FromBigEndian | src/galacticbuf.rs:71-87 | `from_be_bytes`: the number read from `k` bytes is below `256^k` |
| Wire.FromBigEndianTwo | src/galacticbuf.rs:410 | two bytes read as a `u16` are the first times 256 plus the second |
| Wire.BigEndianOfFromBigEndian | src/galacticbuf.rs:71-87 | writing the number read from a byte string gives back that byte string (the format has exactly one encoding per number) |
| Wire.TwosComplementRoundTrip | src/galacticbuf.rs:64-87 | the 64-bit two's-complement reinterpretation used by `to_be_bytes`/`from_be_bytes` is a bijection between `i64` and `[0, 2^64)` |
| Wire.ToUnsigned64 | src/galacticbuf.rs:64-68 | the bit pattern of an `i64` is below 2^64, and equals the integer itself when that is non-negative |
| Wire.FromUnsigned64 | src/galacticbuf.rs:71-87 | a 64-bit pattern reads as a negative `i64` exactly when its top bit is set |
| Wire.TwoBytes | src/galacticbuf.rs:251-261 | a 16-bit length goes on the wire as its high byte, then its low byte |
| Utf8.CharWidth | src/galacticbuf.rs:97-116 | the byte width of a character is at most 4 and within the buffer, and it is 1 exactly for an ASCII lead byte |
| Utf8.AsciiIsValid | src/galacticbuf.rs:109 | `ValidUtf8`, the check `from_utf8` makes, accepts every ASCII byte string |
| Utf8.RejectedSequences | src/galacticbuf.rs:109 | `ValidUtf8`, the check `from_utf8` makes, rejects overlong forms, surrogates, stray continuation bytes and truncated characters, and accepts a 3-byte character |
| Assoc.InsertShape | src/galacticbuf.rs:174-180 | `Insert`, the model of `HashMap::insert` as `collect()` applies it to each decoded pair: inserting into the association list overwrites the entry with that key in place, or appends one, and leaves every other entry as it was |
| Assoc.InsertMapOf | src/galacticbuf.rs:174-180 | `Insert` of `(k, v)` denotes the map update `m[k := v]` |
| Assoc.Collect | src/galacticbuf.rs:174-180 | folding pairs into a map yields unique keys, no more entries than pairs, and the same map as the pairs read last-write-wins |
| Assoc.CollectUnique | src/galacticbuf.rs:174-180 | folding pairs whose keys are already unique gives back exactly those pairs, in order |
| Assoc.LastWriteWins | src/galacticbuf.rs:174-180 | for a repeated key, the folded map holds the value of the key's last occurrence |
| Combinators.DecodeElements | src/galacticbuf.rs:126-143 | decoding `remaining` more elements either yields exactly that many more, or fails with an element index in the range still to be decoded |
| Combinators.DecodeSeq | src/galacticbuf.rs:126-143 | with count `n`, success yields exactly `n` elements; count 0 or no count yields `[]` and leaves the buffer untouched; a failure names an element index below `n` |
| Combinators.DecodeSeqSuffix | src/galacticbuf.rs:126-143 | the remainder of a sequence decode is a suffix of its input when every element decode's is |
| Combinators.DecodeSeqLoop | src/galacticbuf.rs:126-143 | the cursor-advancing `for` loop returns the same result as the specification `DecodeSeq` |
| Combinators.DecodeSeqStep | src/galacticbuf.rs:126-143 | decoding `n + 1` elements is decoding `n` and then one more element from the remainder, so the decode stops at the first failing element |
| Combinators.DecodeSeqRoundTrip | src/galacticbuf.rs:119-143 | if each element decodes back from its encoding, then the decoder given `Some(len)` turns the encoding of the sequence, followed by `rest`, back into the sequence and `rest` |
| Combinators.EncodeSeqFixedWidth | src/galacticbuf.rs:119-123 | `EncodeSeq` (`Vec<T>::serialize`) of elements that each encode to `w` bytes is exactly `w` bytes per element, so a list of `n` integers takes `8n` bytes |
| Combinators.EachRoundTripsOfTotal | src/galacticbuf.rs:119-143 | an element codec whose decoder inverts its encoder on every input meets the per-element round-trip hypothesis |
| Combinators.DecodePair | src/galacticbuf.rs:153-161 | a pair's remainder is no longer than its input |
| Combinators.DecodePairSuffix | src/galacticbuf.rs:153-161 | a pair's remainder is a suffix of its input when both components' remainders are |
| Combinators.PairRoundTrip | src/galacticbuf.rs:146-161 | `EncodePair` (`(U, V)::serialize`, lines 146-150) is inverted by `DecodePair`: the encoding of `(u, v)` followed by `rest` decodes to `(u, v)` and `rest` when each component round-trips |
| Combinators.PairDecoder | src/galacticbuf.rs:153-161 | the pair decoder is well behaved and consumes a prefix, given components that do |
| Combinators.DecodeMap | src/galacticbuf.rs:174-180 | a map decode succeeds exactly when its `n` pairs decode; it has unique keys and denotes the pairs read last-write-wins; the remainder and any error are those of the pair decode |
| Combinators.MapRoundTrip | src/galacticbuf.rs:164-180 | `EncodeMap` (`HashMap<K, V>::serialize`, lines 164-171) is inverted by `DecodeMap`: a map with unique keys, followed by `rest`, decodes back to itself in the same order and `rest` |
| Combinators.DecodeMapLastWriteWins | src/galacticbuf.rs:174-180 | when the decoded pair at index `i` has the last occurrence of its key, the decoded map maps that key to that pair's value |
| Scalars.EncodeI64 | src/galacticbuf.rs:64-68 | an integer encodes as exactly 8 bytes |
| Scalars.DecodeI64 | src/galacticbuf.rs:71-87 | the decode succeeds exactly when at least 8 bytes remain, returns the bytes after the 8th, and otherwise reports `TruncatedBuffer` |
| Scalars.I64RoundTrip | src/galacticbuf.rs:64-87 | decoding `encode(x) ++ rest` gives `x` and `rest` |
| Scalars.I64Canonical | src/galacticbuf.rs:64-87 | every 8-byte prefix decodes, and re-encoding the integer gives those 8 bytes back |
| Scalars.DecodeRawString | src/galacticbuf.rs:97-116 | on success the text is the first `count` bytes and the remainder is the rest; the only failures are `TruncatedBuffer` and `InvalidUtf8` |
| Scalars.RawStringOutcome | src/galacticbuf.rs:97-116 | count 0 or no count gives `""` with the buffer untouched; count `n > 0` fails if fewer than `n` bytes remain, fails if they are not UTF-8, and otherwise returns them and `bytes[n..]` |
| Scalars.RawStringRoundTrip | src/galacticbuf.rs:90-116 | decoding `s ++ rest` with count `|s|` gives `s` and `rest` |
| Scalars.EncodeStringValue | src/galacticbuf.rs:251-261 | a string value of at most 65,535 bytes encodes as 2 bytes more than its text; the byte layout (2-byte big-endian length, then the text) is what `Vectors.StringField` spells out, and `Scalars.StringValueRoundTrip` is its inverse |
| Scalars.DecodeStringValue | src/galacticbuf.rs:264-279 | a buffer shorter than 2 bytes is `TruncatedBuffer`; on success the remainder is a strict suffix of the input |
| Scalars.StringValueRoundTrip | src/galacticbuf.rs:251-279 | decoding `encode(s) ++ rest` gives `s` and `rest` |
| Scalars.StringValueCanonical | src/galacticbuf.rs:251-279 | whatever decodes is its own re-encoding followed by the remainder |
| Scalars.EncodeFieldName | src/galacticbuf.rs:282-292 | a field name of at most 255 bytes encodes as 1 byte more than its text; the byte layout (1-byte length, then the text) is what `Vectors.IntegerField` spells out, and `Scalars.FieldNameRoundTrip` is its inverse |
| Scalars.DecodeFieldName | src/galacticbuf.rs:295-308 | an empty buffer is `TruncatedBuffer`; on success the remainder is a strict suffix of the input |
| Scalars.FieldNameRoundTrip | src/galacticbuf.rs:282-308 | decoding `encode(f) ++ rest` gives `f` and `rest` |
| Scalars.FieldNameCanonical | src/galacticbuf.rs:282-308 | whatever decodes is its own re-encoding followed by the remainder |
| Scalars.EncodeHeader | src/galacticbuf.rs:392-397 | a header encodes as exactly 4 bytes |
| Scalars.DecodeHeader | src/galacticbuf.rs:402-418 | the decode succeeds exactly when at least 4 bytes remain; the header is then byte 0 as the version, byte 1 as the field count and bytes 2-3 as a big-endian length, and `bytes[4..]` is returned; otherwise it reports `TruncatedBuffer` |
| Scalars.HeaderRoundTrip | src/galacticbuf.rs:392-418 | decoding `encode(h) ++ rest` gives `h` and `rest` |
| Scalars.HeaderCanonical | src/galacticbuf.rs:392-418 | re-encoding a decoded header gives back the first 4 bytes |
| Scalars.LeafDecoders | src/galacticbuf.rs:71-87 | the integer, string-value and field-name decoders are each well behaved and consume a prefix |
| Values.EncodeFieldValue | src/galacticbuf.rs:311-321 | a value's encoding starts with its type tag (0x01 to 0x04) |
| Values.EncodeList | src/galacticbuf.rs:184-202 | a list's encoding starts with its element tag and is at least 3 bytes long |
| Values.EncodeObject | src/galacticbuf.rs:362-372 | an object's encoding starts with its field count |
| Values.DecodeFieldValue | src/galacticbuf.rs:324-359 | an empty buffer is `TruncatedBuffer`; a first byte outside 0x01 to 0x04 is `UnknownValueTag`; on success the first byte is the decoded value's tag and the remainder is shorter than the input |
| Values.DecodeList | src/galacticbuf.rs:206-248 | fewer than 3 bytes is `TruncatedBuffer`; with the tag and count read, an element tag outside {0x01, 0x02, 0x04} is `UnknownElementTag`; on success the element tag and count are the ones on the wire |
| Values.DecodeObject | src/galacticbuf.rs:375-387 | an empty buffer is `TruncatedBuffer`; on success the fields have unique names, and there are no more of them than the count byte says |
| Values.DecodeFields | src/galacticbuf.rs:174-180 | decoded fields have unique names, there are no more of them than `count`, and the remainder is no longer than the input |
| Values.ObjectBelow | src/galacticbuf.rs:375-387 | the bounded object decoder agrees with `DecodeObject` below its bound and is well behaved |
| Values.ValueBelow | src/galacticbuf.rs:324-359 | the bounded value decoder agrees with `DecodeFieldValue` below its bound and is well behaved |
| Values.ValueRoundTrip | src/galacticbuf.rs:311-359 | every valid value decodes back from `encode(v) ++ rest`, with `rest` as the remainder |
| Values.IntegerValueRoundTrip | src/galacticbuf.rs:311-359 | an integer value round-trips |
| Values.StringValueFieldRoundTrip | src/galacticbuf.rs:311-359 | a string value round-trips |
| Values.ListValueRoundTrip | src/galacticbuf.rs:311-359 | a list value within the size limits round-trips |
| Values.ObjectValueRoundTrip | src/galacticbuf.rs:311-359 | an object value within the size limits round-trips |
| Values.ListLayout | src/galacticbuf.rs:184-248 | the list decoder reads the element tag and count that the encoder wrote, then decodes the elements from the bytes after them |
| Values.ListRoundTrip | src/galacticbuf.rs:184-248 | a list with at most 65,535 valid elements round-trips |
| Values.IntegersRoundTrip | src/galacticbuf.rs:184-248 | a list of integers round-trips |
| Values.StringsRoundTrip | src/galacticbuf.rs:184-248 | a list of string values round-trips |
| Values.ObjectsRoundTrip | src/galacticbuf.rs:184-248 | a list of objects round-trips |
| Values.ObjectsEachRoundTrip | src/galacticbuf.rs:362-387 | each object of a list decodes back from its encoding, so the sequence round trip applies |
| Values.ObjectElementRoundTrip | src/galacticbuf.rs:362-387 | one object of a list decodes back from its encoding followed by any tail |
| Values.ObjectRoundTrip | src/galacticbuf.rs:362-387 | an object with at most 255 valid fields and unique names round-trips |
| Values.FieldsRoundTrip | src/galacticbuf.rs:164-180 | `EncodeFields` (the field map's serialize, used at lines 369 and 424) is inverted by `DecodeFields` with the map's own field count |
| Values.PairsRoundTrip | src/galacticbuf.rs:164-180 | the `(FieldName, FieldValue)` pairs of an object round-trip through the pair-sequence codec |
| Values.FieldsEachRoundTrip | src/galacticbuf.rs:146-180 | every `(name, value)` pair of an object decodes back from its encoding |
| Values.FieldRoundTrip | src/galacticbuf.rs:146-161 | one `(name, value)` pair decodes back from its encoding followed by any tail |
| Values.EncodeFieldsAsPairs | src/galacticbuf.rs:164-171 | `EncodeFields` writes the fields one after another, each as `EncodeField`: its name, then its value |
| Values.EncodeField | src/galacticbuf.rs:146-150 | one field is at least 2 bytes longer than its name; it starts with the name's length byte, and the value's type tag follows the name |
| Values.ValueSuffix | src/galacticbuf.rs:324-359 | a value decode's remainder is a suffix of its input |
| Values.ListSuffix | src/galacticbuf.rs:206-248 | a list decode's remainder is a suffix of its input |
| Values.ObjectSuffix | src/galacticbuf.rs:375-387 | an object decode's remainder is a suffix of its input |
| Values.FieldsSuffix | src/galacticbuf.rs:174-180 | a field-map decode's remainder is a suffix of its input |
| Messages.EncodeMessage | src/galacticbuf.rs:421-427 | the header decoder reads this message's own header off the front of its encoding and leaves exactly the encoded fields behind; when the header agrees with the body, its length field equals the length of the whole encoding, header included, as the comment at line 391 says |
| Messages.DecodeMessage | src/galacticbuf.rs:430-465 | fewer than 4 bytes is `TruncatedBuffer`; a version other than 0x01 is `UnsupportedVersion`; a declared length (bytes 2-3, big-endian) beyond the input is `BufferTooShort`; on success the version is 0x01, the remainder is the input without its first `header.length` bytes, and the fields have unique names and number at most the declared count |
| Messages.DecodeMessageOfFields | src/galacticbuf.rs:430-465 | once the header passes its checks and the body decodes, the message decode succeeds exactly when the bytes consumed equal `header.length`, and otherwise reports `LengthMismatch` |
| Messages.MessageRoundTrip | src/galacticbuf.rs:421-465 | a message whose header is version 0x01, counts its fields and states its encoded length round-trips, followed by any `rest` |
| Messages.WrongLengthRejected | src/galacticbuf.rs:430-465 | an encoded message whose header length is wrong, but still within the buffer, is rejected with `LengthMismatch` |
| Vectors.I64Bytes | src/galacticbuf.rs:64-68 | a non-negative integer below 2^32 encodes as four zero bytes followed by its four big-endian bytes |
| Vectors.SimpleMessageDecodes | src/galacticbuf.rs:471-525 | the 69-byte `simple_message` buffer decodes to the user_id/name/scores message with no trailing bytes |
| Vectors.TradesMessageDecodes | src/galacticbuf.rs:527-607 | the 90-byte `list_of_objects` buffer decodes to the timestamp/trades message with no trailing bytes |
| Vectors.MessageDecodes | src/galacticbuf.rs:430-465 | a version-1 header that counts and sizes its fields, followed by their encoding, decodes to that message with no trailing bytes |
| Vectors.IntegerField | src/galacticbuf.rs:311-321 | the bytes of an integer field are its name, then tag 0x01 and the 8 integer bytes |
| Vectors.StringField | src/galacticbuf.rs:311-321 | the bytes of a string field are its name, then tag 0x02, a 2-byte length and the text |
| Vectors.IntegersField | src/galacticbuf.rs:184-202 | the bytes of an integer-list field are its name, then tag 0x03, element tag 0x01, a 2-byte count and the integers |
| Vectors.TwoObjectsField | src/galacticbuf.rs:184-202 | the bytes of a list of two objects are its name, then tag 0x03, element tag 0x04, count 2 and the two objects without a per-object tag |
| Vectors.UserIdAsWritten | src/galacticbuf.rs:503 | the name `user_id` is the hex bytes the test's array gives for it |
| Vectors.NameAsWritten | src/galacticbuf.rs:508 | the name `name` is the hex bytes the test's array gives for it |
| Vectors.AliceAsWritten | src/galacticbuf.rs:511 | the string `Alice` is the hex bytes the test's array gives for it |
| Vectors.ScoresAsWritten | src/galacticbuf.rs:514 | the name `scores` is the hex bytes the test's array gives for it |
| Vectors.TimestampAsWritten | src/galacticbuf.rs:570 | the name `timestamp` is the hex bytes the test's array gives for it |
| Vectors.TradesAsWritten | src/galacticbuf.rs:575 | the name `trades` is the hex bytes the test's array gives for it |
| Vectors.IdAsWritten | src/galacticbuf.rs:583 | the name `id` is the hex bytes the test's array gives for it |
| Vectors.PriceAsWritten | src/galacticbuf.rs:588 | the name `price` is the hex bytes the test's array gives for it |

## Left out

- Error text. Errors carry a kind and a context path (element index, first or second component of a pair), not Rust's formatted message. When a pair's value fails, the source also writes the key's `Debug` rendering into the message; the model keeps only the `PairSecond` marker.
- `HashMap` iteration order. The encoder writes fields in the order of the association list. The source's order is unspecified, and its tests compare maps without regard to order.
- Values.DecodeList: the source has two truncation branches (missing element tag, missing count). They differ only in message text, so the model merges them into one `TruncatedBuffer` for inputs shorter than 3 bytes.
- `std::str::from_utf8` internals. UTF-8 validity is the well-formed byte sequences table of RFC 3629, section 4, written as a predicate.
- The `assert!` panics in the `List`, `StringValue`, `FieldName` and `Object` encoders. They are preconditions of the encoders: `ValidValue`, `ValidList`, `ValidObject` and `ValidFields`.
- Platform width of `usize`. Lengths and counts are unbounded naturals; the `u8` and `u16` header fields are stored as their byte values.
- `src/main.rs` (an HTTP liveness endpoint) and `tests/container_tests.rs` (a Docker and HTTP probe). These are network and process plumbing and never call the codec.
- Messages.MessageRoundTrip: the source's encoder writes whatever header it is given. The round trip therefore requires a header that is version 0x01, counts the fields and states the encoded length; `Messages.WrongLengthRejected` shows what happens when the length is wrong.
- A list of objects carries no per-object tag: `Vec<Object>::serialize` writes each object's own encoding, which starts with its field count (src/galacticbuf.rs:189, 236; the test bytes at lines 579-602 have the same layout). The model follows the code.
