/**
 * The leaf codecs of galacticbuf: the 8-byte big-endian `i64`, raw UTF-8
 * text whose length the caller supplies, the length-prefixed `StringValue`
 * (2-byte length) and `FieldName` (1-byte length), and the 4-byte message
 * `Header`.
 */
module Scalars {
  import opened Wire
  import opened Utf8

  /** A string field value: at most 65,535 bytes of UTF-8 on the wire. */
  datatype StringValue = StringValue(text: Text)

  /** The name of a field: at most 255 bytes of UTF-8 on the wire. */
  datatype FieldName = FieldName(text: Text)

  /** Bytes 0-3 of a message: version, field count, total length. */
  datatype Header = Header(version: u8, fieldCount: u8, length: u16)

  const Version1: u8 := 0x01

  const EmptyText: Text := []

  lemma Pow256Values()
    ensures Pow256(1) == 0x100 && Pow256(2) == 0x1_0000
    ensures Pow256(8) == 0x1_0000_0000_0000_0000
  {
  }

  // ---------------------------------------------------------------------
  // i64: [Integer - 8 bytes]
  // ---------------------------------------------------------------------

  /** `i64::to_be_bytes`. */
  function EncodeI64(x: i64): (b: Bytes)
    ensures |b| == 8
  {
    BigEndian(ToUnsigned64(x), 8)
  }

  /** `i64::from_be_bytes` on the first eight bytes, which must be there. */
  function DecodeI64(bytes: Bytes): (r: Decoded<i64>)
    ensures r.Success? <==> |bytes| >= 8
    ensures r.Success? ==> r.value.1 == bytes[8..]
    ensures r.Failure? ==> r.error == Fail(TruncatedBuffer)
  {
    if |bytes| < 8 then Failure(Fail(TruncatedBuffer))
    else Success((FromUnsigned64(FromBigEndian(bytes[..8])), bytes[8..]))
  }

  lemma I64RoundTrip(x: i64, rest: Bytes)
    ensures DecodeI64(EncodeI64(x) + rest) == Success((x, rest))
  {
    var b := EncodeI64(x) + rest;
    assert b[..8] == EncodeI64(x) && b[8..] == rest;
    FromBigEndianOfBigEndian(ToUnsigned64(x), 8);
    TwosComplementRoundTrip(x, 0);
  }

  /** Every eight bytes are the encoding of the integer they decode to. */
  lemma I64Canonical(bytes: Bytes)
    requires |bytes| >= 8
    ensures DecodeI64(bytes).Success? && EncodeI64(DecodeI64(bytes).value.0) == bytes[..8]
  {
    var u := FromBigEndian(bytes[..8]);
    TwosComplementRoundTrip(0, u);
    BigEndianOfFromBigEndian(bytes[..8]);
  }

  // ---------------------------------------------------------------------
  // String: [UTF-8 Data], its length given by the caller
  // ---------------------------------------------------------------------

  /** `String::deserialize(bytes, count)`: a zero (or absent) count yields the
      empty string without looking at the buffer; otherwise the first `count`
      bytes must be present and be valid UTF-8. */
  function DecodeRawString(bytes: Bytes, count: Option<nat>): (r: Decoded<Text>)
    ensures r.Success? ==> r.value.0 + r.value.1 == bytes && |r.value.0| == count.UnwrapOr(0)
    ensures r.Failure? ==> r.error == Fail(TruncatedBuffer) || r.error == Fail(InvalidUtf8)
  {
    var n := count.UnwrapOr(0);
    if n == 0 then Success((EmptyText, bytes))
    else if |bytes| < n then Failure(Fail(TruncatedBuffer))
    else if !ValidUtf8(bytes[..n]) then Failure(Fail(InvalidUtf8))
    else
      var text: Text := bytes[..n];
      assert text + bytes[n..] == bytes;
      Success((text, bytes[n..]))
  }

  /** Which way a raw string decode goes, by the buffer alone. */
  lemma RawStringOutcome(bytes: Bytes, n: nat)
    ensures n == 0 ==> DecodeRawString(bytes, Some(n)) == Success((EmptyText, bytes))
    ensures DecodeRawString(bytes, None) == Success((EmptyText, bytes))
    ensures 0 < n && |bytes| < n ==> DecodeRawString(bytes, Some(n)) == Failure(Fail(TruncatedBuffer))
    ensures 0 < n <= |bytes| && !ValidUtf8(bytes[..n]) ==> DecodeRawString(bytes, Some(n)) == Failure(Fail(InvalidUtf8))
    ensures 0 < n <= |bytes| && ValidUtf8(bytes[..n]) ==> DecodeRawString(bytes, Some(n)) == Success((bytes[..n], bytes[n..]))
  {
  }

  lemma RawStringRoundTrip(s: Text, rest: Bytes)
    ensures DecodeRawString(s + rest, Some(|s|)) == Success((s, rest))
  {
    var b := s + rest;
    assert b[..|s|] == s && b[|s|..] == rest;
  }

  // ---------------------------------------------------------------------
  // StringValue: [Length (2 bytes)][UTF-8 Data]
  // ---------------------------------------------------------------------

  /** The source asserts that the text fits a 16-bit length. */
  function EncodeStringValue(s: StringValue): (b: Bytes)
    requires |s.text| <= 0xFFFF
    ensures |b| == 2 + |s.text|
  {
    Pow256Values();
    BigEndian(|s.text|, 2) + s.text
  }

  function DecodeStringValue(bytes: Bytes): (r: Decoded<StringValue>)
    ensures r.Success? ==> |bytes| >= 2 && IsSuffix(r.value.1, bytes) && |r.value.1| < |bytes|
    ensures |bytes| < 2 ==> r == Failure(Fail(TruncatedBuffer))
  {
    if |bytes| < 2 then Failure(Fail(TruncatedBuffer))
    else
      match DecodeRawString(bytes[2..], Some(FromBigEndian(bytes[..2])))
      case Failure(e) => Failure(e)
      case Success((text, rest)) =>
        assert bytes[2..] == text + rest;
        Success((StringValue(text), rest))
  }

  lemma StringValueRoundTrip(s: StringValue, rest: Bytes)
    requires |s.text| <= 0xFFFF
    ensures DecodeStringValue(EncodeStringValue(s) + rest) == Success((s, rest))
  {
    Pow256Values();
    var b := EncodeStringValue(s) + rest;
    assert b[..2] == BigEndian(|s.text|, 2) && b[2..] == s.text + rest;
    FromBigEndianOfBigEndian(|s.text|, 2);
    RawStringRoundTrip(s.text, rest);
  }

  /** A decoded string value fits the limit, and re-encoding it gives back
      exactly the bytes it was read from. */
  lemma StringValueCanonical(bytes: Bytes)
    requires DecodeStringValue(bytes).Success?
    ensures var (s, rest) := DecodeStringValue(bytes).value;
      |s.text| <= 0xFFFF && EncodeStringValue(s) + rest == bytes
  {
    Pow256Values();
    var len := FromBigEndian(bytes[..2]);
    var raw := DecodeRawString(bytes[2..], Some(len));
    assert raw.Success? && DecodeStringValue(bytes).value == (StringValue(raw.value.0), raw.value.1);
    var (text, rest) := raw.value;
    BigEndianOfFromBigEndian(bytes[..2]);
    assert BigEndian(|text|, 2) == bytes[..2];
    calc {
      EncodeStringValue(StringValue(text)) + rest;
      bytes[..2] + text + rest;
      bytes[..2] + (text + rest);
      bytes;
    }
  }

  // ---------------------------------------------------------------------
  // FieldName: [Length (1 byte)][UTF-8 Data]
  // ---------------------------------------------------------------------

  /** The source asserts that the name fits an 8-bit length. */
  function EncodeFieldName(f: FieldName): (b: Bytes)
    requires |f.text| <= 0xFF
    ensures |b| == 1 + |f.text|
  {
    [|f.text|] + f.text
  }

  function DecodeFieldName(bytes: Bytes): (r: Decoded<FieldName>)
    ensures r.Success? ==> |bytes| >= 1 && IsSuffix(r.value.1, bytes) && |r.value.1| < |bytes|
    ensures |bytes| == 0 ==> r == Failure(Fail(TruncatedBuffer))
  {
    if |bytes| == 0 then Failure(Fail(TruncatedBuffer))
    else
      match DecodeRawString(bytes[1..], Some(bytes[0]))
      case Failure(e) => Failure(e)
      case Success((text, rest)) =>
        assert bytes[1..] == text + rest;
        Success((FieldName(text), rest))
  }

  lemma FieldNameRoundTrip(f: FieldName, rest: Bytes)
    requires |f.text| <= 0xFF
    ensures DecodeFieldName(EncodeFieldName(f) + rest) == Success((f, rest))
  {
    var b := EncodeFieldName(f) + rest;
    assert b[1..] == f.text + rest;
    RawStringRoundTrip(f.text, rest);
  }

  lemma FieldNameCanonical(bytes: Bytes)
    requires DecodeFieldName(bytes).Success?
    ensures var (f, rest) := DecodeFieldName(bytes).value;
      |f.text| <= 0xFF && EncodeFieldName(f) + rest == bytes
  {
    assert bytes == [bytes[0]] + bytes[1..];
  }

  // ---------------------------------------------------------------------
  // Header: [Version][Field Count][Total Length (2 bytes)]
  // ---------------------------------------------------------------------

  function EncodeHeader(h: Header): (b: Bytes)
    ensures |b| == 4
  {
    Pow256Values();
    [h.version, h.fieldCount] + BigEndian(h.length, 2)
  }

  /** Reads the four header bytes as they are; checking them is the message
      decoder's business. */
  function DecodeHeader(bytes: Bytes): (r: Decoded<Header>)
    ensures r.Success? <==> |bytes| >= 4
    ensures r.Success? ==> r.value.1 == bytes[4..]
    ensures r.Success? ==> r.value.0 == Header(bytes[0], bytes[1], bytes[2] as int * 256 + bytes[3] as int)
    ensures r.Failure? ==> r.error == Fail(TruncatedBuffer)
  {
    if |bytes| < 4 then Failure(Fail(TruncatedBuffer))
    else
      Pow256Values();
      FromBigEndianTwo(bytes[2..4]);
      Success((Header(bytes[0], bytes[1], FromBigEndian(bytes[2..4])), bytes[4..]))
  }

  lemma HeaderRoundTrip(h: Header, rest: Bytes)
    ensures DecodeHeader(EncodeHeader(h) + rest) == Success((h, rest))
  {
    Pow256Values();
    var b := EncodeHeader(h) + rest;
    assert b[2..4] == BigEndian(h.length, 2) && b[4..] == rest;
    FromBigEndianOfBigEndian(h.length, 2);
  }

  lemma HeaderCanonical(bytes: Bytes)
    requires |bytes| >= 4
    ensures EncodeHeader(DecodeHeader(bytes).value.0) == bytes[..4]
  {
    Pow256Values();
    BigEndianOfFromBigEndian(bytes[2..4]);
    assert bytes[..4] == [bytes[0], bytes[1]] + bytes[2..4];
  }

  // ---------------------------------------------------------------------
  // The leaf decoders as decoder values
  // ---------------------------------------------------------------------

  /** The leaf decoders are total and consume a prefix of their input. */
  lemma LeafDecoders(bound: nat)
    ensures WellBehaved(DecodeI64, bound) && ConsumesPrefix(DecodeI64, bound)
    ensures WellBehaved(DecodeStringValue, bound) && ConsumesPrefix(DecodeStringValue, bound)
    ensures WellBehaved(DecodeFieldName, bound) && ConsumesPrefix(DecodeFieldName, bound)
  {
  }
}
