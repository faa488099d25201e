/**
 * A galacticbuf message: a 4-byte header (version, field count, total
 * length including the header) followed by the fields of its body. The
 * decoder checks the version first, then that the buffer is at least as
 * long as the header says, then reads the fields, and only then compares
 * the number of bytes it read with the declared length.
 */
module Messages {
  import opened Wire
  import opened Assoc
  import opened Scalars
  import opened Values

  datatype Message = Message(header: Header, body: Object)

  /** [Header][Field 1][Field 2]...[Field N]; the header is written as it
      stands, whether or not it agrees with the body. Reading a header off
      the front gives back this one, with the fields behind it, and a
      header that agrees with its body states the length of the whole
      message, header included. */
  function EncodeMessage(m: Message): (b: Bytes)
    requires ValidFields(m.body)
    ensures DecodeHeader(b) == Success((m.header, EncodeFields(m.body)))
    ensures Consistent(m) ==> |b| == m.header.length
  {
    HeaderRoundTrip(m.header, EncodeFields(m.body));
    EncodeHeader(m.header) + EncodeFields(m.body)
  }

  /** The header a message with this body must carry to be read back. */
  ghost predicate Consistent(m: Message)
    requires ValidFields(m.body)
  {
    && m.header.version == Version1
    && m.header.fieldCount == |m.body.fields|
    && m.header.length == 4 + |EncodeFields(m.body)|
  }

  function DecodeMessage(bytes: Bytes): (r: Decoded<Message>)
    ensures r.Success? ==>
      var (m, rest) := r.value;
      && m.header.version == Version1
      && m.header.length <= |bytes|
      && rest == bytes[m.header.length..]
      && UniqueKeys(m.body.fields) && |m.body.fields| <= m.header.fieldCount
    ensures |bytes| < 4 ==> r == Failure(Fail(TruncatedBuffer))
    ensures |bytes| >= 4 && bytes[0] != Version1 ==> r == Failure(Fail(UnsupportedVersion(bytes[0])))
    ensures |bytes| >= 4 && bytes[0] == Version1 && bytes[2] as int * 256 + bytes[3] as int > |bytes| ==>
      r == Failure(Fail(BufferTooShort(|bytes|, bytes[2] as int * 256 + bytes[3] as int)))
  {
    match DecodeHeader(bytes)
    case Failure(e) => Failure(e)
    case Success((h, after)) =>
      if h.version != Version1 then Failure(Fail(UnsupportedVersion(h.version)))
      else if h.length > |after| + 4 then Failure(Fail(BufferTooShort(|after| + 4, h.length)))
      else
        FieldsSuffix(after, Some(h.fieldCount));
        match DecodeFields(after, Some(h.fieldCount))
        case Failure(e) => Failure(e)
        case Success((body, rest)) =>
          var consumed := |bytes| - |rest|;
          if consumed != h.length then Failure(Fail(LengthMismatch(consumed, h.length)))
          else Success((Message(h, body), rest))
  }

  /** Reading the header and the fields, where the header is as written. */
  lemma {:induction false} DecodeMessageOfFields(bytes: Bytes, after: Bytes, m: Message, rest: Bytes)
    requires DecodeHeader(bytes) == Success((m.header, after))
    requires m.header.version == Version1 && m.header.length <= |bytes|
    requires DecodeFields(after, Some(m.header.fieldCount)) == Success((m.body, rest))
    ensures |bytes| - |rest| == m.header.length ==> DecodeMessage(bytes) == Success((m, rest))
    ensures |bytes| - |rest| != m.header.length ==>
      DecodeMessage(bytes) == Failure(Fail(LengthMismatch(|bytes| - |rest|, m.header.length)))
  {
    var consumed := |bytes| - |rest|;
    if consumed != m.header.length {
      var r := DecodeMessage(bytes);
      assert r.Failure? && r.error.kind.LengthMismatch?;
      assert r.error.kind.consumed == consumed && r.error.kind.declared == m.header.length;
      assert r.error.path == [];
    }
  }

  /** An encoded message followed by `rest`: the header reads back as
      written, and the fields and `rest` follow its 4 bytes. */
  lemma {:induction false} EncodedLayout(m: Message, rest: Bytes)
    requires ValidFields(m.body)
    ensures var bytes := EncodeMessage(m) + rest;
      && |bytes| >= 4 && bytes[4..] == EncodeFields(m.body) + rest
      && |bytes| - |rest| == 4 + |EncodeFields(m.body)|
      && DecodeHeader(bytes) == Success((m.header, bytes[4..]))
  {
    var fields := EncodeFields(m.body) + rest;
    var bytes := EncodeMessage(m) + rest;
    assert bytes == EncodeHeader(m.header) + fields;
    HeaderRoundTrip(m.header, fields);
  }

  /** A message whose header agrees with its body is read back, and the
      bytes after it are left untouched. */
  lemma {:induction false} MessageRoundTrip(m: Message, rest: Bytes)
    requires ValidFields(m.body) && Consistent(m)
    ensures DecodeMessage(EncodeMessage(m) + rest) == Success((m, rest))
  {
    var bytes := EncodeMessage(m) + rest;
    EncodedLayout(m, rest);
    FieldsRoundTrip(m.body, rest);
    DecodeMessageOfFields(bytes, bytes[4..], m, rest);
  }

  /** A header whose length is not the message's real length (but still fits
      the buffer) is caught once the fields have been read. */
  lemma {:induction false} WrongLengthRejected(m: Message, rest: Bytes)
    requires ValidFields(m.body)
    requires m.header.version == Version1 && m.header.fieldCount == |m.body.fields|
    requires m.header.length != 4 + |EncodeFields(m.body)|
    requires m.header.length <= |EncodeMessage(m) + rest|
    ensures DecodeMessage(EncodeMessage(m) + rest) ==
      Failure(Fail(LengthMismatch(4 + |EncodeFields(m.body)|, m.header.length)))
  {
    var bytes := EncodeMessage(m) + rest;
    EncodedLayout(m, rest);
    FieldsRoundTrip(m.body, rest);
    DecodeMessageOfFields(bytes, bytes[4..], m, rest);
  }
}
