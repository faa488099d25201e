/**
 * The two messages the source's unit tests decode, byte for byte: each
 * decodes to the expected message and leaves no bytes behind. The test
 * buffers are written here in the groups their comments describe (header,
 * then each field's name and value), so that each group can be matched
 * against the encoding of one part of the expected message.
 */
module Vectors {
  import opened Wire
  import opened Utf8
  import opened Combinators
  import opened Scalars
  import opened Values
  import opened Messages

  // ---------------------------------------------------------------------
  // Building blocks: the bytes of one field, of a small object, of a message
  // ---------------------------------------------------------------------

  type Field = (FieldName, FieldValue)

  ghost predicate Writable(p: Field) {
    |p.0.text| <= 0xFF && ValidValue(p.1)
  }

  /** An integer field: name length, name, the Integer tag, eight bytes. */
  lemma {:induction false} IntegerField(nb: u8, name: Text, x: i64, b3: u8, b2: u8, b1: u8, b0: u8)
    requires nb as int == |name|
    requires x as int == ((b3 as int * 256 + b2 as int) * 256 + b1 as int) * 256 + b0 as int
    ensures Writable((FieldName(name), Integer(x)))
    ensures EncodeField((FieldName(name), Integer(x))) ==
      ([nb] + name) + ([IntegerTag] + [0x00, 0x00, 0x00, 0x00, b3, b2, b1, b0])
  {
    I64Bytes(x, b3, b2, b1, b0);
  }

  /** A string field: name length, name, the String tag, 2-byte length, text. */
  lemma {:induction false} StringField(nb: u8, name: Text, hi: u8, lo: u8, s: Text)
    requires nb as int == |name| && hi as int * 256 + lo as int == |s|
    ensures Writable((FieldName(name), String(StringValue(s))))
    ensures EncodeField((FieldName(name), String(StringValue(s)))) ==
      ([nb] + name) + ([StringTag] + ([hi, lo] + s))
  {
    TwoBytes(|s|);
  }

  /** A list-of-integers field: the List tag, the Integer element tag, the
      2-byte count, then the integers. */
  lemma {:induction false} IntegersField(nb: u8, name: Text, hi: u8, lo: u8, xs: seq<i64>, xsb: Bytes)
    requires nb as int == |name| && hi as int * 256 + lo as int == |xs|
    requires EncodeSeq(EncodeI64, xs) == xsb
    ensures Writable((FieldName(name), ListValue(Integers(xs))))
    ensures EncodeField((FieldName(name), ListValue(Integers(xs)))) ==
      ([nb] + name) + ([ListTag] + (([IntegerTag] + [hi, lo]) + xsb))
  {
    TwoBytes(|xs|);
    assert |xs| / 256 == hi as int && |xs| % 256 == lo as int;
    assert BigEndian(|xs|, 2) == [hi, lo];
    assert EncodeList(Integers(xs)) == ([IntegerTag] + [hi, lo]) + xsb;
    assert EncodeFieldValue(ListValue(Integers(xs))) == [ListTag] + (([IntegerTag] + [hi, lo]) + xsb);
  }

  /** Three integers written one after another. */
  lemma {:induction false} ThreeIntegers(a: i64, b: i64, c: i64)
    ensures EncodeSeq(EncodeI64, [a, b, c]) == EncodeI64(a) + (EncodeI64(b) + EncodeI64(c))
  {
    var xs := [a, b, c];
    assert xs[1..] == [b, c] && [b, c][1..] == [c] && [c][1..] == [];
    assert EncodeSeq(EncodeI64, [c]) == EncodeI64(c) + [];
  }

  /** A list field of two objects. */
  lemma {:induction false} TwoObjectsField(nb: u8, name: Text, o0: Object, o1: Object)
    requires nb as int == |name| && ValidObject(o0) && ValidObject(o1)
    ensures Writable((FieldName(name), ListValue(Objects([o0, o1]))))
    ensures EncodeField((FieldName(name), ListValue(Objects([o0, o1])))) ==
      ([nb] + name) + ([ListTag] + (([ObjectTag] + [0x00, 0x02]) + (EncodeObject(o0) + EncodeObject(o1))))
  {
    TwoBytes(2);
    var l := Objects([o0, o1]);
    assert [o0, o1][1..] == [o1] && [o1][1..] == [];
    assert ObjectEncoder(l)(o0) == EncodeObject(o0) && ObjectEncoder(l)(o1) == EncodeObject(o1);
    assert EncodeSeq(ObjectEncoder(l), [o1]) == EncodeObject(o1) + [];
    assert EncodeSeq(ObjectEncoder(l), [o0, o1]) == EncodeObject(o0) + EncodeObject(o1);
    assert EncodeList(l) == ([ObjectTag] + [0x00, 0x02]) + (EncodeObject(o0) + EncodeObject(o1));
  }

  /** A body of two fields with different names. */
  lemma {:induction false} TwoFields(p0: Field, p1: Field)
    requires Writable(p0) && Writable(p1) && p0.0 != p1.0
    ensures ValidFields(Object([p0, p1]))
    ensures EncodeFields(Object([p0, p1])) == EncodeField(p0) + EncodeField(p1)
  {
    var ps := [p0, p1];
    assert ps[1..] == [p1] && [p1][1..] == [];
    assert EncodePairs([p1]) == EncodeField(p1) + [];
    EncodeFieldsAsPairs(Object(ps));
  }

  /** A body of three fields with different names. */
  lemma {:induction false} ThreeFields(p0: Field, p1: Field, p2: Field)
    requires Writable(p0) && Writable(p1) && Writable(p2)
    requires p0.0 != p1.0 && p0.0 != p2.0 && p1.0 != p2.0
    ensures ValidFields(Object([p0, p1, p2]))
    ensures EncodeFields(Object([p0, p1, p2])) == EncodeField(p0) + (EncodeField(p1) + EncodeField(p2))
  {
    var ps := [p0, p1, p2];
    assert ps[1..] == [p1, p2] && [p1, p2][1..] == [p2] && [p2][1..] == [];
    assert EncodePairs([p2]) == EncodeField(p2) + [];
    EncodeFieldsAsPairs(Object(ps));
  }

  /** An object of two fields: its field count, then the two fields. */
  lemma {:induction false} TwoFieldObject(p0: Field, p1: Field)
    requires Writable(p0) && Writable(p1) && p0.0 != p1.0
    ensures ValidObject(Object([p0, p1]))
    ensures EncodeObject(Object([p0, p1])) == [0x02] + (EncodeField(p0) + EncodeField(p1))
  {
    TwoFields(p0, p1);
  }

  /** A version-1 message whose header counts its fields and gives the
      length of the whole message, high byte `hi` and low byte `lo`, is read
      back from its header followed by its fields. */
  lemma {:induction false} MessageDecodes(body: Object, fb: Bytes, count: u8, hi: u8, lo: u8)
    requires ValidFields(body) && EncodeFields(body) == fb
    requires count as int == |body.fields| && hi as int * 256 + lo as int == 4 + |fb|
    ensures DecodeMessage(([Version1, count] + [hi, lo]) + fb) ==
      Success((Message(Header(Version1, count, hi as int * 256 + lo as int), body), []))
  {
    var m := Message(Header(Version1, count, hi as int * 256 + lo as int), body);
    TwoBytes(m.header.length);
    assert m.header.length / 256 == hi as int && m.header.length % 256 == lo as int;
    assert EncodeHeader(m.header) == [Version1, count] + [hi, lo];
    assert EncodeMessage(m) + [] == ([Version1, count] + [hi, lo]) + fb;
    MessageRoundTrip(m, []);
  }

  /** The UTF-8 bytes of a string of ASCII characters. */
  function AsciiText(s: string): (t: Text)
    requires forall i | 0 <= i < |s| :: s[i] as int <= 0x7F
    ensures |t| == |s| && forall i | 0 <= i < |s| :: t[i] == s[i] as u8
  {
    var t: Bytes := seq(|s|, i requires 0 <= i < |s| => s[i] as u8);
    AsciiIsValid(t);
    t
  }

  /** An ASCII string literal and a byte literal with the same code at each
      position denote the same text. */
  lemma {:induction false} AsciiLiteral(s: string, b: Bytes)
    requires |b| == |s| && forall i | 0 <= i < |s| :: s[i] as int <= 0x7F && b[i] == s[i] as u8
    ensures AsciiText(s) == b
  {
    var t := AsciiText(s);
    assert forall i | 0 <= i < |s| :: t[i] == b[i];
  }

  /** A non-negative integer below 2^32 is four zero bytes, then its four
      low bytes, most significant first. */
  lemma {:induction false} I64Bytes(x: i64, b3: u8, b2: u8, b1: u8, b0: u8)
    requires x as int == ((b3 as int * 256 + b2 as int) * 256 + b1 as int) * 256 + b0 as int
    ensures EncodeI64(x) == [0x00, 0x00, 0x00, 0x00, b3, b2, b1, b0]
  {
    Pow256Values();
    var n2 := b3 as int * 256 + b2 as int;
    var n1 := n2 * 256 + b1 as int;
    var n := x as nat;
    assert n / 256 == n1 && n % 256 == b0 as int;
    assert n1 / 256 == n2 && n1 % 256 == b1 as int;
    assert n2 / 256 == b3 as int && n2 % 256 == b2 as int;
    var zeros := BigEndian(0, 4);
    assert zeros == [0x00, 0x00, 0x00, 0x00];
    assert BigEndian(n, 8) == BigEndian(n1, 7) + [b0];
    assert BigEndian(n1, 7) == BigEndian(n2, 6) + [b1];
    assert BigEndian(n2, 6) == BigEndian(b3 as int, 5) + [b2];
    assert BigEndian(b3 as int, 5) == zeros + [b3];
  }

  // ---------------------------------------------------------------------
  // `user_id=1001, name="Alice", scores=[100, 200, 300]`
  // ---------------------------------------------------------------------

  const UserId: Text := AsciiText("user_id")
  const Name: Text := AsciiText("name")
  const Alice: Text := AsciiText("Alice")
  const Scores: Text := AsciiText("scores")

  const UserIdEntry: Field := (FieldName(UserId), Integer(1001))
  const NameEntry: Field := (FieldName(Name), String(StringValue(Alice)))
  const ScoresEntry: Field := (FieldName(Scores), ListValue(Integers([100, 200, 300])))

  const SimpleMessage := Message(Header(Version1, 3, 69), Object([UserIdEntry, NameEntry, ScoresEntry]))

  /** The test's 69-byte buffer, in the groups its comments describe. */
  const SimpleHeaderBytes: Bytes := [0x01, 0x03] + [0x00, 0x45]
  const UserIdBytes: Bytes :=
    ([0x07] + UserId)
    + ([0x01] + [0x00, 0x00, 0x00, 0x00, 0x00, 0x00, 0x03, 0xE9])
  const NameBytes: Bytes :=
    ([0x04] + Name)
    + ([0x02] + ([0x00, 0x05] + Alice))
  const ScoresBytes: Bytes :=
    ([0x06] + Scores)
    + ([0x03] + (([0x01] + [0x00, 0x03])
      + ([0x00, 0x00, 0x00, 0x00, 0x00, 0x00, 0x00, 0x64]
      + ([0x00, 0x00, 0x00, 0x00, 0x00, 0x00, 0x00, 0xC8]
      + [0x00, 0x00, 0x00, 0x00, 0x00, 0x00, 0x01, 0x2C]))))
  const SimpleBytes: Bytes := SimpleHeaderBytes + (UserIdBytes + (NameBytes + ScoresBytes))

  /** `user_id` in the hex bytes of the test's array. */
  lemma {:induction false} UserIdAsWritten()
    ensures UserId == [0x75, 0x73, 0x65, 0x72, 0x5F, 0x69, 0x64]
  {
    AsciiLiteral("user_id", [0x75, 0x73, 0x65, 0x72, 0x5F, 0x69, 0x64]);
  }

  /** `name` in the hex bytes of the test's array. */
  lemma {:induction false} NameAsWritten()
    ensures Name == [0x6E, 0x61, 0x6D, 0x65]
  {
    AsciiLiteral("name", [0x6E, 0x61, 0x6D, 0x65]);
  }

  /** `Alice` in the hex bytes of the test's array. */
  lemma {:induction false} AliceAsWritten()
    ensures Alice == [0x41, 0x6C, 0x69, 0x63, 0x65]
  {
    AsciiLiteral("Alice", [0x41, 0x6C, 0x69, 0x63, 0x65]);
  }

  /** `scores` in the hex bytes of the test's array. */
  lemma {:induction false} ScoresAsWritten()
    ensures Scores == [0x73, 0x63, 0x6F, 0x72, 0x65, 0x73]
  {
    AsciiLiteral("scores", [0x73, 0x63, 0x6F, 0x72, 0x65, 0x73]);
  }

  lemma {:induction false} UserIdField()
    ensures Writable(UserIdEntry) && EncodeField(UserIdEntry) == UserIdBytes
  {
    IntegerField(0x07, UserId, 1001, 0x00, 0x00, 0x03, 0xE9);
  }

  lemma {:induction false} NameField()
    ensures Writable(NameEntry) && EncodeField(NameEntry) == NameBytes
  {
    StringField(0x04, Name, 0x00, 0x05, Alice);
  }

  lemma {:induction false} ScoresField()
    ensures Writable(ScoresEntry) && EncodeField(ScoresEntry) == ScoresBytes
  {
    I64Bytes(100, 0x00, 0x00, 0x00, 0x64);
    I64Bytes(200, 0x00, 0x00, 0x00, 0xC8);
    I64Bytes(300, 0x00, 0x00, 0x01, 0x2C);
    ThreeIntegers(100, 200, 300);
    IntegersField(0x06, Scores, 0x00, 0x03, [100, 200, 300], [0x00, 0x00, 0x00, 0x00, 0x00, 0x00, 0x00, 0x64]
      + ([0x00, 0x00, 0x00, 0x00, 0x00, 0x00, 0x00, 0xC8]
      + [0x00, 0x00, 0x00, 0x00, 0x00, 0x00, 0x01, 0x2C]));
  }

  /** The first test: the 69 bytes decode to the message, nothing left over. */
  lemma {:induction false} SimpleMessageDecodes()
    ensures |SimpleBytes| == 69
    ensures DecodeMessage(SimpleBytes) == Success((SimpleMessage, []))
  {
    UserIdField();
    NameField();
    ScoresField();
    ThreeFields(UserIdEntry, NameEntry, ScoresEntry);
    assert |UserIdBytes| == 17 && |NameBytes| == 13 && |ScoresBytes| == 35;
    MessageDecodes(SimpleMessage.body, UserIdBytes + (NameBytes + ScoresBytes), 0x03, 0x00, 0x45);
  }

  // ---------------------------------------------------------------------
  // `timestamp=1698765432, trades=[{id:1, price:100}, {id:2, price:200}]`
  // ---------------------------------------------------------------------

  const Timestamp: Text := AsciiText("timestamp")
  const Trades: Text := AsciiText("trades")
  const Id: Text := AsciiText("id")
  const Price: Text := AsciiText("price")

  function Trade(id: i64, price: i64): Object {
    Object([(FieldName(Id), Integer(id)), (FieldName(Price), Integer(price))])
  }

  const TimestampEntry: Field := (FieldName(Timestamp), Integer(1698765432))
  const TradesEntry: Field := (FieldName(Trades), ListValue(Objects([Trade(1, 100), Trade(2, 200)])))

  const TradesMessage := Message(Header(Version1, 2, 90), Object([TimestampEntry, TradesEntry]))

  /** The test's 90-byte buffer, in the groups its comments describe. */
  const TradesHeaderBytes: Bytes := [0x01, 0x02] + [0x00, 0x5A]
  const TimestampBytes: Bytes :=
    ([0x09] + Timestamp)
    + ([0x01] + [0x00, 0x00, 0x00, 0x00, 0x65, 0x41, 0x1A, 0x78])
  const Trade1Bytes: Bytes :=
    [0x02]
    + ((([0x02] + Id) + ([0x01] + [0x00, 0x00, 0x00, 0x00, 0x00, 0x00, 0x00, 0x01]))
    + (([0x05] + Price) + ([0x01] + [0x00, 0x00, 0x00, 0x00, 0x00, 0x00, 0x00, 0x64])))
  const Trade2Bytes: Bytes :=
    [0x02]
    + ((([0x02] + Id) + ([0x01] + [0x00, 0x00, 0x00, 0x00, 0x00, 0x00, 0x00, 0x02]))
    + (([0x05] + Price) + ([0x01] + [0x00, 0x00, 0x00, 0x00, 0x00, 0x00, 0x00, 0xC8])))
  const TradesBytes: Bytes :=
    ([0x06] + Trades)
    + ([0x03] + (([0x04] + [0x00, 0x02]) + (Trade1Bytes + Trade2Bytes)))
  const TradesMessageBytes: Bytes := TradesHeaderBytes + (TimestampBytes + TradesBytes)

  /** `timestamp` in the hex bytes of the test's array. */
  lemma {:induction false} TimestampAsWritten()
    ensures Timestamp == [0x74, 0x69, 0x6D, 0x65, 0x73, 0x74, 0x61, 0x6D, 0x70]
  {
    AsciiLiteral("timestamp", [0x74, 0x69, 0x6D, 0x65, 0x73, 0x74, 0x61, 0x6D, 0x70]);
  }

  /** `trades` in the hex bytes of the test's array. */
  lemma {:induction false} TradesAsWritten()
    ensures Trades == [0x74, 0x72, 0x61, 0x64, 0x65, 0x73]
  {
    AsciiLiteral("trades", [0x74, 0x72, 0x61, 0x64, 0x65, 0x73]);
  }

  /** `id` in the hex bytes of the test's array. */
  lemma {:induction false} IdAsWritten()
    ensures Id == [0x69, 0x64]
  {
    AsciiLiteral("id", [0x69, 0x64]);
  }

  /** `price` in the hex bytes of the test's array. */
  lemma {:induction false} PriceAsWritten()
    ensures Price == [0x70, 0x72, 0x69, 0x63, 0x65]
  {
    AsciiLiteral("price", [0x70, 0x72, 0x69, 0x63, 0x65]);
  }

  lemma {:induction false} TimestampField()
    ensures Writable(TimestampEntry) && EncodeField(TimestampEntry) == TimestampBytes
  {
    IntegerField(0x09, Timestamp, 1698765432, 0x65, 0x41, 0x1A, 0x78);
  }

  /** `{id: 1, price: 100}` as the test writes it. */
  lemma {:induction false} FirstTrade()
    ensures ValidObject(Trade(1, 100)) && EncodeObject(Trade(1, 100)) == Trade1Bytes
  {
    IntegerField(0x02, Id, 1, 0x00, 0x00, 0x00, 0x01);
    IntegerField(0x05, Price, 100, 0x00, 0x00, 0x00, 0x64);
    TwoFieldObject((FieldName(Id), Integer(1)), (FieldName(Price), Integer(100)));
  }

  /** `{id: 2, price: 200}` as the test writes it. */
  lemma {:induction false} SecondTrade()
    ensures ValidObject(Trade(2, 200)) && EncodeObject(Trade(2, 200)) == Trade2Bytes
  {
    IntegerField(0x02, Id, 2, 0x00, 0x00, 0x00, 0x02);
    IntegerField(0x05, Price, 200, 0x00, 0x00, 0x00, 0xC8);
    TwoFieldObject((FieldName(Id), Integer(2)), (FieldName(Price), Integer(200)));
  }

  lemma {:induction false} TradesField()
    ensures Writable(TradesEntry) && EncodeField(TradesEntry) == TradesBytes
  {
    FirstTrade();
    SecondTrade();
    TwoObjectsField(0x06, Trades, Trade(1, 100), Trade(2, 200));
  }

  /** The second test: the 90 bytes decode to the message, nothing left over. */
  lemma {:induction false} TradesMessageDecodes()
    ensures |TradesMessageBytes| == 90
    ensures DecodeMessage(TradesMessageBytes) == Success((TradesMessage, []))
  {
    TimestampField();
    TradesField();
    TwoFields(TimestampEntry, TradesEntry);
    assert |TimestampBytes| == 19 && |TradesBytes| == 67;
    MessageDecodes(TradesMessage.body, TimestampBytes + TradesBytes, 0x02, 0x00, 0x5A);
  }
}
