/**
 * The self-describing values of galacticbuf: a field value is an integer,
 * a string, a list or an object; a list holds integers, strings or
 * objects; an object is a map from field names to field values. The three
 * decoders call each other through the generic sequence and map codecs;
 * to keep the recursion well founded they hand those codecs decoders that
 * are only defined on buffers shorter than their own input.
 */
module Values {
  import opened Wire
  import opened Assoc
  import opened Combinators
  import opened Scalars

  const IntegerTag: u8 := 0x01
  const StringTag: u8 := 0x02
  const ListTag: u8 := 0x03
  const ObjectTag: u8 := 0x04

  datatype List =
    | Integers(integers: seq<i64>)
    | Strings(strings: seq<StringValue>)
    | Objects(objects: seq<Object>)

  /** A `HashMap<FieldName, FieldValue>`, as an association list. */
  datatype Object = Object(fields: seq<(FieldName, FieldValue)>)

  datatype FieldValue =
    | Integer(integer: i64)
    | String(str: StringValue)
    | ListValue(list: List)
    | ObjectValue(obj: Object)

  /** The type byte written in front of a value. */
  function ValueTag(v: FieldValue): u8 {
    match v
    case Integer(_) => IntegerTag
    case String(_) => StringTag
    case ListValue(_) => ListTag
    case ObjectValue(_) => ObjectTag
  }

  predicate IsValueTag(t: u8) {
    t == IntegerTag || t == StringTag || t == ListTag || t == ObjectTag
  }

  /** The element type byte written in front of a list's elements. */
  function ElementTag(l: List): u8 {
    match l
    case Integers(_) => IntegerTag
    case Strings(_) => StringTag
    case Objects(_) => ObjectTag
  }

  predicate IsElementTag(t: u8) {
    t == IntegerTag || t == StringTag || t == ObjectTag
  }

  /** The number of elements of a list. */
  function Count(l: List): nat {
    match l
    case Integers(xs) => |xs|
    case Strings(xs) => |xs|
    case Objects(xs) => |xs|
  }

  // ---------------------------------------------------------------------
  // Which values can be written: the limits the encoders assert, and the
  // distinct keys every HashMap has
  // ---------------------------------------------------------------------

  ghost predicate ValidValue(v: FieldValue)
    decreases v, 1
  {
    match v
    case Integer(_) => true
    case String(s) => |s.text| <= 0xFFFF
    case ListValue(l) => ValidList(l)
    case ObjectValue(o) => ValidObject(o)
  }

  ghost predicate ValidList(l: List)
    decreases l, 1
  {
    match l
    case Integers(xs) => |xs| <= 0xFFFF
    case Strings(xs) => |xs| <= 0xFFFF && forall s | s in xs :: |s.text| <= 0xFFFF
    case Objects(xs) => |xs| <= 0xFFFF && forall o | o in xs :: ValidObject(o)
  }

  ghost predicate ValidObject(o: Object)
    decreases o, 1
  {
    |o.fields| <= 0xFF && ValidFields(o)
  }

  /** A `HashMap<FieldName, FieldValue>` (an object's or a message body's)
      whose names fit their 1-byte length and whose values can be written. */
  ghost predicate ValidFields(o: Object)
    decreases o, 0
  {
    && UniqueKeys(o.fields)
    && forall p | p in o.fields :: |p.0.text| <= 0xFF && ValidValue(p.1)
  }

  // ---------------------------------------------------------------------
  // Encoders
  // ---------------------------------------------------------------------

  /** [Type (1 byte)][Integer/String/List/Object] */
  function EncodeFieldValue(v: FieldValue): (b: Bytes)
    requires ValidValue(v)
    ensures |b| > 0 && b[0] == ValueTag(v)
    decreases v, 3
  {
    match v
    case Integer(x) => [IntegerTag] + EncodeI64(x)
    case String(s) => [StringTag] + EncodeStringValue(s)
    case ListValue(l) => [ListTag] + EncodeList(l)
    case ObjectValue(o) => [ObjectTag] + EncodeObject(o)
  }

  /** [Element Type (1 byte)][Element Count (2 bytes)][Elements...] */
  function EncodeList(l: List): (b: Bytes)
    requires ValidList(l)
    ensures |b| >= 3 && b[0] == ElementTag(l)
    decreases l, 2
  {
    Pow256Values();
    match l
    case Integers(xs) => [IntegerTag] + BigEndian(|xs|, 2) + EncodeSeq(EncodeI64, xs)
    case Strings(xs) => [StringTag] + BigEndian(|xs|, 2) + EncodeSeq(EncodeStringValue, xs)
    case Objects(xs) => [ObjectTag] + BigEndian(|xs|, 2) + EncodeSeq(ObjectEncoder(l), xs)
  }

  /** The object encoder handed to the sequence encoder, for the objects of `l`. */
  function ObjectEncoder(l: List): (e: Object --> Bytes)
    requires l.Objects? && ValidList(l)
    ensures forall o | o in l.objects :: e.requires(o)
    decreases l, 1
  {
    (o: Object) requires o in l.objects && ValidObject(o) => EncodeObject(o)
  }

  /** [Field Count (1 byte)][Field 1][Field 2]...[Field N] */
  function EncodeObject(o: Object): (b: Bytes)
    requires ValidObject(o)
    ensures |b| > 0 && b[0] == |o.fields|
    decreases o, 3
  {
    [|o.fields|] + EncodeFields(o)
  }

  /** `HashMap<FieldName, FieldValue>::serialize`: [Key 1][Value 1]...[Key N][Value N] */
  function EncodeFields(o: Object): Bytes
    requires ValidFields(o)
    decreases o, 2
  {
    EncodeMap(EncodeFieldName, ValueEncoder(o), o.fields)
  }

  /** The value encoder handed to the map encoder, for the values of `o`. */
  function ValueEncoder(o: Object): (e: FieldValue --> Bytes)
    requires ValidFields(o)
    ensures forall p | p in o.fields :: e.requires(p.1)
    decreases o, 1
  {
    (v: FieldValue) requires (exists p | p in o.fields :: p.1 == v) && ValidValue(v) => EncodeFieldValue(v)
  }

  /** One field as the map encoder writes it: its name, then its value. */
  function EncodeField(p: (FieldName, FieldValue)): (b: Bytes)
    requires |p.0.text| <= 0xFF && ValidValue(p.1)
    ensures |b| >= 2 + |p.0.text| && b[0] == |p.0.text| && b[1 + |p.0.text|] == ValueTag(p.1)
  {
    EncodeFieldName(p.0) + EncodeFieldValue(p.1)
  }

  /** The fields written one after another: what the map encoder produces,
      stated without encoder values. */
  function EncodePairs(ps: seq<(FieldName, FieldValue)>): Bytes
    requires forall p | p in ps :: |p.0.text| <= 0xFF && ValidValue(p.1)
  {
    if ps == [] then [] else EncodeField(ps[0]) + EncodePairs(ps[1..])
  }

  lemma {:induction false} EncodeFieldsAsPairs(o: Object)
    requires ValidFields(o)
    ensures EncodeFields(o) == EncodePairs(o.fields)
  {
    EncodeSeqAsPairs(o, o.fields);
  }

  lemma {:induction false} EncodeSeqAsPairs(o: Object, ps: seq<(FieldName, FieldValue)>)
    requires ValidFields(o) && forall p | p in ps :: p in o.fields
    ensures EncodeSeq(PairEncoder(EncodeFieldName, ValueEncoder(o)), ps) == EncodePairs(ps)
    decreases |ps|
  {
    if ps != [] {
      var p := ps[0];
      EncodeSeqAsPairs(o, ps[1..]);
      assert PairEncoder(EncodeFieldName, ValueEncoder(o))(p) == EncodeFieldName(p.0) + EncodeFieldValue(p.1);
    }
  }

  // ---------------------------------------------------------------------
  // Decoders
  // ---------------------------------------------------------------------

  /** [Type (1 byte)][Integer/String/List/Object]; an unknown type byte is
      rejected as soon as it is read. */
  function DecodeFieldValue(bytes: Bytes): (r: Decoded<FieldValue>)
    ensures r.Success? ==> |r.value.1| < |bytes| && bytes[0] == ValueTag(r.value.0)
    ensures |bytes| == 0 ==> r == Failure(Fail(TruncatedBuffer))
    ensures |bytes| > 0 && !IsValueTag(bytes[0]) ==> r == Failure(Fail(UnknownValueTag(bytes[0])))
    decreases |bytes|, 3
  {
    if |bytes| == 0 then Failure(Fail(TruncatedBuffer))
    else
      var tag, body := bytes[0], bytes[1..];
      if tag == IntegerTag then
        match DecodeI64(body)
        case Failure(e) => Failure(e)
        case Success((x, rest)) => Success((Integer(x), rest))
      else if tag == StringTag then
        match DecodeStringValue(body)
        case Failure(e) => Failure(e)
        case Success((s, rest)) => Success((String(s), rest))
      else if tag == ListTag then
        match DecodeList(body)
        case Failure(e) => Failure(e)
        case Success((l, rest)) => Success((ListValue(l), rest))
      else if tag == ObjectTag then
        match DecodeObject(body)
        case Failure(e) => Failure(e)
        case Success((o, rest)) => Success((ObjectValue(o), rest))
      else Failure(Fail(UnknownValueTag(tag)))
  }

  /** [Element Type (1 byte)][Element Count (2 bytes)][Elements...]; the
      element type is checked only once the count has been read. A missing
      type byte and a missing count are the same failure. */
  function DecodeList(bytes: Bytes): (r: Decoded<List>)
    ensures r.Success? ==> |r.value.1| < |bytes|
    ensures r.Success? ==> |bytes| >= 3 && bytes[0] == ElementTag(r.value.0) && Count(r.value.0) == FromBigEndian(bytes[1..3])
    ensures |bytes| < 3 ==> r == Failure(Fail(TruncatedBuffer))
    ensures |bytes| >= 3 && !IsElementTag(bytes[0]) ==> r == Failure(Fail(UnknownElementTag(bytes[0])))
    decreases |bytes|, 2
  {
    if |bytes| < 3 then Failure(Fail(TruncatedBuffer))
    else
      var tag, count, body := bytes[0], FromBigEndian(bytes[1..3]), bytes[3..];
      LeafDecoders(|body|);
      if tag == IntegerTag then
        match DecodeSeq(DecodeI64, body, Some(count))
        case Failure(e) => Failure(e)
        case Success((xs, rest)) => Success((Integers(xs), rest))
      else if tag == StringTag then
        match DecodeSeq(DecodeStringValue, body, Some(count))
        case Failure(e) => Failure(e)
        case Success((xs, rest)) => Success((Strings(xs), rest))
      else if tag == ObjectTag then
        match DecodeSeq(ObjectBelow(|bytes|), body, Some(count))
        case Failure(e) => Failure(e)
        case Success((xs, rest)) => Success((Objects(xs), rest))
      else Failure(Fail(UnknownElementTag(tag)))
  }

  /** `DecodeObject` on buffers shorter than `bound`, as a decoder value. */
  function ObjectBelow(bound: nat): (d: Decoder<Object>)
    ensures forall b: Bytes {:trigger d(b)} {:trigger d.requires(b)} | |b| < bound :: d.requires(b) && d(b) == DecodeObject(b)
    ensures bound > 0 ==> WellBehaved(d, bound - 1)
    decreases bound, 0
  {
    (b: Bytes) requires |b| < bound => DecodeObject(b)
  }

  /** [Field Count (1 byte)][Field 1][Field 2]...[Field N] */
  function DecodeObject(bytes: Bytes): (r: Decoded<Object>)
    ensures r.Success? ==> |r.value.1| < |bytes|
    ensures r.Success? ==> UniqueKeys(r.value.0.fields) && |r.value.0.fields| <= bytes[0]
    ensures |bytes| == 0 ==> r == Failure(Fail(TruncatedBuffer))
    decreases |bytes|, 2
  {
    if |bytes| == 0 then Failure(Fail(TruncatedBuffer))
    else DecodeFields(bytes[1..], Some(bytes[0]))
  }

  /** `HashMap::<FieldName, FieldValue>::deserialize(bytes, count)`: `count`
      name/value pairs, a repeated name keeping its last value. */
  function DecodeFields(bytes: Bytes, count: Option<nat>): (r: Decoded<Object>)
    ensures r.Success? ==> |r.value.1| <= |bytes|
    ensures r.Success? ==> UniqueKeys(r.value.0.fields) && |r.value.0.fields| <= count.UnwrapOr(0)
    decreases |bytes| + 1, 1
  {
    LeafDecoders(|bytes|);
    match DecodeMap(DecodeFieldName, ValueBelow(|bytes| + 1), bytes, count)
    case Failure(e) => Failure(e)
    case Success((fields, rest)) => Success((Object(fields), rest))
  }

  /** `DecodeFieldValue` on buffers shorter than `bound`, as a decoder value. */
  function ValueBelow(bound: nat): (d: Decoder<FieldValue>)
    ensures forall b: Bytes {:trigger d(b)} {:trigger d.requires(b)} | |b| < bound :: d.requires(b) && d(b) == DecodeFieldValue(b)
    ensures bound > 0 ==> WellBehaved(d, bound - 1)
    decreases bound, 0
  {
    (b: Bytes) requires |b| < bound => DecodeFieldValue(b)
  }

  // ---------------------------------------------------------------------
  // Round trips
  // ---------------------------------------------------------------------

  /** Every value that can be written is read back, and the bytes after it
      are left untouched. */
  lemma {:induction false} ValueRoundTrip(v: FieldValue, rest: Bytes)
    requires ValidValue(v)
    ensures DecodeFieldValue(EncodeFieldValue(v) + rest) == Success((v, rest))
    decreases v, 5
  {
    match v
    case Integer(x) => IntegerValueRoundTrip(x, rest);
    case String(s) => StringValueFieldRoundTrip(s, rest);
    case ListValue(l) => ListValueRoundTrip(l, rest);
    case ObjectValue(o) => ObjectValueRoundTrip(o, rest);
  }

  lemma {:induction false} IntegerValueRoundTrip(x: i64, rest: Bytes)
    ensures DecodeFieldValue(EncodeFieldValue(Integer(x)) + rest) == Success((Integer(x), rest))
  {
    var bytes := EncodeFieldValue(Integer(x)) + rest;
    assert bytes[0] == IntegerTag && bytes[1..] == EncodeI64(x) + rest;
    I64RoundTrip(x, rest);
  }

  lemma {:induction false} StringValueFieldRoundTrip(s: StringValue, rest: Bytes)
    requires |s.text| <= 0xFFFF
    ensures DecodeFieldValue(EncodeFieldValue(String(s)) + rest) == Success((String(s), rest))
  {
    var bytes := EncodeFieldValue(String(s)) + rest;
    assert bytes[0] == StringTag && bytes[1..] == EncodeStringValue(s) + rest;
    StringValueRoundTrip(s, rest);
  }

  lemma {:induction false} ListValueRoundTrip(l: List, rest: Bytes)
    requires ValidList(l)
    ensures DecodeFieldValue(EncodeFieldValue(ListValue(l)) + rest) == Success((ListValue(l), rest))
    decreases l, 4
  {
    var bytes := EncodeFieldValue(ListValue(l)) + rest;
    assert bytes == [ListTag] + (EncodeList(l) + rest);
    assert bytes[1..] == EncodeList(l) + rest;
    ListRoundTrip(l, rest);
    DecodeListValue(bytes, l, rest);
  }

  lemma {:induction false} ObjectValueRoundTrip(o: Object, rest: Bytes)
    requires ValidObject(o)
    ensures DecodeFieldValue(EncodeFieldValue(ObjectValue(o)) + rest) == Success((ObjectValue(o), rest))
    decreases o, 5
  {
    var bytes := EncodeFieldValue(ObjectValue(o)) + rest;
    assert bytes == [ObjectTag] + (EncodeObject(o) + rest);
    assert bytes[1..] == EncodeObject(o) + rest;
    ObjectRoundTrip(o, rest);
    DecodeObjectValue(bytes, o, rest);
  }

  /** Reading a value whose type byte says list is reading a list. */
  lemma {:induction false} DecodeListValue(bytes: Bytes, l: List, rest: Bytes)
    requires |bytes| > 0 && bytes[0] == ListTag && DecodeList(bytes[1..]) == Success((l, rest))
    ensures DecodeFieldValue(bytes) == Success((ListValue(l), rest))
  {
    assert DecodeFieldValue(bytes) == match DecodeList(bytes[1..])
      case Failure(e) => Failure(e)
      case Success((l, rest)) => Success((ListValue(l), rest));
  }

  /** Reading a value whose type byte says object is reading an object. */
  lemma {:induction false} DecodeObjectValue(bytes: Bytes, o: Object, rest: Bytes)
    requires |bytes| > 0 && bytes[0] == ObjectTag && DecodeObject(bytes[1..]) == Success((o, rest))
    ensures DecodeFieldValue(bytes) == Success((ObjectValue(o), rest))
  {
    assert DecodeFieldValue(bytes) == match DecodeObject(bytes[1..])
      case Failure(e) => Failure(e)
      case Success((o, rest)) => Success((ObjectValue(o), rest));
  }

  /** How an encoded list followed by `rest` is laid out. */
  lemma {:induction false} ListLayout(l: List, rest: Bytes, tag: u8, count: nat, elements: Bytes)
    requires ValidList(l) && count < 0x1_0000
    requires EncodeList(l) == [tag] + BigEndian(count, 2) + elements
    ensures var bytes := EncodeList(l) + rest;
      && |bytes| >= 3 && bytes[0] == tag && FromBigEndian(bytes[1..3]) == count
      && bytes[3..] == elements + rest
  {
    Pow256Values();
    var bytes := EncodeList(l) + rest;
    assert bytes[1..3] == BigEndian(count, 2);
    assert bytes[3..] == elements + rest;
    FromBigEndianOfBigEndian(count, 2);
  }

  lemma {:induction false} ListRoundTrip(l: List, rest: Bytes)
    requires ValidList(l)
    ensures DecodeList(EncodeList(l) + rest) == Success((l, rest))
    decreases l, 3
  {
    match l
    case Integers(xs) => IntegersRoundTrip(xs, rest);
    case Strings(xs) => StringsRoundTrip(xs, rest);
    case Objects(xs) => ObjectsRoundTrip(l, rest);
  }

  lemma {:induction false} IntegersRoundTrip(xs: seq<i64>, rest: Bytes)
    requires |xs| <= 0xFFFF
    ensures DecodeList(EncodeList(Integers(xs)) + rest) == Success((Integers(xs), rest))
  {
    Pow256Values();
    var l := Integers(xs);
    var bytes := EncodeList(l) + rest;
    ListLayout(l, rest, IntegerTag, |xs|, EncodeSeq(EncodeI64, xs));
    LeafDecoders(|bytes|);
    forall x, tail: Bytes | x in xs
      ensures DecodeI64(EncodeI64(x) + tail) == Success((x, tail))
    {
      I64RoundTrip(x, tail);
    }
    EachRoundTripsOfTotal(EncodeI64, DecodeI64, xs, rest);
    DecodeSeqRoundTrip(EncodeI64, DecodeI64, xs, rest);
    DecodeListIntegers(bytes, xs, rest);
  }

  lemma {:induction false} StringsRoundTrip(xs: seq<StringValue>, rest: Bytes)
    requires |xs| <= 0xFFFF && forall s | s in xs :: |s.text| <= 0xFFFF
    ensures DecodeList(EncodeList(Strings(xs)) + rest) == Success((Strings(xs), rest))
  {
    Pow256Values();
    var l := Strings(xs);
    var bytes := EncodeList(l) + rest;
    ListLayout(l, rest, StringTag, |xs|, EncodeSeq(EncodeStringValue, xs));
    LeafDecoders(|bytes|);
    forall x, tail: Bytes | x in xs
      ensures DecodeStringValue(EncodeStringValue(x) + tail) == Success((x, tail))
    {
      StringValueRoundTrip(x, tail);
    }
    EachRoundTripsOfTotal(EncodeStringValue, DecodeStringValue, xs, rest);
    DecodeSeqRoundTrip(EncodeStringValue, DecodeStringValue, xs, rest);
    DecodeListStrings(bytes, xs, rest);
  }

  lemma {:induction false} ObjectsRoundTrip(l: List, rest: Bytes)
    requires l.Objects? && ValidList(l)
    ensures DecodeList(EncodeList(l) + rest) == Success((l, rest))
    decreases l, 2
  {
    Pow256Values();
    var xs := l.objects;
    var enc := ObjectEncoder(l);
    var bytes := EncodeList(l) + rest;
    ListLayout(l, rest, ObjectTag, |xs|, EncodeSeq(enc, xs));
    ObjectsEachRoundTrip(l, xs, rest, |bytes|);
    DecodeSeqRoundTrip(enc, ObjectBelow(|bytes|), xs, rest);
    DecodeListObjects(bytes, xs, rest);
  }

  /** Reading a list whose element type says integer reads the elements as integers. */
  lemma {:induction false} DecodeListIntegers(bytes: Bytes, xs: seq<i64>, rest: Bytes)
    requires |bytes| >= 3 && bytes[0] == IntegerTag && WellBehaved(DecodeI64, |bytes| - 3)
    requires DecodeSeq(DecodeI64, bytes[3..], Some(FromBigEndian(bytes[1..3]))) == Success((xs, rest))
    ensures DecodeList(bytes) == Success((Integers(xs), rest))
  {
    assert DecodeList(bytes) == match DecodeSeq(DecodeI64, bytes[3..], Some(FromBigEndian(bytes[1..3])))
      case Failure(e) => Failure(e)
      case Success((xs, rest)) => Success((Integers(xs), rest));
  }

  /** Reading a list whose element type says string reads the elements as strings. */
  lemma {:induction false} DecodeListStrings(bytes: Bytes, xs: seq<StringValue>, rest: Bytes)
    requires |bytes| >= 3 && bytes[0] == StringTag && WellBehaved(DecodeStringValue, |bytes| - 3)
    requires DecodeSeq(DecodeStringValue, bytes[3..], Some(FromBigEndian(bytes[1..3]))) == Success((xs, rest))
    ensures DecodeList(bytes) == Success((Strings(xs), rest))
  {
    assert DecodeList(bytes) == match DecodeSeq(DecodeStringValue, bytes[3..], Some(FromBigEndian(bytes[1..3])))
      case Failure(e) => Failure(e)
      case Success((xs, rest)) => Success((Strings(xs), rest));
  }

  /** Reading a list whose element type says object reads the elements as objects. */
  lemma {:induction false} DecodeListObjects(bytes: Bytes, xs: seq<Object>, rest: Bytes)
    requires |bytes| >= 3 && bytes[0] == ObjectTag && WellBehaved(ObjectBelow(|bytes|), |bytes| - 3)
    requires DecodeSeq(ObjectBelow(|bytes|), bytes[3..], Some(FromBigEndian(bytes[1..3]))) == Success((xs, rest))
    ensures DecodeList(bytes) == Success((Objects(xs), rest))
  {
    assert DecodeList(bytes) == match DecodeSeq(ObjectBelow(|bytes|), bytes[3..], Some(FromBigEndian(bytes[1..3])))
      case Failure(e) => Failure(e)
      case Success((xs, rest)) => Success((Objects(xs), rest));
  }

  /** Each of the objects `xs`, all of them in `l`, reads back. */
  lemma {:induction false} ObjectsEachRoundTrip(l: List, xs: seq<Object>, rest: Bytes, bound: nat)
    requires l.Objects? && ValidList(l) && forall o | o in xs :: o in l.objects
    requires |EncodeSeq(ObjectEncoder(l), xs) + rest| < bound
    ensures EachRoundTrips(ObjectEncoder(l), ObjectBelow(bound), xs, rest)
    decreases l, 1, |xs|
  {
    if xs != [] {
      var enc := ObjectEncoder(l);
      var tail := EncodeSeq(enc, xs[1..]) + rest;
      EncodeSeqCons(enc, xs, rest);
      ObjectElementRoundTrip(l, xs[0], tail, bound);
      ObjectsEachRoundTrip(l, xs[1..], rest, bound);
    }
  }

  lemma {:induction false} ObjectElementRoundTrip(l: List, o: Object, tail: Bytes, bound: nat)
    requires l.Objects? && ValidList(l) && o in l.objects
    requires |ObjectEncoder(l)(o) + tail| < bound
    ensures ObjectBelow(bound).requires(ObjectEncoder(l)(o) + tail)
    ensures ObjectBelow(bound)(ObjectEncoder(l)(o) + tail) == Success((o, tail))
    decreases l, 0
  {
    assert ObjectEncoder(l)(o) == EncodeObject(o);
    ObjectRoundTrip(o, tail);
  }

  lemma {:induction false} ObjectRoundTrip(o: Object, rest: Bytes)
    requires ValidObject(o)
    ensures DecodeObject(EncodeObject(o) + rest) == Success((o, rest))
    decreases o, 4
  {
    var bytes := EncodeObject(o) + rest;
    assert bytes == [|o.fields| as u8] + (EncodeFields(o) + rest);
    assert bytes[1..] == EncodeFields(o) + rest;
    FieldsRoundTrip(o, rest);
  }

  /** A map that can be written is read back, pair by pair, in its own order. */
  lemma {:induction false} FieldsRoundTrip(o: Object, rest: Bytes)
    requires ValidFields(o)
    ensures DecodeFields(EncodeFields(o) + rest, Some(|o.fields|)) == Success((o, rest))
    decreases o, 3
  {
    var bytes := EncodeFields(o) + rest;
    LeafDecoders(|bytes|);
    PairsRoundTrip(o, rest);
    DecodeFieldsOfMap(bytes, Some(|o.fields|), o.fields, rest);
  }

  /** The pairs of a map that can be written are read back and collected
      unchanged. */
  lemma {:induction false} PairsRoundTrip(o: Object, rest: Bytes)
    requires ValidFields(o)
    ensures var bytes := EncodeFields(o) + rest;
      && WellBehaved(DecodeFieldName, |bytes|) && WellBehaved(ValueBelow(|bytes| + 1), |bytes|)
      && DecodeMap(DecodeFieldName, ValueBelow(|bytes| + 1), bytes, Some(|o.fields|)) == Success((o.fields, rest))
    decreases o, 2
  {
    var bytes := EncodeFields(o) + rest;
    LeafDecoders(|bytes|);
    FieldsEachRoundTrip(o, o.fields, rest, |bytes|);
    MapRoundTrip(EncodeFieldName, ValueEncoder(o), DecodeFieldName, ValueBelow(|bytes| + 1), o.fields, rest);
  }

  /** Reading an object's fields is reading a map of names to values. */
  lemma {:induction false} DecodeFieldsOfMap(bytes: Bytes, count: Option<nat>, fields: seq<(FieldName, FieldValue)>, rest: Bytes)
    requires WellBehaved(DecodeFieldName, |bytes|) && WellBehaved(ValueBelow(|bytes| + 1), |bytes|)
    requires DecodeMap(DecodeFieldName, ValueBelow(|bytes| + 1), bytes, count) == Success((fields, rest))
    ensures DecodeFields(bytes, count) == Success((Object(fields), rest))
  {
    assert DecodeFields(bytes, count) == match DecodeMap(DecodeFieldName, ValueBelow(|bytes| + 1), bytes, count)
      case Failure(e) => Failure(e)
      case Success((fields, rest)) => Success((Object(fields), rest));
  }

  /** Each of the pairs `ps`, all of them in `o`, reads back. */
  lemma {:induction false} FieldsEachRoundTrip(o: Object, ps: seq<(FieldName, FieldValue)>, rest: Bytes, bound: nat)
    requires ValidFields(o) && forall p | p in ps :: p in o.fields
    requires |EncodeSeq(PairEncoder(EncodeFieldName, ValueEncoder(o)), ps) + rest| <= bound
    requires WellBehaved(DecodeFieldName, bound)
    ensures EachRoundTrips(PairEncoder(EncodeFieldName, ValueEncoder(o)), PairDecoder(DecodeFieldName, ValueBelow(bound + 1), bound), ps, rest)
    decreases o, 1, |ps|
  {
    if ps != [] {
      var enc := PairEncoder(EncodeFieldName, ValueEncoder(o));
      var tail := EncodeSeq(enc, ps[1..]) + rest;
      EncodeSeqCons(enc, ps, rest);
      FieldRoundTrip(o, ps[0], tail, bound);
      FieldsEachRoundTrip(o, ps[1..], rest, bound);
    }
  }

  /** One name/value pair of `o` reads back. */
  lemma {:induction false} FieldRoundTrip(o: Object, p: (FieldName, FieldValue), tail: Bytes, bound: nat)
    requires ValidFields(o) && p in o.fields
    requires |PairEncoder(EncodeFieldName, ValueEncoder(o))(p) + tail| <= bound
    requires WellBehaved(DecodeFieldName, bound)
    ensures var d := PairDecoder(DecodeFieldName, ValueBelow(bound + 1), bound);
      var b := PairEncoder(EncodeFieldName, ValueEncoder(o))(p) + tail;
      d.requires(b) && d(b) == Success((p, tail))
    decreases o, 0
  {
    var encV := ValueEncoder(o);
    var decV := ValueBelow(bound + 1);
    ValueRoundTrip(p.1, tail);
    FieldNameRoundTrip(p.0, EncodeFieldValue(p.1) + tail);
    PairRoundTrip(EncodeFieldName, encV, DecodeFieldName, decV, p, tail);
  }

  // ---------------------------------------------------------------------
  // What a decoder leaves is what follows the bytes it read
  // ---------------------------------------------------------------------

  lemma {:induction false} ValueSuffix(bytes: Bytes)
    ensures var r := DecodeFieldValue(bytes); r.Success? ==> IsSuffix(r.value.1, bytes)
    decreases |bytes|, 3
  {
    var r := DecodeFieldValue(bytes);
    if r.Success? {
      var tag, body := bytes[0], bytes[1..];
      if tag == IntegerTag {
        assert r.value.1 == DecodeI64(body).value.1;
      } else if tag == StringTag {
        assert r.value.1 == DecodeStringValue(body).value.1;
      } else if tag == ListTag {
        ListSuffix(body);
        assert r.value.1 == DecodeList(body).value.1;
      } else {
        ObjectSuffix(body);
        assert r.value.1 == DecodeObject(body).value.1;
      }
      assert IsSuffix(r.value.1, body);
      SuffixTransitive(r.value.1, body, bytes);
    }
  }

  lemma {:induction false} ListSuffix(bytes: Bytes)
    ensures var r := DecodeList(bytes); r.Success? ==> IsSuffix(r.value.1, bytes)
    decreases |bytes|, 2
  {
    var r := DecodeList(bytes);
    if r.Success? {
      var count, body := FromBigEndian(bytes[1..3]), bytes[3..];
      LeafDecoders(|body|);
      if bytes[0] == IntegerTag {
        DecodeSeqSuffix(DecodeI64, body, Some(count));
      } else if bytes[0] == StringTag {
        DecodeSeqSuffix(DecodeStringValue, body, Some(count));
      } else {
        var d := ObjectBelow(|bytes|);
        WellBehavedSmaller(d, |bytes| - 1, |body|);
        forall b: Bytes | |b| <= |body| && d(b).Success?
          ensures IsSuffix(d(b).value.1, b)
        {
          ObjectSuffix(b);
        }
        DecodeSeqSuffix(d, body, Some(count));
      }
      SuffixTransitive(r.value.1, body, bytes);
    }
  }

  lemma {:induction false} ObjectSuffix(bytes: Bytes)
    ensures var r := DecodeObject(bytes); r.Success? ==> IsSuffix(r.value.1, bytes)
    decreases |bytes|, 2
  {
    var r := DecodeObject(bytes);
    if r.Success? {
      FieldsSuffix(bytes[1..], Some(bytes[0]));
      SuffixTransitive(r.value.1, bytes[1..], bytes);
    }
  }

  lemma {:induction false} FieldsSuffix(bytes: Bytes, count: Option<nat>)
    ensures var r := DecodeFields(bytes, count); r.Success? ==> IsSuffix(r.value.1, bytes)
    decreases |bytes| + 1, 1
  {
    LeafDecoders(|bytes|);
    var d := ValueBelow(|bytes| + 1);
    forall b: Bytes | |b| <= |bytes| && d(b).Success?
      ensures IsSuffix(d(b).value.1, b)
    {
      ValueSuffix(b);
    }
    DecodeSeqSuffix(PairDecoder(DecodeFieldName, d, |bytes|), bytes, count);
  }
}
