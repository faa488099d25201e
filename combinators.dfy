/**
 * The generic codecs of galacticbuf: `Vec<T>`, the pair `(U, V)` and
 * `HashMap<K, V>`, each parameterised by the encoders and decoders of its
 * components. An element count is never read from the buffer here; the
 * caller passes it in, as the source passes `Some(count)`.
 */
module Combinators {
  import opened Wire
  import opened Assoc

  // ---------------------------------------------------------------------
  // Vec<T>: [Element 1][Element 2]...[Element N]
  // ---------------------------------------------------------------------

  /** The concatenated encodings of the elements, in order. */
  function EncodeSeq<T>(enc: T --> Bytes, xs: seq<T>): Bytes
    requires forall x | x in xs :: enc.requires(x)
  {
    if xs == [] then [] else enc(xs[0]) + EncodeSeq(enc, xs[1..])
  }

  /** Elements that all encode to `w` bytes make a sequence of `w` bytes
      per element: a list of n integers is 8 * n bytes. */
  lemma {:induction false} EncodeSeqFixedWidth<T>(enc: T --> Bytes, xs: seq<T>, w: nat)
    requires forall x | x in xs :: enc.requires(x) && |enc(x)| == w
    ensures |EncodeSeq(enc, xs)| == w * |xs|
    decreases |xs|
  {
    if xs != [] {
      EncodeSeqFixedWidth(enc, xs[1..], w);
      assert w * |xs| == w + w * |xs[1..]|;
    }
  }

  /** The encoding of a non-empty sequence, followed by `rest`, is the first
      element's encoding followed by the rest of the sequence and `rest`. */
  lemma EncodeSeqCons<T>(enc: T --> Bytes, xs: seq<T>, rest: Bytes)
    requires xs != [] && forall x | x in xs :: enc.requires(x)
    ensures EncodeSeq(enc, xs) + rest == enc(xs[0]) + (EncodeSeq(enc, xs[1..]) + rest)
  {
    var a, b := enc(xs[0]), EncodeSeq(enc, xs[1..]);
    assert (a + b) + rest == a + (b + rest);
  }

  /** The state of the decoding loop: `done` holds the elements parsed so far
      and `remaining` elements are still to be parsed from `bytes`. A failing
      element is reported with its position in the whole sequence. */
  function DecodeElements<T>(dec: Decoder<T>, bytes: Bytes, done: seq<T>, remaining: nat): (r: Decoded<seq<T>>)
    requires WellBehaved(dec, |bytes|)
    ensures r.Success? ==> |r.value.1| <= |bytes| && |r.value.0| == |done| + remaining
    ensures r.Failure? ==> r.error.path != [] && r.error.path[0].Element? && |done| <= r.error.path[0].index < |done| + remaining
    decreases remaining
  {
    if remaining == 0 then Success((done, bytes))
    else
      match dec(bytes)
      case Failure(e) => Failure(e.At(Element(|done|)))
      case Success((x, rest)) =>
        WellBehavedSmaller(dec, |bytes|, |rest|);
        DecodeElements(dec, rest, done + [x], remaining - 1)
  }

  lemma {:induction false} DecodeElementsSuffix<T>(dec: Decoder<T>, bytes: Bytes, done: seq<T>, remaining: nat)
    requires WellBehaved(dec, |bytes|) && ConsumesPrefix(dec, |bytes|)
    ensures var r := DecodeElements(dec, bytes, done, remaining);
      r.Success? ==> IsSuffix(r.value.1, bytes)
    decreases remaining
  {
    if remaining > 0 && dec(bytes).Success? {
      var (x, rest) := dec(bytes).value;
      DecodeElementsFirst(dec, bytes, done, remaining - 1, x, rest);
      DecodeElementsSuffix(dec, rest, done + [x], remaining - 1);
      var r := DecodeElements(dec, rest, done + [x], remaining - 1);
      if r.Success? {
        SuffixTransitive(r.value.1, rest, bytes);
      }
    }
  }

  /** `Vec::<T>::deserialize(bytes, count)`: exactly `count` elements (none
      when no count is given), each parsed from what the previous one left. */
  function DecodeSeq<T>(dec: Decoder<T>, bytes: Bytes, count: Option<nat>): (r: Decoded<seq<T>>)
    requires WellBehaved(dec, |bytes|)
    ensures r.Success? ==> |r.value.0| == count.UnwrapOr(0) && |r.value.1| <= |bytes|
    ensures count.UnwrapOr(0) == 0 ==> r == Success(([], bytes))
    ensures r.Failure? ==> r.error.path != [] && r.error.path[0].Element? && r.error.path[0].index < count.UnwrapOr(0)
  {
    DecodeElements(dec, bytes, [], count.UnwrapOr(0))
  }

  /** When the element decoder consumes a prefix, so does the sequence decoder. */
  lemma DecodeSeqSuffix<T>(dec: Decoder<T>, bytes: Bytes, count: Option<nat>)
    requires WellBehaved(dec, |bytes|) && ConsumesPrefix(dec, |bytes|)
    ensures var r := DecodeSeq(dec, bytes, count); r.Success? ==> IsSuffix(r.value.1, bytes)
  {
    DecodeElementsSuffix(dec, bytes, [], count.UnwrapOr(0));
  }

  /** The source's loop, which pushes each element and advances a cursor. */
  method DecodeSeqLoop<T>(dec: Decoder<T>, bytes: Bytes, count: Option<nat>) returns (r: Decoded<seq<T>>)
    requires WellBehaved(dec, |bytes|)
    ensures r == DecodeSeq(dec, bytes, count)
  {
    var n := count.UnwrapOr(0);
    var list: seq<T> := [];
    var cursor := bytes;
    var i := 0;
    while i < n
      invariant i <= n && |list| == i
      invariant WellBehaved(dec, |cursor|)
      invariant DecodeElements(dec, cursor, list, n - i) == DecodeSeq(dec, bytes, count)
    {
      var step := dec(cursor);
      if step.Failure? {
        return Failure(step.error.At(Element(i)));
      }
      var (element, next) := step.value;
      DecodeElementsFirst(dec, cursor, list, n - i - 1, element, next);
      list := list + [element];
      cursor := next;
      i := i + 1;
    }
    return Success((list, cursor));
  }

  /** One more element decoded after a successful partial decode; a failure
      is reported at position `index`. An earlier failure stays as it was. */
  function Extend<T>(dec: Decoder<T>, prev: Decoded<seq<T>>, index: nat): Decoded<seq<T>>
    requires prev.Success? ==> dec.requires(prev.value.1)
  {
    match prev
    case Failure(_) => prev
    case Success((xs, b)) =>
      match dec(b)
      case Failure(e) => Failure(e.At(Element(index)))
      case Success((x, rest)) => Success((xs + [x], rest))
  }

  /** One more iteration of the loop: decoding `n + 1` elements is decoding
      `n`, then one more element from what they left. */
  lemma {:induction false} DecodeElementsStep<T>(dec: Decoder<T>, bytes: Bytes, done: seq<T>, n: nat)
    requires WellBehaved(dec, |bytes|)
    ensures var prev := DecodeElements(dec, bytes, done, n);
      && (prev.Success? ==> dec.requires(prev.value.1))
      && DecodeElements(dec, bytes, done, n + 1) == Extend(dec, prev, |done| + n)
    decreases n
  {
    if n > 0 && dec(bytes).Success? {
      var (x, rest) := dec(bytes).value;
      DecodeElementsFirst(dec, bytes, done, n, x, rest);
      DecodeElementsFirst(dec, bytes, done, n - 1, x, rest);
      DecodeElementsStep(dec, rest, done + [x], n - 1);
    }
  }

  lemma DecodeSeqStep<T>(dec: Decoder<T>, bytes: Bytes, n: nat)
    requires WellBehaved(dec, |bytes|)
    ensures var prev := DecodeSeq(dec, bytes, Some(n));
      && (prev.Success? ==> dec.requires(prev.value.1))
      && DecodeSeq(dec, bytes, Some(n + 1)) == Extend(dec, prev, n)
  {
    DecodeElementsStep(dec, bytes, [], n);
  }

  /** A recursive statement that, for each element in turn, decoding its
      encoding followed by everything after it gives back the element. */
  ghost predicate EachRoundTrips<T>(enc: T --> Bytes, dec: Decoder<T>, xs: seq<T>, rest: Bytes)
    requires forall x | x in xs :: enc.requires(x)
  {
    xs != [] ==>
      var tail := EncodeSeq(enc, xs[1..]) + rest;
      && dec.requires(enc(xs[0]) + tail)
      && dec(enc(xs[0]) + tail) == Success((xs[0], tail))
      && EachRoundTrips(enc, dec, xs[1..], rest)
  }

  lemma AppendFirst<T>(done: seq<T>, xs: seq<T>)
    requires xs != []
    ensures done + [xs[0]] + xs[1..] == done + xs
  {
    assert xs == [xs[0]] + xs[1..];
  }

  /** The first iteration of the loop, when the first element parses. */
  lemma DecodeElementsFirst<T>(dec: Decoder<T>, bytes: Bytes, done: seq<T>, n: nat, x: T, rest: Bytes)
    requires WellBehaved(dec, |bytes|)
    requires dec(bytes) == Success((x, rest))
    ensures WellBehaved(dec, |rest|)
    ensures DecodeElements(dec, bytes, done, n + 1) == DecodeElements(dec, rest, done + [x], n)
  {
    WellBehavedSmaller(dec, |bytes|, |rest|);
  }

  lemma {:induction false} DecodeElementsRoundTrip<T>(enc: T --> Bytes, dec: Decoder<T>, xs: seq<T>, done: seq<T>, bytes: Bytes, rest: Bytes)
    requires forall x | x in xs :: enc.requires(x)
    requires bytes == EncodeSeq(enc, xs) + rest
    requires WellBehaved(dec, |bytes|)
    requires EachRoundTrips(enc, dec, xs, rest)
    ensures DecodeElements(dec, bytes, done, |xs|) == Success((done + xs, rest))
    decreases |xs|
  {
    if xs == [] {
      assert done + xs == done && bytes == rest;
    } else {
      var tail := EncodeSeq(enc, xs[1..]) + rest;
      EncodeSeqCons(enc, xs, rest);
      DecodeElementsFirst(dec, bytes, done, |xs| - 1, xs[0], tail);
      DecodeElementsRoundTrip(enc, dec, xs[1..], done + [xs[0]], tail, rest);
      AppendFirst(done, xs);
    }
  }

  /** Sequence round trip: when each element round-trips, so does the sequence,
      and the bytes after it are returned untouched. */
  lemma DecodeSeqRoundTrip<T>(enc: T --> Bytes, dec: Decoder<T>, xs: seq<T>, rest: Bytes)
    requires forall x | x in xs :: enc.requires(x)
    requires WellBehaved(dec, |EncodeSeq(enc, xs) + rest|)
    requires EachRoundTrips(enc, dec, xs, rest)
    ensures DecodeSeq(dec, EncodeSeq(enc, xs) + rest, Some(|xs|)) == Success((xs, rest))
  {
    DecodeElementsRoundTrip(enc, dec, xs, [], EncodeSeq(enc, xs) + rest, rest);
    assert [] + xs == xs;
  }

  /** When every element round-trips after any tail, the recursive premise of
      the sequence round trip holds. */
  lemma {:induction false} EachRoundTripsOfTotal<T>(enc: T --> Bytes, dec: Decoder<T>, xs: seq<T>, rest: Bytes)
    requires forall x | x in xs :: enc.requires(x)
    requires forall x, tail: Bytes | x in xs :: dec.requires(enc(x) + tail) && dec(enc(x) + tail) == Success((x, tail))
    ensures EachRoundTrips(enc, dec, xs, rest)
    decreases |xs|
  {
    if xs != [] {
      var tail := EncodeSeq(enc, xs[1..]) + rest;
      assert xs[0] in xs;
      EachRoundTripsOfTotal(enc, dec, xs[1..], rest);
    }
  }

  // ---------------------------------------------------------------------
  // (U, V): [Value U][Value V]
  // ---------------------------------------------------------------------

  function EncodePair<U, V>(encU: U --> Bytes, encV: V --> Bytes, p: (U, V)): Bytes
    requires encU.requires(p.0) && encV.requires(p.1)
  {
    encU(p.0) + encV(p.1)
  }

  /** The pair encoder as a value, to hand to the sequence encoder. */
  function PairEncoder<U(!new), V(!new)>(encU: U --> Bytes, encV: V --> Bytes): (e: ((U, V)) --> Bytes)
    ensures forall p: (U, V) | encU.requires(p.0) && encV.requires(p.1) :: e.requires(p) && e(p) == EncodePair(encU, encV, p)
  {
    (p: (U, V)) requires encU.requires(p.0) && encV.requires(p.1) => EncodePair(encU, encV, p)
  }

  /** `<(U, V)>::deserialize`: the first value, then the second from what the
      first left; a failure is reported under the half it happened in. */
  function DecodePair<U, V>(decU: Decoder<U>, decV: Decoder<V>, bytes: Bytes): (r: Decoded<(U, V)>)
    requires WellBehaved(decU, |bytes|) && WellBehaved(decV, |bytes|)
    ensures r.Success? ==> |r.value.1| <= |bytes|
  {
    match decU(bytes)
    case Failure(e) => Failure(e.At(PairFirst))
    case Success((u, rest)) =>
      match decV(rest)
      case Failure(e) => Failure(e.At(PairSecond))
      case Success((v, rest')) => Success(((u, v), rest'))
  }

  lemma DecodePairSuffix<U, V>(decU: Decoder<U>, decV: Decoder<V>, bytes: Bytes)
    requires WellBehaved(decU, |bytes|) && WellBehaved(decV, |bytes|)
    requires ConsumesPrefix(decU, |bytes|) && ConsumesPrefix(decV, |bytes|)
    ensures var r := DecodePair(decU, decV, bytes); r.Success? ==> IsSuffix(r.value.1, bytes)
  {
    if decU(bytes).Success? {
      var rest := decU(bytes).value.1;
      if decV(rest).Success? {
        SuffixTransitive(decV(rest).value.1, rest, bytes);
      }
    }
  }

  /** The pair decoder as a value, defined on buffers of length up to `bound`. */
  function PairDecoder<U, V>(decU: Decoder<U>, decV: Decoder<V>, bound: nat): (d: Decoder<(U, V)>)
    requires WellBehaved(decU, bound) && WellBehaved(decV, bound)
    ensures WellBehaved(d, bound)
    ensures forall b: Bytes {:trigger d(b)} {:trigger d.requires(b)} | |b| <= bound :: d.requires(b) && d(b) == DecodePair(decU, decV, b)
    ensures ConsumesPrefix(decU, bound) && ConsumesPrefix(decV, bound) ==> ConsumesPrefix(d, bound)
  {
    (b: Bytes) requires |b| <= bound && WellBehaved(decU, bound) && WellBehaved(decV, bound) =>
      WellBehavedSmaller(decU, bound, |b|);
      WellBehavedSmaller(decV, bound, |b|);
      DecodePair(decU, decV, b)
  }

  lemma PairRoundTrip<U, V>(encU: U --> Bytes, encV: V --> Bytes, decU: Decoder<U>, decV: Decoder<V>, p: (U, V), rest: Bytes)
    requires encU.requires(p.0) && encV.requires(p.1)
    requires var b := EncodePair(encU, encV, p) + rest; WellBehaved(decU, |b|) && WellBehaved(decV, |b|)
    requires decU(encU(p.0) + (encV(p.1) + rest)) == Success((p.0, encV(p.1) + rest))
    requires decV(encV(p.1) + rest) == Success((p.1, rest))
    ensures DecodePair(decU, decV, EncodePair(encU, encV, p) + rest) == Success((p, rest))
  {
    assert EncodePair(encU, encV, p) + rest == encU(p.0) + (encV(p.1) + rest);
  }

  // ---------------------------------------------------------------------
  // HashMap<K, V>: [Key 1][Value 1][Key 2][Value 2]...[Key N][Value N]
  // ---------------------------------------------------------------------

  /** The map's pairs, in the association list's order, as a pair sequence. */
  function EncodeMap<K(!new), V(!new)>(encK: K --> Bytes, encV: V --> Bytes, m: seq<(K, V)>): Bytes
    requires forall p | p in m :: encK.requires(p.0) && encV.requires(p.1)
  {
    EncodeSeq(PairEncoder(encK, encV), m)
  }

  /** `HashMap::<K, V>::deserialize`: decode `count` pairs, then collect them
      into a map, the last pair for a key winning. */
  function DecodeMap<K(==), V>(decK: Decoder<K>, decV: Decoder<V>, bytes: Bytes, count: Option<nat>): (r: Decoded<seq<(K, V)>>)
    requires WellBehaved(decK, |bytes|) && WellBehaved(decV, |bytes|)
    ensures var pairs := DecodeSeq(PairDecoder(decK, decV, |bytes|), bytes, count);
      && (r.Success? <==> pairs.Success?)
      && (r.Success? ==> UniqueKeys(r.value.0) && MapOf(r.value.0) == MapOf(pairs.value.0))
      && (r.Success? ==> |r.value.0| <= |pairs.value.0|)
      && (r.Success? ==> r.value.1 == pairs.value.1 && |r.value.1| <= |bytes|)
      && (r.Failure? ==> r.error == pairs.error)
  {
    match DecodeSeq(PairDecoder(decK, decV, |bytes|), bytes, count)
    case Failure(e) => Failure(e)
    case Success((pairs, rest)) => Success((Collect(pairs), rest))
  }

  /** Map round trip: a map whose keys are unique and whose pairs each
      round-trip decodes back to itself, in the same order. */
  lemma MapRoundTrip<K(!new), V(!new)>(encK: K --> Bytes, encV: V --> Bytes, decK: Decoder<K>, decV: Decoder<V>, m: seq<(K, V)>, rest: Bytes)
    requires forall p | p in m :: encK.requires(p.0) && encV.requires(p.1)
    requires UniqueKeys(m)
    requires var b := EncodeMap(encK, encV, m) + rest; WellBehaved(decK, |b|) && WellBehaved(decV, |b|)
    requires EachRoundTrips(PairEncoder(encK, encV), PairDecoder(decK, decV, |EncodeMap(encK, encV, m) + rest|), m, rest)
    ensures DecodeMap(decK, decV, EncodeMap(encK, encV, m) + rest, Some(|m|)) == Success((m, rest))
  {
    var b := EncodeMap(encK, encV, m) + rest;
    DecodeSeqRoundTrip(PairEncoder(encK, encV), PairDecoder(decK, decV, |b|), m, rest);
    CollectUnique(m);
  }

  /** Last write wins: when several decoded pairs carry the same key, the map
      holds the value of the last of them. */
  lemma DecodeMapLastWriteWins<K, V>(decK: Decoder<K>, decV: Decoder<V>, bytes: Bytes, count: Option<nat>, i: nat)
    requires WellBehaved(decK, |bytes|) && WellBehaved(decV, |bytes|)
    requires var pairs := DecodeSeq(PairDecoder(decK, decV, |bytes|), bytes, count);
      && pairs.Success? && i < |pairs.value.0|
      && forall j | i < j < |pairs.value.0| :: pairs.value.0[j].0 != pairs.value.0[i].0
    ensures var ps := DecodeSeq(PairDecoder(decK, decV, |bytes|), bytes, count).value.0;
      var m := DecodeMap(decK, decV, bytes, count).value.0;
      ps[i].0 in MapOf(m) && MapOf(m)[ps[i].0] == ps[i].1
  {
    var ps := DecodeSeq(PairDecoder(decK, decV, |bytes|), bytes, count).value.0;
    LastWriteWins(ps, ps[i].0, i);
  }
}
