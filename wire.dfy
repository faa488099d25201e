/**
 * Byte-level vocabulary of the galacticbuf wire format: fixed-width
 * unsigned and signed integers, big-endian byte strings, the error kinds a
 * decoder reports, and the shape every decoder shares: it takes a byte
 * buffer and returns a value together with the unconsumed remainder.
 */
module Wire {

  type u8 = x: int | 0 <= x < 0x100
  type u16 = x: int | 0 <= x < 0x1_0000
  /** Rust's i64: two's complement, 64 bits. */
  type i64 = x: int | -0x8000_0000_0000_0000 <= x < 0x8000_0000_0000_0000

  type Bytes = seq<u8>

  /** Rust's Option<usize>, the optional element count every decoder receives. */
  datatype Option<T> = None | Some(value: T) {
    function UnwrapOr(default: T): T {
      match this
      case Some(v) => v
      case None => default
    }
  }

  /** The kinds of decode failure; the source reports them as message text. */
  datatype ErrorKind =
    | TruncatedBuffer
    | InvalidUtf8
    | UnknownElementTag(elementTag: u8)
    | UnknownValueTag(valueTag: u8)
    | UnsupportedVersion(found: u8)
    | BufferTooShort(available: nat, declared: u16)
    | LengthMismatch(consumed: nat, declared: u16)

  /** Where, inside a composite value, a failure happened: the i-th element of
      a sequence, or the first or second half of a pair. */
  datatype Context = Element(index: nat) | PairFirst | PairSecond

  datatype Error = Error(kind: ErrorKind, path: seq<Context>) {
    /** The error as reported one level further out. */
    function At(c: Context): Error {
      Error(kind, [c] + path)
    }
  }

  function Fail(kind: ErrorKind): Error {
    Error(kind, [])
  }

  datatype Result<T> = Success(value: T) | Failure(error: Error)

  /** A decoded value and the bytes left after it. */
  type Decoded<T> = Result<(T, Bytes)>

  /** A decoder may be partial: the recursive decoders hand out decoders that
      are only defined on buffers shorter than their caller's. */
  type Decoder<T> = Bytes --> Decoded<T>

  ghost predicate IsSuffix(rest: Bytes, bytes: Bytes) {
    |rest| <= |bytes| && rest == bytes[|bytes| - |rest|..]
  }

  /** `dec` can be applied to every buffer of length at most `bound`, and on
      success leaves no more than it was given. */
  ghost predicate WellBehaved<T>(dec: Decoder<T>, bound: nat) {
    forall b: Bytes {:trigger dec.requires(b)} {:trigger dec(b)} | |b| <= bound :: dec.requires(b) && (dec(b).Success? ==> |dec(b).value.1| <= |b|)
  }

  /** On buffers of length at most `bound`, what `dec` leaves is a suffix of
      what it was given: it consumes a prefix and nothing else. */
  ghost predicate ConsumesPrefix<T>(dec: Decoder<T>, bound: nat)
    requires WellBehaved(dec, bound)
  {
    forall b: Bytes {:trigger dec(b)} | |b| <= bound && dec(b).Success? :: IsSuffix(dec(b).value.1, b)
  }

  lemma WellBehavedSmaller<T>(dec: Decoder<T>, bound: nat, smaller: nat)
    requires WellBehaved(dec, bound) && smaller <= bound
    ensures WellBehaved(dec, smaller)
  {
  }

  lemma SuffixTransitive(c: Bytes, b: Bytes, a: Bytes)
    requires IsSuffix(c, b) && IsSuffix(b, a)
    ensures IsSuffix(c, a)
  {
    assert a[|a| - |b|..][|b| - |c|..] == a[|a| - |c|..];
  }

  // ---------------------------------------------------------------------
  // Big-endian unsigned integers (u16::to_be_bytes, from_be_bytes, ...)
  // ---------------------------------------------------------------------

  function Pow256(width: nat): (p: nat)
    ensures p >= 1
  {
    if width == 0 then 1 else 256 * Pow256(width - 1)
  }

  /** `n` written as `width` bytes, most significant first. */
  function BigEndian(n: nat, width: nat): (s: Bytes)
    requires n < Pow256(width)
    ensures |s| == width
  {
    if width == 0 then [] else BigEndian(n / 256, width - 1) + [n % 256]
  }

  /** The unsigned number a byte string denotes, most significant byte first. */
  function FromBigEndian(s: Bytes): (n: nat)
    ensures n < Pow256(|s|)
  {
    if s == [] then 0 else FromBigEndian(s[..|s| - 1]) * 256 + s[|s| - 1]
  }

  /** Two bytes read most significant first: the header's length field. */
  lemma FromBigEndianTwo(s: Bytes)
    requires |s| == 2
    ensures FromBigEndian(s) == s[0] as int * 256 + s[1] as int
  {
    assert s[..1][..0] == [] && s[..1][0] == s[0];
  }

  lemma {:induction false} FromBigEndianOfBigEndian(n: nat, width: nat)
    requires n < Pow256(width)
    ensures FromBigEndian(BigEndian(n, width)) == n
  {
    if width > 0 {
      var s := BigEndian(n, width);
      assert s[..|s| - 1] == BigEndian(n / 256, width - 1);
      FromBigEndianOfBigEndian(n / 256, width - 1);
    }
  }

  lemma {:induction false} BigEndianOfFromBigEndian(s: Bytes)
    ensures BigEndian(FromBigEndian(s), |s|) == s
  {
    if s != [] {
      var p := s[..|s| - 1];
      BigEndianOfFromBigEndian(p);
      var n := FromBigEndian(s);
      assert n / 256 == FromBigEndian(p) && n % 256 == s[|s| - 1];
      assert s == p + [s[|s| - 1]];
    }
  }

  /** A 16-bit length on the wire: high byte, then low byte. */
  lemma TwoBytes(n: nat)
    requires n < 0x1_0000
    ensures BigEndian(n, 2) == [(n / 256) as u8, (n % 256) as u8]
  {
    assert Pow256(2) == 0x1_0000 && Pow256(1) == 0x100;
    assert BigEndian(n / 256, 1) == BigEndian(0, 0) + [n / 256 % 256];
  }

  /** Two's complement: the unsigned 64-bit pattern of an i64 (`as u64`). */
  function ToUnsigned64(x: i64): (u: nat)
    ensures u < Pow256(8)
    ensures x >= 0 ==> u == x
  {
    assert Pow256(8) == 0x1_0000_0000_0000_0000;
    if x < 0 then x + 0x1_0000_0000_0000_0000 else x
  }

  /** Two's complement: the i64 an unsigned 64-bit pattern stands for. */
  function FromUnsigned64(u: nat): (x: i64)
    requires u < Pow256(8)
    ensures (x < 0) == (u >= 0x8000_0000_0000_0000)
  {
    assert Pow256(8) == 0x1_0000_0000_0000_0000;
    if u < 0x8000_0000_0000_0000 then u else u - 0x1_0000_0000_0000_0000
  }

  lemma TwosComplementRoundTrip(x: i64, u: nat)
    requires u < Pow256(8)
    ensures FromUnsigned64(ToUnsigned64(x)) == x
    ensures ToUnsigned64(FromUnsigned64(u)) == u
  {
  }
}
