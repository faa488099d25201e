/**
 * UTF-8 validity, as `std::str::from_utf8` checks it: a byte string is valid
 * when it splits into well-formed character sequences per the table in
 * section 4 of RFC 3629 (no overlong forms, no surrogates, nothing above
 * U+10FFFF). A Rust `String` is modelled by its UTF-8 bytes, so the type
 * `Text` below stands for `String`.
 */
module Utf8 {
  import opened Wire

  predicate IsTail(b: u8) {
    0x80 <= b <= 0xBF
  }

  /** The length of the well-formed character sequence at the front of `s`,
      or 0 when `s` does not start with one. */
  function CharWidth(s: Bytes): (n: nat)
    requires |s| > 0
    ensures n <= 4 && n <= |s|
    ensures n == 1 <==> s[0] <= 0x7F
  {
    var b0 := s[0];
    if b0 <= 0x7F then 1
    else if 0xC2 <= b0 <= 0xDF then
      if |s| >= 2 && IsTail(s[1]) then 2 else 0
    else if 0xE0 <= b0 <= 0xEF then
      var lo := if b0 == 0xE0 then 0xA0 else 0x80;
      var hi := if b0 == 0xED then 0x9F else 0xBF;
      if |s| >= 3 && lo <= s[1] <= hi && IsTail(s[2]) then 3 else 0
    else if 0xF0 <= b0 <= 0xF4 then
      var lo := if b0 == 0xF0 then 0x90 else 0x80;
      var hi := if b0 == 0xF4 then 0x8F else 0xBF;
      if |s| >= 4 && lo <= s[1] <= hi && IsTail(s[2]) && IsTail(s[3]) then 4 else 0
    else 0
  }

  predicate ValidUtf8(s: Bytes)
    decreases |s|
  {
    s == [] || (CharWidth(s) > 0 && ValidUtf8(s[CharWidth(s)..]))
  }

  /** Rust's `String`: bytes that are valid UTF-8. */
  type Text = s: Bytes | ValidUtf8(s) witness []

  /** Bytes below 0x80 are single-byte characters, so ASCII is valid text. */
  lemma {:induction false} AsciiIsValid(s: Bytes)
    requires forall i | 0 <= i < |s| :: s[i] <= 0x7F
    ensures ValidUtf8(s)
    decreases |s|
  {
    if s != [] {
      AsciiIsValid(s[1..]);
    }
  }

  /** Examples the table rejects: an overlong encoding of U+0000, an encoded
      surrogate (U+D800), a lone continuation byte, a truncated sequence. */
  lemma RejectedSequences()
    ensures !ValidUtf8([0xC0, 0x80])
    ensures !ValidUtf8([0xED, 0xA0, 0x80])
    ensures !ValidUtf8([0x80])
    ensures !ValidUtf8([0xE2, 0x82])
    ensures ValidUtf8([0xE2, 0x82, 0xAC])
  {
  }
}
