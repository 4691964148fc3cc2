/** Bytes and the ASCII code points the subscriber's parsers look at. */
module Bytes {

  type Byte = b: int | 0 <= b < 256

  const NEWLINE: Byte := '\n' as int
  const SPACE: Byte := ' ' as int
  const PERCENT: Byte := '%' as int
  const AMPERSAND: Byte := '&' as int
  const PLUS: Byte := '+' as int
  const MINUS: Byte := '-' as int
  const EQUALS: Byte := '=' as int
  const ZERO: Byte := '0' as int

  predicate IsAsciiString(s: string) {
    forall i :: 0 <= i < |s| ==> s[i] as int < 128
  }

  /** The UTF-8 encoding of an ASCII string: one byte per character. */
  function FromAscii(s: string): (r: seq<Byte>)
    requires IsAsciiString(s)
    ensures |r| == |s|
  {
    seq(|s|, i requires 0 <= i < |s| => s[i] as int)
  }

  predicate IsDigit(b: Byte) {
    ZERO <= b <= ZERO + 9
  }

  predicate AllDigits(s: seq<Byte>) {
    forall i :: 0 <= i < |s| ==> IsDigit(s[i])
  }
}
