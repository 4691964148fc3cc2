/**
 * Rust's `i64`: the `str::parse::<i64>` that `parse_query` applies to each
 * `from`/`to` value, and the decimal `Display` that the response body uses.
 */
module Int64 {
  import opened Wrappers
  import opened Bytes

  const MIN: int := -0x8000_0000_0000_0000
  const MAX: int := 0x7fff_ffff_ffff_ffff

  predicate InRange(n: int) {
    MIN <= n <= MAX
  }

  /** The value of a run of decimal digits, most significant first. */
  function DigitsValue(ds: seq<Byte>): nat
    requires AllDigits(ds)
  {
    if ds == [] then 0 else DigitsValue(ds[..|ds| - 1]) * 10 + (ds[|ds| - 1] - ZERO)
  }

  /** Does the literal start with a sign byte? */
  predicate HasSign(s: seq<Byte>) {
    |s| > 0 && (s[0] == PLUS || s[0] == MINUS)
  }

  function Magnitude(s: seq<Byte>): seq<Byte> {
    if HasSign(s) then s[1..] else s
  }

  /**
   * The `i64` an integer literal denotes: an optional `+` or `-`, then at
   * least one ASCII digit, and a value that fits in 64 bits; anything else
   * (the empty string, a bare sign, a stray byte, an overflow) has none.
   */
  function FromDecimal(s: seq<Byte>): (r: Option<int>)
    ensures s == [] ==> r.None?
    ensures r.Some? ==> InRange(r.value)
    ensures r.Some? ==> forall i :: 0 < i < |s| ==> IsDigit(s[i])
    ensures r.Some? ==> Magnitude(s) != [] && AllDigits(Magnitude(s))
  {
    var digits := Magnitude(s);
    if digits == [] || !AllDigits(digits) then None
    else
      var v: int := if HasSign(s) && s[0] == MINUS then -(DigitsValue(digits) as int) else DigitsValue(digits);
      if InRange(v) then Some(v) else None
  }

  lemma {:induction false} DigitsValuePrefix(ds: seq<Byte>, k: nat)
    requires AllDigits(ds) && k <= |ds|
    ensures DigitsValue(ds[..k]) <= DigitsValue(ds)
    decreases |ds|
  {
    if k < |ds| {
      var init := ds[..|ds| - 1];
      assert init[..k] == ds[..k];
      DigitsValuePrefix(init, k);
    } else {
      assert ds[..k] == ds;
    }
  }

  lemma {:induction false} DigitsValueSnoc(ds: seq<Byte>, d: Byte)
    requires AllDigits(ds) && IsDigit(d)
    ensures AllDigits(ds + [d])
    ensures DigitsValue(ds + [d]) == DigitsValue(ds) * 10 + (d - ZERO)
  {
    assert (ds + [d])[..|ds|] == ds;
  }

  /** The value a run of digits gives under the literal's sign. */
  function Signed(negative: bool, ds: seq<Byte>): int
    requires AllDigits(ds)
  {
    if negative then -(DigitsValue(ds) as int) else DigitsValue(ds)
  }

  lemma {:induction false} SignedSnoc(negative: bool, ds: seq<Byte>, d: Byte)
    requires AllDigits(ds) && IsDigit(d)
    ensures AllDigits(ds + [d])
    ensures Signed(negative, ds + [d])
         == if negative then Signed(negative, ds) * 10 - (d - ZERO) else Signed(negative, ds) * 10 + (d - ZERO)
  {
    DigitsValueSnoc(ds, d);
  }

  lemma {:induction false} StrayByteRejected(s: seq<Byte>, j: nat)
    requires j < |Magnitude(s)| && !IsDigit(Magnitude(s)[j])
    ensures FromDecimal(s) == None
  {
  }

  /** Once a prefix of the digits overflows, so does the whole literal. */
  lemma {:induction false} OverflowRejected(s: seq<Byte>, k: nat)
    requires k <= |Magnitude(s)| && AllDigits(Magnitude(s)[..k])
    requires !InRange(Signed(|s| > 0 && s[0] == MINUS, Magnitude(s)[..k]))
    ensures FromDecimal(s) == None
  {
    var m := Magnitude(s);
    if m != [] && AllDigits(m) {
      DigitsValuePrefix(m, k);
    }
  }

  /**
   * `i64::from_str` (radix 10): strip the sign, then accumulate digit by
   * digit with checked multiplication and addition (subtraction for a
   * negative literal), giving up at the first non-digit or overflow.
   */
  method ParseI64(s: seq<Byte>) returns (r: Option<int>)
    ensures r == FromDecimal(s)
  {
    if |s| == 0 {
      return None;
    }
    var negative := s[0] == MINUS;
    var digits := if s[0] == PLUS || s[0] == MINUS then s[1..] else s;
    assert digits == Magnitude(s);
    if |digits| == 0 {
      return None;
    }
    var acc: int := 0;
    var i := 0;
    while i < |digits|
      invariant i <= |digits|
      invariant AllDigits(digits[..i])
      invariant acc == Signed(negative, digits[..i])
      invariant InRange(acc)
    {
      if !IsDigit(digits[i]) {
        StrayByteRejected(s, i);
        return None;
      }
      var d := digits[i] - ZERO;
      assert digits[..i + 1] == digits[..i] + [digits[i]];
      SignedSnoc(negative, digits[..i], digits[i]);
      var next := if negative then acc * 10 - d else acc * 10 + d;
      if !InRange(next) {
        OverflowRejected(s, i + 1);
        return None;
      }
      acc := next;
      i := i + 1;
    }
    assert digits[..i] == digits;
    return Some(acc);
  }

  /** The decimal digits of `n` with no leading zero (`0` is written `0`). */
  function NatDigits(n: nat): (r: seq<Byte>)
    ensures |r| > 0 && AllDigits(r) && DigitsValue(r) == n
    ensures r[0] == ZERO ==> n == 0
    decreases n
  {
    if n < 10 then [ZERO + n]
    else
      var init := NatDigits(n / 10);
      DigitsValueSnoc(init, ZERO + n % 10);
      init + [ZERO + n % 10]
  }

  /**
   * `i64`'s `Display`: a `-` for a negative value, then the digits of its
   * magnitude, with no `+` and no leading zero.
   */
  function ToDecimal(n: int): (r: seq<Byte>)
    ensures |r| > 0
    ensures r[0] == MINUS <==> n < 0
    ensures forall i :: 0 < i < |r| ==> IsDigit(r[i])
    ensures NEWLINE !in r && AMPERSAND !in r && EQUALS !in r
    ensures n >= 0 ==> AllDigits(r) && DigitsValue(r) == n
    ensures n < 0 ==> |r| > 1 && AllDigits(r[1..]) && DigitsValue(r[1..]) == -n
    ensures r[if n < 0 then 1 else 0] == ZERO ==> n == 0
    ensures n == 0 ==> r == [ZERO]
  {
    if n < 0 then [MINUS] + NatDigits(-n) else NatDigits(n)
  }

  /** Every `i64` printed in decimal parses back to itself. */
  lemma {:induction false} ToDecimalRoundTrip(n: int)
    requires InRange(n)
    ensures FromDecimal(ToDecimal(n)) == Some(n)
  {
    if n < 0 {
      assert Magnitude(ToDecimal(n)) == NatDigits(-n);
    }
  }

  lemma {:induction false} ToDecimalInjective(m: int, n: int)
    requires InRange(m) && InRange(n)
    requires ToDecimal(m) == ToDecimal(n)
    ensures m == n
  {
    ToDecimalRoundTrip(m);
    ToDecimalRoundTrip(n);
  }
}
