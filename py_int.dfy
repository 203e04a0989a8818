/** Python's `int(x)` applied to a `bytes` literal (base 10), as the decoder uses it for
    integers, string lengths and array counts: surrounding ASCII whitespace is skipped, one
    optional sign is allowed, digits may be separated by single underscores, and (CPython
    3.11 onwards, default setting) a literal of more than 4300 digits is refused. */
module PyInt {
  import opened PySeq
  import opened PyBytes

  const MAX_STR_DIGITS: nat := 4300

  /** Digits with single underscores between them: `1`, `007`, `1_000`, not `_1`, `1__0`, `1_`. */
  predicate IsDigitBody(s: Bytes)
  {
    && s != []
    && IsDigit(s[0]) && IsDigit(s[|s| - 1])
    && (forall k | 0 <= k < |s| :: IsDigit(s[k]) || s[k] == UNDERSCORE)
    && (forall k | 0 <= k < |s| - 1 :: !(s[k] == UNDERSCORE && s[k + 1] == UNDERSCORE))
  }

  /** The digits of `s` with the underscores taken out. */
  function Digits(s: Bytes): (r: Bytes)
    ensures |r| <= |s|
    ensures (forall x | x in s :: IsDigit(x)) ==> r == s
  {
    if s == [] then []
    else
      assert s[|s| - 1] in s;
      assert forall x | x in s[..|s| - 1] :: x in s;
      if s[|s| - 1] == UNDERSCORE then Digits(s[..|s| - 1])
      else Digits(s[..|s| - 1]) + [s[|s| - 1]]
  }

  /** Value of a string of decimal digits, most significant first. */
  function DigitsValue(s: Bytes): (n: nat)
  {
    if s == [] then 0
    else DigitsValue(s[..|s| - 1]) * 10 + (if IsDigit(s[|s| - 1]) then (s[|s| - 1] - ZERO) as nat else 0)
  }

  /** The sign and the body of a literal whose surrounding whitespace is already gone. */
  function SplitSign(t: Bytes): (r: (bool, Bytes))
    ensures |r.1| <= |t|
  {
    if t != [] && t[0] == MINUS then (true, t[1..])
    else if t != [] && t[0] == PLUS then (false, t[1..])
    else (false, t)
  }

  /** `int(s)`: Some(value), or None where Python raises ValueError. */
  function ParseInt(s: Bytes): (r: Option<int>)
    ensures r.Some? ==> exists k | 0 <= k < |s| :: IsDigit(s[k])
  {
    var t := Strip(s);
    var (negative, body) := SplitSign(t);
    if !IsDigitBody(body) then None
    else
      var digits := Digits(body);
      if |digits| > MAX_STR_DIGITS then None
      else
        assert body[0] in t by { assert body[0] in body; }
        Some(if negative then -(DigitsValue(digits) as int) else DigitsValue(digits) as int)
  }

  lemma {:induction false} DigitsValueOfDecimal(n: nat)
    ensures DigitsValue(DecimalBytes(n)) == n
  {
    if n >= 10 {
      DigitsValueOfDecimal(n / 10);
      var s := DecimalBytes(n / 10) + [ZERO + (n % 10) as byte];
      assert s[..|s| - 1] == DecimalBytes(n / 10);
    }
  }

  /** `int(str(n).encode()) == n` whenever `str(n)` is within the digit limit. */
  lemma IntBytesRoundTrip(n: int)
    requires |DecimalBytes(if n < 0 then -n else n)| <= MAX_STR_DIGITS
    ensures ParseInt(IntBytes(n)) == Some(n)
  {
    var m := if n < 0 then -n else n;
    IntBytesShape(n);
    ParseIntOfBody(IntBytes(n), n < 0, DecimalBytes(m));
    DigitsValueOfDecimal(m);
  }

  /** A literal whose sign and underscore-free body are known parses to their value. */
  lemma ParseIntOfBody(s: Bytes, negative: bool, body: Bytes)
    requires SplitSign(Strip(s)) == (negative, body)
    requires IsDigitBody(body) && Digits(body) == body && |body| <= MAX_STR_DIGITS
    ensures ParseInt(s) == Some(if negative then -(DigitsValue(body) as int) else DigitsValue(body) as int)
  {
  }

  /** `str(n).encode()` has no surrounding white space, its sign is the sign of `n`, and
      its body is the decimal digits of `|n|`. */
  lemma IntBytesShape(n: int)
    ensures var d := DecimalBytes(if n < 0 then -n else n);
      && Strip(IntBytes(n)) == IntBytes(n)
      && SplitSign(IntBytes(n)) == (n < 0, d)
      && IsDigitBody(d) && Digits(d) == d
  {
    var m := if n < 0 then -n else n;
    var d := DecimalBytes(m);
    var s := IntBytes(n);
    assert d[0] in d && d[|d| - 1] in d;
    assert s[|s| - 1] == d[|d| - 1];
    assert !IsAsciiSpace(s[0]) && !IsAsciiSpace(s[|s| - 1]);
    assert n < 0 ==> s[1..] == d;
    assert forall k | 0 <= k < |d| :: IsDigit(d[k]) by {
      forall k | 0 <= k < |d| ensures IsDigit(d[k]) { assert d[k] in d; }
    }
  }
}
