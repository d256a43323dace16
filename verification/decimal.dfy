/** Go's 64-bit integer arithmetic and decimal rendering as used by the timestamp formatter. */
module Decimal {
  import opened Results

  type Int64 = x: int | -0x8000_0000_0000_0000 <= x < 0x8000_0000_0000_0000

  /** Nanoseconds in one microsecond: Go's `int64(time.Microsecond)`. */
  const NanosPerMicro: int := 1000

  /** Go's `n / int64(time.Microsecond)`: the quotient truncated toward zero, not floored. */
  function MicrosOf(n: int): (q: int)
    ensures n >= 0 ==> 0 <= n - q * NanosPerMicro < NanosPerMicro
    ensures n < 0 ==> -NanosPerMicro < n - q * NanosPerMicro <= 0
    ensures n >= 0 ==> 0 <= q <= n
    ensures n < 0 ==> n <= q <= 0
  {
    if n >= 0 then n / NanosPerMicro else -((-n) / NanosPerMicro)
  }

  function DigitChar(d: nat): (c: char)
    requires d < 10
    ensures '0' <= c <= '9'
  {
    ('0' as int + d) as char
  }

  function DigitValue(c: char): (d: nat)
    requires '0' <= c <= '9'
    ensures d < 10 && DigitChar(d) == c
    ensures forall e :: 0 <= e < 10 && DigitChar(e) == c ==> e == d
  {
    (c as int - '0' as int) as nat
  }

  /** The decimal digits of a natural number, most significant first, no leading zero. */
  function Digits(n: nat): (s: string)
    ensures |s| >= 1
    ensures forall i :: 0 <= i < |s| ==> '0' <= s[i] <= '9'
    ensures |s| > 1 ==> s[0] != '0'
  {
    if n < 10 then [DigitChar(n)] else Digits(n / 10) + [DigitChar(n % 10)]
  }

  /** `fmt.Sprint` of an integer: an optional minus sign followed by the digits of its magnitude. */
  function Sprint(n: int): (s: string)
    ensures |s| >= 1
    ensures s[0] == '-' <==> n < 0
    ensures n >= 0 ==> s == Digits(n)
    ensures n < 0 ==> s == "-" + Digits(-n)
  {
    if n < 0 then "-" + Digits(-n) else Digits(n)
  }

  /** Value of a run of decimal digits, most significant first; the empty run is worth 0. */
  function DigitsValue(s: string): (n: nat)
    requires forall i :: 0 <= i < |s| ==> '0' <= s[i] <= '9'
  {
    if |s| == 0 then 0 else DigitsValue(s[..|s| - 1]) * 10 + DigitValue(s[|s| - 1])
  }

  predicate AllDigits(s: string) {
    forall i :: 0 <= i < |s| ==> '0' <= s[i] <= '9'
  }

  /** Reads back an optionally signed decimal integer; `None` for anything else. */
  function ParseInt(s: string): Option<int> {
    if |s| >= 1 && s[0] != '-' && AllDigits(s) then Some(DigitsValue(s))
    else if |s| >= 2 && s[0] == '-' && AllDigits(s[1..]) then Some(0 - DigitsValue(s[1..]))
    else None
  }

  lemma {:induction false} DigitsRoundTrip(n: nat)
    ensures DigitsValue(Digits(n)) == n
  {
    var s := Digits(n);
    if n < 10 {
      assert s[..0] == [];
    } else {
      DigitsRoundTrip(n / 10);
      assert s[..|s| - 1] == Digits(n / 10);
      assert DigitValue(s[|s| - 1]) == n % 10;
    }
  }

  /** Rendering an integer and reading it back gives the same integer. */
  lemma {:induction false} SprintRoundTrip(n: int)
    ensures ParseInt(Sprint(n)) == Some(n)
  {
    if n < 0 {
      var d := Digits(-n);
      DigitsRoundTrip(-n);
      assert Sprint(n) == "-" + d;
      NegativeParses(d);
    } else {
      var d := Digits(n);
      DigitsRoundTrip(n);
      assert Sprint(n) == d;
      PositiveParses(d);
    }
  }

  lemma PositiveParses(d: string)
    requires |d| >= 1 && AllDigits(d)
    ensures ParseInt(d) == Some(DigitsValue(d))
  {
    assert '0' <= d[0] <= '9';
  }

  lemma NegativeParses(d: string)
    requires |d| >= 1 && AllDigits(d)
    ensures ParseInt("-" + d) == Some(0 - DigitsValue(d))
  {
    assert ("-" + d)[1..] == d;
  }
}
