/**
 * The two decimal conversions the exporter relies on, as Go's standard
 * library performs them on a 64-bit platform: strconv.Atoi (used on the
 * Retry-After header) and the decimal rendering of an int that fmt uses
 * for %d and fmt.Sprint.
 */
module Strconv {
  import opened Wrappers

  const MIN_INT64: int := -0x8000_0000_0000_0000
  const MAX_INT64: int := 0x7fff_ffff_ffff_ffff

  predicate IsDigit(c: char) { '0' <= c <= '9' }

  predicate AllDigits(s: string) { forall i :: 0 <= i < |s| ==> IsDigit(s[i]) }

  /** The value of a run of decimal digits, accumulated left to right as n*10 + d. */
  function DecimalValue(s: string): nat
    requires AllDigits(s)
  {
    if s == [] then 0 else DecimalValue(s[..|s| - 1]) * 10 + (s[|s| - 1] as int - '0' as int)
  }

  /**
   * strconv.Atoi: an optional '+' or '-', then one or more decimal digits
   * (no underscores, no spaces), whose value must fit in an int64;
   * anything else is an error, here None.
   */
  function Atoi(s: string): (r: Option<int>)
    ensures s == "" ==> r.None?
    // A sign with no digits after it is a syntax error.
    ensures |s| == 1 && (s[0] == '+' || s[0] == '-') ==> r.None?
    ensures r.Some? ==> MIN_INT64 <= r.value <= MAX_INT64
    ensures r.Some? ==> AllDigits(if s[0] == '-' || s[0] == '+' then s[1..] else s)
    ensures r.Some? && r.value < 0 ==> s[0] == '-'
  {
    if s == [] then None
    else
      var digits := if s[0] == '-' || s[0] == '+' then s[1..] else s;
      if digits == [] || !AllDigits(digits) then None
      else
        var magnitude: int := DecimalValue(digits);
        var n := if s[0] == '-' then -magnitude else magnitude;
        if MIN_INT64 <= n <= MAX_INT64 then Some(n) else None
  }

  function DigitChar(d: nat): (c: char)
    requires d < 10
    ensures IsDigit(c)
    ensures (c == '0') == (d == 0)
  {
    ('0' as int + d) as char
  }

  /** The decimal digits of a natural number, most significant first, without a leading zero. */
  function Digits(n: nat): (s: string)
    ensures |s| > 0 && AllDigits(s)
    ensures (s[0] == '0') == (n == 0)
  {
    if n < 10 then [DigitChar(n)] else Digits(n / 10) + [DigitChar(n % 10)]
  }

  /** The decimal rendering of an int (strconv.Itoa, fmt's %d). */
  function FormatInt(n: int): (s: string)
    ensures |s| > 0
    ensures (s[0] == '-') == (n < 0)
    ensures n < 0 ==> AllDigits(s[1..])
    ensures n >= 0 ==> AllDigits(s)
    // No leading zero: "0" is the only rendering that starts with '0'.
    ensures n >= 0 ==> (s[0] == '0' <==> n == 0)
    ensures n < 0 ==> |s| > 1 && s[1] != '0'
  {
    if n < 0 then "-" + Digits(-n) else Digits(n)
  }

  lemma {:induction false} DecimalValueOfDigits(n: nat)
    ensures DecimalValue(Digits(n)) == n
  {
    if n >= 10 {
      DecimalValueOfDigits(n / 10);
      var s := Digits(n);
      assert s[..|s| - 1] == Digits(n / 10);
    }
  }

  /** Atoi reads back every int64 that FormatInt renders. */
  lemma AtoiFormatInt(n: int)
    requires MIN_INT64 <= n <= MAX_INT64
    ensures Atoi(FormatInt(n)) == Some(n)
  {
    var s := FormatInt(n);
    if n < 0 {
      assert s[1..] == Digits(-n);
      DecimalValueOfDigits(-n);
    } else {
      DecimalValueOfDigits(n);
    }
  }

  /** A leading zero does not change the value of a run of digits. */
  lemma {:induction false} DecimalValueLeadingZero(d: string)
    requires AllDigits(d)
    ensures AllDigits("0" + d) && DecimalValue("0" + d) == DecimalValue(d)
  {
    var s := "0" + d;
    assert AllDigits(s) by {
      forall i | 0 <= i < |s|
        ensures IsDigit(s[i])
      {
        if i > 0 { assert s[i] == d[i - 1]; }
      }
    }
    if d != [] {
      assert s[..|s| - 1] == "0" + d[..|d| - 1];
      DecimalValueLeadingZero(d[..|d| - 1]);
    }
  }

  /**
   * Atoi accepts every optional sign followed by one or more digits, leading
   * zeros included, exactly when the value fits in an int64.
   */
  lemma AtoiSignedDigits(sign: string, d: string)
    requires sign == "" || sign == "+" || sign == "-"
    requires d != [] && AllDigits(d)
    ensures var magnitude: int := DecimalValue(d); var v := if sign == "-" then -magnitude else magnitude;
            Atoi(sign + d) == if MIN_INT64 <= v <= MAX_INT64 then Some(v) else None
  {
    var s := sign + d;
    if sign == "" {
      assert s == d;
    } else {
      assert s[0] == sign[0] && s[1..] == d;
    }
  }

  /** Different ints have different renderings. */
  lemma FormatIntInjective(a: int, b: int)
    requires FormatInt(a) == FormatInt(b)
    ensures a == b
  {
    if a < 0 {
      assert Digits(-a) == FormatInt(a)[1..] == FormatInt(b)[1..] == Digits(-b);
      DecimalValueOfDigits(-a);
      DecimalValueOfDigits(-b);
    } else {
      DecimalValueOfDigits(a);
      DecimalValueOfDigits(b);
    }
  }
}
