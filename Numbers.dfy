/**
 * Java `long` values: their range, `++` with wrap-around, and the decimal
 * text format of `Long.parseLong` / `Long.toString`.
 */
module Numbers {
  import opened Wrappers

  const MinLong: int := -0x8000_0000_0000_0000
  const MaxLong: int := 0x7fff_ffff_ffff_ffff

  predicate InLong(n: int) {
    MinLong <= n <= MaxLong
  }

  /** Java's `++x` on a `long`: the largest value wraps to the smallest. */
  function Inc64(x: int): (r: int)
    requires InLong(x)
    ensures InLong(r)
  {
    if x == MaxLong then MinLong else x + 1
  }

  predicate IsDigit(c: char) {
    '0' <= c <= '9'
  }

  predicate AllDigits(s: string) {
    forall i :: 0 <= i < |s| ==> IsDigit(s[i])
  }

  function DigitValue(c: char): nat
    requires IsDigit(c)
  {
    c as int - '0' as int
  }

  function DigitChar(d: nat): (c: char)
    requires d < 10
    ensures IsDigit(c) && DigitValue(c) == d
  {
    ('0' as int + d) as char
  }

  /** The value of a string of decimal digits, most significant first. */
  function DigitsValue(s: string): nat
    requires AllDigits(s)
  {
    if s == [] then 0 else DigitsValue(s[..|s| - 1]) * 10 + DigitValue(s[|s| - 1])
  }

  /** The shortest decimal spelling of a natural number. */
  function ShowNat(n: nat): string
  {
    if n < 10 then [DigitChar(n)] else ShowNat(n / 10) + [DigitChar(n % 10)]
  }

  /** `Long.toString`. */
  function ShowLong(n: int): string
  {
    if n < 0 then "-" + ShowNat(-n) else ShowNat(n)
  }

  /**
   * `Long.parseLong`: an optional sign, then at least one digit, and the value
   * must fit in a `long`; anything else is a `NumberFormatException`, here `None`.
   */
  function ParseLong(s: string): (r: Option<int>)
    ensures r.Some? ==> InLong(r.value)
    ensures r.Some? ==> |s| > 0
  {
    if |s| == 0 then None
    else
      var digits := if s[0] == '-' || s[0] == '+' then s[1..] else s;
      if |digits| == 0 || !AllDigits(digits) then None
      else
        var v: int := if s[0] == '-' then 0 - (DigitsValue(digits) as int) else DigitsValue(digits);
        if InLong(v) then Some(v) else None
  }

  lemma {:induction false} ShowNatDigits(n: nat)
    ensures |ShowNat(n)| > 0 && AllDigits(ShowNat(n))
    ensures DigitsValue(ShowNat(n)) == n
    decreases n
  {
    if n >= 10 {
      ShowNatDigits(n / 10);
      var s := ShowNat(n);
      assert s[..|s| - 1] == ShowNat(n / 10);
      assert s[|s| - 1] == DigitChar(n % 10);
    }
  }

  /** Every `long` survives `Long.toString` followed by `Long.parseLong`. */
  lemma ParseShowLong(n: int)
    requires InLong(n)
    ensures ParseLong(ShowLong(n)) == Some(n)
  {
    if n < 0 {
      ShowNatDigits(-n);
      var s := ShowLong(n);
      assert s[1..] == ShowNat(-n);
      assert s[0] == '-';
    } else {
      ShowNatDigits(n);
      var s := ShowNat(n);
      assert IsDigit(s[0]);
    }
  }
}
