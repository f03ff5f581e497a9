/**
 * Decimal integer text, as Go's `strconv.Atoi` reads it and as
 * `fmt.Sprint` / `strconv.Itoa` write it, for Go's 64-bit `int`.
 */
module Strconv {
  import opened Wrappers

  const IntMin: int := -0x8000_0000_0000_0000
  const IntMax: int := 0x7fff_ffff_ffff_ffff

  /** Go's `int` on a 64-bit platform. */
  type Int64 = n: int | IntMin <= n <= IntMax

  predicate IsDigit(c: char)
  {
    '0' <= c <= '9'
  }

  predicate AllDigits(s: string)
  {
    forall k | 0 <= k < |s| :: IsDigit(s[k])
  }

  /** The number a string of decimal digits denotes, most significant digit first. */
  function DigitsValue(s: string): nat
    requires AllDigits(s)
  {
    if |s| == 0 then 0
    else DigitsValue(s[..|s| - 1]) * 10 + (s[|s| - 1] as int - '0' as int)
  }

  /**
   * `strconv.Atoi`: an optional `+` or `-` sign followed by at least one
   * decimal digit, and the value must fit Go's 64-bit `int`; anything else
   * (an empty string, a lone sign, any other character, an overflow) is an
   * error. Leading zeros are accepted.
   */
  function Atoi(s: string): (r: Option<int>)
    ensures r.Some? ==> IntMin <= r.value <= IntMax
    ensures r.Some? ==> |s| > 0 && (IsDigit(s[0]) || s[0] == '+' || s[0] == '-')
    ensures r.Some? ==> forall k | 0 < k < |s| :: IsDigit(s[k])
  {
    var signed := |s| > 0 && (s[0] == '+' || s[0] == '-');
    var body := if signed then s[1..] else s;
    if |body| == 0 || !AllDigits(body) then None
    else
      var v: int := if signed && s[0] == '-' then -(DigitsValue(body) as int) else DigitsValue(body);
      if IntMin <= v <= IntMax then Some(v) else None
  }

  /** Decimal digits of a natural number, without leading zeros. */
  function Digits(n: nat): (r: string)
    ensures |r| > 0 && AllDigits(r)
    ensures |r| > 1 ==> r[0] != '0'
  {
    if n < 10 then [('0' as int + n) as char]
    else Digits(n / 10) + [('0' as int + n % 10) as char]
  }

  /** `fmt.Sprint` of an integer: a minus sign for negative numbers, then the digits. */
  function Itoa(n: int): (r: string)
    ensures |r| > 0
    ensures n >= 0 ==> AllDigits(r)
    ensures n < 0 ==> r[0] == '-' && AllDigits(r[1..])
  {
    if n < 0 then "-" + Digits(-n) else Digits(n)
  }

  lemma {:induction false} DigitsValueOfDigits(n: nat)
    ensures DigitsValue(Digits(n)) == n
  {
    var d := Digits(n);
    if n >= 10 {
      DigitsValueOfDigits(n / 10);
      assert d[..|d| - 1] == Digits(n / 10);
    }
  }

  /** Reading back what `Itoa` wrote gives the number again, for every 64-bit int. */
  lemma AtoiItoa(n: int)
    requires IntMin <= n <= IntMax
    ensures Atoi(Itoa(n)) == Some(n)
  {
    if n < 0 {
      var d := Digits(-n);
      DigitsValueOfDigits(-n);
      var s := "-" + d;
      assert s[0] == '-' && s[1..] == d;
      assert Itoa(n) == s;
    } else {
      var d := Digits(n);
      DigitsValueOfDigits(n);
      assert IsDigit(d[0]);
      assert Itoa(n) == d;
    }
  }
}
