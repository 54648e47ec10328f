/** Decimal numerals, and the integers JavaScript represents exactly. */
module Decimals {
  import opened Options

  const MAX_SAFE_INTEGER: int := 9007199254740991

  predicate AllDigits(s: string) {
    forall k :: 0 <= k < |s| ==> '0' <= s[k] <= '9'
  }

  function ValueOf(s: string): nat
    requires AllDigits(s)
  {
    if s == "" then 0 else 10 * ValueOf(s[..|s| - 1]) + (s[|s| - 1] - '0') as int
  }

  /** All digits, and exactly representable. */
  function Decimal(s: string): Option<nat> {
    if s != "" && AllDigits(s) && ValueOf(s) <= MAX_SAFE_INTEGER then Some(ValueOf(s)) else None
  }

  /** `String(n)`. */
  function Digits(n: nat): (s: string)
    ensures s != "" && forall c <- s :: '0' <= c <= '9'
  {
    if n < 10 then [('0' as int + n) as char] else Digits(n / 10) + [('0' as int + n % 10) as char]
  }

  /** Writing a number and reading it gives the number; there are no leading zeros. */
  lemma {:induction false} DigitsReadBack(n: nat)
    ensures AllDigits(Digits(n)) && ValueOf(Digits(n)) == n && (n > 0 ==> Digits(n)[0] != '0')
    decreases n
  {
    var s := Digits(n);
    if n < 10 {
      assert s[..0] == "" && ValueOf("") == 0;
    } else {
      DigitsReadBack(n / 10);
      assert s[..|s| - 1] == Digits(n / 10);
    }
  }

  /** Reading a numeral without a leading zero and writing it gives the numeral. */
  lemma {:induction false} ReadWritesBack(s: string)
    requires s != "" && AllDigits(s) && s[0] != '0'
    ensures ValueOf(s) >= 1 && Digits(ValueOf(s)) == s
    decreases s
  {
    var n := |s| - 1;
    if n == 0 {
      assert s[..0] == "" && ValueOf("") == 0;
      assert s == [s[0]];
    } else {
      ReadWritesBack(s[..n]);
      assert ValueOf(s) / 10 == ValueOf(s[..n]) && ValueOf(s) % 10 == (s[n] - '0') as int;
      assert s == s[..n] + [s[n]];
    }
  }

  lemma DigitsDiffer(m: nat, n: nat)
    requires Digits(m) == Digits(n)
    ensures m == n
  {
    DigitsReadBack(m);
    DigitsReadBack(n);
  }
}
