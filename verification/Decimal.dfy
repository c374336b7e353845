/** Decimal text: what `%u` prints and what `simple_strtoull(s, &ep, 10)` reads. */
module Decimal {

  const WRAP: nat := 0x1_0000_0000_0000_0000

  predicate IsDigit(c: char) {
    '0' <= c <= '9'
  }

  predicate AllDigits(s: string) {
    forall i | 0 <= i < |s| :: IsDigit(s[i])
  }

  function DigitsVal(s: string): nat
    requires AllDigits(s)
  {
    if s == "" then 0
    else 10 * DigitsVal(s[..|s| - 1]) + (s[|s| - 1] as int - '0' as int)
  }

  function Dec(n: nat): (s: string)
    ensures s != "" && AllDigits(s)
    ensures n < 10 ==> |s| == 1
    ensures n < 100 ==> |s| <= 2
    ensures n < 1000 ==> |s| <= 3
    ensures n < 10000 ==> |s| <= 4
  {
    if n < 10 then [('0' as int + n) as char]
    else Dec(n / 10) + [('0' as int + n % 10) as char]
  }

  /** The printed number reads back as itself. */
  lemma {:induction false} DecVal(n: nat)
    ensures DigitsVal(Dec(n)) == n
  {
    if n >= 10 {
      DecVal(n / 10);
      var s := Dec(n);
      assert s[..|s| - 1] == Dec(n / 10);
    }
  }

  /** Where the run of digits that starts at `i` ends. */
  function DigitEnd(s: string, i: nat): (e: nat)
    requires i <= |s|
    ensures i <= e <= |s|
    ensures forall j | i <= j < e :: IsDigit(s[j])
    ensures e < |s| ==> !IsDigit(s[e])
    decreases |s| - i
  {
    if i < |s| && IsDigit(s[i]) then DigitEnd(s, i + 1) else i
  }

  /** The digits read into a 64-bit accumulator that wraps. */
  function WrapVal(d: string): (n: nat)
    requires AllDigits(d)
    ensures n < WRAP
  {
    if d == "" then 0
    else (10 * WrapVal(d[..|d| - 1]) + (d[|d| - 1] as int - '0' as int)) % WRAP
  }

  lemma WrapStep(v: nat, digit: nat)
    ensures (10 * (v % WRAP) + digit) % WRAP == (10 * v + digit) % WRAP
  {
    var q := v / WRAP;
    assert 10 * v + digit == 10 * (v % WRAP) + digit + WRAP * (10 * q);
  }

  /** The accumulator holds the value of the digits modulo 2^64. */
  lemma {:induction false} WrapValIs(d: string)
    requires AllDigits(d)
    ensures WrapVal(d) == DigitsVal(d) % WRAP
  {
    if d != "" {
      var init := d[..|d| - 1];
      WrapValIs(init);
      WrapStep(DigitsVal(init), d[|d| - 1] as int - '0' as int);
    }
  }

  /** What `simple_strtoull(s + i)` returns: the digits at `i` read in 64 bits. */
  function Strtoull(s: string, i: nat): nat
    requires i <= |s|
  {
    WrapVal(s[i..DigitEnd(s, i)])
  }
}
