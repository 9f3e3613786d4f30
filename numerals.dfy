/**
 Decimal rendering of non-negative integers as Python's `str(n)` and the
 `{n:06d}` format produce it, and the reading back that shows nothing is lost.
 */
module Numerals {

  predicate IsDigit(c: char) {
    '0' <= c <= '9'
  }

  ghost predicate AllDigits(s: string) {
    forall i :: 0 <= i < |s| ==> IsDigit(s[i])
  }

  function DigitChar(d: nat): (c: char)
    requires d < 10
    ensures IsDigit(c) && c as int - '0' as int == d
  {
    ('0' as int + d) as char
  }

  function DigitValue(c: char): nat
    requires IsDigit(c)
  {
    c as int - '0' as int
  }

  /** The value of a string of decimal digits, most significant first. */
  function ParseDecimal(s: string): nat
    requires AllDigits(s)
  {
    if s == [] then 0 else 10 * ParseDecimal(s[..|s| - 1]) + DigitValue(s[|s| - 1])
  }

  /** `str(n)`: the shortest decimal numeral of `n`, with no leading zero. */
  function Decimal(n: nat): (s: string)
    ensures |s| >= 1 && AllDigits(s)
    ensures |s| > 1 ==> s[0] != '0'
  {
    if n < 10 then [DigitChar(n)] else Decimal(n / 10) + [DigitChar(n % 10)]
  }

  /** Reading the numeral of `n` gives back `n`. */
  lemma {:induction false} ParseDecimalOfDecimal(n: nat)
    ensures ParseDecimal(Decimal(n)) == n
  {
    if n >= 10 {
      var s := Decimal(n);
      ParseDecimalOfDecimal(n / 10);
      assert s[..|s| - 1] == Decimal(n / 10);
    }
  }

  function Zeros(k: nat): (z: string)
    ensures |z| == k && forall i :: 0 <= i < k ==> z[i] == '0'
  {
    seq(k, _ => '0')
  }

  /** `s` left-padded with '0' to at least `width` characters. */
  function ZeroPad(s: string, width: nat): (r: string)
    ensures |r| == if |s| < width then width else |s|
    ensures r == Zeros(|r| - |s|) + s
  {
    if |s| < width then Zeros(width - |s|) + s else Zeros(0) + s
  }

  /** Python's `f"{n:06d}"` for a non-negative `n`. */
  function Format06(n: nat): (r: string)
    ensures |r| == if |Decimal(n)| < 6 then 6 else |Decimal(n)|
    ensures AllDigits(r) && ParseDecimal(r) == n
  {
    var digits := Decimal(n);
    ParseDecimalOfDecimal(n);
    ParseLeadingZeros(if |digits| < 6 then 6 - |digits| else 0, digits);
    ZeroPad(digits, 6)
  }

  /** A string of digits is fixed by its length and its value, so Format06's contract has one solution. */
  lemma {:induction false} DigitStringUnique(a: string, b: string)
    requires AllDigits(a) && AllDigits(b) && |a| == |b| && ParseDecimal(a) == ParseDecimal(b)
    ensures a == b
    decreases |a|
  {
    if a != [] {
      var a', b' := a[..|a| - 1], b[..|b| - 1];
      var da, db := DigitValue(a[|a| - 1]), DigitValue(b[|b| - 1]);
      assert 10 * ParseDecimal(a') + da == 10 * ParseDecimal(b') + db;
      assert da == db && ParseDecimal(a') == ParseDecimal(b');
      DigitStringUnique(a', b');
      assert a[|a| - 1] == b[|b| - 1];
      assert a == a' + [a[|a| - 1]] && b == b' + [b[|b| - 1]];
    }
  }

  /** Below 10^6 the numeral has at most six digits, so `{n:06d}` is exactly six characters wide. */
  lemma SixDigitsBelowAMillion(n: nat)
    ensures n < 1000000 ==> |Decimal(n)| <= 6 && |Format06(n)| == 6
  {
    if n < 1000000 {
      assert Pow10(6) == 1000000;
      DecimalAtMost(n, 6);
    }
  }

  function Pow10(k: nat): nat {
    if k == 0 then 1 else 10 * Pow10(k - 1)
  }

  /** A number below 10^k has at most k digits. */
  lemma {:induction false} DecimalAtMost(n: nat, k: nat)
    requires k >= 1 && n < Pow10(k)
    ensures |Decimal(n)| <= k
  {
    if n >= 10 {
      assert Pow10(1) == 10;
      assert k >= 2;
      assert n / 10 < Pow10(k - 1);
      DecimalAtMost(n / 10, k - 1);
    }
  }

  /** Two renderings: a small number is padded to six digits, a long one is left as it is. */
  lemma Format06Examples()
    ensures Format06(5) == "000005"
    ensures Format06(1234567) == "1234567"
  {
    assert Decimal(5) == "5";
    assert ZeroPad("5", 6) == "000005";
    DecimalRender(1234567, 123456, 7);
    DecimalRender(123456, 12345, 6);
    DecimalRender(12345, 1234, 5);
    DecimalRender(1234, 123, 4);
    DecimalRender(123, 12, 3);
    DecimalRender(12, 1, 2);
    assert Decimal(1) == "1";
    assert Decimal(1234567) == "1234567";
  }

  lemma DecimalRender(n: nat, q: nat, d: nat)
    requires n >= 10 && d < 10 && n == 10 * q + d
    ensures Decimal(n) == Decimal(q) + [DigitChar(d)]
  {
    assert n / 10 == q && n % 10 == d;
  }

  /** Leading zeros do not change the value of a numeral. */
  lemma {:induction false} ParseLeadingZeros(k: nat, s: string)
    requires AllDigits(s)
    ensures AllDigits(Zeros(k) + s) && ParseDecimal(Zeros(k) + s) == ParseDecimal(s)
    decreases |s|
  {
    var z := Zeros(k) + s;
    if s == [] {
      assert z == Zeros(k);
      ParseZeros(k);
    } else {
      ParseLeadingZeros(k, s[..|s| - 1]);
      assert z[..|z| - 1] == Zeros(k) + s[..|s| - 1];
    }
  }

  lemma {:induction false} ParseZeros(k: nat)
    ensures ParseDecimal(Zeros(k)) == 0
  {
    if k > 0 {
      ParseZeros(k - 1);
      assert Zeros(k)[..k - 1] == Zeros(k - 1);
    }
  }
}
