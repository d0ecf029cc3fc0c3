/** Positional numerals in bases 2 to 16, written with Python's lower-case
    digit alphabet `0-9a-f`.  Three Python built-ins used by the ledgers are
    instances of one concept here:
      - `str(n)` of a non-negative int is `FromNat(n, 10)`, and `str(i)` of any
        int is `IntToDecimal(i)`;
      - `hex(n)[2:]` is `FromNat(n, 16)`;
      - `int(d)` of a string of decimal digits is `Value(d, 10)`. */
module Numerals {

  predicate IsDecimalDigit(c: char) {
    '0' <= c <= '9'
  }

  /** A digit of the lower-case hexadecimal alphabet; decimal digits are its first ten. */
  predicate IsHexDigit(c: char) {
    IsDecimalDigit(c) || 'a' <= c <= 'f'
  }

  function DigitValue(c: char): (d: nat)
    requires IsHexDigit(c)
    ensures d < 16
    ensures d < 10 <==> IsDecimalDigit(c)
  {
    if IsDecimalDigit(c) then c as int - '0' as int else c as int - 'a' as int + 10
  }

  function DigitChar(d: nat): (c: char)
    requires d < 16
    ensures IsHexDigit(c) && DigitValue(c) == d
  {
    if d < 10 then ('0' as int + d) as char else ('a' as int + d - 10) as char
  }

  predicate IsBase(base: nat) {
    2 <= base <= 16
  }

  /** Every character of `s` is a digit of `base`. */
  predicate IsNumeral(s: string, base: nat) {
    forall i :: 0 <= i < |s| ==> IsHexDigit(s[i]) && DigitValue(s[i]) < base
  }

  /** Numerals of the same base concatenate to a numeral of that base. */
  lemma NumeralConcat(a: string, b: string, base: nat)
    requires IsNumeral(a, base) && IsNumeral(b, base)
    ensures IsNumeral(a + b, base)
  {
    var ab := a + b;
    forall i | 0 <= i < |ab|
      ensures IsHexDigit(ab[i]) && DigitValue(ab[i]) < base
    {
      if i >= |a| { assert ab[i] == b[i - |a|]; }
    }
  }

  /** The number a numeral denotes, most significant digit first; the empty
      numeral denotes 0. */
  function Value(s: string, base: nat): nat
    requires IsNumeral(s, base)
    decreases |s|
  {
    if s == [] then 0
    else Value(s[..|s| - 1], base) * base + DigitValue(s[|s| - 1])
  }

  /** Euclidean division of a number that has more than one digit. */
  lemma DivideByBase(n: nat, base: nat)
    requires IsBase(base) && n >= base
    ensures n == (n / base) * base + n % base
    ensures 0 <= n % base < base
    ensures 1 <= n / base < n
  {
    var q, r := n / base, n % base;
    assert n == q * base + r;
    assert q * base == 2 * q + q * (base - 2);
  }

  /** The canonical numeral of `n`: never empty, and without leading zeros. */
  function FromNat(n: nat, base: nat): (s: string)
    requires IsBase(base)
    ensures |s| > 0 && IsNumeral(s, base)
    ensures s[0] == '0' ==> n == 0 && |s| == 1
    decreases n
  {
    if n < base then [DigitChar(n)]
    else
      DivideByBase(n, base);
      FromNat(n / base, base) + [DigitChar(n % base)]
  }

  /** `n` zero characters. */
  function Zeros(n: nat): (z: string)
    ensures |z| == n
    ensures forall i :: 0 <= i < n ==> z[i] == '0'
  {
    seq(n, _ => '0')
  }

  /** Reading back the canonical numeral of `n` gives `n`. */
  lemma {:induction false} ValueOfFromNat(n: nat, base: nat)
    requires IsBase(base)
    ensures Value(FromNat(n, base), base) == n
    decreases n
  {
    if n >= base {
      DivideByBase(n, base);
      var s := FromNat(n, base);
      var q := FromNat(n / base, base);
      assert s == q + [DigitChar(n % base)];
      assert s[..|s| - 1] == q;
      ValueOfFromNat(n / base, base);
      assert Value(s, base) == Value(q, base) * base + n % base;
    }
  }

  /** Two numbers have the same canonical numeral only if they are equal. */
  lemma FromNatInjective(m: nat, n: nat, base: nat)
    requires IsBase(base)
    ensures FromNat(m, base) == FromNat(n, base) <==> m == n
  {
    ValueOfFromNat(m, base);
    ValueOfFromNat(n, base);
  }

  /** A leading zero does not change the value of a numeral. */
  lemma {:induction false} ValueIgnoresLeadingZero(s: string, base: nat)
    requires IsBase(base) && IsNumeral(s, base)
    ensures IsNumeral("0" + s, base)
    ensures Value("0" + s, base) == Value(s, base)
    decreases |s|
  {
    var z := "0" + s;
    assert IsNumeral(z, base) by {
      forall i | 0 <= i < |z|
        ensures IsHexDigit(z[i]) && DigitValue(z[i]) < base
      {
        if i > 0 { assert z[i] == s[i - 1]; }
      }
    }
    if s != [] {
      assert z[..|z| - 1] == "0" + s[..|s| - 1];
      ValueIgnoresLeadingZero(s[..|s| - 1], base);
    }
  }

  /** Any number of leading zeros does not change the value of a numeral;
      in particular a numeral of zeros only denotes 0. */
  lemma {:induction false} ValueIgnoresLeadingZeros(k: nat, s: string, base: nat)
    requires IsBase(base) && IsNumeral(s, base)
    ensures IsNumeral(Zeros(k) + s, base)
    ensures Value(Zeros(k) + s, base) == Value(s, base)
    decreases k
  {
    if k > 0 {
      var t := Zeros(k - 1) + s;
      ValueIgnoresLeadingZeros(k - 1, s, base);
      assert Zeros(k) == "0" + Zeros(k - 1);
      assert Zeros(k) + s == "0" + t;
      ValueIgnoresLeadingZero(t, base);
    } else {
      assert Zeros(k) + s == s;
    }
  }

  /** Python's `str(i)` of an int: an optional minus sign followed by the
      canonical decimal numeral of the magnitude. */
  function IntToDecimal(i: int): string
  {
    if i < 0 then "-" + FromNat(-i, 10) else FromNat(i, 10)
  }

  /** `str(i)` reads back as `i`: the sign is present exactly for negative
      numbers, and the digits after it denote the magnitude. */
  lemma IntToDecimalValue(i: int)
    ensures var s := IntToDecimal(i);
            && |s| > 0
            && (s[0] == '-' <==> i < 0)
            && (i >= 0 ==> IsNumeral(s, 10) && Value(s, 10) == i)
            && (i < 0 ==> IsNumeral(s[1..], 10) && Value(s[1..], 10) == -i)
  {
    if i < 0 {
      ValueOfFromNat(-i, 10);
      assert IntToDecimal(i)[1..] == FromNat(-i, 10);
    } else {
      ValueOfFromNat(i, 10);
    }
  }
}
