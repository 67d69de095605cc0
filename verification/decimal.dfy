/** Decimal text of natural numbers (`Number.prototype.toString()` for a
    millisecond timestamp) and the value such text denotes. */
module Decimal {

  predicate IsDigit(c: char) {
    '0' <= c <= '9'
  }

  predicate AllDigits(s: string) {
    forall i :: 0 <= i < |s| ==> IsDigit(s[i])
  }

  function DigitChar(d: nat): (c: char)
    requires d < 10
    ensures IsDigit(c) && c as int - '0' as int == d
  {
    ('0' as int + d) as char
  }

  function Pow10(k: nat): (p: nat)
    ensures p >= 1
  {
    if k == 0 then 1 else 10 * Pow10(k - 1)
  }

  /** The number written by a string of decimal digits, most significant
      first. */
  function Value(s: string): nat
    requires AllDigits(s)
  {
    if |s| == 0 then 0
    else Value(s[..|s| - 1]) * 10 + (s[|s| - 1] as int - '0' as int)
  }

  /** `n.toString()`: at least one digit, and no leading zero unless `n` is 0. */
  function ToDecimal(n: nat): (s: string)
    ensures |s| >= 1 && AllDigits(s)
    ensures s[0] == '0' ==> n == 0
    decreases n
  {
    if n < 10 then [DigitChar(n)] else ToDecimal(n / 10) + [DigitChar(n % 10)]
  }

  /** `s.slice(-k)`: the last `k` characters, or all of `s` when it is
      shorter. For `k` = 0 the start index -0 is 0, so all of `s` is
      returned as well. */
  function Last(s: string, k: nat): (r: string)
    ensures |r| == if k == 0 || |s| < k then |s| else k
    ensures r == s[|s| - |r|..]
  {
    if k == 0 || |s| <= k then s else s[|s| - k..]
  }

  /** Reading back what `ToDecimal` wrote gives the number again. */
  lemma {:induction false} ValueOfDecimal(n: nat)
    ensures Value(ToDecimal(n)) == n
  {
    var s := ToDecimal(n);
    LastDigitsValue(n, |s|);
    assert s[|s| - |s|..] == s;
    LengthBound(n);
    ModUnique(n, Pow10(|s|), 0, n);
  }

  /** `n` is below ten to the power of its digit count. */
  lemma {:induction false} LengthBound(n: nat)
    ensures n < Pow10(|ToDecimal(n)|)
    decreases n
  {
    if n >= 10 {
      LengthBound(n / 10);
    }
  }

  /** Any stretch of a digit string is a digit string. */
  lemma SliceDigits(s: string, i: nat, j: nat)
    requires AllDigits(s) && i <= j <= |s|
    ensures AllDigits(s[i..j])
  {
    forall k | 0 <= k < j - i ensures IsDigit(s[i..j][k]) {
      assert s[i..j][k] == s[i + k];
    }
  }

  /** A digit string with a non-zero digit denotes a positive number. */
  lemma {:induction false} ValuePositive(s: string, i: nat)
    requires AllDigits(s) && i < |s| && s[i] != '0'
    ensures Value(s) > 0
    decreases |s|
  {
    if i < |s| - 1 {
      SliceDigits(s, 0, |s| - 1);
      assert s[..|s| - 1][i] == s[i];
      ValuePositive(s[..|s| - 1], i);
    }
  }

  /** Appending a digit shifts the value one place and adds the digit. */
  lemma ValueAppend(t: string, c: char)
    requires AllDigits(t) && IsDigit(c)
    ensures AllDigits(t + [c])
    ensures Value(t + [c]) == Value(t) * 10 + (c as int - '0' as int)
  {
    assert (t + [c])[..|t|] == t;
  }

  /** The last `k` digits of `n` denote `n` modulo ten to the `k`. */
  lemma {:induction false} LastDigitsValue(n: nat, k: nat)
    requires k <= |ToDecimal(n)|
    ensures AllDigits(ToDecimal(n)[|ToDecimal(n)| - k..])
    ensures Value(ToDecimal(n)[|ToDecimal(n)| - k..]) == n % Pow10(k)
    decreases n
  {
    var s := ToDecimal(n);
    SliceDigits(s, |s| - k, |s|);
    if k == 0 {
      assert s[|s| - k..] == [];
    } else if n < 10 {
      assert s[|s| - k..] == s == [] + [DigitChar(n)];
      ValueAppend([], DigitChar(n));
    } else {
      var s' := ToDecimal(n / 10);
      var c := DigitChar(n % 10);
      LastOfAppend(s', c, k);
      LastDigitsValue(n / 10, k - 1);
      ValueAppend(s'[|s'| - (k - 1)..], c);
      ModSplit(n, k);
    }
  }

  /** The last `k` characters of `t + [c]` are the last `k - 1` of `t`,
      then `c`. */
  lemma LastOfAppend(t: string, c: char, k: nat)
    requires 1 <= k <= |t| + 1
    ensures (t + [c])[|t| + 1 - k..] == t[|t| - (k - 1)..] + [c]
  {
  }

  /** Arithmetic behind one digit of `LastDigitsValue`. */
  lemma ModSplit(n: nat, k: nat)
    requires k >= 1
    ensures n % Pow10(k) == ((n / 10) % Pow10(k - 1)) * 10 + n % 10
  {
    var p := Pow10(k - 1);
    var q := n / 10;
    var a, b := q / p, q % p;
    assert q == p * a + b;
    assert n == 10 * q + n % 10;
    assert n == Pow10(k) * a + (b * 10 + n % 10) by {
      assert Pow10(k) == 10 * p;
    }
    assert 0 <= b * 10 + n % 10 < Pow10(k);
    ModUnique(n, Pow10(k), a, b * 10 + n % 10);
  }

  lemma ModUnique(n: int, m: int, a: int, r: int)
    requires m > 0 && 0 <= r < m && n == m * a + r
    ensures n % m == r
  {
    var d := n / m - a;
    assert m * d == r - n % m by {
      assert n == m * (n / m) + n % m;
      assert m * d == m * (n / m) - m * a;
    }
  }

  /** A number of at least 100000 has at least six digits. */
  lemma SixDigitsFromOneHundredThousand(n: nat)
    ensures n >= 100000 ==> |ToDecimal(n)| >= 6
  {
    if n >= 100000 {
      assert |ToDecimal(100000)| == 6;
      LengthGrows(100000, n);
    }
  }

  /** More digits for a larger number. */
  lemma {:induction false} LengthGrows(a: nat, b: nat)
    requires a <= b
    ensures |ToDecimal(a)| <= |ToDecimal(b)|
    decreases b
  {
    if a >= 10 {
      LengthGrows(a / 10, b / 10);
    }
  }

  /** Powers of ten grow with the exponent. */
  lemma {:induction false} PowMonotone(a: nat, b: nat)
    requires a <= b
    ensures Pow10(a) <= Pow10(b)
    decreases b
  {
    if a < b {
      PowMonotone(a, b - 1);
    }
  }
}
