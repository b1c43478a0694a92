/**
 * Conversions between integers and digit strings, as JavaScript's
 * `Number.prototype.toString(radix)` and `parseInt(s, radix)` perform them
 * on integers and on strings made only of digits.
 */
module JsText {
  import opened Wrappers
  import JsNumber

  /** The value of a digit character in bases up to 36, or -1 for a non-digit. */
  function DigitValue(ch: char): int
  {
    if '0' <= ch <= '9' then ch as int - '0' as int
    else if 'a' <= ch <= 'z' then ch as int - 'a' as int + 10
    else if 'A' <= ch <= 'Z' then ch as int - 'A' as int + 10
    else -1
  }

  predicate IsDigit(ch: char, radix: nat)
  {
    0 <= DigitValue(ch) < radix
  }

  predicate AllDigits(s: string, radix: nat)
  {
    forall i :: 0 <= i < |s| ==> IsDigit(s[i], radix)
  }

  /** The number that a digit string denotes in the given radix, most significant digit first. */
  function DigitsValue(s: string, radix: nat): nat
    requires AllDigits(s, radix)
  {
    if s == [] then 0
    else DigitsValue(s[..|s| - 1], radix) * radix + DigitValue(s[|s| - 1])
  }

  /**
   * `parseInt(s, radix)` on a string that is entirely digits of the radix; every
   * other string (the empty one included) yields NaN, written None.
   */
  function ParseInt(s: string, radix: nat): (n: Option<int>)
    ensures n.Some? <==> |s| > 0 && AllDigits(s, radix)
    ensures n.Some? ==> n.value >= 0
  {
    if |s| > 0 && AllDigits(s, radix) then Some(DigitsValue(s, radix)) else None
  }

  /** The lower-case digit character for d. */
  function DigitChar(d: nat): (ch: char)
    requires d < 36
    ensures DigitValue(ch) == d
  {
    if d < 10 then ('0' as int + d) as char else ('a' as int + d - 10) as char
  }

  /** `n.toString(radix)` for a non-negative integer: lower-case digits without leading zeros. */
  function Digits(n: nat, radix: nat): (s: string)
    requires 2 <= radix <= 36
    ensures |s| > 0 && AllDigits(s, radix)
  {
    if n < radix then [DigitChar(n)]
    else
      DivSmaller(n, radix);
      Digits(n / radix, radix) + [DigitChar(n % radix)]
  }

  /** `n.toString(radix)` for any integer: a minus sign before the digits of |n|. */
  function NumberToString(n: int, radix: nat): string
    requires 2 <= radix <= 36
  {
    if n < 0 then "-" + Digits(-n, radix) else Digits(n, radix)
  }

  lemma DivSmaller(n: nat, r: nat)
    requires 2 <= r <= n
    ensures 0 <= n / r < n && 0 <= n % r < r
  {
    var q, m := n / r, n % r;
    assert n == q * r + m && 0 <= m < r;
    JsNumber.MulMono(q, -1, r);
    assert q >= 0;
    JsNumber.MulMono(2, r, q);
    assert q * r >= 2 * q;
  }

  function Zeros(k: nat): (z: string)
    ensures |z| == k && forall i :: 0 <= i < k ==> z[i] == '0'
  {
    seq(k, _ => '0')
  }

  function Pow(b: nat, k: nat): nat
  {
    if k == 0 then 1 else b * Pow(b, k - 1)
  }

  /** parseInt reads back what toString wrote. */
  lemma {:induction false} ParseDigits(n: nat, radix: nat)
    requires 2 <= radix <= 36
    ensures ParseInt(Digits(n, radix), radix) == Some(n)
  {
    DigitsValueOfDigits(n, radix);
  }

  lemma {:induction false} DigitsValueOfDigits(n: nat, radix: nat)
    requires 2 <= radix <= 36
    ensures DigitsValue(Digits(n, radix), radix) == n
    decreases n
  {
    if n >= radix {
      DivSmaller(n, radix);
      DigitsValueOfDigits(n / radix, radix);
      DigitsStep(n, radix);
    }
  }

  /** One step of toString: the last digit of n is n % radix, the rest spell n / radix. */
  lemma DigitsStep(n: nat, radix: nat)
    requires 2 <= radix <= 36 && radix <= n
    requires DigitsValue(Digits(n / radix, radix), radix) == n / radix
    ensures DigitsValue(Digits(n, radix), radix) == n
  {
    var q, m := n / radix, n % radix;
    DivSmaller(n, radix);
    var s := Digits(q, radix);
    assert Digits(n, radix) == s + [DigitChar(m)];
    AppendDigit(s, m, radix);
    JsNumber.DivModIdentity(n, radix);
  }

  /** Appending a digit multiplies the value by the radix and adds the digit. */
  lemma AppendDigit(s: string, d: nat, radix: nat)
    requires 2 <= radix <= 36 && d < radix && AllDigits(s, radix)
    ensures AllDigits(s + [DigitChar(d)], radix)
    ensures DigitsValue(s + [DigitChar(d)], radix) == DigitsValue(s, radix) * radix + d
  {
    var t := s + [DigitChar(d)];
    assert t[..|t| - 1] == s;
  }

  /** Leading zeros do not change the value of a digit string. */
  lemma {:induction false} LeadingZeros(k: nat, s: string, radix: nat)
    requires 2 <= radix && AllDigits(s, radix)
    ensures AllDigits(Zeros(k) + s, radix)
    ensures DigitsValue(Zeros(k) + s, radix) == DigitsValue(s, radix)
  {
    var t := Zeros(k) + s;
    assert forall i :: 0 <= i < |t| ==> t[i] == if i < k then '0' else s[i - k];
    if s == [] {
      assert t == Zeros(k);
      ZerosValue(k, radix);
    } else {
      LeadingZeros(k, s[..|s| - 1], radix);
      assert t[..|t| - 1] == Zeros(k) + s[..|s| - 1];
    }
  }

  lemma {:induction false} ZerosValue(k: nat, radix: nat)
    requires 2 <= radix
    ensures AllDigits(Zeros(k), radix) && DigitsValue(Zeros(k), radix) == 0
  {
    if k > 0 {
      ZerosValue(k - 1, radix);
      assert Zeros(k)[..k - 1] == Zeros(k - 1);
    }
  }

  lemma DivBelow(n: nat, r: nat, p: nat)
    requires r > 0 && n < r * p
    ensures n / r < p
  {
    var q := n / r;
    assert n == q * r + n % r;
    JsNumber.MulMono(p, q, r);
  }

  /** A number below radix^k has at most k digits. */
  lemma {:induction false} DigitsLength(n: nat, radix: nat, k: nat)
    requires 2 <= radix <= 36 && 1 <= k && n < Pow(radix, k)
    ensures |Digits(n, radix)| <= k
    decreases k
  {
    if n >= radix {
      assert k > 1 by {
        assert Pow(radix, 1) == radix * 1 == radix;
      }
      var rest := Pow(radix, k - 1);
      assert n / radix < rest by {
        assert n < radix * rest;
        DivBelow(n, radix, rest);
      }
      DigitsLength(n / radix, radix, k - 1);
      assert |Digits(n, radix)| == |Digits(n / radix, radix)| + 1;
    }
  }
}
