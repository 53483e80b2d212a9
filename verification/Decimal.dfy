/** Decimal text of natural numbers, plain and padded with zeros. */
module Decimal {

  predicate IsDigit(c: char) {
    '0' <= c <= '9'
  }

  predicate AllDigits(s: string) {
    forall i :: 0 <= i < |s| ==> IsDigit(s[i])
  }

  function DigitChar(d: nat): (c: char)
    requires d < 10
    ensures IsDigit(c) && c as int - '0' as int == d
  {
    ('0' as int + d) as char
  }

  function Dec(n: nat): (s: string)
    ensures s != "" && AllDigits(s)
  {
    if n < 10 then [DigitChar(n)] else Dec(n / 10) + [DigitChar(n % 10)]
  }

  function Value(s: string): nat
    requires AllDigits(s)
  {
    if s == "" then 0 else 10 * Value(s[..|s| - 1]) + (s[|s| - 1] as int - '0' as int)
  }

  lemma {:induction false} DecValue(n: nat)
    ensures Value(Dec(n)) == n
    ensures Dec(n)[0] == '0' <==> n == 0
    ensures |Dec(n)| == 1 <==> n < 10
  {
    if n >= 10 {
      DecValue(n / 10);
      assert Dec(n)[..|Dec(n)| - 1] == Dec(n / 10);
    } else {
      assert Dec(n)[..0] == "";
    }
  }

  function Zeros(n: nat): (s: string)
    ensures |s| == n && AllDigits(s)
  {
    seq(n, _ => '0')
  }

  /** The number right-aligned in a field of zeros; a wider number is not cut. */
  function Padded(n: nat, width: nat): (s: string)
    ensures AllDigits(s) && |s| >= width
  {
    if |Dec(n)| >= width then Dec(n) else Zeros(width - |Dec(n)|) + Dec(n)
  }

  lemma {:induction false} ZerosAddNothing(n: nat, s: string)
    requires AllDigits(s)
    ensures AllDigits(Zeros(n) + s) && Value(Zeros(n) + s) == Value(s)
  {
    var t := Zeros(n) + s;
    if s == "" {
      if n > 0 {
        assert t[..|t| - 1] == Zeros(n - 1) + s;
        ZerosAddNothing(n - 1, s);
      } else {
        assert t == s;
      }
    } else {
      assert t[..|t| - 1] == Zeros(n) + s[..|s| - 1];
      ZerosAddNothing(n, s[..|s| - 1]);
    }
  }

  /** Padding never makes two numbers look alike, whatever their widths. */
  lemma PaddedValue(n: nat, width: nat)
    ensures Value(Padded(n, width)) == n
  {
    DecValue(n);
    if |Dec(n)| < width {
      ZerosAddNothing(width - |Dec(n)|, Dec(n));
    }
  }

  /** A number as it appears in a name: its digits, with zeros in front up to the padding. */
  predicate IsNumeral(s: string, n: nat, padding: nat) {
    && AllDigits(s) && Value(s) == n
    && |s| == if |Dec(n)| < padding then padding else |Dec(n)|
  }

  lemma PaddedIsNumeral(n: nat, padding: nat)
    ensures IsNumeral(Padded(n, padding), n, padding)
  {
    PaddedValue(n, padding);
  }

  /** Texts of digits of one length are told apart by their values. */
  lemma {:induction false} SameValueSameText(s: string, t: string)
    requires AllDigits(s) && AllDigits(t) && |s| == |t| && Value(s) == Value(t)
    ensures s == t
  {
    if s != "" {
      var last := |s| - 1;
      LastDigit(Value(s[..last]), s[last] as int - '0' as int, Value(t[..last]), t[last] as int - '0' as int);
      SameValueSameText(s[..last], t[..last]);
      assert s == s[..last] + [s[last]] && t == t[..last] + [t[last]];
    }
  }

  lemma LastDigit(x: nat, d: nat, y: nat, e: nat)
    requires d < 10 && e < 10 && 10 * x + d == 10 * y + e
    ensures x == y && d == e
  {
  }

  /** There is one numeral for each number and padding. */
  lemma NumeralIsPadded(s: string, n: nat, padding: nat)
    requires IsNumeral(s, n, padding)
    ensures s == Padded(n, padding)
  {
    PaddedIsNumeral(n, padding);
    SameValueSameText(s, Padded(n, padding));
  }

  /** A number without zeros in front of it is written in one way. */
  lemma {:induction false} PlainIsDec(s: string)
    requires s != "" && AllDigits(s) && (|s| > 1 ==> s[0] != '0')
    ensures s == Dec(Value(s))
    ensures s[0] != '0' ==> Value(s) > 0
  {
    var last := |s| - 1;
    assert s == s[..last] + [s[last]];
    if last > 0 {
      PlainIsDec(s[..last]);
    } else {
      assert Value(s[..0]) == 0;
    }
  }
}
