/** Decimal numerals: the value of a digit string and the canonical numeral of a number. */
module Decimals {
  import opened Text

  function DigitValue(c: char): (d: nat)
    requires IsDigit(c)
    ensures d < 10
  {
    (c - '0') as nat
  }

  function DigitChar(d: nat): (c: char)
    requires d < 10
    ensures IsDigit(c) && DigitValue(c) == d
  {
    '0' + (d as char)
  }

  function Value(s: string): nat
    requires AllDigits(s)
  {
    if s == [] then 0 else Value(s[..|s| - 1]) * 10 + DigitValue(s[|s| - 1])
  }

  /** The shape of the numerals 0, 7, 10, ... : no leading zero unless the numeral is "0". */
  predicate Canonical(s: string) {
    AllDigits(s) && s != [] && (s[0] == '0' ==> |s| == 1)
  }

  function Show(n: nat): (s: string)
    ensures Canonical(s)
    ensures Value(s) == n
    ensures n > 0 ==> s[0] != '0'
  {
    if n < 10 then [DigitChar(n)]
    else
      var front := Show(n / 10);
      assert (front + [DigitChar(n % 10)])[..|front|] == front;
      front + [DigitChar(n % 10)]
  }

  /** A canonical numeral is the one shown for its value, so it is determined by that value. */
  lemma {:induction false} ShowValue(s: string)
    requires Canonical(s)
    ensures Show(Value(s)) == s
    ensures |s| > 1 ==> Value(s) >= 10
  {
    if |s| == 1 {
      assert s[..0] == [];
      assert Value(s) == DigitValue(s[0]);
    } else {
      var front, last := s[..|s| - 1], s[|s| - 1];
      ShowValue(front);
      assert Value(front) > 0 by {
        if |front| == 1 {
          assert front[..0] == [];
          assert Value(front) == DigitValue(front[0]);
        }
      }
      assert Value(s) / 10 == Value(front) && Value(s) % 10 == DigitValue(last);
      assert s == front + [last];
    }
  }

  lemma {:induction false} CanonicalInjective(s: string, t: string)
    requires Canonical(s) && Canonical(t) && Value(s) == Value(t)
    ensures s == t
  {
    ShowValue(s);
    ShowValue(t);
  }
}
