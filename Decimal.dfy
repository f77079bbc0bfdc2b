/** The decimal text of a number, as C#'s `Int32.ToString()` writes it:
    an optional '-' followed by digits with no leading zero. The
    reconcilers compare ids with the submitted strings through it. */
module Decimal {

  function Digit(d: nat): (c: char)
    requires d < 10
    ensures '0' <= c <= '9'
  {
    (48 + d) as char
  }

  /** Decimal digits of a natural number, most significant first. */
  function NatToString(n: nat): (s: string)
    ensures |s| >= 1
    ensures forall i :: 0 <= i < |s| ==> '0' <= s[i] <= '9'
    decreases n
  {
    if n < 10 then [Digit(n)] else NatToString(n / 10) + [Digit(n % 10)]
  }

  function IntToString(n: int): (s: string)
    ensures |s| >= 1
    ensures (s[0] == '-') <==> n < 0
  {
    if n < 0 then "-" + NatToString(-n) else NatToString(n)
  }

  predicate IsDigits(s: string)
  {
    forall i :: 0 <= i < |s| ==> '0' <= s[i] <= '9'
  }

  /** The number a string of decimal digits denotes, read most significant
      digit first; independent of how `NatToString` writes it. */
  function DigitsValue(s: string): nat
    requires IsDigits(s)
    decreases |s|
  {
    if s == [] then 0
    else 10 * DigitsValue(s[..|s| - 1]) + (s[|s| - 1] as int - 48)
  }

  lemma {:induction false} NatToStringValue(n: nat)
    ensures DigitsValue(NatToString(n)) == n
    decreases n
  {
    var s := NatToString(n);
    if n < 10 {
      assert s[..0] == [];
    } else {
      assert s[..|s| - 1] == NatToString(n / 10);
      NatToStringValue(n / 10);
    }
  }

  /** `ToString()` writes the value of the number: its digits denote the
      number itself, after a '-' when it is negative, and carry no leading
      zero unless the number is 0. */
  lemma IntToStringValue(n: int)
    ensures var s := IntToString(n);
            && (n >= 0 ==> IsDigits(s) && DigitsValue(s) == n && (s[0] == '0' ==> s == "0"))
            && (n < 0 ==> s[0] == '-' && IsDigits(s[1..]) && DigitsValue(s[1..]) == -n
                          && s[1] != '0')
  {
    var s := IntToString(n);
    if n >= 0 {
      var d := NatToString(n);
      assert s == d;
      NatToStringValue(n);
      NatToStringLeadingDigit(n);
    } else {
      var d := NatToString(-n);
      assert s[1..] == d;
      NatToStringValue(-n);
      NatToStringLeadingDigit(-n);
      assert s[1] == d[0];
    }
  }

  lemma {:induction false} NatToStringInjective(a: nat, b: nat)
    requires NatToString(a) == NatToString(b)
    ensures a == b
    decreases a
  {
    var sa, sb := NatToString(a), NatToString(b);
    if a < 10 && b < 10 {
      assert Digit(a) == sa[0] == sb[0] == Digit(b);
    } else if a >= 10 && b >= 10 {
      assert Digit(a % 10) == sa[|sa| - 1] == sb[|sb| - 1] == Digit(b % 10);
      assert NatToString(a / 10) == sa[..|sa| - 1] == sb[..|sb| - 1] == NatToString(b / 10);
      NatToStringInjective(a / 10, b / 10);
    }
  }

  /** Distinct numbers have distinct decimal texts, so a string names at
      most one id. */
  lemma IntToStringInjective(a: int, b: int)
    requires IntToString(a) == IntToString(b)
    ensures a == b
  {
    var sa, sb := IntToString(a), IntToString(b);
    if a < 0 && b < 0 {
      assert NatToString(-a) == sa[1..] == sb[1..] == NatToString(-b);
      NatToStringInjective(-a, -b);
    } else if a >= 0 && b >= 0 {
      NatToStringInjective(a, b);
    }
  }

  lemma {:induction false} NatToStringLeadingDigit(n: nat)
    ensures NatToString(n)[0] == '0' ==> n == 0
    decreases n
  {
    if n >= 10 {
      NatToStringLeadingDigit(n / 10);
    }
  }

  /** A text of two or more characters that starts with '0' (such as "02")
      is the decimal text of no number. */
  lemma LeadingZeroIsNoId(s: string, n: int)
    requires |s| >= 2 && s[0] == '0'
    ensures IntToString(n) != s
  {
    if n >= 0 {
      NatToStringLeadingDigit(n);
      if n == 0 {
        assert |IntToString(n)| == 1;
      }
    }
  }
}
