/** Decimal numerals: `str(n)` for a natural number and the digit strings the
    request-name patterns accept. */
module Numerals {
  import opened Text

  function DigitChar(d: int): char
    requires 0 <= d <= 9
  {
    (48 + d) as char
  }

  function DigitValue(c: char): nat
    requires IsDigit(c)
  {
    c as int - 48
  }

  /** `str(n)` */
  function Decimal(n: nat): string
    decreases n
  {
    if n < 10 then [DigitChar(n)] else Decimal(n / 10) + [DigitChar(n % 10)]
  }

  predicate AllDigits(s: string)
  {
    forall i :: 0 <= i < |s| ==> IsDigit(s[i])
  }

  /** A digit string with no leading zero, except "0" itself. */
  predicate Canonical(s: string)
  {
    |s| >= 1 && AllDigits(s) && (|s| == 1 || s[0] != '0')
  }

  /** `int(s)` for a digit string. */
  function Value(s: string): nat
    requires AllDigits(s)
  {
    if s == [] then 0 else 10 * Value(s[..|s| - 1]) + DigitValue(s[|s| - 1])
  }

  /** `str(n)` is canonical and reads back as `n`. */
  lemma {:induction false} DecimalIsCanonical(n: nat)
    ensures Canonical(Decimal(n)) && Value(Decimal(n)) == n
    decreases n
  {
    if n >= 10 {
      DecimalIsCanonical(n / 10);
      var p := Decimal(n / 10);
      var s := Decimal(n);
      assert s == p + [DigitChar(n % 10)];
      assert s[..|s| - 1] == p;
      assert AllDigits(s) by {
        forall i | 0 <= i < |s|
          ensures IsDigit(s[i])
        {
          if i < |p| {
            assert s[i] == p[i];
          }
        }
      }
      assert s[0] == p[0];
      if |p| == 1 {
        assert p[..0] == [];
        assert Value(p) == DigitValue(p[0]);
      }
    }
  }

  /** A digit string whose first digit is not zero has a positive value. */
  lemma {:induction false} PositiveValue(s: string)
    requires |s| >= 1 && AllDigits(s) && s[0] != '0'
    ensures Value(s) >= 1
    decreases |s|
  {
    if |s| > 1 {
      var p := s[..|s| - 1];
      assert p[0] == s[0];
      PositiveValue(p);
    }
  }

  /** A canonical digit string is `str` of its value. */
  lemma {:induction false} CanonicalIsDecimal(s: string)
    requires Canonical(s)
    ensures Decimal(Value(s)) == s
    decreases |s|
  {
    if |s| == 1 {
      assert Value(s) == DigitValue(s[0]) by {
        assert s[..0] == [];
      }
      assert [DigitChar(DigitValue(s[0]))] == s;
    } else {
      var p := s[..|s| - 1];
      assert p[0] == s[0];
      PositiveValue(p);
      CanonicalIsDecimal(p);
      var v := Value(s);
      assert v / 10 == Value(p) && v % 10 == DigitValue(s[|s| - 1]);
      assert s == p + [s[|s| - 1]];
    }
  }

  /** `k` digits make a number below `10^k`. */
  lemma {:induction false} ValueBelow(s: string)
    requires AllDigits(s) && |s| <= 3
    ensures Value(s) < 1000
    ensures |s| <= 2 ==> Value(s) < 100
    ensures |s| <= 1 ==> Value(s) < 10
    decreases |s|
  {
    if s != [] {
      ValueBelow(s[..|s| - 1]);
    }
  }

  /** Numbers below a thousand have at most three digits. */
  lemma ShortDecimal(n: nat)
    requires n < 1000
    ensures |Decimal(n)| <= 3
  {
    if n >= 10 {
      assert |Decimal(n)| == |Decimal(n / 10)| + 1;
      if n >= 100 {
        assert |Decimal(n / 10)| == |Decimal(n / 100)| + 1;
      }
    }
  }

  /** `str(1000)` */
  lemma Thousand()
    ensures Decimal(1000) == "1000"
  {
    assert Decimal(1) == "1";
    assert Decimal(10) == "10";
    assert Decimal(100) == "100";
  }

  /** `str(10)` and `str(11)` */
  lemma TenEleven()
    ensures Decimal(10) == "10" && Decimal(11) == "11"
  {
    assert Decimal(1) == "1";
  }
}
