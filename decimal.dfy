/** Decimal notation of integers, as Python's `str(int)` writes it, and its reading. */
module Decimal {
  import opened Wrappers

  predicate IsDigit(c: char)
  {
    '0' <= c <= '9'
  }

  predicate AllDigits(s: string)
  {
    forall i :: 0 <= i < |s| ==> IsDigit(s[i])
  }

  function DigitChar(d: nat): (c: char)
    requires d < 10
    ensures IsDigit(c)
  {
    ('0' as int + d) as char
  }

  function DigitValue(c: char): (d: nat)
    requires IsDigit(c)
    ensures d < 10 && DigitChar(d) == c
  {
    c as int - '0' as int
  }

  /** Digits as `str` writes them: at least one, and no leading zero unless the number is zero. */
  predicate Canonical(s: string)
  {
    1 <= |s| && AllDigits(s) && (s[0] == '0' ==> |s| == 1)
  }

  /** A signed decimal as `str` writes it: canonical digits, after a minus sign unless zero or positive. */
  predicate CanonicalInt(s: string)
  {
    || (2 <= |s| && s[0] == '-' && Canonical(s[1..]) && s[1] != '0')
    || Canonical(s)
  }

  /** The decimal digits of `n`, most significant first, without leading zeros. */
  function NatToDecimal(n: nat): (s: string)
    ensures Canonical(s)
    ensures n < 10 <==> |s| == 1
    ensures s[0] == '0' <==> n == 0
    decreases n
  {
    if n < 10 then [DigitChar(n)] else NatToDecimal(n / 10) + [DigitChar(n % 10)]
  }

  /** The number a digit string denotes. */
  function DecimalValue(s: string): (v: nat)
    requires AllDigits(s)
    decreases |s|
  {
    if s == [] then 0 else DecimalValue(s[..|s| - 1]) * 10 + DigitValue(s[|s| - 1])
  }

  /** `str(i)`: a minus sign for negative numbers, then the digits of the magnitude. */
  function IntToDecimal(i: int): (s: string)
    ensures CanonicalInt(s)
    ensures s[0] == '-' <==> i < 0
  {
    if i < 0 then
      var digits := NatToDecimal(-i);
      assert ("-" + digits)[1..] == digits;
      "-" + digits
    else NatToDecimal(i)
  }

  /** Reading an optional minus sign followed by digits. */
  function ParseInt(s: string): (r: Option<int>)
  {
    if 2 <= |s| && s[0] == '-' && AllDigits(s[1..]) then Some(-(DecimalValue(s[1..]) as int))
    else if 1 <= |s| && AllDigits(s) then Some(DecimalValue(s))
    else None
  }

  /** Reading the digits of `n` gives back `n`. */
  lemma {:induction false} NatRoundTrip(n: nat)
    ensures DecimalValue(NatToDecimal(n)) == n
    decreases n
  {
    if n >= 10 {
      NatRoundTrip(n / 10);
      var s := NatToDecimal(n / 10);
      assert (s + [DigitChar(n % 10)])[..|s|] == s;
    }
  }

  /** Reading `str(i)` gives back `i`. */
  lemma IntRoundTrip(i: int)
    ensures ParseInt(IntToDecimal(i)) == Some(i)
  {
    if i < 0 {
      var n := NatToDecimal(-i);
      NatRoundTrip(-i);
      var s := "-" + n;
      assert s[1..] == n;
      assert ParseInt(s) == Some(-(DecimalValue(n) as int));
    } else {
      var n := NatToDecimal(i);
      NatRoundTrip(i);
      assert n[0] != '-' by {
        assert IsDigit(n[0]);
      }
      assert ParseInt(n) == Some(DecimalValue(n) as int);
    }
  }

  /** Canonical digits are exactly what `str` writes for the number they denote. */
  lemma {:induction false} NatCanonical(s: string)
    requires Canonical(s)
    ensures NatToDecimal(DecimalValue(s)) == s
    decreases |s|
  {
    var init := s[..|s| - 1];
    var d := DigitValue(s[|s| - 1]);
    if |s| == 1 {
      assert init == [];
    } else {
      assert Canonical(init) by {
        assert init[0] == s[0];
      }
      NatCanonical(init);
      var v := DecimalValue(init);
      assert v != 0 by {
        assert init[0] == s[0];
      }
      assert DecimalValue(s) / 10 == v && DecimalValue(s) % 10 == d;
      assert s == init + [s[|s| - 1]];
    }
  }

  /** Canonical signed text is exactly `str` of the number it reads as. */
  lemma IntCanonical(s: string)
    requires CanonicalInt(s)
    ensures ParseInt(s).Some? && IntToDecimal(ParseInt(s).value) == s
  {
    if s[0] == '-' {
      var digits := s[1..];
      NatCanonical(digits);
      assert DecimalValue(digits) != 0 by {
        assert NatToDecimal(DecimalValue(digits))[0] == s[1];
      }
      assert s == "-" + digits;
    } else {
      NatCanonical(s);
    }
  }
}
