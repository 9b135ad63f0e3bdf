/** Decimal digits: rendering non-negative integers as zero-padded decimal
    text (as the runtime does for ISO date fields and for numbers written
    into template strings) and reading a run of ASCII digits back as a
    number (as Number("0520") does). */
module Digits {

  predicate IsDigit(c: char) {
    '0' <= c <= '9'
  }

  predicate AllDigits(s: string) {
    forall i | 0 <= i < |s| :: IsDigit(s[i])
  }

  function DigitChar(d: int): (c: char)
    requires 0 <= d <= 9
    ensures IsDigit(c) && c as int - '0' as int == d
  {
    ('0' as int + d) as char
  }

  function Pow10(k: nat): (p: nat)
    ensures p >= 1
  {
    if k == 0 then 1 else 10 * Pow10(k - 1)
  }

  /** The decimal digits of n, left-padded with '0' to at least `width`
      characters; there is always at least one digit. */
  function PadDecimal(n: nat, width: nat): (s: string)
    ensures |s| >= 1 && |s| >= width
    decreases n + width
  {
    if n < 10 && width <= 1 then [DigitChar(n)]
    else PadDecimal(n / 10, if width == 0 then 0 else width - 1) + [DigitChar(n % 10)]
  }

  /** A rendering consists of decimal digits only. */
  lemma {:induction false} PadDecimalDigits(n: nat, width: nat)
    ensures AllDigits(PadDecimal(n, width))
    decreases n + width
  {
    if !(n < 10 && width <= 1) {
      PadDecimalDigits(n / 10, if width == 0 then 0 else width - 1);
    }
  }

  /** The value of a run of decimal digits (the empty run is 0). */
  function DecimalValue(s: string): (v: int)
    requires AllDigits(s)
    ensures 0 <= v < Pow10(|s|)
  {
    if s == [] then 0
    else 10 * DecimalValue(s[..|s| - 1]) + (s[|s| - 1] as int - '0' as int)
  }

  /** Reading back a rendered number gives the number. */
  lemma {:induction false} DecimalValueOfPad(n: nat, width: nat)
    ensures AllDigits(PadDecimal(n, width)) && DecimalValue(PadDecimal(n, width)) == n
    decreases n + width
  {
    var s := PadDecimal(n, width);
    PadDecimalDigits(n, width);
    if n < 10 && width <= 1 {
      assert s[..|s| - 1] == [];
    } else {
      var w := if width == 0 then 0 else width - 1;
      var front := PadDecimal(n / 10, w);
      PadDecimalDigits(n / 10, w);
      assert s[..|s| - 1] == front;
      DecimalValueOfPad(n / 10, w);
    }
  }

  /** A non-empty run of digits is the padded rendering of its own value at its own width. */
  lemma {:induction false} PadOfDecimalValue(s: string)
    requires AllDigits(s) && |s| >= 1
    ensures PadDecimal(DecimalValue(s), |s|) == s
    decreases |s|
  {
    var v := DecimalValue(s);
    var front := s[..|s| - 1];
    if |s| > 1 {
      assert AllDigits(front);
      PadOfDecimalValue(front);
      assert v / 10 == DecimalValue(front) && v % 10 == s[|s| - 1] as int - '0' as int;
      assert s == front + [s[|s| - 1]];
    } else {
      assert front == [];
      assert s == [s[0]];
    }
  }

  /** A number below 10^width renders in exactly `width` characters. */
  lemma {:induction false} PadDecimalLength(n: nat, width: nat)
    requires width >= 1 && n < Pow10(width)
    ensures |PadDecimal(n, width)| == width
    decreases width
  {
    if !(n < 10 && width <= 1) {
      PadDecimalLength(n / 10, width - 1);
    }
  }

  lemma PadDecimalInjective(a: nat, b: nat, width: nat)
    ensures PadDecimal(a, width) == PadDecimal(b, width) <==> a == b
  {
    DecimalValueOfPad(a, width);
    DecimalValueOfPad(b, width);
  }

  /** The text a JavaScript template literal gives for an integer number. */
  function IntToString(n: int): (s: string)
    ensures |s| >= 1
  {
    if n < 0 then "-" + PadDecimal(-n, 1) else PadDecimal(n, 1)
  }

  lemma IntToStringInjective(a: int, b: int)
    ensures IntToString(a) == IntToString(b) <==> a == b
  {
    if a < 0 && b < 0 {
      assert IntToString(a)[1..] == PadDecimal(-a, 1);
      assert IntToString(b)[1..] == PadDecimal(-b, 1);
      PadDecimalInjective(-a, -b, 1);
    } else if a >= 0 && b >= 0 {
      PadDecimalInjective(a, b, 1);
    } else if a < 0 {
      PadDecimalDigits(b, 1);
      assert IntToString(a)[0] == '-' && IsDigit(IntToString(b)[0]);
    } else {
      PadDecimalDigits(a, 1);
      assert IntToString(b)[0] == '-' && IsDigit(IntToString(a)[0]);
    }
  }
}
