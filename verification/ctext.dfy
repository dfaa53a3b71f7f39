/**
 * The C library text routines the firmware relies on: `atoi`, decimal
 * formatting (`sprintf` with "%d" and `itoa` in base 10 of a non-negative
 * value) and the digit test.
 */
module CText {
  /** A decimal digit character. */
  predicate IsDigit(c: char) {
    '0' <= c <= '9'
  }

  /** The white space `atoi` skips: space, tab, newline, vertical tab, form feed, carriage return. */
  predicate IsSpace(c: char) {
    c == ' ' || c == '\t' || c == '\n' || c == '\U{000B}' || c == '\U{000C}' || c == '\r'
  }

  function DigitChar(d: int): (c: char)
    requires 0 <= d < 10
    ensures IsDigit(c)
  {
    ('0' as int + d) as char
  }

  /** The decimal text of a non-negative value: the shortest one, without sign. */
  function Decimal(n: nat): (s: string)
    ensures 1 <= |s|
    ensures forall i :: 0 <= i < |s| ==> IsDigit(s[i])
    decreases n
  {
    if n < 10 then [DigitChar(n)] else Decimal(n / 10) + [DigitChar(n % 10)]
  }

  /** The value of a run of digits. */
  function DigitsValue(s: string): nat
    requires forall i :: 0 <= i < |s| ==> IsDigit(s[i])
  {
    if s == [] then 0
    else
      assert IsDigit(s[|s| - 1]);
      DigitsValue(s[..|s| - 1]) * 10 + (s[|s| - 1] as int - '0' as int)
  }

  /** The length of the run of digits at the start of `s`. */
  function DigitRun(s: string): (k: nat)
    ensures k <= |s|
    ensures forall i :: 0 <= i < k ==> IsDigit(s[i])
    ensures k < |s| ==> !IsDigit(s[k])
  {
    if s != [] && IsDigit(s[0]) then 1 + DigitRun(s[1..]) else 0
  }

  /** The value of the digits at the start of `s`, and 0 when there are none. */
  function LeadingValue(s: string): nat {
    DigitsValue(s[..DigitRun(s)])
  }

  /**
   * `atoi`: leading white space is skipped, then an optional sign is read,
   * then the longest run of digits; text without digits there reads as 0.
   */
  function Atoi(s: string): int {
    if s != [] && IsSpace(s[0]) then Atoi(s[1..])
    else if s != [] && s[0] == '-' then -(LeadingValue(s[1..]) as int)
    else if s != [] && s[0] == '+' then LeadingValue(s[1..])
    else LeadingValue(s)
  }

  /** 10 to the power k. */
  function Pow10(k: nat): (p: nat)
    ensures p >= 1
  {
    if k == 0 then 1 else 10 * Pow10(k - 1)
  }

  lemma {:induction false} DigitRunAll(s: string)
    requires forall i :: 0 <= i < |s| ==> IsDigit(s[i])
    ensures DigitRun(s) == |s|
    decreases |s|
  {
    if s != [] {
      DigitRunAll(s[1..]);
    }
  }

  lemma {:induction false} DigitsValueOfDecimal(n: nat)
    ensures DigitsValue(Decimal(n)) == n
    decreases n
  {
    if n >= 10 {
      DigitsValueOfDecimal(n / 10);
      var d := Decimal(n / 10);
      var s := d + [DigitChar(n % 10)];
      assert s[..|s| - 1] == d;
    }
  }

  /** Text that starts with a digit reads as the value of its leading digits. */
  lemma AtoiLeadingDigit(s: string)
    requires s != [] && IsDigit(s[0])
    ensures Atoi(s) == LeadingValue(s)
  {
  }

  /** Text made of digits only reads as their value. */
  lemma AtoiDigits(s: string)
    requires s != [] && forall i :: 0 <= i < |s| ==> IsDigit(s[i])
    ensures Atoi(s) == DigitsValue(s)
  {
    AtoiLeadingDigit(s);
    assert LeadingValue(s) == DigitsValue(s) by {
      DigitRunAll(s);
      assert s[..|s|] == s;
    }
  }

  /** Reading back the decimal text of a value with `atoi` gives the value. */
  lemma AtoiDecimal(n: nat)
    ensures Atoi(Decimal(n)) == n
  {
    AtoiDigits(Decimal(n));
    DigitsValueOfDecimal(n);
  }

  /** Different values have different decimal texts. */
  lemma DecimalInjective(a: nat, b: nat)
    ensures Decimal(a) == Decimal(b) ==> a == b
  {
    AtoiDecimal(a);
    AtoiDecimal(b);
  }

  /** A value below 10^k has at most k decimal digits. */
  lemma {:induction false} DecimalLength(n: nat, k: nat)
    requires 1 <= k && n < Pow10(k)
    ensures |Decimal(n)| <= k
    decreases k
  {
    if n >= 10 {
      assert k >= 2;
      DecimalLength(n / 10, k - 1);
    }
  }
}
