/** The scalar PHP values the repository handles, with the two pieces of PHP
    runtime behaviour its helpers rely on: `empty()` and string interpolation
    ("{$item}", implode). Floats, arrays and objects are not values here. */
module PhpValues {

  datatype Value = VNull | VBool(b: bool) | VInt(i: int) | VStr(s: string)

  /** PHP's empty(): null, false, 0, "" and "0" are empty, everything else is not. */
  predicate IsEmpty(v: Value)
  {
    match v
    case VNull => true
    case VBool(b) => !b
    case VInt(i) => i == 0
    case VStr(s) => s == "" || s == "0"
  }

  predicate IsDigit(c: char)
  {
    '0' <= c <= '9'
  }

  predicate AllDigits(t: string)
  {
    forall k :: 0 <= k < |t| ==> IsDigit(t[k])
  }

  function DigitChar(d: nat): (c: char)
    requires d < 10
    ensures IsDigit(c)
  {
    ('0' as int + d) as char
  }

  function DigitValue(c: char): (d: nat)
    requires IsDigit(c)
    ensures d < 10 && DigitChar(d) == c
  {
    c as int - '0' as int
  }

  /** Decimal text of a natural number, without leading zeros. */
  function NatToText(n: nat): (t: string)
    ensures |t| > 0 && AllDigits(t)
    ensures t[0] == '0' ==> n == 0
    decreases n
  {
    if n < 10 then [DigitChar(n)] else NatToText(n / 10) + [DigitChar(n % 10)]
  }

  /** PHP's conversion of an int to a string: a minus sign for negatives, then the decimal digits. */
  function IntToText(i: int): string
  {
    if i < 0 then "-" + NatToText(-i) else NatToText(i)
  }

  /** Text that IntToText can produce: optional minus sign, then at least one digit. */
  predicate IsDecimalText(t: string)
  {
    if |t| > 0 && t[0] == '-' then |t| > 1 && AllDigits(t[1..]) else |t| > 0 && AllDigits(t)
  }

  function ParseNat(t: string): nat
    requires |t| > 0 && AllDigits(t)
    decreases |t|
  {
    if |t| == 1 then DigitValue(t[0])
    else 10 * ParseNat(t[..|t| - 1]) + DigitValue(t[|t| - 1])
  }

  /** Reads decimal text back as an integer. */
  function ParseInt(t: string): int
    requires IsDecimalText(t)
  {
    if t[0] == '-' then 0 - ParseNat(t[1..]) else ParseNat(t)
  }

  /** PHP's "{$v}" (and implode's conversion of each element). */
  function Interpolate(v: Value): string
  {
    match v
    case VNull => ""
    case VBool(b) => if b then "1" else ""
    case VInt(i) => IntToText(i)
    case VStr(s) => s
  }

  lemma {:induction false} NatTextRoundTrip(n: nat)
    ensures ParseNat(NatToText(n)) == n
    decreases n
  {
    if n >= 10 {
      var t := NatToText(n);
      assert t[..|t| - 1] == NatToText(n / 10);
      NatTextRoundTrip(n / 10);
    }
  }

  /** IntToText produces decimal text that reads back as the same integer. */
  lemma IntTextRoundTrip(i: int)
    ensures IsDecimalText(IntToText(i))
    ensures ParseInt(IntToText(i)) == i
  {
    var t := IntToText(i);
    if i < 0 {
      assert t[1..] == NatToText(-i);
      NatTextRoundTrip(-i);
    } else {
      NatTextRoundTrip(i);
    }
  }

  /** Distinct integers have distinct text. */
  lemma IntTextInjective(i: int, j: int)
    requires IntToText(i) == IntToText(j)
    ensures i == j
  {
    IntTextRoundTrip(i);
    IntTextRoundTrip(j);
  }

  /** The text of an integer is never empty, and it is "0" only for zero. */
  lemma IntTextZero(i: int)
    ensures IntToText(i) != ""
    ensures IntToText(i) == "0" <==> i == 0
  {
    if IntToText(i) == "0" {
      assert IntToText(0) == "0";
      IntTextInjective(i, 0);
    }
  }

  /** The text of an integer contains only digits and a leading minus sign, so never `c` for other characters. */
  lemma IntTextAlphabet(i: int, c: char)
    requires c != '-' && !IsDigit(c)
    ensures c !in IntToText(i)
  {
    var t := IntToText(i);
    if i < 0 {
      assert forall k :: 1 <= k < |t| ==> t[k] == NatToText(-i)[k - 1];
    }
  }

  /** Only null, false and the empty string print as nothing. */
  lemma EmptyText(v: Value)
    ensures Interpolate(v) == "" <==> v == VNull || v == VBool(false) || v == VStr("")
  {
    if v.VInt? {
      IntTextZero(v.i);
    }
  }

  /** PHP's empty() on a scalar agrees with empty() on its interpolated text:
      a value is empty exactly when it prints as "" or as "0". */
  lemma EmptyIffEmptyText(v: Value)
    ensures IsEmpty(v) <==> IsEmpty(VStr(Interpolate(v)))
  {
    if v.VInt? {
      IntTextZero(v.i);
    }
  }
}
