/** Decimal text of Kotlin `Int`s: `Int.toString()` and `String.toIntOrNull()`.

These are the two conversions `StaticVarSerialDescriptor` uses to turn an
element index into an element name and back.
 */
module Decimal {
  import opened Wrappers
  import opened KotlinInt

  predicate IsDigit(c: char) {
    '0' <= c <= '9'
  }

  predicate AllDigits(s: string) {
    forall i :: 0 <= i < |s| ==> IsDigit(s[i])
  }

  /** Text `toIntOrNull` can read: an optional sign followed by at least one digit. */
  predicate NumericText(s: string) {
    if |s| > 0 && (s[0] == '-' || s[0] == '+') then |s| > 1 && AllDigits(s[1..])
    else |s| > 0 && AllDigits(s)
  }

  function DigitValue(c: char): (d: nat)
    requires IsDigit(c)
    ensures d < 10
  {
    (c as int) - ('0' as int)
  }

  function DigitChar(d: nat): (c: char)
    requires d < 10
    ensures IsDigit(c) && DigitValue(c) == d
  {
    (('0' as int) + d) as char
  }

  /** The number a string of decimal digits denotes (most significant first). */
  function DigitsValue(s: string): nat
    requires AllDigits(s)
  {
    if |s| == 0 then 0 else 10 * DigitsValue(s[..|s| - 1]) + DigitValue(s[|s| - 1])
  }

  /** The number a `NumericText` denotes: its digits' value, negated after a '-'. */
  function SignedValue(s: string): int
    requires NumericText(s)
  {
    if s[0] == '-' then 0 - DigitsValue(s[1..])
    else if s[0] == '+' then DigitsValue(s[1..])
    else DigitsValue(s)
  }

  /** The shortest decimal digit string of `n`. */
  function NatToDigits(n: nat): (s: string)
    ensures |s| >= 1 && AllDigits(s)
    ensures |s| > 1 ==> s[0] != '0'
    decreases n
  {
    if n < 10 then [DigitChar(n)] else NatToDigits(n / 10) + [DigitChar(n % 10)]
  }

  /** `Int.toString()`: a minus sign for negative values, then the digits of the magnitude. */
  function IntToString(i: int32): (s: string)
    ensures NumericText(s)
    ensures |s| > 0 && (s[0] == '-' <==> i < 0)
    ensures s[0] != '+'
    ensures var d := if i < 0 then s[1..] else s; |d| > 1 ==> d[0] != '0'
  {
    if i < 0 then "-" + NatToDigits(-(i as int)) else NatToDigits(i)
  }

  /** `String.toIntOrNull()` (radix 10, ASCII digits): the value of an optionally
      signed digit string when it fits in an `Int`, and null otherwise. */
  function ToIntOrNull(s: string): (r: Option<int32>)
    ensures r.Some? ==> NumericText(s)
    ensures !NumericText(s) ==> r == None
    ensures NumericText(s) ==> (r.Some? <==> -TWO_31 <= SignedValue(s) < TWO_31)
    ensures r.Some? ==> r.value == SignedValue(s)
  {
    if !NumericText(s) then None
    else
      var negative := s[0] == '-';
      var digits := if s[0] == '-' || s[0] == '+' then s[1..] else s;
      var v: int := if negative then 0 - DigitsValue(digits) else DigitsValue(digits);
      if -TWO_31 <= v < TWO_31 then Some(v) else None
  }

  /** Reading back the digits of `n` yields `n`. */
  lemma {:induction false} DigitsValueOfNatToDigits(n: nat)
    ensures DigitsValue(NatToDigits(n)) == n
    decreases n
  {
    var s := NatToDigits(n);
    if n >= 10 {
      DigitsValueOfNatToDigits(n / 10);
      assert s[..|s| - 1] == NatToDigits(n / 10);
    }
  }

  /** `toIntOrNull` inverts `toString` on every `Int`. */
  lemma ToIntOrNullOfIntToString(i: int32)
    ensures ToIntOrNull(IntToString(i)) == Some(i)
  {
    var s := IntToString(i);
    if i < 0 {
      assert s[1..] == NatToDigits(-(i as int));
      DigitsValueOfNatToDigits(-(i as int));
      assert SignedValue(s) == i;
    } else {
      assert s == NatToDigits(i) && IsDigit(s[0]);
      DigitsValueOfNatToDigits(i);
      assert SignedValue(s) == i;
    }
  }

  /** A leading '+' and leading zeros are accepted. */
  lemma ToIntOrNullExamples()
    ensures ToIntOrNull("+7") == Some(7)
    ensures ToIntOrNull("007") == Some(7)
    ensures ToIntOrNull("-0") == Some(0)
  {
    assert "+7"[1..] == "7";
    assert "-0"[1..] == "0";
    assert "007"[..2] == "00" && "00"[..1] == "0";
  }

  /** Appending a digit multiplies the value by ten and adds the digit. */
  lemma DigitsValueSnoc(s: string, c: char)
    requires AllDigits(s) && IsDigit(c)
    ensures AllDigits(s + [c]) && DigitsValue(s + [c]) == 10 * DigitsValue(s) + DigitValue(c)
  {
    assert (s + [c])[..|s|] == s;
  }

  /** The value of the first nine digits of 2^31, one digit at a time. */
  lemma DigitsValueOfTwo31Prefix()
    ensures AllDigits("214748364") && DigitsValue("214748364") == 214748364
  {
    var s1: string := ['2'];
    assert s1[..0] == [];
    DigitsValueSnoc(s1, '1');
    var s2 := s1 + ['1'];
    DigitsValueSnoc(s2, '4');
    var s3 := s2 + ['4'];
    DigitsValueSnoc(s3, '7');
    var s4 := s3 + ['7'];
    DigitsValueSnoc(s4, '4');
    var s5 := s4 + ['4'];
    DigitsValueSnoc(s5, '8');
    var s6 := s5 + ['8'];
    DigitsValueSnoc(s6, '3');
    var s7 := s6 + ['3'];
    DigitsValueSnoc(s7, '6');
    var s8 := s7 + ['6'];
    DigitsValueSnoc(s8, '4');
    assert s8 + ['4'] == "214748364";
  }

  /** A number one past the `Int` range is refused, even though it is numeric text. */
  lemma ToIntOrNullRefusesOverflow()
    ensures ToIntOrNull("2147483648") == None
    ensures ToIntOrNull("-2147483649") == None
    ensures ToIntOrNull("-2147483648") == Some(-TWO_31)
  {
    var p := "214748364";
    DigitsValueOfTwo31Prefix();
    DigitsValueSnoc(p, '8');
    DigitsValueSnoc(p, '9');
    assert p + ['8'] == "2147483648";
    assert "-2147483648"[1..] == p + ['8'];
    assert "-2147483649"[1..] == p + ['9'];
  }

  /** A name with a character that is neither a digit nor a leading sign is not read as a number. */
  lemma ToIntOrNullRejectsNonDigit(s: string, k: nat)
    requires k < |s| && !IsDigit(s[k])
    requires k > 0 || (s[0] != '-' && s[0] != '+')
    ensures ToIntOrNull(s) == None
  {
    if s[0] == '-' || s[0] == '+' {
      assert s[1..][k - 1] == s[k];
    }
  }
}
