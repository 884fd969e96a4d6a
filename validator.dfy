/** The value validator: the type check applied to every value written into
    a typed column, and the integer reading of an all-digit value used by
    the ordering comparisons of a WHERE predicate. */
module Validator {
  import opened Strings

  /** isNumber (CRT.cpp:54-57): non-empty and every character a digit. */
  predicate IsNumber(s: Str) {
    |s| > 0 && forall i :: 0 <= i < |s| ==> IsDigit(s[i])
  }

  /** validateDataType (CRT.cpp:60-66): an "INT" column takes only numbers,
      every other declared type takes any string. */
  predicate ValidateDataType(value: Str, typ: Str) {
    typ == "INT" ==> IsNumber(value)
  }

  /** INT accepts exactly the non-empty all-digit strings: no sign, no white
      space, no decimal point; any other type accepts everything. */
  lemma ValidateDataTypeExamples(v: Str)
    ensures !ValidateDataType("12a", "INT")
    ensures !ValidateDataType("-5", "INT")
    ensures !ValidateDataType("", "INT")
    ensures !ValidateDataType(" 7", "INT")
    ensures ValidateDataType("007", "INT")
    ensures ValidateDataType(v, "TEXT")
  {
    assert "12a"[2] == 'a';
    assert " 7"[0] == ' ';
    assert "-5"[0] == '-';
  }

  function DigitValue(c: char): (d: nat)
    requires IsDigit(c)
    ensures d < 10
  {
    c as int - '0' as int
  }

  predicate AllDigits(s: Str) {
    forall i :: 0 <= i < |s| ==> IsDigit(s[i])
  }

  /** std::stoi on an all-digit string, in unbounded arithmetic: the decimal
      value, most significant digit first. */
  function NumeralValue(s: Str): (r: nat)
    requires AllDigits(s)
    ensures r == 0 <==> forall i :: 0 <= i < |s| ==> s[i] == '0'
  {
    if s == [] then 0 else 10 * NumeralValue(s[..|s| - 1]) + DigitValue(s[|s| - 1])
  }

  /** The decimal digits of n, without leading zeros: the reference the
      numeral reading is checked against. */
  function Decimal(n: nat): (s: Str)
    ensures IsNumber(s)
    ensures s[0] != '0' || n == 0
    decreases n
  {
    if n < 10 then [('0' as int + n) as char]
    else Decimal(n / 10) + [('0' as int + n % 10) as char]
  }

  /** Every number written in decimal is an INT value that reads back as
      the same number. */
  lemma {:induction false} NumeralValueOfDecimal(n: nat)
    ensures ValidateDataType(Decimal(n), "INT")
    ensures NumeralValue(Decimal(n)) == n
    decreases n
  {
    if n >= 10 {
      NumeralValueOfDecimal(n / 10);
      var s := Decimal(n);
      assert s[..|s| - 1] == Decimal(n / 10);
    }
  }

  /** Leading zeros do not change the value: the ordering operators treat
      "07" and "7" alike although `=` tells them apart. */
  lemma {:induction false} LeadingZeroIgnored(s: Str)
    requires AllDigits(s)
    ensures AllDigits(['0'] + s)
    ensures NumeralValue(['0'] + s) == NumeralValue(s)
    decreases |s|
  {
    if s != [] {
      var t := ['0'] + s;
      assert t[..|t| - 1] == ['0'] + s[..|s| - 1];
      LeadingZeroIgnored(s[..|s| - 1]);
    }
  }
}
