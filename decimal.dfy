/**
 * Decimal text of 32-bit integers: what `std::to_string(int)` writes and what
 * `std::istream >> int` reads back from a whole line of the save file.
 */
module Decimal {

  datatype Option<T> = None | Some(value: T)

  const INT_MIN: int := -0x8000_0000
  const INT_MAX: int := 0x7fff_ffff

  /** The C++ `int` of the engine: the id counter and the counts read from a file. */
  type Int32 = x: int | INT_MIN <= x <= INT_MAX

  predicate IsDigit(c: char) { '0' <= c <= '9' }

  function DigitValue(c: char): (d: nat)
    requires IsDigit(c)
    ensures d < 10
  {
    (c as int) - ('0' as int)
  }

  function DigitChar(d: nat): (c: char)
    requires d < 10
    ensures IsDigit(c) && DigitValue(c) == d
  {
    ('0' as int + d) as char
  }

  /** Decimal digits of a natural number, most significant first, no leading zeros. */
  function NatToString(n: nat): (s: string)
    ensures |s| > 0 && IsDigit(s[0])
    ensures |s| > 1 ==> s[0] != '0'
  {
    if n < 10 then [DigitChar(n)] else NatToString(n / 10) + [DigitChar(n % 10)]
  }

  /** `std::to_string` of an integer: a minus sign for negative values, then the digits. */
  function IntToString(n: int): (s: string)
    ensures |s| > 0
    ensures s[0] == '-' <==> n < 0
  {
    if n < 0 then "-" + NatToString(-n) else NatToString(n)
  }

  /**
   * Value of a nonempty string of digits (leading zeros allowed); None when
   * the string is empty or holds any other character.
   */
  function DigitsValue(s: string): (r: Option<nat>)
    ensures r.Some? ==> |s| > 0 && IsDigit(s[|s| - 1])
  {
    if s == [] || !IsDigit(s[|s| - 1]) then None
    else if |s| == 1 then Some(DigitValue(s[0]))
    else
      match DigitsValue(s[..|s| - 1])
      case None => None
      case Some(v) => Some(v * 10 + DigitValue(s[|s| - 1]))
  }

  /**
   * A count or counter line of the save file, read as an `int`: an optional
   * minus sign and at least one digit, whose value fits in 32 bits.
   */
  function ParseInt(s: string): (r: Option<Int32>)
    ensures r.Some? ==> |s| > 0
    ensures r.Some? && r.value < 0 ==> s[0] == '-'
  {
    var neg := |s| > 0 && s[0] == '-';
    var digits := if neg then s[1..] else s;
    match DigitsValue(digits)
    case None => None
    case Some(d) =>
      var v: int := if neg then -(d as int) else d;
      if INT_MIN <= v <= INT_MAX then Some(v) else None
  }

  lemma {:induction false} NatToStringDigits(n: nat)
    ensures forall i :: 0 <= i < |NatToString(n)| ==> IsDigit(NatToString(n)[i])
  {
    if n >= 10 {
      NatToStringDigits(n / 10);
    }
  }

  /** The decimal text of an integer holds neither a '|' nor a line break. */
  lemma IntToStringNoSeparator(n: int)
    ensures '|' !in IntToString(n) && '\n' !in IntToString(n)
  {
    var m: nat := if n < 0 then -(n as int) else n;
    NatToStringDigits(m);
    assert forall i :: 0 <= i < |NatToString(m)| ==> NatToString(m)[i] != '|' && NatToString(m)[i] != '\n';
  }

  lemma {:induction false} DigitsOfNat(n: nat)
    ensures DigitsValue(NatToString(n)) == Some(n)
  {
    if n >= 10 {
      var s := NatToString(n);
      assert s[..|s| - 1] == NatToString(n / 10);
      DigitsOfNat(n / 10);
    }
  }

  /** Reading back what `to_string` wrote gives the same integer. */
  lemma ParseIntToString(n: Int32)
    ensures ParseInt(IntToString(n)) == Some(n)
  {
    var s := IntToString(n);
    if n < 0 {
      var m: nat := -(n as int);
      assert s == "-" + NatToString(m);
      assert s[0] == '-' && s[1..] == NatToString(m);
      DigitsOfNat(m);
    } else {
      assert s == NatToString(n);
      NatToStringDigits(n);
      assert s[0] != '-';
      DigitsOfNat(n);
    }
  }

  /** Distinct integers have distinct decimal strings. */
  lemma IntToStringInjective(a: Int32, b: Int32)
    ensures IntToString(a) == IntToString(b) <==> a == b
  {
    if IntToString(a) == IntToString(b) {
      ParseIntToString(a);
      ParseIntToString(b);
    }
  }
}
