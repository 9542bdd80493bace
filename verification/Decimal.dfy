/** Decimal printing and parsing of integers, as done by Python's `f"{n}"` and `int(s)` on
    digit strings and by Go's `%d` and `strconv.ParseInt(s, 10, 64)`. */
module Decimal {
  import opened Wrappers

  const INT64_MIN: int := -0x8000_0000_0000_0000
  const INT64_MAX: int := 0x7FFF_FFFF_FFFF_FFFF

  predicate IsDigit(c: char) {
    '0' <= c <= '9'
  }

  predicate AllDigits(s: string) {
    forall i :: 0 <= i < |s| ==> IsDigit(s[i])
  }

  function DigitChar(d: nat): (c: char)
    requires d < 10
    ensures IsDigit(c) && DigitValue(c) == d
  {
    '0' + d as char
  }

  function DigitValue(c: char): (d: nat)
    requires IsDigit(c)
  {
    c as int - '0' as int
  }

  function Print(n: nat): (s: string)
    ensures s != "" && AllDigits(s)
  {
    if n < 10 then [DigitChar(n)] else Print(n / 10) + [DigitChar(n % 10)]
  }

  function Value(s: string): nat
    requires AllDigits(s)
  {
    if s == "" then 0 else Value(s[..|s| - 1]) * 10 + DigitValue(s[|s| - 1])
  }

  /** The printed number is read back unchanged. */
  lemma {:induction false} ValueOfPrint(n: nat)
    ensures Value(Print(n)) == n
  {
    if n >= 10 {
      ValueOfPrint(n / 10);
      assert Print(n)[..|Print(n)| - 1] == Print(n / 10);
    }
  }

  function Pad(s: string, width: nat): (r: string)
    requires AllDigits(s)
    ensures AllDigits(r) && |r| == if |s| >= width then |s| else width
    decreases width - |s|
  {
    if |s| >= width then s else Pad("0" + s, width)
  }

  /** `f"{n:0{width}d}"` for a non-negative number. */
  function PrintPadded(n: nat, width: nat): (s: string)
    ensures s != "" && AllDigits(s) && |s| == if |Print(n)| >= width then |Print(n)| else width
  {
    Pad(Print(n), width)
  }

  lemma {:induction false} LeadingZero(s: string)
    requires AllDigits(s)
    ensures Value("0" + s) == Value(s)
  {
    if s != "" {
      assert ("0" + s)[..|s|] == "0" + s[..|s| - 1];
      LeadingZero(s[..|s| - 1]);
    }
  }

  lemma {:induction false} ValueOfPad(s: string, width: nat)
    requires AllDigits(s)
    ensures Value(Pad(s, width)) == Value(s)
    decreases width - |s|
  {
    if |s| < width {
      LeadingZero(s);
      ValueOfPad("0" + s, width);
    }
  }

  /** Zero padding does not change the number read back, however wide the number is. */
  lemma ValueOfPrintPadded(n: nat, width: nat)
    ensures Value(PrintPadded(n, width)) == n
  {
    ValueOfPrint(n);
    ValueOfPad(Print(n), width);
  }

  /** `int(s)` restricted to plain digit strings; every other string is an error. */
  function ParseNat(s: string): (r: Option<nat>)
    ensures r.Some? <==> s != "" && AllDigits(s)
  {
    if s != "" && AllDigits(s) then Some(Value(s)) else None
  }

  /** Go's `%d` of a signed integer. */
  function PrintInt(i: int): (s: string)
    ensures s != ""
    ensures forall k :: 0 <= k < |s| ==> IsDigit(s[k]) || s[k] == '-'
  {
    if i < 0 then "-" + Print(-i) else Print(i)
  }

  /** `strconv.ParseInt(s, 10, 64)`: an optional sign, digits, and a 64-bit range check. */
  function ParseInt64(s: string): (r: Option<int>)
  {
    if s == "" then None else
      var signed := s[0] == '-' || s[0] == '+';
      var digits := if signed then s[1..] else s;
      if digits == "" || !AllDigits(digits) then None else
        var m: int := Value(digits);
        var v := if s[0] == '-' then -m else m;
        if INT64_MIN <= v <= INT64_MAX then Some(v) else None
  }

  lemma ParseSigned(i: int)
    requires i < 0
    ensures ParseInt64("-" + Print(-i)) == if INT64_MIN <= i then Some(i) else None
  {
    ValueOfPrint(-i);
    var s := "-" + Print(-i);
    assert s[0] == '-' && s[1..] == Print(-i);
  }

  lemma ParseUnsigned(i: int)
    requires i >= 0
    ensures ParseInt64(Print(i)) == if i <= INT64_MAX then Some(i) else None
  {
    ValueOfPrint(i);
    assert IsDigit(Print(i)[0]);
  }

  lemma ParseIntOfPrintInt(i: int)
    ensures ParseInt64(PrintInt(i)) == if INT64_MIN <= i <= INT64_MAX then Some(i) else None
  {
    if i < 0 {
      ParseSigned(i);
    } else {
      ParseUnsigned(i);
    }
  }

  /** What the 64-bit parser accepts: one optional sign, then one or more digits, in range. */
  lemma ParseInt64Is(sign: string, digits: string)
    requires AllDigits(digits) && (sign == "" || sign == "+" || sign == "-")
    ensures ParseInt64(sign + digits)
         == if digits == "" then None
            else
              var v: int := if sign == "-" then -(Value(digits) as int) else Value(digits);
              if -0x8000_0000_0000_0000 <= v <= 0x7FFF_FFFF_FFFF_FFFF then Some(v) else None
  {
    var s := sign + digits;
    if sign == "" {
      assert s == digits;
      assert digits != "" ==> IsDigit(digits[0]);
    } else {
      assert s[0] == sign[0] && s[1..] == digits;
    }
  }

  lemma ParseInt64Rejects(s: string)
    requires forall sign, digits :: s == sign + digits && (sign == "" || sign == "+" || sign == "-") ==> !AllDigits(digits)
    ensures ParseInt64(s) == None
  {
    assert s == "" + s;
    if s != "" && (s[0] == '-' || s[0] == '+') {
      assert s == [s[0]] + s[1..];
    }
  }
}
