/**
 * The java.lang.String and java.lang.Integer behaviour the inventory core
 * relies on: String.trim, String.equalsIgnoreCase, Integer.parseInt and
 * Integer.toString, restricted to ASCII letters and digits.
 */
module JavaText {
  import opened Results

  // ---------------------------------------------------------------------
  // String.trim: strips every leading and trailing char whose code is at
  // most U+0020 (spaces, tabs, newlines and the other control characters).
  // ---------------------------------------------------------------------

  predicate IsBlankChar(c: char) { c <= ' ' }

  /** The string without its leading blank chars. */
  function TrimStart(s: string): (r: string)
    ensures |r| <= |s| && r == s[|s| - |r|..]
    ensures r == [] || !IsBlankChar(r[0])
    ensures forall i :: 0 <= i < |s| - |r| ==> IsBlankChar(s[i])
  {
    if s != [] && IsBlankChar(s[0]) then TrimStart(s[1..]) else s
  }

  /** The string without its trailing blank chars. */
  function TrimEnd(s: string): (r: string)
    ensures |r| <= |s| && r == s[..|r|]
    ensures r == [] || !IsBlankChar(r[|r| - 1])
    ensures forall i :: |r| <= i < |s| ==> IsBlankChar(s[i])
  {
    if s != [] && IsBlankChar(s[|s| - 1]) then TrimEnd(s[..|s| - 1]) else s
  }

  /** How many leading blank chars String.trim cuts away. */
  function LeadingBlanks(s: string): (k: nat)
    ensures k <= |s|
    ensures forall i :: 0 <= i < k ==> IsBlankChar(s[i])
  {
    |s| - |TrimStart(s)|
  }

  /** String.trim: the infix of s left after cutting the leading blanks and
      then the trailing ones; it neither starts nor ends with a blank char,
      and everything cut away on either side is blank. */
  function Trim(s: string): (r: string)
    ensures LeadingBlanks(s) + |r| <= |s|
    ensures r == s[LeadingBlanks(s)..LeadingBlanks(s) + |r|]
    ensures forall i :: LeadingBlanks(s) + |r| <= i < |s| ==> IsBlankChar(s[i])
    ensures r == [] || (!IsBlankChar(r[0]) && !IsBlankChar(r[|r| - 1]))
  {
    TrimEndOfSuffix(s, |s| - |TrimStart(s)|);
    TrimEnd(TrimStart(s))
  }

  /** Cutting the trailing blanks of a suffix of s leaves an infix of s,
      and what is cut is blank in s. */
  lemma TrimEndOfSuffix(s: string, lo: nat)
    requires lo <= |s|
    ensures var r := TrimEnd(s[lo..]);
      && lo + |r| <= |s| && r == s[lo..lo + |r|]
      && forall i :: lo + |r| <= i < |s| ==> IsBlankChar(s[i])
  {
    var t := s[lo..];
    var r := TrimEnd(t);
    assert r == t[..|r|];
    forall i | lo + |r| <= i < |s| ensures IsBlankChar(s[i]) {
      assert s[i] == t[i - lo];
    }
  }

  /** A trimmed string is its own trim. */
  lemma TrimIdempotent(s: string)
    ensures Trim(Trim(s)) == Trim(s)
  {
    var t := Trim(s);
    assert TrimStart(t) == t;
    assert TrimEnd(t) == t;
  }

  /** Trimming leaves nothing exactly when every char of the string is blank. */
  lemma TrimEmptyIffBlank(s: string)
    ensures Trim(s) == [] <==> forall i :: 0 <= i < |s| ==> IsBlankChar(s[i])
  {
    var t := TrimStart(s);
    if Trim(s) == [] {
      assert t == [];
    }
  }

  /** A string with no blank char at either end is its own trim. */
  lemma TrimUnpadded(s: string)
    requires s == [] || (!IsBlankChar(s[0]) && !IsBlankChar(s[|s| - 1]))
    ensures Trim(s) == s
  {
    assert TrimStart(s) == s;
    assert TrimEnd(s) == s;
  }

  // ---------------------------------------------------------------------
  // String.equalsIgnoreCase, for ASCII letters.
  // ---------------------------------------------------------------------

  function ToUpper(c: char): char
  {
    if 'a' <= c <= 'z' then (c as int - 32) as char else c
  }

  /** Two chars are equal ignoring case when they are equal or have the same
      upper-case form. */
  predicate CharEqualsIgnoreCase(a: char, b: char)
  {
    a == b || ToUpper(a) == ToUpper(b)
  }

  /** String.equalsIgnoreCase: the same length and char-wise equal ignoring case. */
  predicate EqualsIgnoreCase(a: string, b: string)
  {
    |a| == |b| && forall i :: 0 <= i < |a| ==> CharEqualsIgnoreCase(a[i], b[i])
  }

  /** equalsIgnoreCase is an equivalence relation. */
  lemma EqualsIgnoreCaseIsEquivalence(a: string, b: string, c: string)
    ensures EqualsIgnoreCase(a, a)
    ensures EqualsIgnoreCase(a, b) ==> EqualsIgnoreCase(b, a)
    ensures EqualsIgnoreCase(a, b) && EqualsIgnoreCase(b, c) ==> EqualsIgnoreCase(a, c)
  {
  }

  // ---------------------------------------------------------------------
  // Integer.parseInt and Integer.toString, radix 10, ASCII digits.
  // ---------------------------------------------------------------------

  const MinInt32: int := -0x8000_0000
  const MaxInt32: int := 0x7fff_ffff

  predicate IsInt32(n: int) { MinInt32 <= n <= MaxInt32 }

  predicate IsDigit(c: char) { '0' <= c <= '9' }

  predicate AllDigits(s: string) { forall i :: 0 <= i < |s| ==> IsDigit(s[i]) }

  function DigitValue(c: char): (d: nat)
    requires IsDigit(c)
    ensures d < 10
  {
    c as int - '0' as int
  }

  function DigitChar(d: nat): (c: char)
    requires d < 10
    ensures IsDigit(c) && DigitValue(c) == d
  {
    ('0' as int + d) as char
  }

  /** The value of a string of decimal digits, most significant first. */
  function DigitsValue(ds: string): nat
    requires AllDigits(ds)
  {
    if ds == [] then 0 else DigitsValue(ds[..|ds| - 1]) * 10 + DigitValue(ds[|ds| - 1])
  }

  /** A leading zero does not change the value of a digit string. */
  lemma {:induction false} DigitsValueLeadingZero(ds: string)
    requires AllDigits(ds)
    ensures AllDigits("0" + ds) && DigitsValue("0" + ds) == DigitsValue(ds)
    decreases |ds|
  {
    var z := "0" + ds;
    if ds != [] {
      assert z[..|z| - 1] == "0" + ds[..|ds| - 1];
      DigitsValueLeadingZero(ds[..|ds| - 1]);
    }
  }

  /** A run of n zero digits. */
  function Zeros(n: nat): (s: string)
    ensures |s| == n && AllDigits(s)
  {
    if n == 0 then [] else "0" + Zeros(n - 1)
  }

  /** Any run of leading zeros leaves the value of a digit string unchanged. */
  lemma {:induction false} DigitsValueLeadingZeros(n: nat, ds: string)
    requires AllDigits(ds)
    ensures AllDigits(Zeros(n) + ds) && DigitsValue(Zeros(n) + ds) == DigitsValue(ds)
    decreases n
  {
    if n > 0 {
      var rest := Zeros(n - 1) + ds;
      DigitsValueLeadingZeros(n - 1, ds);
      assert Zeros(n) + ds == "0" + rest;
      DigitsValueLeadingZero(rest);
    } else {
      assert Zeros(n) + ds == ds;
    }
  }

  /** Integer.parseInt(s): an optional '-' or '+' followed by at least one
      digit, whose value fits in 32 bits; None stands for the
      NumberFormatException thrown otherwise. */
  function ParseInt(s: string): (r: Option<int>)
    ensures r.Some? ==> IsInt32(r.value)
    ensures r.Some? ==> s != [] && (IsDigit(s[0]) || s[0] == '-' || s[0] == '+')
    ensures r.Some? && r.value < 0 ==> s[0] == '-'
  {
    if s == [] then None
    else
      var digits := if s[0] == '-' || s[0] == '+' then s[1..] else s;
      if digits == [] || !AllDigits(digits) then None
      else
        var n: int := if s[0] == '-' then -(DigitsValue(digits) as int) else DigitsValue(digits);
        if IsInt32(n) then Some(n) else None
  }

  /** The decimal digits of n, without leading zeros. */
  function NatToString(n: nat): (s: string)
    ensures s != [] && AllDigits(s)
    ensures |s| > 1 ==> s[0] != '0'
  {
    if n < 10 then [DigitChar(n)] else NatToString(n / 10) + [DigitChar(n % 10)]
  }

  /** Integer.toString(n). */
  function IntToString(n: int): (s: string)
  {
    if n < 0 then "-" + NatToString(-n) else NatToString(n)
  }

  /** Reading back the digits of n gives n. */
  lemma {:induction false} DigitsValueOfNatToString(n: nat)
    ensures DigitsValue(NatToString(n)) == n
  {
    if n >= 10 {
      var s := NatToString(n);
      assert s[..|s| - 1] == NatToString(n / 10);
      DigitsValueOfNatToString(n / 10);
    }
  }

  /** Round trip: Integer.parseInt(Integer.toString(n)) == n for every int n. */
  lemma ParseIntOfIntToString(n: int)
    requires IsInt32(n)
    ensures ParseInt(IntToString(n)) == Some(n)
  {
    var s := IntToString(n);
    if n < 0 {
      var ds := NatToString(-n);
      assert s[0] == '-' && s[1..] == ds;
      DigitsValueOfNatToString(-n);
    } else {
      DigitsValueOfNatToString(n);
    }
  }

  /** Digit runs whose value lies beyond the 32-bit range are rejected, with
      or without a minus sign. */
  lemma ParseIntRejectsOutOfRange(n: nat)
    ensures n > MaxInt32 ==> ParseInt(NatToString(n)) == None
    ensures n > -MinInt32 ==> ParseInt("-" + NatToString(n)) == None
  {
    DigitsValueOfNatToString(n);
    assert ("-" + NatToString(n))[1..] == NatToString(n);
  }

  /** Leading zeros and an explicit '+' are accepted, as by Integer.parseInt. */
  lemma ParseIntAcceptsSignAndZeros()
    ensures ParseInt("+7") == Some(7)
    ensures ParseInt("007") == Some(7)
    ensures ParseInt("-0") == Some(0)
  {
    assert "+7"[1..] == "7" && "7"[..0] == [];
    assert "007"[..2] == "00" && "00"[..1] == "0";
    assert "-0"[1..] == "0";
  }

  /** Text that is not an optionally signed run of digits is rejected. */
  lemma ParseIntRejectsNonDigits()
    ensures ParseInt("") == None
    ensures ParseInt("-") == None
    ensures ParseInt("not a number") == None
    ensures ParseInt("1.5") == None
  {
    assert !IsDigit("not a number"[0]);
    assert !IsDigit("1.5"[1]);
    assert "-"[1..] == [];
  }

  // ---------------------------------------------------------------------
  // String.compareTo and 32-bit int arithmetic
  // ---------------------------------------------------------------------

  /** String.compareTo: the difference of the first pair of chars that
      differ, or else the difference of the lengths. */
  function CompareStrings(a: string, b: string): (r: int)
    ensures r == 0 <==> a == b
  {
    if a == [] || b == [] then |a| - |b|
    else if a[0] != b[0] then a[0] as int - b[0] as int
    else
      var r := CompareStrings(a[1..], b[1..]);
      assert a == [a[0]] + a[1..] && b == [b[0]] + b[1..];
      r
  }

  /** Swapping the operands of String.compareTo negates the result. */
  lemma {:induction false} CompareStringsAntisymmetric(a: string, b: string)
    ensures CompareStrings(b, a) == -CompareStrings(a, b)
  {
    if a != [] && b != [] && a[0] == b[0] {
      CompareStringsAntisymmetric(a[1..], b[1..]);
    }
  }

  /** Java int arithmetic: n reduced into the 32-bit range modulo 2^32. */
  function Wrap32(n: int): (r: int)
    ensures IsInt32(r)
    ensures (r - n) % 0x1_0000_0000 == 0
    ensures IsInt32(n) ==> r == n
  {
    (n - MinInt32) % 0x1_0000_0000 + MinInt32
  }
}
