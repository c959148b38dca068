/**
 * Calendar dates as the expiry logic uses them: a simplified reading of the
 * non-lenient "dd-MMM-yyyy" SimpleDateFormat pattern, day numbers in the
 * proleptic Gregorian calendar, and the end-of-day instant an expiry date
 * stands for.
 */
module Calendar {
  import opened Results
  import opened JavaText

  datatype Date = Date(year: int, month: int, day: int)

  predicate IsLeapYear(y: int)
  {
    y % 4 == 0 && (y % 100 != 0 || y % 400 == 0)
  }

  function YearLength(y: int): int
  {
    if IsLeapYear(y) then 366 else 365
  }

  function DaysInMonth(y: int, m: int): (n: int)
    requires 1 <= m <= 12
    ensures 28 <= n <= 31
  {
    if m == 2 then (if IsLeapYear(y) then 29 else 28)
    else if m == 4 || m == 6 || m == 9 || m == 11 then 30
    else 31
  }

  /** A date that a non-lenient Gregorian calendar accepts (years from 1 AD). */
  predicate IsValid(d: Date)
  {
    1 <= d.year && 1 <= d.month <= 12 && 1 <= d.day <= DaysInMonth(d.year, d.month)
  }

  /** Strictly earlier in calendar order. */
  predicate Before(d1: Date, d2: Date)
  {
    d1.year < d2.year
    || (d1.year == d2.year && d1.month < d2.month)
    || (d1.year == d2.year && d1.month == d2.month && d1.day < d2.day)
  }

  // ---------------------------------------------------------------------
  // Reading "dd-MMM-yyyy"
  // ---------------------------------------------------------------------

  const MonthAbbreviations: seq<string> :=
    ["Jan", "Feb", "Mar", "Apr", "May", "Jun", "Jul", "Aug", "Sep", "Oct", "Nov", "Dec"]
  const MonthNames: seq<string> :=
    ["January", "February", "March", "April", "May", "June", "July", "August",
     "September", "October", "November", "December"]

  /** Month m (1 to 12) is named by text, abbreviated or in full, ignoring case. */
  predicate NamesMonth(text: string, m: int)
    requires 1 <= m <= 12
  {
    EqualsIgnoreCase(text, MonthAbbreviations[m - 1]) || EqualsIgnoreCase(text, MonthNames[m - 1])
  }

  /** The first month from m on that text names. */
  function FindMonth(text: string, m: int): (r: Option<int>)
    requires 1 <= m <= 13
    ensures r.Some? ==> m <= r.value <= 12 && NamesMonth(text, r.value)
    ensures r.Some? ==> forall k :: m <= k < r.value ==> !NamesMonth(text, k)
    ensures r.None? ==> forall k :: m <= k <= 12 ==> !NamesMonth(text, k)
    decreases 13 - m
  {
    if m == 13 then None
    else if NamesMonth(text, m) then Some(m)
    else FindMonth(text, m + 1)
  }

  /** The month a MMM field names, if any. */
  function ParseMonth(text: string): Option<int>
  {
    FindMonth(text, 1)
  }

  function IndexOf(s: string, c: char): (k: nat)
    requires c in s
    ensures k < |s| && s[k] == c && c !in s[..k]
  {
    if s[0] == c then 0 else 1 + IndexOf(s[1..], c)
  }

  /** The fields of s between occurrences of sep; none of them contains sep. */
  function Split(s: string, sep: char): (fields: seq<string>)
    ensures |fields| >= 1
    ensures forall i :: 0 <= i < |fields| ==> sep !in fields[i]
    decreases |s|
  {
    if sep !in s then [s]
    else
      var k := IndexOf(s, sep);
      [s[..k]] + Split(s[k + 1..], sep)
  }

  lemma SplitAfterField(a: string, sep: char, rest: string)
    requires sep !in a
    ensures Split(a + [sep] + rest, sep) == [a] + Split(rest, sep)
  {
    var s := a + [sep] + rest;
    var k := IndexOf(s, sep);
    assert forall i :: 0 <= i < |a| ==> s[i] == a[i];
    assert k <= |a| by {
      assert s[|a|] == sep;
      assert forall j :: |a| < j <= |s| ==> s[..j][|a|] == sep;
    }
    assert s[..k] == a;
    assert s[k + 1..] == rest;
  }

  /** A space or a tab, the blanks SimpleDateFormat skips before a field. */
  predicate IsFieldBlank(c: char) { c == ' ' || c == '\t' }

  /** The field text after its leading spaces and tabs. */
  function SkipFieldBlanks(s: string): string
  {
    if s != [] && IsFieldBlank(s[0]) then SkipFieldBlanks(s[1..]) else s
  }

  /** What is skipped is a run of spaces and tabs, and what is left starts
      with neither. */
  lemma {:induction false} SkipFieldBlanksSuffix(s: string)
    ensures |SkipFieldBlanks(s)| <= |s| && SkipFieldBlanks(s) == s[|s| - |SkipFieldBlanks(s)|..]
    ensures SkipFieldBlanks(s) == [] || !IsFieldBlank(SkipFieldBlanks(s)[0])
    ensures forall i :: 0 <= i < |s| - |SkipFieldBlanks(s)| ==> IsFieldBlank(s[i])
    decreases |s|
  {
    if s != [] && IsFieldBlank(s[0]) {
      SkipFieldBlanksSuffix(s[1..]);
    }
  }

  /** A field that starts with neither a space nor a tab is read as it is. */
  lemma SkipFieldBlanksUnpadded(s: string)
    requires s == [] || !IsFieldBlank(s[0])
    ensures SkipFieldBlanks(s) == s
  {
  }

  /** The non-lenient reading of "dd-MMM-yyyy": three fields separated by
      '-', each after optional spaces and tabs. */
  function ParseDate(text: string): (r: Option<Date>)
    ensures r.Some? ==> IsValid(r.value)
  {
    var fields := Split(text, '-');
    if |fields| != 3 then None
    else ParseFields(SkipFieldBlanks(fields[0]), SkipFieldBlanks(fields[1]), SkipFieldBlanks(fields[2]))
  }

  /** The three fields once their blanks are skipped: a day of one or more
      digits (a day followed by a literal reads every digit), a month
      abbreviation or full month name in any case and a year of digits,
      making up a real calendar date. */
  function ParseFields(dd: string, mmm: string, yyyy: string): (r: Option<Date>)
    ensures r.Some? ==> IsValid(r.value)
  {
    if dd == [] || !AllDigits(dd) || yyyy == [] || !AllDigits(yyyy) then None
    else
      match ParseMonth(mmm)
      case None => None
      case Some(m) =>
        var d := Date(DigitsValue(yyyy), m, DigitsValue(dd));
        if IsValid(d) then Some(d) else None
  }

  /** Three fields without '-' joined by '-' split back into those fields. */
  lemma SplitThree(a: string, b: string, c: string)
    requires '-' !in a && '-' !in b && '-' !in c
    ensures Split(a + ['-'] + (b + ['-'] + c), '-') == [a, b, c]
  {
    SplitAfterField(a, '-', b + ['-'] + c);
    SplitAfterField(b, '-', c);
  }

  /** Text made of three '-'-free fields reads as those fields once their
      leading blanks are skipped. */
  lemma ParseDateOfFields(a: string, b: string, c: string)
    requires '-' !in a && '-' !in b && '-' !in c
    ensures ParseDate(a + ['-'] + (b + ['-'] + c))
            == ParseFields(SkipFieldBlanks(a), SkipFieldBlanks(b), SkipFieldBlanks(c))
  {
    SplitThree(a, b, c);
  }

  /** Spaces and tabs before a field are skipped whatever follows them. */
  lemma {:induction false} SkipFieldBlanksOfPadded(pad: string, s: string)
    requires forall i :: 0 <= i < |pad| ==> IsFieldBlank(pad[i])
    requires s == [] || !IsFieldBlank(s[0])
    ensures SkipFieldBlanks(pad + s) == s
    decreases |pad|
  {
    if pad != [] {
      assert (pad + s)[1..] == pad[1..] + s;
      SkipFieldBlanksOfPadded(pad[1..], s);
    }
  }

  function TwoDigits(n: nat): (s: string)
    requires n < 100
    ensures |s| == 2 && AllDigits(s) && DigitsValue(s) == n
  {
    var s := [DigitChar(n / 10), DigitChar(n % 10)];
    assert s[..1][..0] == [];
    assert DigitsValue(s[..1]) == n / 10;
    s
  }

  /** A valid date written as "dd-MMM-yyyy". */
  function FormatDate(d: Date): string
    requires IsValid(d)
  {
    TwoDigits(d.day) + "-" + MonthAbbreviations[d.month - 1] + "-" + NatToString(d.year)
  }

  /** Two strings that differ at a position even after upper-casing are not
      equal ignoring case. */
  lemma DifferAt(a: string, b: string, i: nat)
    requires i < |a| && i < |b| && ToUpper(a[i]) != ToUpper(b[i])
    ensures !EqualsIgnoreCase(a, b)
  {
  }

  /** Each month abbreviation reads back as its own month. */
  lemma ParseMonthOfAbbreviation(m: int)
    requires 1 <= m <= 12
    ensures ParseMonth(MonthAbbreviations[m - 1]) == Some(m)
  {
    var a := MonthAbbreviations[m - 1];
    assert NamesMonth(a, m);
    forall k | 1 <= k < m ensures !NamesMonth(a, k) {
      AbbreviationNamesNoOtherMonth(m, k);
    }
  }

  /** The abbreviation of month m names no other month k. */
  lemma AbbreviationNamesNoOtherMonth(m: int, k: int)
    requires 1 <= m <= 12 && 1 <= k <= 12 && k != m
    ensures !NamesMonth(MonthAbbreviations[m - 1], k)
  {
    var a, b := MonthAbbreviations[m - 1], MonthAbbreviations[k - 1];
    var i := if ToUpper(a[0]) != ToUpper(b[0]) then 0 else if ToUpper(a[1]) != ToUpper(b[1]) then 1 else 2;
    DifferAt(a, b, i);
    if k == 5 {
      DifferAt(a, MonthNames[k - 1], i);
    } else {
      assert |MonthNames[k - 1]| != |a|;
    }
  }

  lemma NoDashInFields(d: Date)
    requires IsValid(d)
    ensures '-' !in TwoDigits(d.day)
    ensures '-' !in MonthAbbreviations[d.month - 1]
    ensures '-' !in NatToString(d.year)
  {
    var yyyy := NatToString(d.year);
    assert forall i :: 0 <= i < |yyyy| ==> yyyy[i] != '-';
  }

  /** The text of a valid date splits back into its three fields. */
  lemma SplitFormatDate(d: Date)
    requires IsValid(d)
    ensures Split(FormatDate(d), '-') == [TwoDigits(d.day), MonthAbbreviations[d.month - 1], NatToString(d.year)]
  {
    var dd, mmm, yyyy := TwoDigits(d.day), MonthAbbreviations[d.month - 1], NatToString(d.year);
    NoDashInFields(d);
    assert FormatDate(d) == dd + ['-'] + (mmm + ['-'] + yyyy);
    SplitAfterField(dd, '-', mmm + ['-'] + yyyy);
    SplitAfterField(mmm, '-', yyyy);
  }

  /** Every digit of the day is read and spaces or tabs before each field
      are skipped: the text of a valid date with zeros before its day and
      blanks before its fields still reads as that date. */
  lemma ParsePaddedDate(d: Date, zeros: nat, pad1: string, pad2: string, pad3: string)
    requires IsValid(d)
    requires forall i :: 0 <= i < |pad1| ==> IsFieldBlank(pad1[i])
    requires forall i :: 0 <= i < |pad2| ==> IsFieldBlank(pad2[i])
    requires forall i :: 0 <= i < |pad3| ==> IsFieldBlank(pad3[i])
    ensures ParseDate(pad1 + (Zeros(zeros) + TwoDigits(d.day)) + ['-']
                      + (pad2 + MonthAbbreviations[d.month - 1] + ['-'] + (pad3 + NatToString(d.year)))) == Some(d)
  {
    var day, mmm, yyyy := Zeros(zeros) + TwoDigits(d.day), MonthAbbreviations[d.month - 1], NatToString(d.year);
    var a, b, c := pad1 + day, pad2 + mmm, pad3 + yyyy;
    NoDashInFields(d);
    assert '-' !in a && '-' !in b && '-' !in c by {
      assert forall i :: 0 <= i < |day| ==> IsDigit(day[i]);
    }
    ParseDateOfFields(a, b, c);
    assert IsDigit(day[0]);
    SkipFieldBlanksOfPadded(pad1, day);
    SkipFieldBlanksOfPadded(pad2, mmm);
    SkipFieldBlanksOfPadded(pad3, yyyy);
    ParseFieldsOfDate(d, zeros);
  }

  /** The fields of a valid date, with any zeros before the day, read as
      that date. */
  lemma ParseFieldsOfDate(d: Date, zeros: nat)
    requires IsValid(d)
    ensures ParseFields(Zeros(zeros) + TwoDigits(d.day), MonthAbbreviations[d.month - 1], NatToString(d.year)) == Some(d)
  {
    DigitsValueLeadingZeros(zeros, TwoDigits(d.day));
    DigitsValueOfNatToString(d.year);
    ParseMonthOfAbbreviation(d.month);
  }

  /** Round trip: every valid date reads back from its "dd-MMM-yyyy" text. */
  lemma ParseFormatDate(d: Date)
    requires IsValid(d)
    ensures ParseDate(FormatDate(d)) == Some(d)
  {
    var dd, mmm, yyyy := TwoDigits(d.day), MonthAbbreviations[d.month - 1], NatToString(d.year);
    NoDashInFields(d);
    FormatDateFields(d);
    ParseDateOfFields(dd, mmm, yyyy);
    FieldsOfDateUnpadded(d);
    ParseFieldsOfDate(d, 0);
    assert Zeros(0) + dd == dd;
  }

  lemma FormatDateFields(d: Date)
    requires IsValid(d)
    ensures FormatDate(d) == TwoDigits(d.day) + ['-'] + (MonthAbbreviations[d.month - 1] + ['-'] + NatToString(d.year))
  {
  }

  /** No field of a formatted date starts with a blank. */
  lemma FieldsOfDateUnpadded(d: Date)
    requires IsValid(d)
    ensures SkipFieldBlanks(TwoDigits(d.day)) == TwoDigits(d.day)
    ensures SkipFieldBlanks(MonthAbbreviations[d.month - 1]) == MonthAbbreviations[d.month - 1]
    ensures SkipFieldBlanks(NatToString(d.year)) == NatToString(d.year)
  {
    var mmm := MonthAbbreviations[d.month - 1];
    assert 'A' <= mmm[0] <= 'Z';
    SkipFieldBlanksUnpadded(TwoDigits(d.day));
    SkipFieldBlanksUnpadded(mmm);
    SkipFieldBlanksUnpadded(NatToString(d.year));
  }

  // ---------------------------------------------------------------------
  // Day numbers
  // ---------------------------------------------------------------------

  /** Days from 1 January of year 1 to 1 January of year y. */
  function DaysBeforeYear(y: int): int
    requires y >= 1
  {
    var p := y - 1;
    365 * p + p / 4 - p / 100 + p / 400
  }

  /** Days from 1 January to the first of month m in year y. */
  function DaysBeforeMonth(y: int, m: int): int
    requires 1 <= m <= 12
  {
    if m == 1 then 0 else DaysBeforeMonth(y, m - 1) + DaysInMonth(y, m - 1)
  }

  /** Days from 1 January of year 1 (day 0) to d. */
  function DayNumber(d: Date): int
    requires IsValid(d)
  {
    DaysBeforeYear(d.year) + DaysBeforeMonth(d.year, d.month) + d.day - 1
  }

  lemma YearSpan(y: int)
    requires y >= 1
    ensures DaysBeforeYear(y + 1) == DaysBeforeYear(y) + YearLength(y)
  {
    var p := y - 1;
    assert y / 4 == p / 4 + (if y % 4 == 0 then 1 else 0);
    assert y / 100 == p / 100 + (if y % 100 == 0 then 1 else 0);
    assert y / 400 == p / 400 + (if y % 400 == 0 then 1 else 0);
    if y % 400 == 0 {
      Multiple400Is100(y);
    }
    if y % 100 == 0 {
      Multiple100Is4(y);
    }
  }

  /** A multiple of 400 is a multiple of 100. */
  lemma Multiple400Is100(y: int)
    requires y % 400 == 0
    ensures y % 100 == 0
  {
    var m := y / 400;
    assert y == 400 * m;
    assert y / 100 == 4 * m;
  }

  /** A multiple of 100 is a multiple of 4. */
  lemma Multiple100Is4(y: int)
    requires y % 100 == 0
    ensures y % 4 == 0
  {
    var m := y / 100;
    assert y == 100 * m;
    assert y / 4 == 25 * m;
  }

  /** The twelve months make up the year. */
  lemma MonthsFillYear(y: int)
    ensures DaysBeforeMonth(y, 12) + DaysInMonth(y, 12) == YearLength(y)
  {
    var feb := DaysInMonth(y, 2);
    assert DaysBeforeMonth(y, 2) == 31;
    assert DaysBeforeMonth(y, 3) == 31 + feb;
    assert DaysBeforeMonth(y, 4) == 62 + feb;
    assert DaysBeforeMonth(y, 5) == 92 + feb;
    assert DaysBeforeMonth(y, 6) == 123 + feb;
    assert DaysBeforeMonth(y, 7) == 153 + feb;
    assert DaysBeforeMonth(y, 8) == 184 + feb;
    assert DaysBeforeMonth(y, 9) == 215 + feb;
    assert DaysBeforeMonth(y, 10) == 245 + feb;
    assert DaysBeforeMonth(y, 11) == 276 + feb;
    assert DaysBeforeMonth(y, 12) == 306 + feb;
  }

  lemma {:induction false} MonthsBefore(y: int, m1: int, m2: int)
    requires 1 <= m1 < m2 <= 12
    ensures DaysBeforeMonth(y, m1) + DaysInMonth(y, m1) <= DaysBeforeMonth(y, m2)
    decreases m2 - m1
  {
    if m1 + 1 < m2 {
      MonthsBefore(y, m1, m2 - 1);
    }
  }

  lemma {:induction false} YearsBefore(y1: int, y2: int)
    requires 1 <= y1 < y2
    ensures DaysBeforeYear(y1) + YearLength(y1) <= DaysBeforeYear(y2)
    decreases y2 - y1
  {
    YearSpan(y1);
    if y1 + 1 < y2 {
      YearsBefore(y1 + 1, y2);
    }
  }

  /** Day d lies within its own year's run of day numbers. */
  lemma DayNumberInYear(d: Date)
    requires IsValid(d)
    ensures DaysBeforeYear(d.year) <= DayNumber(d) < DaysBeforeYear(d.year) + YearLength(d.year)
  {
    if d.month > 1 {
      MonthsBefore(d.year, 1, d.month);
    }
    if d.month < 12 {
      MonthsBefore(d.year, d.month, 12);
    }
    MonthsFillYear(d.year);
  }

  /** Day numbers follow calendar order, so two valid dates share a day
      number only when they are the same date. */
  lemma DayNumberOrder(d1: Date, d2: Date)
    requires IsValid(d1) && IsValid(d2)
    ensures DayNumber(d1) < DayNumber(d2) <==> Before(d1, d2)
    ensures DayNumber(d1) == DayNumber(d2) <==> d1 == d2
  {
    DayNumberInYear(d1);
    DayNumberInYear(d2);
    if d1.year < d2.year {
      YearsBefore(d1.year, d2.year);
    } else if d2.year < d1.year {
      YearsBefore(d2.year, d1.year);
    } else if d1.month < d2.month {
      MonthsBefore(d1.year, d1.month, d2.month);
    } else if d2.month < d1.month {
      MonthsBefore(d1.year, d2.month, d1.month);
    }
  }

  // ---------------------------------------------------------------------
  // Instants
  // ---------------------------------------------------------------------

  const MillisPerDay: int := 86_400_000

  /** The calendar day, as a day number, of an instant given in local
      milliseconds since the start of day 0. */
  function DayOf(instant: int): int
  {
    instant / MillisPerDay
  }

  /** The last millisecond (23:59:59.999) of the day with number day. */
  function EndOfDay(day: int): (t: int)
    ensures DayOf(t) == day
    ensures DayOf(t + 1) == day + 1
  {
    day * MillisPerDay + MillisPerDay - 1
  }

  /** The end of a day lies before an instant exactly when that day is
      earlier than the instant's own day. */
  lemma EndOfDayBeforeIff(day: int, now: int)
    ensures EndOfDay(day) < now <==> day < DayOf(now)
  {
    var today := DayOf(now);
    assert today * MillisPerDay <= now < today * MillisPerDay + MillisPerDay;
  }
}
