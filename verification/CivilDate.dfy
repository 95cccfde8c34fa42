/** Archive dates.  A `YYYY-MM-DD` text is accepted when building a UTC date from
    its three numbers and reading the year, month and day back gives the same
    numbers.  The date arithmetic is that of sections 15.9.1.3 to 15.9.1.5,
    15.9.1.12 and 15.9.4.3 of ECMA-262 edition 5.1, on whole days. */
module CivilDate {
  // ---------------------------------------------------------------------
  // The arithmetic of the standard
  // ---------------------------------------------------------------------

  function DaysInYear(y: int): int {
    if y % 4 != 0 then 365
    else if y % 100 != 0 then 366
    else if y % 400 != 0 then 365
    else 366
  }

  function DayFromYear(y: int): int {
    365 * (y - 1970) + (y - 1969) / 4 - (y - 1901) / 100 + (y - 1601) / 400
  }

  function InLeapYear(y: int): int {
    DaysInYear(y) - 365
  }

  lemma YearLength(y: int)
    ensures DayFromYear(y + 1) == DayFromYear(y) + DaysInYear(y)
  {
    FourthYear(y);
    HundredthYear(y);
    FourHundredthYear(y);
    Multiples(y);
  }

  lemma Multiples(y: int)
    ensures (y % 100 == 0 ==> y % 4 == 0) && (y % 400 == 0 ==> y % 100 == 0)
  {
  }

  lemma FourthYear(y: int)
    ensures (y + 1 - 1969) / 4 - (y - 1969) / 4 == if y % 4 == 0 then 1 else 0
  {
  }

  lemma HundredthYear(y: int)
    ensures (y + 1 - 1901) / 100 - (y - 1901) / 100 == if y % 100 == 0 then 1 else 0
  {
  }

  lemma FourHundredthYear(y: int)
    ensures (y + 1 - 1601) / 400 - (y - 1601) / 400 == if y % 400 == 0 then 1 else 0
  {
  }

  /** The year a day lies in: the largest one not starting after it. */
  function YearFromDay(day: int): (y: int)
    ensures DayFromYear(y) <= day < DayFromYear(y + 1)
  {
    if day >= 0 then Climb(day, 1970)
    else
      YearsBefore(-day);
      Climb(day, 1970 + day)
  }

  function Climb(day: int, y: int): (z: int)
    requires DayFromYear(y) <= day
    ensures DayFromYear(z) <= day < DayFromYear(z + 1)
    decreases day - DayFromYear(y)
  {
    YearLength(y);
    if DayFromYear(y + 1) <= day then Climb(day, y + 1) else y
  }

  lemma {:induction false} YearsBefore(n: int)
    requires n >= 0
    ensures DayFromYear(1970 - n) <= -n
  {
    if n > 0 {
      YearsBefore(n - 1);
      YearLength(1970 - n);
    }
  }

  /** The day within a year on which a month, counted from 0, begins. */
  function MonthStart(month: int, leap: int): int
    requires 0 <= month <= 12
  {
    match month
    case 0 => 0
    case 1 => 31
    case 2 => 59 + leap
    case 3 => 90 + leap
    case 4 => 120 + leap
    case 5 => 151 + leap
    case 6 => 181 + leap
    case 7 => 212 + leap
    case 8 => 243 + leap
    case 9 => 273 + leap
    case 10 => 304 + leap
    case 11 => 334 + leap
    case _ => 365 + leap
  }

  function DayWithinYear(day: int): int {
    day - DayFromYear(YearFromDay(day))
  }

  function MonthFromDay(day: int): int {
    MonthWithinYear(DayWithinYear(day), InLeapYear(YearFromDay(day)))
  }

  function MonthWithinYear(d: int, leap: int): int {
    if d < 31 then 0
    else if d < 59 + leap then 1
    else if d < 90 + leap then 2
    else if d < 120 + leap then 3
    else if d < 151 + leap then 4
    else if d < 181 + leap then 5
    else if d < 212 + leap then 6
    else if d < 243 + leap then 7
    else if d < 273 + leap then 8
    else if d < 304 + leap then 9
    else if d < 334 + leap then 10
    else 11
  }

  function DateFromDay(day: int): int {
    DayWithinYear(day) - MonthStart(MonthFromDay(day), InLeapYear(YearFromDay(day))) + 1
  }

  /** Month and day may lie outside their ranges and then carry over. */
  function MakeDay(year: int, month: int, date: int): int {
    var y := year + month / 12;
    DayFromYear(y) + MonthStart(month % 12, InLeapYear(y)) + date - 1
  }

  /** `Date.UTC`, which takes the years 0 to 99 as 1900 to 1999. */
  function DateUTC(year: int, month: int, date: int): int {
    MakeDay(if 0 <= year <= 99 then 1900 + year else year, month, date)
  }

  // ---------------------------------------------------------------------
  // The check
  // ---------------------------------------------------------------------

  predicate IsDigit(c: char) {
    '0' <= c <= '9'
  }

  predicate AllDigits(s: string) {
    forall i | 0 <= i < |s| :: IsDigit(s[i])
  }

  function Number(s: string): (n: nat)
    requires AllDigits(s)
  {
    if s == [] then 0 else 10 * Number(s[..|s| - 1]) + (s[|s| - 1] - '0') as nat
  }

  predicate IsDateShaped(s: string) {
    |s| == 10 && AllDigits(s[..4]) && s[4] == '-' && AllDigits(s[5..7]) && s[7] == '-' && AllDigits(s[8..])
  }

  predicate ReadsBack(year: int, month: int, day: int) {
    var date := DateUTC(year, month - 1, day);
    YearFromDay(date) == year && MonthFromDay(date) == month - 1 && DateFromDay(date) == day
  }

  predicate ValidDate(s: string) {
    IsDateShaped(s) && ReadsBack(Number(s[..4]), Number(s[5..7]), Number(s[8..]))
  }

  // ---------------------------------------------------------------------
  // The calendar
  // ---------------------------------------------------------------------

  predicate IsLeap(y: int) {
    y % 400 == 0 || (y % 4 == 0 && y % 100 != 0)
  }

  function DaysInMonth(y: int, month: int): int
    requires 1 <= month <= 12
  {
    if month == 2 then (if IsLeap(y) then 29 else 28)
    else if month == 4 || month == 6 || month == 9 || month == 11 then 30
    else 31
  }

  /** A date of the proleptic Gregorian calendar. */
  predicate IsRealDate(y: int, month: int, day: int) {
    1 <= month <= 12 && 1 <= day <= DaysInMonth(y, month)
  }

  lemma LeapYears(y: int)
    ensures InLeapYear(y) == if IsLeap(y) then 1 else 0
  {
    if y % 400 == 0 {
      var q := y / 400;
      assert y == 4 * (100 * q) && y == 100 * (4 * q);
    }
  }

  lemma MonthLength(y: int, month: int)
    requires 0 <= month < 12
    ensures MonthStart(month + 1, InLeapYear(y)) == MonthStart(month, InLeapYear(y)) + DaysInMonth(y, month + 1)
    ensures InLeapYear(y) == if IsLeap(y) then 1 else 0
  {
    LeapYears(y);
  }

  lemma MonthIsUnique(d: int, month: int, leap: int)
    requires 0 <= month < 12 && 0 <= leap <= 1
    requires MonthStart(month, leap) <= d < MonthStart(month + 1, leap)
    ensures MonthWithinYear(d, leap) == month && 0 <= d < 365 + leap
  {
  }

  /** What is read back from any day is a real date. */
  lemma ReadBackIsReal(day: int)
    ensures IsRealDate(YearFromDay(day), MonthFromDay(day) + 1, DateFromDay(day))
  {
    var y := YearFromDay(day);
    YearLength(y);
    MonthLength(y, MonthFromDay(day));
  }

  lemma {:induction false} YearsRise(y: int, z: int)
    requires y <= z
    ensures DayFromYear(y) <= DayFromYear(z)
    decreases z - y
  {
    if y < z {
      YearLength(y);
      YearsRise(y + 1, z);
    }
  }

  lemma YearIsUnique(day: int, y: int)
    requires DayFromYear(y) <= day < DayFromYear(y + 1)
    ensures YearFromDay(day) == y
  {
    var z := YearFromDay(day);
    if y < z { YearsRise(y + 1, z); }
    if z < y { YearsRise(z + 1, y); }
  }

  /** Making a real date's day and reading it back gives the date. */
  lemma RealDateIsReadBack(y: int, month: int, day: int)
    requires IsRealDate(y, month, day)
    ensures var date := MakeDay(y, month - 1, day);
      YearFromDay(date) == y && MonthFromDay(date) == month - 1 && DateFromDay(date) == day
  {
    var date, leap := MakeDay(y, month - 1, day), InLeapYear(y);
    assert y + (month - 1) / 12 == y && (month - 1) % 12 == month - 1;
    MonthLength(y, month - 1);
    MonthIsUnique(date - DayFromYear(y), month - 1, leap);
    YearLength(y);
    YearIsUnique(date, y);
  }

  lemma EarlyYearsAreTaken(year: int, month: int, day: int)
    requires 0 <= year <= 99 && IsRealDate(year, month, day)
    ensures YearFromDay(DateUTC(year, month - 1, day)) != year
  {
    assert (month - 1) / 12 == 0 && (month - 1) % 12 == month - 1;
    assert MonthStart(month - 1, InLeapYear(1900 + year)) >= 0;
    YearsRise(year + 1, 1900 + year);
  }

  /** Whatever month and day are asked for, the numbers come back exactly when
      they are a real date; years before 100 come back as others. */
  lemma ReadsBackMeaning(year: int, month: int, day: int)
    requires year >= 0
    ensures ReadsBack(year, month, day) <==> year >= 100 && IsRealDate(year, month, day)
  {
    ReadBackIsReal(DateUTC(year, month - 1, day));
    if IsRealDate(year, month, day) {
      if year <= 99 { EarlyYearsAreTaken(year, month, day); } else { RealDateIsReadBack(year, month, day); }
    }
  }

  /** The accepted texts are exactly the date-shaped ones that name a real date
      of the year 100 or later; no carried-over month or day slips through, and
      earlier years fail because they are taken for the 1900s. */
  lemma ValidDateMeaning(s: string)
    ensures ValidDate(s) <==>
      IsDateShaped(s) && Number(s[..4]) >= 100 && IsRealDate(Number(s[..4]), Number(s[5..7]), Number(s[8..]))
  {
    if IsDateShaped(s) { ReadsBackMeaning(Number(s[..4]), Number(s[5..7]), Number(s[8..])); }
  }

  // ---------------------------------------------------------------------
  // Dates as they are written
  // ---------------------------------------------------------------------

  const DIGITS := "0123456789"

  function TwoDigits(n: nat): string
    requires n < 100
  {
    [DIGITS[n / 10], DIGITS[n % 10]]
  }

  /** A date with its numbers padded with zeros. */
  function DateText(year: nat, month: nat, day: nat): string
    requires year < 10000 && month < 100 && day < 100
  {
    Dashed(TwoDigits(year / 100), TwoDigits(year % 100), TwoDigits(month), TwoDigits(day))
  }

  function Dashed(century: string, year: string, month: string, day: string): string {
    century + year + "-" + month + "-" + day
  }

  lemma {:induction false} ReadTwoDigits(n: nat)
    requires n < 100
    ensures AllDigits(TwoDigits(n)) && Number(TwoDigits(n)) == n
  {
    var s := TwoDigits(n);
    assert s[..1] == [s[0]] && s[..1][..0] == [];
    assert Number(s[..1]) == n / 10;
  }

  lemma {:induction false} ReadFourDigits(a: nat, b: nat)
    requires a < 100 && b < 100
    ensures AllDigits(TwoDigits(a) + TwoDigits(b)) && Number(TwoDigits(a) + TwoDigits(b)) == 100 * a + b
  {
    ReadTwoDigits(a);
    ReadOneMore(TwoDigits(a), b / 10);
    ReadOneMore(TwoDigits(a) + [DIGITS[b / 10]], b % 10);
    assert TwoDigits(a) + TwoDigits(b) == TwoDigits(a) + [DIGITS[b / 10]] + [DIGITS[b % 10]];
  }

  lemma {:induction false} ReadOneMore(s: string, digit: nat)
    requires AllDigits(s) && digit < 10
    ensures AllDigits(s + [DIGITS[digit]]) && Number(s + [DIGITS[digit]]) == 10 * Number(s) + digit
  {
    assert (s + [DIGITS[digit]])[..|s|] == s;
  }

  lemma {:induction false} DateTextParts(year: nat, month: nat, day: nat)
    requires year < 10000 && month < 100 && day < 100
    ensures var s := DateText(year, month, day);
      && IsDateShaped(s)
      && Number(s[..4]) == year && Number(s[5..7]) == month && Number(s[8..]) == day
  {
    var s := DateText(year, month, day);
    ReadFourDigits(year / 100, year % 100);
    ReadTwoDigits(month);
    ReadTwoDigits(day);
    assert s[..4] == TwoDigits(year / 100) + TwoDigits(year % 100);
    assert s[5..7] == TwoDigits(month) && s[8..] == TwoDigits(day);
  }

  /** A written date is accepted exactly when it is real and of year 100 or
      later. */
  lemma {:induction false} WrittenDateAccepted(year: nat, month: nat, day: nat)
    requires year < 10000 && month < 100 && day < 100
    ensures ValidDate(DateText(year, month, day)) <==> year >= 100 && IsRealDate(year, month, day)
  {
    DateTextParts(year, month, day);
    ValidDateMeaning(DateText(year, month, day));
  }

  lemma {:induction false} TwoDigitsRead(s: string) returns (n: nat)
    requires |s| == 2 && AllDigits(s)
    ensures n < 100 && s == TwoDigits(n)
  {
    var a, b := (s[0] - '0') as nat, (s[1] - '0') as nat;
    assert IsDigit(s[0]) && IsDigit(s[1]);
    n := 10 * a + b;
    assert DIGITS[a] == s[0] && DIGITS[b] == s[1];
  }

  lemma {:induction false} DigitsOf(s: string, i: nat, j: nat)
    requires i <= j <= |s| && AllDigits(s)
    ensures AllDigits(s[i..j])
  {
  }

  lemma {:induction false} ShapedIsDashed(s: string) returns (century: nat, year: nat, month: nat, day: nat)
    requires IsDateShaped(s)
    ensures century < 100 && year < 100 && month < 100 && day < 100
    ensures s == Dashed(TwoDigits(century), TwoDigits(year), TwoDigits(month), TwoDigits(day))
  {
    DigitsOf(s[..4], 0, 2);
    DigitsOf(s[..4], 2, 4);
    century := TwoDigitsRead(s[..4][..2]);
    year := TwoDigitsRead(s[..4][2..]);
    month := TwoDigitsRead(s[5..7]);
    day := TwoDigitsRead(s[8..]);
    DashedParts(s);
  }

  lemma DashedParts(s: string)
    requires |s| == 10 && s[4] == '-' && s[7] == '-'
    ensures s == Dashed(s[..4][..2], s[..4][2..], s[5..7], s[8..])
  {
  }

  lemma WholeYear(century: nat, year: nat)
    requires year < 100
    ensures (100 * century + year) / 100 == century && (100 * century + year) % 100 == year
  {
  }

  /** Nothing but written dates is accepted. */
  lemma {:induction false} AcceptedIsWritten(s: string) returns (year: nat, month: nat, day: nat)
    requires ValidDate(s)
    ensures year < 10000 && month < 100 && day < 100 && s == DateText(year, month, day)
  {
    ValidDateMeaning(s);
    var century, rest;
    century, rest, month, day := ShapedIsDashed(s);
    year := 100 * century + rest;
    WholeYear(century, rest);
  }
}
