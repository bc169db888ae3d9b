/**
 * The one date format the system uses, "%Y-%m-%d": when `datetime.strptime` accepts a
 * string in that format, and the month names `strftime('%B')` writes.
 */
module Dates {

  predicate IsDigit(c: char) {
    '0' <= c <= '9'
  }

  predicate AllDigits(s: string) {
    forall i :: 0 <= i < |s| ==> IsDigit(s[i])
  }

  function DigitValue(c: char): int { (c as int) - ('0' as int) }

  /** The value of a string of decimal digits, leading zeros allowed. */
  function Number(s: string): nat
    requires AllDigits(s)
  {
    if s == [] then 0
    else Number(s[..|s| - 1]) * 10 + DigitValue(s[|s| - 1])
  }

  /** Gregorian leap years. */
  predicate IsLeapYear(year: int) {
    year % 4 == 0 && (year % 100 != 0 || year % 400 == 0)
  }

  function DaysInMonth(year: int, month: int): int
    requires 1 <= month <= 12
  {
    if month == 2 then (if IsLeapYear(year) then 29 else 28)
    else if month == 4 || month == 6 || month == 9 || month == 11 then 30
    else 31
  }

  /** The shape YYYY-MM-DD: ten characters, dashes at 4 and 7, digits everywhere else. */
  predicate IsDateShape(s: string) {
    && |s| == 10
    && s[4] == '-' && s[7] == '-'
    && AllDigits(s[..4]) && AllDigits(s[5..7]) && AllDigits(s[8..])
  }

  function Year(s: string): nat requires IsDateShape(s) { Number(s[..4]) }
  function Month(s: string): nat requires IsDateShape(s) { Number(s[5..7]) }
  function Day(s: string): nat requires IsDateShape(s) { Number(s[8..]) }

  /**
   * `datetime.strptime(s, '%Y-%m-%d')` succeeds: the shape is right and the digits name
   * a real calendar day in years 1 to 9999 (datetime has no year 0).
   */
  predicate ValidDate(s: string) {
    && IsDateShape(s)
    && 1 <= Year(s)
    && 1 <= Month(s) <= 12
    && 1 <= Day(s) <= DaysInMonth(Year(s), Month(s))
  }

  /** `strftime('%B')` in the C locale. */
  function MonthName(month: int): (name: string)
    requires 1 <= month <= 12
    ensures |name| >= 3
  {
    ["January", "February", "March", "April", "May", "June", "July",
     "August", "September", "October", "November", "December"][month - 1]
  }

  lemma TwoDigits(s: string)
    requires |s| == 2 && AllDigits(s)
    ensures Number(s) == 10 * DigitValue(s[0]) + DigitValue(s[1])
  {
    assert s[..1][..0] == [];
    assert Number(s[..1]) == DigitValue(s[0]);
  }

  lemma FourDigits(s: string)
    requires |s| == 4 && AllDigits(s)
    ensures Number(s) == 1000 * DigitValue(s[0]) + 100 * DigitValue(s[1]) + 10 * DigitValue(s[2]) + DigitValue(s[3])
  {
    assert s[..3][..2] == s[..2];
    TwoDigits(s[..2]);
  }

  /** Splits a date-shaped string into its three numbers. */
  lemma DateFields(s: string)
    requires IsDateShape(s)
    ensures Year(s) == 1000 * DigitValue(s[0]) + 100 * DigitValue(s[1]) + 10 * DigitValue(s[2]) + DigitValue(s[3])
    ensures Month(s) == 10 * DigitValue(s[5]) + DigitValue(s[6])
    ensures Day(s) == 10 * DigitValue(s[8]) + DigitValue(s[9])
  {
    FourDigits(s[..4]);
    TwoDigits(s[5..7]);
    TwoDigits(s[8..]);
  }

  /** Real days are accepted: the last day of the year, and February 29th of a leap year. */
  lemma AcceptedDates()
    ensures ValidDate("2024-12-31")
    ensures ValidDate("2024-02-29")
  {
    DateFields("2024-12-31");
    assert Year("2024-12-31") == 2024 && Month("2024-12-31") == 12 && Day("2024-12-31") == 31;
    LeapDayAccepted("2024-02-29");
  }

  /** February 29th of 2024, read digit by digit. */
  lemma LeapDayAccepted(s: string)
    requires s == "2024-02-29"
    ensures ValidDate(s)
  {
    assert s[0] == '2' && s[1] == '0' && s[2] == '2' && s[3] == '4';
    assert s[5] == '0' && s[6] == '2' && s[8] == '2' && s[9] == '9';
    DateFields(s);
  }

  /** A day past the end of its month is refused: February 30th, and February 29th of a common year. */
  lemma RefusedDays()
    ensures !ValidDate("2024-02-30")
    ensures !ValidDate("2023-02-29")
  {
    DateFields("2024-02-30");
    DateFields("2023-02-29");
  }

  /** Month 13, year 0 and the day-first order are refused. */
  lemma RefusedFields()
    ensures !ValidDate("2024-13-01")
    ensures !ValidDate("0000-01-01")
    ensures !ValidDate("31-12-2024")
  {
    DateFields("2024-13-01");
    DateFields("0000-01-01");
  }
}
