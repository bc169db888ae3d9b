/**
 * The pure helpers: date validation and display formatting, text truncation for
 * listings, and the test `confirm_action` applies to the user's answer.
 */
module Helpers {
  import opened Text
  import opened Dates

  /** `validate_date(date_string)`: True exactly when the `%Y-%m-%d` parse succeeds; never raises. */
  function ValidateDate(dateString: string): (ok: bool)
    ensures ok ==> |dateString| == 10 && dateString[4] == '-' && dateString[7] == '-'
    ensures !ok ==> FormatDate(dateString) == dateString
  {
    ValidDate(dateString)
  }

  /**
   * `format_date(date_string)`: a valid date as `strftime('%B %d, %Y')` writes it
   * ("January 05, 2024"); anything else is returned as it came.
   */
  function FormatDate(dateString: string): string {
    if ValidDate(dateString) then
      MonthName(Month(dateString)) + " " + dateString[8..] + ", " + dateString[..4]
    else dateString
  }

  /** The month number whose `%B` name is `name`, or 0 for none. */
  function MonthNumber(name: string): (month: nat)
    ensures month <= 12
  {
    if name == "January" then 1 else if name == "February" then 2
    else if name == "March" then 3 else if name == "April" then 4
    else if name == "May" then 5 else if name == "June" then 6
    else if name == "July" then 7 else if name == "August" then 8
    else if name == "September" then 9 else if name == "October" then 10
    else if name == "November" then 11 else if name == "December" then 12
    else 0
  }

  /** The twelve month names are distinct: each one names its own month. */
  lemma MonthNameInverse(month: int)
    requires 1 <= month <= 12
    ensures MonthNumber(MonthName(month)) == month
  {
  }

  /**
   * `format_date` changes its argument exactly when `validate_date` accepts it: the
   * display form of a date is longer than its ten-character YYYY-MM-DD form.
   */
  lemma FormatChangesExactlyValid(s: string)
    ensures FormatDate(s) != s <==> ValidateDate(s)
  {
    if ValidDate(s) {
      assert |FormatDate(s)| == |MonthName(Month(s))| + 9 > |s|;
    }
  }

  /** Two digit strings with the same value, of the same length 2, are the same. */
  lemma TwoDigitsUnique(a: string, b: string)
    requires |a| == 2 && AllDigits(a) && |b| == 2 && AllDigits(b)
    requires Number(a) == Number(b)
    ensures a == b
  {
    TwoDigits(a);
    TwoDigits(b);
  }

  /**
   * `format_date` loses nothing: two valid dates with the same display form are the same
   * date string. The month comes back from its name, the day and year from their digits.
   */
  lemma FormatDateInjective(s: string, t: string)
    requires ValidDate(s) && ValidDate(t)
    requires FormatDate(s) == FormatDate(t)
    ensures s == t
  {
    var ms, mt := MonthName(Month(s)), MonthName(Month(t));
    var r := FormatDate(s);
    FormatParts(s);
    FormatParts(t);
    assert |ms| == |mt|;
    assert ms == r[..|ms|] == mt;
    MonthNameInverse(Month(s));
    MonthNameInverse(Month(t));
    TwoDigitsUnique(s[5..7], t[5..7]);
    assert s[8..] == r[|ms| + 1..|ms| + 3] == t[8..];
    assert s[..4] == r[|ms| + 5..] == t[..4];
    DateSplit(s);
    DateSplit(t);
  }

  /** Where the month name, the day and the year sit in the display form of a date. */
  lemma FormatParts(s: string)
    requires ValidDate(s)
    ensures var r, m := FormatDate(s), MonthName(Month(s));
      && |r| == |m| + 9 && r[..|m|] == m
      && r[|m| + 1..|m| + 3] == s[8..] && r[|m| + 5..] == s[..4]
  {
  }

  /** A date string is its year, month and day joined by dashes. */
  lemma DateSplit(s: string)
    requires IsDateShape(s)
    ensures s == s[..4] + "-" + s[5..7] + "-" + s[8..]
  {
  }

  /** Python's `s[:k]`: a negative `k` counts from the end, and both ends are clamped. */
  function PrefixSlice(s: string, k: int): (r: string)
    ensures 0 <= k ==> r == s[..if k <= |s| then k else |s|]
    ensures k < 0 ==> r == s[..if |s| + k >= 0 then |s| + k else 0]
  {
    if k >= 0 then s[..if k <= |s| then k else |s|]
    else s[..if |s| + k >= 0 then |s| + k else 0]
  }

  /**
   * `truncate_text(text, max_length=50)`: text that fits is returned whole. Longer text
   * keeps its first `max_length - 3` characters and gains "...", so it is exactly
   * `max_length` long. Below 3 the slice bound is negative and Python counts it from the
   * end: the result keeps all but the last `3 - max_length` characters and is longer than
   * `max_length`.
   */
  function TruncateText(text: string, maxLength: int := 50): (r: string)
    ensures |text| <= maxLength ==> r == text
    ensures |text| > maxLength ==> |r| >= 3 && r[|r| - 3..] == "..."
    ensures |text| > maxLength ==> r[..|r| - 3] <= text
    ensures |text| > maxLength >= 3 ==> |r| == maxLength
    ensures |text| > maxLength && maxLength < 3 ==>
      |r| - 3 == if |text| + maxLength - 3 >= 0 then |text| + maxLength - 3 else 0
  {
    if |text| <= maxLength then text
    else PrefixSlice(text, maxLength - 3) + "..."
  }

  /** With a bound of at least 3 the result never exceeds the bound. */
  lemma TruncateWithinBound(text: string, maxLength: int)
    requires maxLength >= 3
    ensures |TruncateText(text, maxLength)| <= maxLength
  {
  }

  /** Truncating twice with the same bound (3 or more) is truncating once. */
  lemma TruncateIdempotent(text: string, maxLength: int)
    requires maxLength >= 3
    ensures TruncateText(TruncateText(text, maxLength), maxLength) == TruncateText(text, maxLength)
  {
    TruncateWithinBound(text, maxLength);
  }

  /** The default bound of 50: a 60-character line becomes its first 47 characters and "...". */
  lemma TruncateDefault(text: string)
    requires |text| == 60
    ensures TruncateText(text) == text[..47] + "..."
  {
  }

  /** The answer test of `confirm_action`: lower-cased and stripped, the answer is "y" or "yes". */
  predicate IsConfirmation(response: string) {
    var answer := Strip(Lower(response));
    answer == "y" || answer == "yes"
  }

  lemma {:induction false} LowerIdempotent(s: string)
    ensures Lower(Lower(s)) == Lower(s)
  {
    forall i | 0 <= i < |s| ensures Lower(Lower(s))[i] == Lower(s)[i] {
      var c := s[i];
      assert LowerChar(LowerChar(c)) == LowerChar(c);
    }
  }

  /**
   * Surrounding whitespace and letter case do not matter to the answer: stripping or
   * lower-casing it first gives the same verdict.
   */
  lemma ConfirmationIgnoresCaseAndPadding(response: string)
    ensures IsConfirmation(Strip(response)) == IsConfirmation(response)
    ensures IsConfirmation(Lower(response)) == IsConfirmation(response)
  {
    LowerStripCommute(response);
    LowerStripCommute(Strip(response));
    StripIdempotent(response);
    LowerIdempotent(response);
  }

  /** A string whose lower-case form is "y" or "yes" has that length and starts with 'y' or 'Y'. */
  lemma LowersToYes(s: string)
    requires Lower(s) == "y" || Lower(s) == "yes"
    ensures (|s| == 1 || |s| == 3) && (s[0] == 'y' || s[0] == 'Y')
  {
    assert LowerChar(s[0]) == Lower(s)[0] == 'y';
  }

  /** An accepted answer, stripped, is one or three characters long and starts with 'y' or 'Y'. */
  lemma ConfirmationShape(response: string)
    requires IsConfirmation(response)
    ensures var s := Strip(response); (|s| == 1 || |s| == 3) && (s[0] == 'y' || s[0] == 'Y')
  {
    LowerStripCommute(response);
    LowersToYes(Strip(response));
  }

  /** "y" and "Yes" confirm. */
  lemma AcceptedAnswers(response: string)
    requires response == "y" || response == "Yes"
    ensures IsConfirmation(response)
  {
    var answer := Lower(response);
    assert answer == "y" || answer == "yes";
    StripUnpadded(answer);
  }

  /** An upper-case answer with padding on both sides, " YES ", confirms too. */
  lemma AcceptedPaddedAnswer(response: string)
    requires response == " YES "
    ensures IsConfirmation(response)
  {
    var word := response[1..4];
    assert Lower(response) == [' '] + Lower(word) + [' '];
    assert Lower(word) == "yes";
    StripSurrounded(Lower(word));
  }

  /** "no", "ye" and "yess" do not confirm. */
  lemma RefusedAnswers(response: string)
    requires response == "no" || response == "ye" || response == "yess"
    ensures !IsConfirmation(response)
  {
    LowerUnchanged(response);
    StripUnpadded(response);
  }
}
