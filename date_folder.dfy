/**
 * The per-day destination folder: `datetime.fromtimestamp(t).strftime("%Y%m%d")`
 * applied to a file's creation time. The conversion from seconds to a local
 * calendar day (time-zone lookup) happens outside the model: a file's
 * creation time arrives here as the calendar day it falls on.
 */
module DateFolder {
  import opened Wrappers
  import opened Text

  /** A calendar day in the local time zone. */
  datatype Date = Date(year: int, month: int, day: int)

  predicate IsLeapYear(y: int) {
    y % 4 == 0 && (y % 100 != 0 || y % 400 == 0)
  }

  function DaysInMonth(y: int, m: int): int
    requires 1 <= m <= 12
  {
    if m == 2 then (if IsLeapYear(y) then 29 else 28)
    else if m == 4 || m == 6 || m == 9 || m == 11 then 30
    else 31
  }

  /** The days Python's `datetime` can represent (years 1 to 9999). */
  predicate ValidDate(d: Date) {
    && 1 <= d.year <= 9999
    && 1 <= d.month <= 12
    && 1 <= d.day <= DaysInMonth(d.year, d.month)
  }

  /** A day `datetime` can represent. */
  type Day = d: Date | ValidDate(d) witness Date(1970, 1, 1)

  /** `n` in exactly `width` decimal digits, zero-padded on the left. */
  function Pad(n: nat, width: nat): (s: string)
    requires n < Pow10(width)
    ensures |s| == width && AllDigits(s) && DigitsValue(s) == n
  {
    if width == 0 then []
    else
      var s := Pad(n / 10, width - 1) + [DigitChar(n % 10)];
      assert s[..|s| - 1] == Pad(n / 10, width - 1);
      s
  }

  /** The date folder `%Y%m%d`: four-digit year, two-digit month, two-digit day. */
  function FolderName(d: Date): (s: string)
    requires ValidDate(d)
    ensures |s| == 8 && AllDigits(s)
  {
    Pad(d.year, 4) + Pad(d.month, 2) + Pad(d.day, 2)
  }

  /** Reads a date folder name back; the inverse of `FolderName`. */
  function ParseFolder(s: string): Option<Date> {
    if |s| == 8 && AllDigits(s) then
      var d := Date(DigitsValue(s[..4]), DigitsValue(s[4..6]), DigitsValue(s[6..]));
      if ValidDate(d) then Some(d) else None
    else None
  }

  /** Every representable day has a folder that reads back as that day. */
  lemma FolderNameRoundTrip(d: Date)
    requires ValidDate(d)
    ensures ParseFolder(FolderName(d)) == Some(d)
  {
    var y, m, dd := Pad(d.year, 4), Pad(d.month, 2), Pad(d.day, 2);
    var s := y + m + dd;
    assert s[..4] == y && s[4..6] == m && s[6..] == dd;
  }

  /** Two different days never share a folder. */
  lemma FolderNameInjective(d1: Date, d2: Date)
    requires ValidDate(d1) && ValidDate(d2)
    ensures FolderName(d1) == FolderName(d2) <==> d1 == d2
  {
    if FolderName(d1) == FolderName(d2) {
      FolderNameRoundTrip(d1);
      FolderNameRoundTrip(d2);
    }
  }

  /** The folder for 5 March 2024 is `20240305`. */
  lemma FolderNameExample()
    ensures FolderName(Date(2024, 3, 5)) == "20240305"
  {
    PadYearExample();
    PadMonthDayExample();
    assert "2024" + "03" + "05" == "20240305";
  }

  lemma PadYearExample()
    ensures Pow10(4) == 10000 && Pad(2024, 4) == "2024"
  {
    assert Pow10(1) == 10 && Pow10(2) == 100 && Pow10(3) == 1000 && Pow10(4) == 10000;
    assert Pad(2, 1) == "2";
    assert Pad(20, 2) == "20";
    assert Pad(202, 3) == "202";
  }

  lemma PadMonthDayExample()
    ensures Pow10(2) == 100 && Pad(3, 2) == "03" && Pad(5, 2) == "05"
  {
    assert Pow10(1) == 10 && Pow10(2) == 100;
    assert Pad(0, 1) == "0";
  }
}
