/**
 * Gregorian calendar arithmetic in whole days, and the `YYYY-MM-DD` date
 * strings with a four-digit year that the model takes as stored dates. Days are counted from 1 January of a reference
 * year, the way `new Date(year, month - 1, day)` lays them out: a day number
 * past the end of its month rolls over into the following months.
 */
module Calendar {
  import opened Text

  /** `1000 * 60 * 60 * 24`, the milliseconds in a day. */
  const MsPerDay: int := 86400000

  predicate IsLeapYear(y: int)
  {
    y % 4 == 0 && (y % 100 != 0 || y % 400 == 0)
  }

  function YearLength(y: int): (n: int)
    ensures n == 365 || n == 366
  {
    if IsLeapYear(y) then 366 else 365
  }

  function DaysInMonth(y: int, m: int): (n: int)
    requires 1 <= m <= 12
    ensures 28 <= n <= 31
  {
    if m == 2 then (if IsLeapYear(y) then 29 else 28)
    else if m == 4 || m == 6 || m == 9 || m == 11 then 30
    else 31
  }

  /** Days in the months of `y` before month `m`. */
  function DaysBeforeMonth(y: int, m: int): (n: int)
    requires 1 <= m <= 12
    ensures 0 <= n <= 31 * (m - 1)
  {
    if m == 1 then 0 else DaysBeforeMonth(y, m - 1) + DaysInMonth(y, m - 1)
  }

  /**
   * The leap day shifts a date from March on by one day relative to 1 January;
   * January and February are never shifted.
   */
  lemma {:induction false} DaysBeforeMonthShift(y: int, m: int)
    requires 1 <= m <= 12
    ensures DaysBeforeMonth(y, m) == DaysBeforeMonth(1, m) + (if m >= 3 && IsLeapYear(y) then 1 else 0)
  {
    if m > 1 {
      DaysBeforeMonthShift(y, m - 1);
    }
  }

  /** The months before December hold all of the year but its last 31 days. */
  lemma DaysBeforeDecember(y: int)
    ensures DaysBeforeMonth(y, 12) + 31 == YearLength(y)
  {
    DaysBeforeMonthShift(y, 12);
    assert DaysBeforeMonth(1, 12) == 334;
  }

  /** Days from 1 January of `y` to `new Date(y, m - 1, d)`. */
  function DayOffset(y: int, m: int, d: int): int
    requires 1 <= m <= 12
  {
    DaysBeforeMonth(y, m) + d - 1
  }

  predicate IsValidDate(y: int, m: int, d: int)
  {
    1 <= m <= 12 && 1 <= d <= DaysInMonth(y, m)
  }

  /** A valid date lies inside its own year. */
  lemma ValidDateInYear(y: int, m: int, d: int)
    requires IsValidDate(y, m, d)
    ensures 0 <= DayOffset(y, m, d) < YearLength(y)
  {
    DaysBeforeDecember(y);
    if m < 12 {
      DaysBeforeMonthMonotone(y, m + 1, 12);
    }
  }

  lemma {:induction false} DaysBeforeMonthMonotone(y: int, m: int, n: int)
    requires 1 <= m <= n <= 12
    ensures DaysBeforeMonth(y, m) + (n - m) * 28 <= DaysBeforeMonth(y, n)
  {
    if m < n {
      DaysBeforeMonthMonotone(y, m, n - 1);
    }
  }

  /** The two-digit number written at `s[k]`, `s[k + 1]`. */
  function TwoDigits(s: string, k: nat): nat
    requires k + 1 < |s| && IsDigit(s[k]) && IsDigit(s[k + 1])
  {
    10 * DigitValue(s[k]) + DigitValue(s[k + 1])
  }

  /** A date input's value with a four-digit year: `YYYY-MM-DD` naming a real day. */
  predicate IsIsoDate(s: string)
  {
    && |s| == 10 && s[4] == '-' && s[7] == '-'
    && IsDigit(s[0]) && IsDigit(s[1]) && IsDigit(s[2]) && IsDigit(s[3])
    && IsDigit(s[5]) && IsDigit(s[6]) && IsDigit(s[8]) && IsDigit(s[9])
    && IsValidDate(100 * TwoDigits(s, 0) + TwoDigits(s, 2), TwoDigits(s, 5), TwoDigits(s, 8))
  }

  type IsoDate = s: string | IsIsoDate(s) witness "2024-01-15"

  /** A two-character run of digits reads as the two-digit number it spells. */
  lemma TwoDigitValue(s: string, k: nat)
    requires k + 1 < |s| && IsDigit(s[k]) && IsDigit(s[k + 1])
    ensures AllDigits(s[k..k + 2]) && DecimalValue(s[k..k + 2]) == TwoDigits(s, k)
  {
    var ds := s[k..k + 2];
    assert ds[..|ds| - 1] == ds[..1] == [s[k]];
    assert DecimalValue(ds[..1]) == DigitValue(s[k]) by {
      assert ds[..1][..0] == [];
    }
  }

  /** `s.split("-")` of a date string is its year, month and day fields. */
  lemma IsoDateFields(s: string)
    requires IsIsoDate(s)
    ensures Split(s, '-') == [s[..4], s[5..7], s[8..]]
  {
    var pieces := [s[..4], s[5..7], s[8..]];
    forall i | 0 <= i < 3
      ensures '-' !in pieces[i]
    {
      assert AllDigits(pieces[i]);
    }
    assert Join(pieces[2..], '-') == s[8..];
    assert Join(pieces[1..], '-') == s[5..7] + "-" + s[8..];
    assert s == s[..4] + "-" + (s[5..7] + "-" + s[8..]);
    assert Join(pieces, '-') == s;
    SplitJoin(pieces, '-');
  }

  /** The second field of `s.split("-")`, read as a number: the month. */
  function MonthField(s: IsoDate): (m: int)
    ensures m == TwoDigits(s, 5) && 1 <= m <= 12
  {
    IsoDateFields(s);
    TwoDigitValue(s, 5);
    DecimalValue(Split(s, '-')[1])
  }

  /** The third field of `s.split("-")`, read as a number: the day of the month. */
  function DayField(s: IsoDate): (d: int)
    ensures d == TwoDigits(s, 8) && 1 <= d <= 31
  {
    IsoDateFields(s);
    TwoDigitValue(s, 8);
    assert s[8..] == s[8..10];
    DecimalValue(Split(s, '-')[2])
  }
}
