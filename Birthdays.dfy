/**
 * The birthday tracker page: the countdown to the next yearly occurrence of a
 * stored `YYYY-MM-DD` date, the list of birthdays with its add and delete
 * operations, and the view sorted by countdown with its two counters.
 */
module Birthdays {
  import opened Text
  import opened Calendar
  import opened Collections

  /**
   * The wall clock reading `new Date()` supplies: the local calendar day and
   * the milliseconds elapsed since its midnight. Years below 100 are excluded
   * because `new Date(year, ...)` reinterprets them as 1900 + year.
   */
  datatype Clock = Clock(year: int, month: int, day: int, millis: int)

  predicate IsValidClock(c: Clock)
  {
    c.year >= 100 && IsValidDate(c.year, c.month, c.day) && 0 <= c.millis < MsPerDay
  }

  type Now = c: Clock | IsValidClock(c) witness Clock(2024, 1, 15, 0)

  /** Day number of today, counted from 1 January of the current year. */
  function Today(now: Now): int
  {
    DayOffset(now.year, now.month, now.day)
  }

  /** Day number of this year's `new Date(year, month - 1, day)` for the stored month and day. */
  function ThisYearsDay(date: IsoDate, now: Now): int
  {
    DayOffset(now.year, MonthField(date), DayField(date))
  }

  /** Day number, still counted from 1 January of the current year, of next year's occurrence. */
  function NextYearsDay(date: IsoDate, now: Now): int
  {
    YearLength(now.year) + DayOffset(now.year + 1, MonthField(date), DayField(date))
  }

  /** `Math.ceil(ms / 86400000)`: the least whole number of days covering `ms`. */
  function CeilDays(ms: int): (days: int)
    ensures (days - 1) * MsPerDay < ms <= days * MsPerDay
  {
    -((-ms) / MsPerDay)
  }

  /**
   * `getDaysUntilBirthday` as written: the midnight of this year's occurrence
   * is compared with the current instant, moved to next year when it is
   * earlier, the difference is rounded up to whole days, and a result of
   * exactly 365 is reported as 0.
   */
  function DaysUntilAsWritten(date: IsoDate, now: Now): (days: int)
    ensures 0 <= days <= 366
  {
    var today := Today(now);
    var thisYear := ThisYearsDay(date, now);
    var nowMs := today * MsPerDay + now.millis;
    var candidate :=
      if thisYear * MsPerDay < nowMs then NextYearsDay(date, now)
      else thisYear;
    var diffDays := CeilDays(candidate * MsPerDay - nowMs);
    NextYearAfterToday(date, now);
    ThisYearsDayInYear(date, now);
    assert thisYear * MsPerDay < nowMs <==> thisYear < today || (thisYear == today && now.millis > 0);
    CeilWholeDays(candidate - today, now.millis);
    assert candidate * MsPerDay - nowMs == (candidate - today) * MsPerDay - now.millis;
    if diffDays == 365 then 0 else diffDays
  }

  /**
   * The countdown the patch for 365 is meant to produce: 0 when this year's
   * occurrence is today, otherwise the whole days until the next occurrence.
   */
  function DaysUntil(date: IsoDate, now: Now): (days: int)
    ensures 0 <= days <= 365
    ensures days == 0 <==> ThisYearsDay(date, now) == Today(now)
  {
    NextYearAfterToday(date, now);
    if ThisYearsDay(date, now) >= Today(now) then
      ThisYearsDayInYear(date, now);
      ThisYearsDay(date, now) - Today(now)
    else NextYearsDay(date, now) - Today(now)
  }

  /** This year's occurrence of any stored month and day falls in the current year, overflow included. */
  lemma ThisYearsDayInYear(date: IsoDate, now: Now)
    ensures 0 <= ThisYearsDay(date, now) < YearLength(now.year)
    ensures 0 <= Today(now) < YearLength(now.year)
  {
    var m := MonthField(date);
    DaysBeforeMonthMonotone(now.year, m, 12);
    DaysBeforeDecember(now.year);
    ValidDateInYear(now.year, now.month, now.day);
  }

  lemma NextYearAfterToday(date: IsoDate, now: Now)
    ensures Today(now) < NextYearsDay(date, now)
    ensures NextYearsDay(date, now) - ThisYearsDay(date, now) - YearLength(now.year) in {-1, 0, 1}
    ensures NextYearsDay(date, now) - ThisYearsDay(date, now) <= 366
  {
    ValidDateInYear(now.year, now.month, now.day);
    var m := MonthField(date);
    DaysBeforeMonthShift(now.year, m);
    DaysBeforeMonthShift(now.year + 1, m);
  }

  /** Ceiling division of a count of whole days less part of a day. */
  lemma CeilWholeDays(days: int, millis: int)
    requires 0 <= millis < MsPerDay
    ensures CeilDays(days * MsPerDay - millis) == days
  {
  }

  /**
   * The countdown as written never goes negative and never reports 365; it
   * equals the corrected countdown except in the two cases the 365 patch
   * gets wrong: a birthday today, after midnight, whose next occurrence is 366
   * days away (reported as 366), and a birthday genuinely 365 days away
   * (reported as 0).
   */
  lemma {:induction false} AsWrittenAgainstCorrected(date: IsoDate, now: Now)
    ensures DaysUntilAsWritten(date, now) >= 0
    ensures DaysUntilAsWritten(date, now) != 365
    ensures DaysUntil(date, now) != 0 && DaysUntil(date, now) != 365
            ==> DaysUntilAsWritten(date, now) == DaysUntil(date, now)
    ensures DaysUntil(date, now) == 365 ==> DaysUntilAsWritten(date, now) == 0
    ensures DaysUntil(date, now) == 0 && now.millis == 0 ==> DaysUntilAsWritten(date, now) == 0
    ensures DaysUntil(date, now) == 0 && now.millis > 0
            ==> var gap := NextYearsDay(date, now) - Today(now);
                DaysUntilAsWritten(date, now) == if gap == 365 then 0 else gap
    ensures ThisYearsDay(date, now) > Today(now)
            ==> var diff := ThisYearsDay(date, now) - Today(now);
                DaysUntilAsWritten(date, now) == if diff == 365 then 0 else diff
  {
    NextYearAfterToday(date, now);
    var today := Today(now);
    var thisYear := ThisYearsDay(date, now);
    var nowMs := today * MsPerDay + now.millis;
    var candidate := if thisYear * MsPerDay < nowMs then NextYearsDay(date, now) else thisYear;
    assert thisYear * MsPerDay < nowMs <==> thisYear < today || (thisYear == today && now.millis > 0);
    CeilWholeDays(candidate - today, now.millis);
    assert candidate * MsPerDay - nowMs == (candidate - today) * MsPerDay - now.millis;
  }

  /** The days, counted like `Today`, on which the stored month and day fall this year and next. */
  predicate IsOccurrence(date: IsoDate, now: Now, day: int)
  {
    day == ThisYearsDay(date, now) || day == NextYearsDay(date, now)
  }

  /**
   * The corrected countdown is the distance from today to the nearest
   * occurrence that is not in the past; it is 0 exactly when the birthday
   * falls today and never exceeds 365.
   */
  lemma DaysUntilNearestOccurrence(date: IsoDate, now: Now)
    ensures 0 <= DaysUntil(date, now) <= 365
    ensures IsOccurrence(date, now, Today(now) + DaysUntil(date, now))
    ensures forall day :: IsOccurrence(date, now, day) && day >= Today(now) ==> Today(now) + DaysUntil(date, now) <= day
    ensures DaysUntil(date, now) == 0 <==> ThisYearsDay(date, now) == Today(now)
  {
    NextYearAfterToday(date, now);
    var m := MonthField(date);
    DaysBeforeMonthShift(now.year, m);
    DaysBeforeMonthShift(now.year + 1, m);
    ValidDateInYear(now.year, now.month, now.day);
  }

  /** Seen from the next day of the same year, a corrected countdown that has not reached 0 is one smaller. */
  lemma CountdownTicksDown(date: IsoDate, now: Now, tomorrow: Now)
    requires tomorrow.year == now.year && Today(tomorrow) == Today(now) + 1
    requires DaysUntil(date, now) > 0
    ensures DaysUntil(date, tomorrow) == DaysUntil(date, now) - 1
  {
  }

  /** From 31 December to 1 January, a corrected countdown that has not reached 0 is one smaller. */
  lemma CountdownTicksOverYearEnd(date: IsoDate, now: Now, tomorrow: Now)
    requires now.month == 12 && now.day == 31
    requires tomorrow.year == now.year + 1 && tomorrow.month == 1 && tomorrow.day == 1
    requires DaysUntil(date, now) > 0
    ensures DaysUntil(date, tomorrow) == DaysUntil(date, now) - 1
  {
    DaysBeforeDecember(now.year);
    ThisYearsDayInYear(date, now);
    NextYearAfterToday(date, now);
  }

  /** The day after the birthday, within the same year, the corrected countdown starts again from 364 or 365. */
  lemma CountdownResets(date: IsoDate, now: Now, tomorrow: Now)
    requires tomorrow.year == now.year && Today(tomorrow) == Today(now) + 1
    requires DaysUntil(date, now) == 0
    ensures DaysUntil(date, tomorrow) in {364, 365}
  {
    DaysBeforeMonthShift(now.year, MonthField(date));
    DaysBeforeMonthShift(now.year + 1, MonthField(date));
    NextYearAfterToday(date, now);
  }

  /** The day after a birthday on 31 December, the corrected countdown starts again from 364 or 365. */
  lemma CountdownResetsOverYearEnd(date: IsoDate, now: Now, tomorrow: Now)
    requires now.month == 12 && now.day == 31
    requires tomorrow.year == now.year + 1 && tomorrow.month == 1 && tomorrow.day == 1
    requires DaysUntil(date, now) == 0
    ensures DaysUntil(date, tomorrow) in {364, 365}
  {
    DaysBeforeDecember(now.year);
    DaysBeforeDecember(tomorrow.year);
    ThisYearsDayInYear(date, now);
    ThisYearsDayInYear(date, tomorrow);
    DaysBeforeMonthShift(now.year, MonthField(date));
    DaysBeforeMonthShift(tomorrow.year, MonthField(date));
  }

  /** Only the month and day of the stored date matter: its year is ignored. */
  lemma YearIgnored(a: IsoDate, b: IsoDate, now: Now)
    requires a[5..] == b[5..]
    ensures DaysUntilAsWritten(a, now) == DaysUntilAsWritten(b, now)
    ensures DaysUntil(a, now) == DaysUntil(b, now)
  {
    assert a[5] == b[5] && a[6] == b[6] && a[8] == b[8] && a[9] == b[9] by {
      assert a[5..][0] == a[5] && a[5..][1] == a[6] && a[5..][3] == a[8] && a[5..][4] == a[9];
    }
    assert MonthField(a) == MonthField(b) && DayField(a) == DayField(b);
    assert ThisYearsDay(a, now) == ThisYearsDay(b, now) && NextYearsDay(a, now) == NextYearsDay(b, now);
  }

  /** On 15 January 2024 a birthday on 20 February is 36 days away. */
  lemma DaysUntilExample(millis: int)
    requires 0 <= millis < MsPerDay
    ensures DaysUntilAsWritten("2024-02-20", Clock(2024, 1, 15, millis)) == 36
    ensures DaysUntil("2024-02-20", Clock(2024, 1, 15, millis)) == 36
  {
    AsWrittenAgainstCorrected("2024-02-20", Clock(2024, 1, 15, millis));
  }

  /** Found: at 10:00 on 15 January 2024 a birthday on 15 January is reported as 366 days away, not as today. */
  lemma AsWrittenMissesTodayBeforeLeapDay()
    ensures DaysUntilAsWritten("1990-01-15", Clock(2024, 1, 15, 36000000)) == 366
    ensures DaysUntil("1990-01-15", Clock(2024, 1, 15, 36000000)) == 0
  {
    AsWrittenAgainstCorrected("1990-01-15", Clock(2024, 1, 15, 36000000));
  }

  /** Found: at 10:00 on 2 March 2023 a birthday on 1 March, a day past and 365 days ahead, is reported as today. */
  lemma AsWrittenReportsYesterdayAsToday()
    ensures DaysUntilAsWritten("1990-03-01", Clock(2023, 3, 2, 36000000)) == 0
    ensures DaysUntil("1990-03-01", Clock(2023, 3, 2, 36000000)) == 365
  {
    var date: IsoDate := "1990-03-01";
    var now: Now := Clock(2023, 3, 2, 36000000);
    assert Today(now) == 60 && ThisYearsDay(date, now) == 59 && NextYearsDay(date, now) == 425 by {
      assert MonthField(date) == 3 && DayField(date) == 1;
      assert DaysBeforeMonth(2023, 3) == 59 && DaysBeforeMonth(2024, 3) == 60;
    }
    AsWrittenAgainstCorrected(date, now);
  }

  datatype Birthday = Birthday(id: string, name: string, date: IsoDate)

  /** The list the page starts with. */
  const InitialBirthdays: seq<Birthday> := [
    Birthday("1", "Maria Silva", "2024-01-15"),
    Birthday("2", "João Santos", "2024-01-08"),
    Birthday("3", "Ana Costa", "2024-02-20"),
    Birthday("4", "Pedro Oliveira", "2024-01-03")
  ]

  function BirthdayIdIsNot(id: string): Birthday -> bool
  {
    (b: Birthday) => b.id != id
  }

  /** `birthdays.filter((b) => b.id !== id)` */
  function WithoutBirthday(bs: seq<Birthday>, id: string): (r: seq<Birthday>)
    ensures |r| <= |bs|
    ensures forall i :: 0 <= i < |r| ==> r[i].id != id && r[i] in bs
    ensures forall i :: 0 <= i < |bs| && bs[i].id != id ==> bs[i] in r
  {
    Filter(bs, BirthdayIdIsNot(id))
  }

  /**
   * Deleting keeps exactly the records with another id, in their order, and
   * undoes adding a record under an id not yet in use.
   */
  lemma DeleteBirthdayKeepsOthers(bs: seq<Birthday>, id: string, b: Birthday)
    ensures forall i :: 0 <= i < |WithoutBirthday(bs, id)| ==> WithoutBirthday(bs, id)[i].id != id
    ensures forall i :: 0 <= i < |bs| && bs[i].id != id ==> bs[i] in WithoutBirthday(bs, id)
    ensures WithoutBirthday(bs + [b], id) == WithoutBirthday(bs, id) + (if b.id == id then [] else [b])
    ensures (forall i :: 0 <= i < |bs| ==> bs[i].id != b.id) ==> WithoutBirthday(bs + [b], b.id) == bs
  {
    FilterAppend(bs, [b], BirthdayIdIsNot(id));
    FilterAppend(bs, [b], BirthdayIdIsNot(b.id));
    FilterAll(bs, BirthdayIdIsNot(b.id));
  }

  /** Deleting an absent id changes nothing, and deleting twice is deleting once. */
  lemma DeleteBirthdayIdempotent(bs: seq<Birthday>, id: string)
    ensures (forall i :: 0 <= i < |bs| ==> bs[i].id != id) ==> WithoutBirthday(bs, id) == bs
    ensures WithoutBirthday(WithoutBirthday(bs, id), id) == WithoutBirthday(bs, id)
  {
    FilterAll(bs, BirthdayIdIsNot(id));
    FilterIdempotent(bs, BirthdayIdIsNot(id));
  }

  function AtMost(a: int, b: int): bool
  {
    a <= b
  }

  /** A birthday's countdown seen at `now`, as the page computes it: the sort key of the page. */
  function CountdownAt(now: Now): Birthday -> int
  {
    (b: Birthday) => DaysUntilAsWritten(b.date, now)
  }

  /** `[...birthdays].sort((a, b) => days(a) - days(b))`: a sorted copy. */
  function SortedBirthdays(bs: seq<Birthday>, now: Now): (r: seq<Birthday>)
    ensures multiset(r) == multiset(bs)
    ensures forall i, j :: 0 <= i < j < |r| ==> DaysUntilAsWritten(r[i].date, now) <= DaysUntilAsWritten(r[j].date, now)
  {
    SortBySorted(bs, CountdownAt(now), AtMost);
    SortBy(bs, CountdownAt(now), AtMost)
  }

  /** The sorted view holds the same records, by non-decreasing countdown, equal countdowns in list order. */
  lemma SortedBirthdaysSpec(bs: seq<Birthday>, now: Now)
    ensures multiset(SortedBirthdays(bs, now)) == multiset(bs)
    ensures forall i, j :: 0 <= i < j < |SortedBirthdays(bs, now)|
              ==> DaysUntilAsWritten(SortedBirthdays(bs, now)[i].date, now)
                  <= DaysUntilAsWritten(SortedBirthdays(bs, now)[j].date, now)
    ensures forall days :: WithKey(SortedBirthdays(bs, now), CountdownAt(now), days) == WithKey(bs, CountdownAt(now), days)
  {
    SortBySorted(bs, CountdownAt(now), AtMost);
    forall days {
      SortByStable(bs, CountdownAt(now), AtMost, days);
    }
  }

  function DueWithin30Days(now: Now): Birthday -> bool
  {
    (b: Birthday) => DaysUntilAsWritten(b.date, now) <= 30
  }

  function DueToday(now: Now): Birthday -> bool
  {
    (b: Birthday) => DaysUntilAsWritten(b.date, now) == 0
  }

  /** `birthdays.filter((b) => days(b) <= 30).length` */
  function UpcomingCount(bs: seq<Birthday>, now: Now): (n: nat)
    ensures n <= |bs|
    ensures n == 0 <==> forall i :: 0 <= i < |bs| ==> DaysUntilAsWritten(bs[i].date, now) > 30
  {
    Count(bs, DueWithin30Days(now))
  }

  /** `birthdays.filter((b) => days(b) === 0).length` */
  function TodayCount(bs: seq<Birthday>, now: Now): (n: nat)
    ensures n <= |bs|
    ensures n == 0 <==> forall i :: 0 <= i < |bs| ==> DaysUntilAsWritten(bs[i].date, now) != 0
  {
    Count(bs, DueToday(now))
  }

  /** At one clock reading, every birthday today is among those due within 30 days. */
  lemma CountersOrdered(bs: seq<Birthday>, now: Now)
    ensures TodayCount(bs, now) <= UpcomingCount(bs, now) <= |bs|
  {
    CountMonotone(bs, DueToday(now), DueWithin30Days(now));
  }

  /**
   * Found, as the page shows it: at 10:00 on 15 January 2024 the "today"
   * counter of the sample list is 0, although Maria Silva's birthday is that day.
   */
  lemma AsWrittenTodayCountMissesBirthday(now: Now)
    requires now == Clock(2024, 1, 15, 36000000)
    ensures DaysUntil(InitialBirthdays[0].date, now) == 0
    ensures TodayCount(InitialBirthdays, now) == 0
  {
    var bs := InitialBirthdays;
    assert Today(now) == 14;
    assert DaysUntilAsWritten(bs[0].date, now) == 366 by {
      assert MonthField(bs[0].date) == 1 && DayField(bs[0].date) == 15;
      AsWrittenAgainstCorrected(bs[0].date, now);
    }
    assert DaysUntilAsWritten(bs[1].date, now) != 0 by {
      assert MonthField(bs[1].date) == 1 && DayField(bs[1].date) == 8;
      AsWrittenAgainstCorrected(bs[1].date, now);
    }
    assert DaysUntilAsWritten(bs[2].date, now) != 0 by {
      assert MonthField(bs[2].date) == 2 && DayField(bs[2].date) == 20;
      AsWrittenAgainstCorrected(bs[2].date, now);
    }
    assert DaysUntilAsWritten(bs[3].date, now) != 0 by {
      assert MonthField(bs[3].date) == 1 && DayField(bs[3].date) == 3;
      AsWrittenAgainstCorrected(bs[3].date, now);
    }
  }

  /** The birthday page's state: the list of birthdays, replaced as a whole by each operation. */
  class BirthdayList {
    var birthdays: seq<Birthday>

    constructor ()
      ensures birthdays == InitialBirthdays
    {
      birthdays := InitialBirthdays;
    }

    /**
     * `addBirthday`: appends a record under `id` with the trimmed name when
     * the name is not blank and a date was picked (here the date input yields
     * either nothing or a `YYYY-MM-DD` string with a four-digit year);
     * otherwise nothing changes.
     */
    method AddBirthday(newName: string, newDate: string, id: string)
      requires newDate == "" || IsIsoDate(newDate)
      modifies this
      ensures !IsBlank(newName) && newDate != ""
              ==> birthdays == old(birthdays) + [Birthday(id, Trim(newName), newDate)]
      ensures IsBlank(newName) || newDate == "" ==> birthdays == old(birthdays)
    {
      if !IsBlank(newName) && newDate != "" {
        birthdays := birthdays + [Birthday(id, Trim(newName), newDate)];
      }
    }

    /** `deleteBirthday`: drops every record with this id. */
    method DeleteBirthday(id: string)
      modifies this
      ensures birthdays == WithoutBirthday(old(birthdays), id)
    {
      birthdays := WithoutBirthday(birthdays, id);
    }
  }
}
