# Task, birthday and reminder pages — a Dafny model

This project models the logic of a small personal-organiser web app. The
rendering is left out. The app has three pages and one card component:

- **Tasks** (`src/pages/Index.tsx`) is a to-do list. You can add a task (its
  text is trimmed and must not be blank), toggle it between done and pending,
  and delete it. Two counters show how many tasks are done and how many are
  pending.
- **Birthdays** (`src/pages/Birthdays.tsx`) is a list of names with
  `YYYY-MM-DD` dates.
  - Each birthday shows a countdown to the next yearly occurrence of its
    month and day.
  - The list is shown sorted by countdown.
  - Two counters show the birthdays due today and those due within 30 days.
- **Reminders** (`src/pages/Reminders.tsx`) holds reminders that have a date,
  a time, a category (personal or work) and a notification channel.
  - A reminder is added from a form and deleted by id.
  - The view shows one category, or all of them, sorted by date and time.
  - Per-category counters are taken over the whole list.
- **BirthdayCard** (`src/components/BirthdayCard.tsx`) renders one birthday.
  - It decides whether the birthday is today or soon.
  - It picks the countdown line ("Hoje é o dia!", "Amanhã" or
    "Faltam N dias").
  - It renders the stored date as "{day} de {month}" in Portuguese.

Every page keeps its list in component state and replaces the whole list on
each operation. So each page is a class with a `seq` field:

- `Tasks.TaskList`
- `Birthdays.BirthdayList`
- `Reminders.ReminderList`

Each method assigns the new list. Its `ensures` ties the new list to a pure
function of the old one, and lemmas prove what the app promises about those
functions. The derived views and counters are pure functions.

Three shared modules hold the library behaviour the pages rely on:

- `Collections`: `filter`, `filter(...).length`, and a stable sort by a key.
  JavaScript's `Array.prototype.sort` is stable. A stable sort by a total
  preorder has exactly one possible result, so the stable insertion sort
  used here gives the same output.
- `Text`:
  - `String.prototype.trim` and its truthiness test;
  - `split` on a one-character separator;
  - reading digits as `Number`/`parseInt` does;
  - `${n}` rendering of a number;
  - the character-by-character order on date and time strings, which stands
    for the order of the instants they name.
- `Calendar`: Gregorian day arithmetic, and `YYYY-MM-DD` date strings with a
  four-digit year (1 to 9999).

The countdown works in whole days counted from 1 January of the current year:

- "now" is a parameter: the local calendar day plus the milliseconds since its
  midnight.
- A stored day past the end of its month rolls over into the next month, as
  `new Date(y, m - 1, d)` does. This matters for 29 February in a common year.
- Milliseconds are used only where the source compares instants and rounds
  up.

## Model

| member | source | states |
|---|---|---|
| Tasks.Toggled | src/pages/Index.tsx:33-39 | toggling keeps the length, every id and every text, and flips `completed` exactly on the tasks whose id matches |
| Tasks.ToggleInvolution | src/pages/Index.tsx:33-39 | toggling the same id twice gives back the original list; toggling an id that no task has changes nothing |
| Tasks.WithoutTask | src/pages/Index.tsx:42 | no task left has the id, every task left comes from the list, and every task with another id stays; order and idempotence are in the two lemmas below |
| Tasks.DeleteTaskKeepsOthers | src/pages/Index.tsx:41-43 | after a delete no task has the id; every task with another id is kept, in its order; deleting the id of a freshly appended task whose id was unused undoes the append |
| Tasks.DeleteTaskIdempotent | src/pages/Index.tsx:41-43 | deleting an absent id changes nothing, and deleting twice is the same as deleting once |
| Tasks.CompletedCount | src/pages/Index.tsx:45 | the counter is at most the number of tasks, and it is 0 exactly when no task is done |
| Tasks.PendingCount | src/pages/Index.tsx:46 | the counter is at most the number of tasks, and it is 0 exactly when every task is done |
| Tasks.CountsPartition | src/pages/Index.tsx:45-46 | completed count plus pending count equals the number of tasks |
| Tasks.TaskList.constructor | src/pages/Index.tsx:15-20 | the page starts with the four sample tasks |
| Tasks.TaskList.AddTask | src/pages/Index.tsx:23-31 | a blank input changes nothing; otherwise exactly one pending task with the trimmed text is appended after the unchanged old list |
| Tasks.TaskList.ToggleTask | src/pages/Index.tsx:33-39 | the new list is the toggled old list |
| Tasks.TaskList.DeleteTask | src/pages/Index.tsx:41-43 | the new list is the old list without the tasks of that id |
| Birthdays.CeilDays | src/pages/Birthdays.tsx:35 | the result is the least whole number of days whose length covers the millisecond difference |
| Birthdays.DaysUntilAsWritten | src/pages/Birthdays.tsx:24-38 | the countdown as the page computes it lies between 0 and 366; its relation to the nearest occurrence is `AsWrittenAgainstCorrected` |
| Birthdays.DaysUntil | src/pages/Birthdays.tsx:24-38 | the corrected countdown lies between 0 and 365 and is 0 exactly when the birthday is today; that it is the nearest occurrence is `DaysUntilNearestOccurrence` |
| Birthdays.ThisYearsDayInYear | src/pages/Birthdays.tsx:28 | this year's date for a stored month and day, and today, both fall inside the current year |
| Birthdays.NextYearAfterToday | src/pages/Birthdays.tsx:28-31 | next year's occurrence lies after today, and it is a year (365 or 366 days, give or take the leap day) after this year's |
| Birthdays.AsWrittenAgainstCorrected | src/pages/Birthdays.tsx:24-38 | the countdown as written is never negative and never 365. If this year's date is still ahead, it is the whole-day difference (0 if that is 365). Otherwise it agrees with the nearest-occurrence countdown except in the two leap-year cases listed under Findings |
| Birthdays.DaysUntilNearestOccurrence | src/pages/Birthdays.tsx:28-37 | the corrected countdown is between 0 and 365. It lands on an occurrence of the month and day, and no occurrence at or after today comes sooner. It is 0 exactly when the birthday is today |
| Birthdays.CountdownTicksDown | src/pages/Birthdays.tsx:24-38 | one day later in the same year, the corrected countdown, if it has not reached 0, is one smaller (the page's own countdown does not always tick: see Findings) |
| Birthdays.CountdownTicksOverYearEnd | src/pages/Birthdays.tsx:24-38 | from 31 December to 1 January, the corrected countdown, if it has not reached 0, is one smaller |
| Birthdays.CountdownResets | src/pages/Birthdays.tsx:24-38 | the day after the birthday, within the same year, the corrected countdown starts again at 364 or 365 |
| Birthdays.CountdownResetsOverYearEnd | src/pages/Birthdays.tsx:24-38 | the day after a birthday on 31 December, which is 1 January of the next year, the corrected countdown starts again at 364 or 365 |
| Birthdays.YearIgnored | src/pages/Birthdays.tsx:26-31 | two dates with the same month and day get the same countdown, both as written and corrected; the stored year plays no part |
| Birthdays.DaysUntilExample | src/pages/Birthdays.tsx:24-38 | on 15 January 2024, at any time of day, a birthday on 20 February is 36 days away |
| Birthdays.AsWrittenMissesTodayBeforeLeapDay | src/pages/Birthdays.tsx:37 | at 10:00 on 15 January 2024, a birthday on 15 January is reported as 366 days away; the corrected countdown gives 0 |
| Birthdays.AsWrittenReportsYesterdayAsToday | src/pages/Birthdays.tsx:37 | at 10:00 on 2 March 2023, a birthday on 1 March is reported as today (0); it is really 365 days away |
| Birthdays.WithoutBirthday | src/pages/Birthdays.tsx:52 | no record left has the id, every record left comes from the list, and every record with another id stays; order and idempotence are in the two lemmas below |
| Birthdays.DeleteBirthdayKeepsOthers | src/pages/Birthdays.tsx:51-53 | after a delete no record has the id; every record with another id is kept, in its order; deleting a freshly appended unused id undoes the append |
| Birthdays.DeleteBirthdayIdempotent | src/pages/Birthdays.tsx:51-53 | deleting an absent id changes nothing, and deleting twice is the same as deleting once |
| Birthdays.SortedBirthdays | src/pages/Birthdays.tsx:55-57 | the view is a permutation of the list, ordered by the countdown as the page computes it; stability is in `SortedBirthdaysSpec` |
| Birthdays.SortedBirthdaysSpec | src/pages/Birthdays.tsx:55-57 | the sorted view is a permutation of the list, its countdowns (as the page computes them) never decrease, and records with equal countdowns keep their list order |
| Birthdays.UpcomingCount | src/pages/Birthdays.tsx:59 | the counter is at most the list's length, and it is 0 exactly when every countdown exceeds 30; with `CountersOrdered` below |
| Birthdays.TodayCount | src/pages/Birthdays.tsx:60 | the counter is at most the list's length, and it is 0 exactly when no countdown is 0; with `CountersOrdered` below |
| Birthdays.CountersOrdered | src/pages/Birthdays.tsx:59-60 | at one clock reading, over the countdown as the page computes it, birthdays today never outnumber those due within 30 days, and those never outnumber the list |
| Birthdays.AsWrittenTodayCountMissesBirthday | src/pages/Birthdays.tsx:37-60 | at 10:00 on 15 January 2024 the sample list's "today" counter is 0, although the first sample birthday falls that day |
| Birthdays.BirthdayList.constructor | src/pages/Birthdays.tsx:15-20 | the page starts with the four sample birthdays |
| Birthdays.BirthdayList.AddBirthday | src/pages/Birthdays.tsx:40-49 | with a non-blank name and a chosen date, exactly one record with the trimmed name and that date is appended after the unchanged old list; otherwise nothing changes |
| Birthdays.BirthdayList.DeleteBirthday | src/pages/Birthdays.tsx:51-53 | the new list is the old list without the records of that id |
| Reminders.FromForm | src/pages/Reminders.tsx:84-88 | the new reminder carries every form field unchanged (the title untrimmed), the given id, and `notified` false |
| Reminders.WithoutReminder | src/pages/Reminders.tsx:103 | no reminder left has the id, every reminder left comes from the list, and every reminder with another id stays; order and idempotence are in the two lemmas below |
| Reminders.DeleteReminderKeepsOthers | src/pages/Reminders.tsx:102-104 | after a delete no reminder has the id; every reminder with another id is kept, in its order; deleting a freshly appended unused id undoes the append |
| Reminders.DeleteReminderIdempotent | src/pages/Reminders.tsx:102-104 | deleting an absent id changes nothing, and deleting twice is the same as deleting once |
| Reminders.InstantLeTotalPreorder | src/pages/Reminders.tsx:108-112 | comparing (date, time) instants is total and transitive, so the sort is well defined |
| Reminders.FilteredReminders | src/pages/Reminders.tsx:106-112 | the view is never longer than the list, and with "all" it holds every reminder; the full contract is `FilteredRemindersSpec` |
| Reminders.FilteredRemindersSpec | src/pages/Reminders.tsx:106-112 | the view holds exactly the reminders of the selected category (all of them for "all"), each as often as in the list. It is ordered by (date, time), and reminders at the same instant keep their list order |
| Reminders.WorkCount | src/pages/Reminders.tsx:119 | the counter is at most the number of reminders, and it is 0 exactly when every reminder is personal |
| Reminders.PersonalCount | src/pages/Reminders.tsx:120 | the counter is at most the number of reminders, and it is 0 exactly when every reminder is work |
| Reminders.CategoryCountsPartition | src/pages/Reminders.tsx:119-120 | the work count plus the personal count equals the number of reminders |
| Reminders.CountIsFilteredLength | src/pages/Reminders.tsx:106-107 | each category's counter equals the length of the view filtered to that category |
| Reminders.FilterSameTest | src/pages/Reminders.tsx:107 | two filters with the same test keep the same reminders |
| Reminders.InitialWorkView | src/pages/Reminders.tsx:36-66 | the sample list has two work reminders and one personal one, and the "work" view shows two |
| Reminders.ReminderList.constructor | src/pages/Reminders.tsx:36-78 | the page starts with the three sample reminders and the "all" filter |
| Reminders.ReminderList.AddReminder | src/pages/Reminders.tsx:80-100 | with a non-blank title, a date and a time, exactly the form's reminder is appended after the unchanged old list; otherwise nothing changes; the filter is untouched |
| Reminders.ReminderList.DeleteReminder | src/pages/Reminders.tsx:102-104 | the new list is the old list without the reminders of that id; the filter is untouched |
| Reminders.ReminderList.SetFilterCategory | src/pages/Reminders.tsx:78 | choosing a filter leaves the list and both category counters as they were |
| BirthdayCard.Classify | src/components/BirthdayCard.tsx:14-15 | the card is "today" exactly at 0 and "soon" exactly from 1 to 7 days; no card is both |
| BirthdayCard.CountdownLabel | src/components/BirthdayCard.tsx:68-77 | the line is the "today" banner exactly at 0 and "Amanhã" exactly at 1; for any other value it reads "Faltam … dias" |
| BirthdayCard.LabelSpellsDays | src/components/BirthdayCard.tsx:75 | from two days on, the number between "Faltam " and " dias" is the countdown written in decimal |
| BirthdayCard.LabelInjective | src/components/BirthdayCard.tsx:68-77 | two different non-negative countdowns never get the same line |
| BirthdayCard.MonthName | src/components/BirthdayCard.tsx:19-23 | the table has 12 entries; month 1 is "Janeiro" and month 12 is "Dezembro" |
| BirthdayCard.MonthNamesDistinct | src/components/BirthdayCard.tsx:19-22 | no two months share a name |
| BirthdayCard.FormatDateDay | src/components/BirthdayCard.tsx:23 | the rendered day is the stored day without its leading zero |
| BirthdayCard.FormatDate | src/components/BirthdayCard.tsx:17-24 | renders the stored date; its contract is `FormatDateSpec` and `FormatDateIgnoresYear` |
| BirthdayCard.FormatDateSpec | src/components/BirthdayCard.tsx:17-24 | the rendering is the day without its leading zero, " de ", and the name at index month − 1 |
| BirthdayCard.FormatDateIgnoresYear | src/components/BirthdayCard.tsx:18 | dates with the same month and day render the same |
| BirthdayCard.FormatDateJanuaryExample | src/components/BirthdayCard.tsx:17-24 | "2024-01-08" renders as "8 de Janeiro" |
| BirthdayCard.FormatDateFebruaryExample | src/components/BirthdayCard.tsx:17-24 | "2024-02-20" renders as "20 de Fevereiro" |
| Calendar.DaysBeforeMonthShift | src/pages/Birthdays.tsx:28-31 | a leap year moves every date from March on one day later relative to 1 January; January and February do not move |
| Calendar.DaysBeforeDecember | src/pages/Birthdays.tsx:31 | the months before December hold the whole year except its last 31 days |
| Calendar.ValidDateInYear | src/pages/Birthdays.tsx:28 | a valid month and day fall inside their own year |
| Calendar.DaysBeforeMonthMonotone | src/pages/Birthdays.tsx:28 | every month has at least 28 days, so later months start later |
| Calendar.IsoDateFields | src/pages/Birthdays.tsx:26 | splitting a `YYYY-MM-DD` date on "-" gives its year, month and day fields |
| Calendar.TwoDigitValue | src/components/BirthdayCard.tsx:23 | a two-digit field reads as the number it spells |
| Calendar.MonthField | src/pages/Birthdays.tsx:26 | the second field of the split, read as a number, is the month, between 1 and 12 |
| Calendar.DayField | src/pages/Birthdays.tsx:26 | the third field of the split, read as a number, is the day, between 1 and 31 |
| Text.TrimStart | src/pages/Index.tsx:24 | drops exactly the leading whitespace |
| Text.TrimEnd | src/pages/Index.tsx:24 | drops exactly the trailing whitespace |
| Text.Trim | src/pages/Index.tsx:24 | the result is a slice of the input, with only whitespace around it in the input, and it neither starts nor ends with whitespace |
| Text.BlankIffAllWhitespace | src/pages/Index.tsx:24 | an input is rejected as blank exactly when it is all whitespace |
| Text.TrimIdempotent | src/pages/Index.tsx:27 | trimming the stored text again changes nothing |
| Text.Split | src/pages/Birthdays.tsx:26 | splitting gives at least one piece, no piece contains the separator, and joining the pieces gives back the input |
| Text.SplitJoin | src/components/BirthdayCard.tsx:18 | splitting undoes joining when no piece holds the separator |
| Text.SplitAfterPrefix | src/components/BirthdayCard.tsx:18 | a separator-free prefix sticks to the first piece of the split |
| Text.NatToString | src/components/BirthdayCard.tsx:23 | a number renders as digits with no leading zero, and they read back as the number |
| Text.IntToString | src/components/BirthdayCard.tsx:75 | a non-negative number renders as digits with no leading zero that read back as the number; a negative one as "-" followed by such digits for its magnitude |
| Text.StripLeadingZeros | src/components/BirthdayCard.tsx:23 | the result is a suffix of the input, everything dropped is a zero, and it has no leading zero unless it is "0" |
| Text.LeadingZeroInsignificant | src/components/BirthdayCard.tsx:23 | a leading zero does not change a number's value |
| Text.StripPreservesValue | src/components/BirthdayCard.tsx:23 | removing leading zeros keeps the value |
| Text.PositiveWithoutLeadingZero | src/components/BirthdayCard.tsx:23 | digits with no leading zero name a positive number |
| Text.CanonicalDigitsRoundTrip | src/components/BirthdayCard.tsx:23 | digits with no leading zero are the rendering of their own value |
| Text.RenderDropsLeadingZeros | src/components/BirthdayCard.tsx:23 | reading a digit string and rendering it again drops its leading zeros |
| Text.DigitChar | src/components/BirthdayCard.tsx:23 | a digit character reads back as its digit |
| Text.LexLeTotal | src/pages/Reminders.tsx:108-112 | the order on date and time strings that stands for instants is total |
| Text.LexLeTransitive | src/pages/Reminders.tsx:108-112 | that order is transitive |
| Text.LexLeAntisymmetric | src/pages/Reminders.tsx:108-112 | strings that are each at most the other are equal |
| Collections.Filter | src/pages/Index.tsx:42 | the filtered list is no longer than the list; every element of it comes from the list and passes the test, and every element of the list that passes is in it |
| Collections.FilterAppend | src/pages/Index.tsx:42 | filtering distributes over appending |
| Collections.FilterAll | src/pages/Index.tsx:42 | a filter leaves a list unchanged exactly when every element passes |
| Collections.FilterIdempotent | src/pages/Index.tsx:42 | filtering twice with the same test is filtering once |
| Collections.Count | src/pages/Index.tsx:45-46 | a count is at most the length, and it is 0 exactly when no element passes |
| Collections.CountComplement | src/pages/Index.tsx:45-46 | the counts for a test and its negation add up to the length |
| Collections.CountMonotone | src/pages/Birthdays.tsx:59-60 | a test implied by another counts at least as many elements |
| Collections.Insert | src/pages/Birthdays.tsx:55-57 | the result holds the list's elements plus exactly the inserted one |
| Collections.SortBy | src/pages/Birthdays.tsx:55-57 | sorting is a permutation of the list |
| Collections.SortedCons | src/pages/Birthdays.tsx:55-57 | an element no greater than every element of a sorted list keeps it sorted when placed in front |
| Collections.InsertSorted | src/pages/Birthdays.tsx:55-57 | inserting into a sorted list keeps it sorted |
| Collections.SortBySorted | src/pages/Birthdays.tsx:55-57 | with a total, transitive order the result is sorted by key |
| Collections.FilterSwap | src/pages/Reminders.tsx:108-112 | two elements can swap places without changing a filter's result when at most one of them passes |
| Collections.InsertStable | src/pages/Reminders.tsx:108-112 | inserting keeps the relative order of elements with equal keys |
| Collections.SortByStable | src/pages/Reminders.tsx:108-112 | the sort keeps the relative order of elements with equal keys |

## Left out

- `src/components/TaskItem.tsx` is not part of this model. It only renders a
  task and forwards clicks to the toggle and delete handlers.
- All JSX, CSS class selection, icons, animation delays, `Layout` and the
  widgets are left out as presentation. The card's styling branch is kept
  only as `Classify`.
- Wall-clock access is a parameter. `new Date()` becomes the `Now` value and
  `Date.now().toString()` becomes the `id` argument of each add method.
- One `Now` value stands for every clock reading in a render. The page reads
  the clock again on each call of `getDaysUntilBirthday`: once per comparison
  in the sort, once per record in each counter and once per card. A render
  that straddles midnight can mix two days, and the model does not capture
  that.
- Birthdays.CountersOrdered: is stated at one clock reading for both
  counters. Read at either side of midnight, the two counters can disagree
  with it: for a birthday on 15 January 2024, `upcomingCount` at
  23:59:59.999 sees 366, and `todayCount` a moment later sees 365 patched
  to 0.
- Ids are not assumed to be unique, since `Date.now()` does not guarantee it.
  Delete and toggle act on every record with the id.
- Time zones and daylight-saving shifts are left out. Every day is 86 400 000
  ms long.
- Birthdays.CeilDays: rounds up the exact quotient of whole numbers. The
  source divides in floating point, which is not exact (86 399 999 / 86 400 000
  has no exact binary value). For differences of at most about 367 days the
  rounding error stays far below 1 / 86 400 000, so the ceiling is the same.
- Years below 100 are excluded from `Now`, because `new Date(y, …)` reads
  them as 1900 + y.
- Birthdays.BirthdayList.AddBirthday: requires the date to be empty or a
  valid `YYYY-MM-DD` string with a four-digit year. A date input can also
  yield years of five or more digits (such as "275760-01-01"). The source
  handles those, because it reads only the month and day fields of the
  split. The model leaves such years out. A malformed date gives `NaN` in the
  source, and NaN is not modelled.
- Reminders.InstantOf: compares (date, time) as a pair of strings. This
  matches the source's `Date` comparison for well-formed `YYYY-MM-DD` and
  `HH:MM` inputs. Malformed inputs, which give `NaN` and an unspecified sort
  order in the source, are not modelled.
- `formatDateTime` (src/pages/Reminders.tsx:114-117) is left out. It only
  calls the `date-fns` `format` function with the Portuguese locale, and that
  library is outside this model.
- Resetting the form fields after an add (`setNewTask("")`,
  `setNewName("")`, `setNewDate("")`, `setNewReminder(...)`,
  `setShowForm(false)`) is left out. Only the lists and the category filter
  are state here.
- The `notified` flag is modelled only as the `false` it starts with, since
  nothing changes it. The e-mail notice is presentation.
- The `Task` record has no `createdAt` or `completedAt` field, and the page
  does not split the list into done and pending groups; it only counts them.
  The model follows the code.

## Findings

| source | as written | input that shows it | evidently intended | confidence | as-written member | corrected member |
|---|---|---|---|---|---|---|
| src/pages/Birthdays.tsx:37 | after rounding up, the countdown maps exactly 365 to 0, to catch a birthday that is today but already past midnight | (1) at 10:00 on 15 January 2024, a birthday on 15 January: next year's occurrence is 366 days away, so 366 is reported, not 0. (2) at 10:00 on 2 March 2023, a birthday on 1 March: it is genuinely 365 days away (29 February 2024 lies between), and it is reported as 0, "today". On the page, case (1) puts the sample birthday of 15 January last in the sorted list and leaves the "today" counter at 0 (Birthdays.AsWrittenTodayCountMissesBirthday) | 0 exactly when the birthday falls today; otherwise the whole days until the next occurrence | high (proved on the model, not executed) | Birthdays.AsWrittenMissesTodayBeforeLeapDay | Birthdays.DaysUntilNearestOccurrence |
