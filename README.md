# Daily Gratitude journal — a verified model

The Daily Gratitude app is a one-page journal. Each calendar day can hold
one piece of text, stored under a key such as `2024-3-6`: the year, the
month counted from 1, and the day, with no zero-padding. The page shows a
month grid that marks the selected day and the days that have an entry. It
also shows the total number of entries and the current streak: the number
of consecutive days with an entry, counted back from today, or from
yesterday when today has nothing yet. The text box saves its content with
a one-second debounce.

This project models that core in Dafny:

- `calendar.dfy` (`Calendar`): proleptic Gregorian dates with a zero-based
  month, as JavaScript's `Date` getters give them, with the time of day
  dropped, and the year mapping of the multi-argument `Date` constructor.
  It covers leap years, month lengths, the previous and next day with month
  and year rollover, day numbers and weekdays.
- `date_key.dfy` (`DateKey`): `formatDateKey` and `isSameDate`. It adds a
  decoder, used only to prove that distinct dates get distinct keys.
- `entry_store.dfy` (`EntryStore`): the store as a `map<string, string>`.
  It has `String.prototype.trim` over ASCII whitespace, the store update
  `saveEntry` performs, and JavaScript truthiness of a stored value.
- `streak.dfy` (`Streak`): what `calculateStreak` computes, defined as a
  maximal run of days with entries.
- `month_view.dfy` (`MonthView`): the cells `renderCalendar` draws, as a
  pure grid. It also has the month navigation buttons, both as JavaScript
  performs them and corrected.
- `journal.dfy` (`GratitudeApp`): the page's mutable state, as the class
  `Journal`. Its methods do what the handlers do: saving, selecting a day,
  moving the month as the source does (with corrected variants beside
  them), the streak loop and the two rendering loops.
- `debounce.dfy` (`Debounce`): `debounce` as a state machine over call and
  clock events. It has a class `Debouncer` holding the pending timer.

## Model

| member | source | states |
|---|---|---|
| GratitudeApp.Journal.constructor | projects/DailyGratitudeApp/script.js:3-5 | Both dates start at today. The entries are the stored map, or empty when `stored` is `None`, which stands for a missing item or a falsy parsed value (`null`, `false`, `0`, `""`). |
| GratitudeApp.Journal.SaveEntry | projects/DailyGratitudeApp/script.js:116-124 | The selected day's key gets the trimmed input, or is deleted when that is empty. Every other key and value is unchanged. Reloading the selected day's text (line 144) then gives the trimmed input. |
| EntryStore.Put | projects/DailyGratitudeApp/script.js:120-124 | The saved key is present exactly when the content is non-empty, and then holds it. Other keys keep their presence and values. |
| EntryStore.Trim | projects/DailyGratitudeApp/script.js:118 | Definition of trim over ASCII whitespace; its properties are stated by `EntryStore.TrimSlice`, `EntryStore.TrimEmptyIffAllSpace` and `EntryStore.TrimIdempotent`. |
| EntryStore.Truthy | projects/DailyGratitudeApp/script.js:161-166 | Definition of a truthy stored value: the key is present with non-empty text. |
| EntryStore.HasEntry | projects/DailyGratitudeApp/script.js:92-94 | Definition of a day having an entry: its key is truthy (the tests at lines 92, 161 and 166). |
| EntryStore.StoredText | projects/DailyGratitudeApp/script.js:144 | The text shown, `entries[dateStr]` or else the empty string: it is empty exactly when the key is not truthy, and is the stored value otherwise. |
| GratitudeApp.Journal.EditorText | projects/DailyGratitudeApp/script.js:143-144 | The editor is empty exactly when the selected day has no entry. |
| GratitudeApp.Journal.TotalEntries | projects/DailyGratitudeApp/script.js:148-149 | Definition of the total: the number of keys; its properties are stated by `EntryStore.PutCount` and `EntryStore.TotalCountsEntries`. |
| EntryStore.StoredTextAfterPut | projects/DailyGratitudeApp/script.js:120-124 | Reading a key back after saving gives the saved content. The key counts as an entry exactly when the content is non-empty. |
| EntryStore.PutLastWins | projects/DailyGratitudeApp/script.js:120-124 | A second save of a key completely overrides the first. |
| EntryStore.PutIdempotent | projects/DailyGratitudeApp/script.js:118-124 | Saving the same content twice leaves the same store as saving it once. |
| EntryStore.PutNoEmptyValues | projects/DailyGratitudeApp/script.js:120-124 | A store without empty text stays without empty text after a save. |
| EntryStore.PutCount | projects/DailyGratitudeApp/script.js:148-149 | The total goes up by one for a new key and down by one for an emptied existing key. Otherwise it stays the same. |
| EntryStore.TotalCountsEntries | projects/DailyGratitudeApp/script.js:148-149 | When no value is empty, the total number of keys is the number of keys holding non-empty text. |
| EntryStore.SkipSpace | projects/DailyGratitudeApp/script.js:118 | Returns the end of the run of whitespace starting at k. |
| EntryStore.BackSpace | projects/DailyGratitudeApp/script.js:118 | Returns the start of the run of whitespace ending at k. |
| EntryStore.TrimSlice | projects/DailyGratitudeApp/script.js:118 | The trimmed text is a slice of the input. Everything cut off is whitespace, and the result neither starts nor ends with whitespace. |
| EntryStore.TrimEmptyIffAllSpace | projects/DailyGratitudeApp/script.js:118-120 | The trimmed text is empty exactly when the input is all whitespace. |
| EntryStore.TrimIdempotent | projects/DailyGratitudeApp/script.js:118 | Trimming twice is trimming once. |
| GratitudeApp.Journal.SelectDate | projects/DailyGratitudeApp/script.js:104-105 | The clicked day becomes the selected one, and nothing else changes. |
| GratitudeApp.Journal.PrevMonth | projects/DailyGratitudeApp/script.js:42-43 | The view date becomes JavaScript's `setMonth(getMonth() - 1)`: the valid date day - 1 days after the first of the previous month. That is the previous month when the day exists there and the same month otherwise. Entries and selection are unchanged. |
| GratitudeApp.Journal.NextMonth | projects/DailyGratitudeApp/script.js:47-48 | The view date becomes JavaScript's `setMonth(getMonth() + 1)`: the valid date day - 1 days after the first of the next month. That is the next month when the day exists there and the month after otherwise. Entries and selection are unchanged. |
| GratitudeApp.Journal.PrevMonthCorrected | projects/DailyGratitudeApp/script.js:42-43 | The corrected button: the view moves exactly one month back, as a valid date. Entries and selection are unchanged. |
| GratitudeApp.Journal.NextMonthCorrected | projects/DailyGratitudeApp/script.js:47-48 | The corrected button: the view moves exactly one month on, as a valid date. Entries and selection are unchanged. |
| GratitudeApp.Journal.CalculateStreak | projects/DailyGratitudeApp/script.js:154-173 | The returned count is the streak: every counted day has an entry, and the day just before the run has none. |
| Streak.DaysBefore | projects/DailyGratitudeApp/script.js:162-168 | Definition of n steps of `setDate(getDate() - 1)`; stated by `Streak.DaysBeforeNumber` and `Streak.DaysBeforeAdd`. |
| Streak.StreakStart | projects/DailyGratitudeApp/script.js:159-164 | Definition of the first day examined: today if it has an entry, else yesterday; stated by `Streak.StreakStartDay`. |
| Streak.IsStreak | projects/DailyGratitudeApp/script.js:154-173 | Definition of the streak: the days from the start day back all have entries and the next one back does not; stated by `Streak.StreakUnique` and `Streak.StreakZero`. |
| GratitudeApp.StreakBegins | projects/DailyGratitudeApp/script.js:159-164 | The walk starts on today when it has an entry and on yesterday otherwise, and that day is valid. |
| GratitudeApp.WalkStep | projects/DailyGratitudeApp/script.js:166-170 | Counting a day with an entry extends the run and leaves fewer stored keys uncounted, so the loop ends. |
| GratitudeApp.WalkDone | projects/DailyGratitudeApp/script.js:166-172 | When the walk reaches a day without an entry, the days counted form the maximal run. |
| GratitudeApp.CountedKeysStored | projects/DailyGratitudeApp/script.js:166-170 | The keys of the days counted are all keys of the store. |
| GratitudeApp.NextKeyFresh | projects/DailyGratitudeApp/script.js:168-169 | The next day the walk looks at has a key that no day counted so far has. |
| GratitudeApp.DistinctDaysBack | projects/DailyGratitudeApp/script.js:168-169 | Different distances back from a valid date give different keys. |
| Streak.DaysBeforeNumber | projects/DailyGratitudeApp/script.js:162-168 | Stepping back n days from a valid date gives the valid date n day numbers earlier. |
| Streak.StreakStartDay | projects/DailyGratitudeApp/script.js:161-163 | The count starts on a valid day: today if it has an entry, else the day one before it. |
| Streak.RunFromAll | projects/DailyGratitudeApp/script.js:166-170 | Counting the run one day at a time agrees with every day of the run having an entry, in both directions. |
| Streak.RunFromAt | projects/DailyGratitudeApp/script.js:166-170 | Every day of a run counted one at a time has an entry. |
| Streak.RunFromOfAll | projects/DailyGratitudeApp/script.js:166-170 | Days that all have entries form a run counted one at a time. |
| Streak.RunFromNotAll | projects/DailyGratitudeApp/script.js:166-170 | A run that fails when counted one day at a time misses some day. |
| Streak.StreakUnique | projects/DailyGratitudeApp/script.js:154-173 | At most one count is a streak, so the streak is determined by the entries and today. |
| Streak.StreakNeverLooksAhead | projects/DailyGratitudeApp/script.js:156-170 | Every day the walk examines lies between today and the day just before the counted run. |
| Streak.StreakZero | projects/DailyGratitudeApp/script.js:160-172 | The streak is 0 exactly when neither today nor yesterday has an entry. |
| Streak.StreakOfRunEndingToday | projects/DailyGratitudeApp/script.js:160-170 | With entries on the n days ending today and none on the day before them, the streak is n. |
| Streak.StreakOfRunEndingYesterday | projects/DailyGratitudeApp/script.js:160-170 | With no entry today, entries on the n days ending yesterday and none before them, the streak is n. |
| Streak.DaysBeforeAdd | projects/DailyGratitudeApp/script.js:162-168 | Going back m days and then n more is going back m + n days. |
| Streak.DayNumberOfDaysBefore | projects/DailyGratitudeApp/script.js:162-168 | A valid date is determined by its distance back from another. |
| Streak.MarchKeys | projects/DailyGratitudeApp/script.js:231-233 | The keys of 4 to 7 March 2024 are `2024-3-4` to `2024-3-7`. |
| Streak.ScenarioTwoDays | projects/DailyGratitudeApp/script.js:154-173 | Entries on 5 and 6 March 2024, with today 6 March 2024, give a streak of 2. |
| Streak.ScenarioGap | projects/DailyGratitudeApp/script.js:154-173 | An entry on 5 March only, with today 7 March, gives a streak of 0. |
| Streak.ScenarioEmpty | projects/DailyGratitudeApp/script.js:154-173 | With no entries the streak is 0 on any day. |
| Calendar.DaysInMonth | projects/DailyGratitudeApp/script.js:70 | A month has 28 to 31 days. February has 29 exactly in a leap year. |
| Calendar.PrevDay | projects/DailyGratitudeApp/script.js:162-168 | Definition of `setDate(getDate() - 1)` with month and year rollover; stated by `Calendar.PrevDayProperties`. |
| Calendar.ConstructorYear | projects/DailyGratitudeApp/script.js:69-85 | Definition of the multi-argument `Date` constructor's year: 0..99 becomes 1900..1999. |
| Calendar.YearLength | projects/DailyGratitudeApp/script.js:162-168 | A year has 366 days exactly when it is a Gregorian leap year, else 365. |
| Calendar.MonthLength | projects/DailyGratitudeApp/script.js:162-168 | The first of the next month lies a month's length after the first of this month, across a year boundary too. |
| Calendar.PrevDayStep | projects/DailyGratitudeApp/script.js:162-168 | The previous day of a valid date is valid and one day number earlier. |
| Calendar.PrevDayAcrossMonth | projects/DailyGratitudeApp/script.js:162-168 | From the first of a month other than January, the previous day is valid and one day number earlier. |
| Calendar.PrevDayAcrossYear | projects/DailyGratitudeApp/script.js:162-168 | From 1 January, the previous day is valid and one day number earlier. |
| Calendar.PrevDayProperties | projects/DailyGratitudeApp/script.js:162-168 | The previous day is valid and one day number earlier, and the next day undoes it. |
| Calendar.NextDayProperties | projects/DailyGratitudeApp/script.js:162-168 | The next day is valid and one day number later, and the previous day undoes it. |
| Calendar.WeekdayNext | projects/DailyGratitudeApp/script.js:69 | Consecutive days have consecutive weekdays. |
| Calendar.Weekday | projects/DailyGratitudeApp/script.js:69 | The weekday lies in 0..6. |
| Calendar.WeekdayAnchors | projects/DailyGratitudeApp/script.js:69 | The weekday is getDay's: 1 January 1970 gives 4 (Thursday), 1 March 2024 gives 5, 1 January 2000 gives 6. |
| Calendar.DayNumberBounds | projects/DailyGratitudeApp/script.js:162-168 | A valid date's day number lies within its year and within its month. |
| Calendar.DayNumberYearOrder | projects/DailyGratitudeApp/script.js:162-168 | A valid date in an earlier year has a smaller day number. |
| Calendar.DayNumberMonthOrder | projects/DailyGratitudeApp/script.js:162-168 | A valid date in an earlier month of the same year has a smaller day number. |
| Calendar.DayNumberInjective | projects/DailyGratitudeApp/script.js:162-168 | Distinct valid dates have distinct day numbers. |
| Calendar.DaysBeforeMonthMonotone | projects/DailyGratitudeApp/script.js:162-168 | A later month starts no earlier in the year. |
| Calendar.DaysBeforeYearMonotone | projects/DailyGratitudeApp/script.js:162-168 | A later year starts no earlier than the year after an earlier one. |
| DateKey.NatToString | projects/DailyGratitudeApp/script.js:232 | The decimal form is non-empty, all digits, and has no leading zero. |
| DateKey.Encode | projects/DailyGratitudeApp/script.js:231-233 | Definition of formatDateKey; stated by `DateKey.DecodeEncode` and `DateKey.EncodeInjective`. |
| DateKey.SameDate | projects/DailyGratitudeApp/script.js:235-239 | Definition of isSameDate; stated by `DateKey.SameDateIffSameKey`. |
| DateKey.ParseNatToString | projects/DailyGratitudeApp/script.js:232 | Reading a number's decimal form gives back the number. |
| DateKey.SplitKey | projects/DailyGratitudeApp/script.js:232 | A key splits back into its three digit fields. |
| DateKey.DecodeFieldsOfKey | projects/DailyGratitudeApp/script.js:232 | The three fields of a valid date's key read back into that date. |
| DateKey.DecodeEncode | projects/DailyGratitudeApp/script.js:231-233 | Decoding the key of a valid date gives that date back, negative years included. |
| DateKey.EncodeInjective | projects/DailyGratitudeApp/script.js:231-233 | Two valid dates have the same key exactly when they are the same date. |
| DateKey.SameDateIffSameKey | projects/DailyGratitudeApp/script.js:231-239 | isSameDate holds exactly when the dates are equal, and exactly when their keys are equal. |
| MonthView.FirstDayOfMonth | projects/DailyGratitudeApp/script.js:69 | The number of leading blanks is below 7. |
| MonthView.LastDayOfMonth | projects/DailyGratitudeApp/script.js:70 | Day 0 of the following month is the Gregorian length of the month: 29 in a leap February, 28 in any other. |
| MonthView.DayCell | projects/DailyGratitudeApp/script.js:85-94 | A day cell carries its number. It is active exactly when the selected date is that date, and has-entry exactly when the editor would show text for its key. |
| MonthView.MonthGrid | projects/DailyGratitudeApp/script.js:69-101 | The grid has one cell per leading blank and per day of the month. |
| MonthView.YearZeroFebruary | projects/DailyGratitudeApp/script.js:69-70 | Year 0 is a leap year, but the view on February of year 0 draws the 28 days of February 1900. |
| GratitudeApp.Journal.RenderCalendar | projects/DailyGratitudeApp/script.js:59-101 | The two loops build exactly the month grid of the month on view, for the year the `Date` constructor reads (0..99 become 1900..1999). |
| MonthView.MonthGridCell | projects/DailyGratitudeApp/script.js:72-101 | Cell i is a blank before the first weekday of the month, and otherwise the cell of day i - first + 1. |
| MonthView.MonthGridLayout | projects/DailyGratitudeApp/script.js:69-94 | The grid has firstDayOfMonth blanks, then days 1..daysInMonth in order. A cell is active exactly when it is the selected date and has-entry exactly when its key is truthy. |
| MonthView.MonthGridBlanks | projects/DailyGratitudeApp/script.js:72-77 | The first firstDayOfMonth cells are blanks. |
| MonthView.MonthGridDays | projects/DailyGratitudeApp/script.js:79-101 | Day d sits at position firstDayOfMonth + d - 1. |
| MonthView.MonthGridDaysOnce | projects/DailyGratitudeApp/script.js:79-101 | No day number appears twice. |
| MonthView.MonthGridActive | projects/DailyGratitudeApp/script.js:88-90 | At most one cell is active. It is the selected day's cell, and only when the selected date lies in the month on view. |
| MonthView.MonthGridColumns | projects/DailyGratitudeApp/script.js:69-85 | The column of each day's cell is that day's weekday. |
| MonthView.TargetMonth | projects/DailyGratitudeApp/script.js:43-48 | The first of the target month is exactly one month away. |
| MonthView.ShiftMonthAsWritten | projects/DailyGratitudeApp/script.js:43-48 | Definition of `setMonth(getMonth() ± 1)` as JavaScript performs it; stated by `MonthView.ShiftMonthAsWrittenIsMakeDate` and `MonthView.ShiftMonthAsWrittenIndex`. |
| MonthView.ShiftMonthAsWrittenIsMakeDate | projects/DailyGratitudeApp/script.js:43-48 | The as-written shift gives the valid date day - 1 days after the first of the target month, as JavaScript normalises it. |
| MonthView.SpillIntoNextMonth | projects/DailyGratitudeApp/script.js:43-48 | A day past a month's end lands in the first days of the month after. |
| MonthView.ShiftMonthAsWrittenIndex | projects/DailyGratitudeApp/script.js:43-48 | The as-written shift lands on the target month when the day exists there, and on the month after it otherwise: two months on for "next", and back on the same month for "previous". |
| MonthView.PrevMonthFromMarch31 | projects/DailyGratitudeApp/script.js:42-43 | From 31 March 2025 the previous-month button gives 3 March, so March stays on view. |
| MonthView.NextMonthFromJanuary31 | projects/DailyGratitudeApp/script.js:47-48 | From 31 January 2025 the next-month button gives 3 March, skipping February. |
| MonthView.ShiftMonth | projects/DailyGratitudeApp/script.js:42-50 | The corrected shift gives a valid date exactly one month away. It agrees with JavaScript when the day exists there, and otherwise uses the target month's last day. |
| MonthView.ShiftMonthRoundTrip | projects/DailyGratitudeApp/script.js:42-50 | Back then forward, or forward then back, returns to the same month, and to the same date when the day is at most 28. |
| GratitudeApp.ShareText | projects/DailyGratitudeApp/script.js:197-204 | Gives no text exactly when the input is all whitespace, and otherwise the share message around the trimmed input. |
| Debounce.Debouncer.constructor | projects/DailyGratitudeApp/script.js:241-242 | No timer is pending and nothing has run. |
| Debounce.Debouncer.Call | projects/DailyGratitudeApp/script.js:243-249 | A call replaces any pending timer with one due `wait` later and carrying its arguments. |
| Debounce.Debouncer.Tick | projects/DailyGratitudeApp/script.js:244-247 | A timer that is due runs the function once with its arguments and is cleared. Otherwise nothing changes. |
| Debounce.Step | projects/DailyGratitudeApp/script.js:243-249 | Definition of one event: a call replaces the timer, a clock reading at or after the due time runs it; the class methods are proved to follow it. |
| Debounce.Run | projects/DailyGratitudeApp/script.js:241-251 | Definition of a trace of events applied in order; stated by `Debounce.AtMostOncePerCall`, `Debounce.FiredGrows` and `Debounce.RunsOnlyCalledArgs`. |
| Debounce.AtMostOncePerCall | projects/DailyGratitudeApp/script.js:241-251 | Runs plus pending timers never exceed the number of calls. |
| Debounce.FiredGrows | projects/DailyGratitudeApp/script.js:244-247 | Earlier runs are never undone. |
| Debounce.BurstSchedulesLast | projects/DailyGratitudeApp/script.js:248-249 | Calls with no clock event between them run nothing and leave one timer, set by the last call. |
| Debounce.BurstThenPause | projects/DailyGratitudeApp/script.js:241-251 | Calls with no clock event between them, followed by a clock reading `wait` after the last one, run the function exactly once, with the last call's arguments. |
| Debounce.EarlyClockNothing | projects/DailyGratitudeApp/script.js:249 | Before the timer is due nothing happens. |
| Debounce.RunsOnlyCalledArgs | projects/DailyGratitudeApp/script.js:243-249 | Every run, and every pending timer, uses arguments that some call passed. |

## Left out

- The DOM, event listeners, `focus()`, and the `Intl.DateTimeFormat` month and weekday names. These are presentation only.
- `localStorage` and JSON. The constructor takes the stored map as an option. A `JSON.parse` failure at line 5 is not handled by the source and is not modelled. Stored values that are not strings are not modelled either.
- `setRandomQuote` (random), `exportJournal` (file download), `showSaveStatus` and `showToast` (CSS timers). `ShareText` keeps only the message text; `navigator.share` and the clipboard are foreign calls.
- Clocks. `new Date()` is the parameter `today`. Time of day is dropped, matching the `setHours(0, 0, 0, 0)` at line 157 and the date-only comparisons.
- JavaScript's limit of ±100 000 000 days on `Date` values. Years are unbounded integers.
- The year mapping of the `Date` constructor is modelled only in `GratitudeApp.Journal.RenderCalendar`, the one place the core builds dates from parts; the month-year heading that shows the unmapped year is presentation.
- EntryStore.Trim: strips ASCII whitespace (space, tab, line feed, vertical tab, form feed, carriage return) only. `String.prototype.trim` also strips Unicode spaces and line terminators.
- GratitudeApp.Journal.SaveEntry: takes the editor's text as a parameter. The source reads the editor when the debounced call fires.
- GratitudeApp.Journal.CalculateStreak: requires a valid `today`. A JavaScript `Date` always denotes one.
- Debounce: time is an abstract clock reading passed with each event. Real scheduling by `setTimeout` is not modelled, and traces are not required to have increasing clock readings. The wrapped function is represented by the list of argument lists it ran with.
- GratitudeApp.Journal.TotalEntries: the total is the number of keys. Its properties are in `EntryStore.PutCount` and `EntryStore.TotalCountsEntries`.

## Findings

| source | as written | input that shows it | evidently intended | confidence | as-written member | corrected member |
|---|---|---|---|---|---|---|
| projects/DailyGratitudeApp/script.js:42-50 | `setMonth(getMonth() ± 1)` keeps the day of month, and JavaScript rolls a day the target month lacks into the next month | When `currentDate` is 31 March 2025, "previous" gives 3 March, so March stays on view. When it is 31 January 2025, "next" gives 3 March, skipping February. The same happens on every 29th to 31st that the target month lacks. | Each button moves the view exactly one month | not executed | MonthView.ShiftMonthAsWritten, GratitudeApp.Journal.PrevMonth, GratitudeApp.Journal.NextMonth, MonthView.PrevMonthFromMarch31, MonthView.NextMonthFromJanuary31 | MonthView.ShiftMonth, GratitudeApp.Journal.PrevMonthCorrected, GratitudeApp.Journal.NextMonthCorrected |
