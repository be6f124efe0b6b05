/** The journal widget's state — the entries, the month on view and the
    selected day — and the operations its event handlers perform on it. */
module GratitudeApp {
  import opened Calendar
  import opened DateKey
  import opened EntryStore
  import opened Streak
  import opened MonthView

  class Journal {
    /** `entries`: date key to saved text. */
    var entries: Entries
    /** `currentDate`: its year and month choose the grid on view. */
    var currentDate: Date
    /** `selectedDate`: the day whose entry is shown and edited. */
    var selectedDate: Date

    ghost predicate Valid()
      reads this
    {
      ValidDate(currentDate) && ValidDate(selectedDate)
    }

    /** Start-up: both dates are today, and the entries are the stored ones,
        or none when nothing is stored. */
    constructor (today: Date, stored: Option<Entries>)
      requires ValidDate(today)
      ensures Valid()
      ensures currentDate == today && selectedDate == today
      ensures entries == if stored.Some? then stored.value else map[]
    {
      currentDate := today;
      selectedDate := today;
      entries := if stored.Some? then stored.value else map[];
    }

    /** Number of entries shown as the total. */
    function TotalEntries(): nat
      reads this
    {
      |entries|
    }

    /** The text loaded into the editor for the selected day. */
    function EditorText(): (t: string)
      reads this
      ensures t == "" <==> !HasEntry(entries, selectedDate)
    {
      StoredText(entries, Encode(selectedDate))
    }

    /** selectDate: the clicked day becomes the selected one. */
    method SelectDate(d: Date)
      requires Valid() && ValidDate(d)
      modifies this
      ensures Valid()
      ensures selectedDate == d
      ensures entries == old(entries) && currentDate == old(currentDate)
    {
      selectedDate := d;
    }

    /** saveEntry with the editor holding `input`: the selected day's key
        gets the trimmed text, or is deleted when that is empty. */
    method SaveEntry(input: string)
      requires Valid()
      modifies this
      ensures Valid()
      ensures entries == Put(old(entries), Encode(selectedDate), Trim(input))
      ensures EditorText() == Trim(input)
      ensures forall k :: k != Encode(selectedDate) ==>
                (k in entries <==> k in old(entries)) && (k in entries ==> entries[k] == old(entries)[k])
      ensures selectedDate == old(selectedDate) && currentDate == old(currentDate)
    {
      var dateStr := Encode(selectedDate);
      var content := Trim(input);
      if content != "" {
        entries := entries[dateStr := content];
      } else {
        entries := entries - {dateStr};
      }
    }

    /** The previous-month button: `setMonth(getMonth() - 1)`, with a day the
        earlier month lacks spilling into the month after it. */
    method PrevMonth()
      requires Valid()
      modifies this
      ensures Valid()
      ensures currentDate == ShiftMonthAsWritten(old(currentDate), false)
      ensures DayNumber(currentDate) == DayNumber(TargetMonth(old(currentDate), false)) + old(currentDate).day - 1
      ensures var t := TargetMonth(old(currentDate), false);
        MonthIndex(currentDate) == MonthIndex(t) + (if old(currentDate).day <= DaysInMonth(t.year, t.month) then 0 else 1)
      ensures entries == old(entries) && selectedDate == old(selectedDate)
    {
      ShiftMonthAsWrittenIsMakeDate(currentDate, false);
      ShiftMonthAsWrittenIndex(currentDate, false);
      currentDate := ShiftMonthAsWritten(currentDate, false);
    }

    /** The next-month button: `setMonth(getMonth() + 1)`, with a day the
        later month lacks spilling into the month after it. */
    method NextMonth()
      requires Valid()
      modifies this
      ensures Valid()
      ensures currentDate == ShiftMonthAsWritten(old(currentDate), true)
      ensures DayNumber(currentDate) == DayNumber(TargetMonth(old(currentDate), true)) + old(currentDate).day - 1
      ensures var t := TargetMonth(old(currentDate), true);
        MonthIndex(currentDate) == MonthIndex(t) + (if old(currentDate).day <= DaysInMonth(t.year, t.month) then 0 else 1)
      ensures entries == old(entries) && selectedDate == old(selectedDate)
    {
      ShiftMonthAsWrittenIsMakeDate(currentDate, true);
      ShiftMonthAsWrittenIndex(currentDate, true);
      currentDate := ShiftMonthAsWritten(currentDate, true);
    }

    /** The previous-month button as evidently intended: exactly one month
        back, keeping the day where the earlier month has it. */
    method PrevMonthCorrected()
      requires Valid()
      modifies this
      ensures Valid()
      ensures currentDate == ShiftMonth(old(currentDate), false)
      ensures MonthIndex(currentDate) == MonthIndex(old(currentDate)) - 1
      ensures entries == old(entries) && selectedDate == old(selectedDate)
    {
      currentDate := ShiftMonth(currentDate, false);
    }

    /** The next-month button as evidently intended: exactly one month on,
        keeping the day where the later month has it. */
    method NextMonthCorrected()
      requires Valid()
      modifies this
      ensures Valid()
      ensures currentDate == ShiftMonth(old(currentDate), true)
      ensures MonthIndex(currentDate) == MonthIndex(old(currentDate)) + 1
      ensures entries == old(entries) && selectedDate == old(selectedDate)
    {
      currentDate := ShiftMonth(currentDate, true);
    }

    /** calculateStreak on the day `today`. */
    method CalculateStreak(today: Date) returns (streak: nat)
      requires ValidDate(today)
      ensures IsStreak(entries, today, streak)
    {
      var es := entries;
      streak := 0;
      var checkDate := today;
      var dateStr := Encode(checkDate);
      if !Truthy(es, dateStr) {
        checkDate := PrevDay(checkDate);
        dateStr := Encode(checkDate);
      }
      ghost var start := checkDate;
      StreakBegins(es, today, start);
      while Truthy(es, dateStr)
        invariant checkDate == DaysBefore(start, streak)
        invariant dateStr == Encode(checkDate)
        invariant RunFrom(es, start, streak)
        decreases |es.Keys - CountedKeys(start, streak)|
      {
        WalkStep(es, start, streak);
        streak := streak + 1;
        checkDate := PrevDay(checkDate);
        dateStr := Encode(checkDate);
      }
      WalkDone(es, today, start, streak, checkDate);
    }

    /** renderCalendar: the cells of the month on view. Every date the source
        builds here goes through the `Date` constructor, which reads a year
        0..99 as 1900..1999. */
    method RenderCalendar() returns (cells: seq<Cell>)
      requires Valid()
      ensures cells == MonthGrid(ConstructorYear(currentDate.year), currentDate.month, selectedDate, entries)
    {
      var year, month := ConstructorYear(currentDate.year), currentDate.month;
      var es, selected := entries, selectedDate;
      var firstDayOfMonth := FirstDayOfMonth(year, month);
      var daysInMonth := LastDayOfMonth(year, month);
      cells := [];
      for i := 0 to firstDayOfMonth
        invariant |cells| == i
        invariant forall j :: 0 <= j < i ==> cells[j] == Blank
      {
        cells := cells + [Blank];
      }
      for day := 1 to daysInMonth + 1
        invariant |cells| == firstDayOfMonth + day - 1
        invariant forall j :: 0 <= j < |cells| ==>
                    cells[j] == (if j < firstDayOfMonth then Blank
                                 else DayCell(year, month, j - firstDayOfMonth + 1, selected, es))
      {
        var cellDate := Date(year, month, day);
        var dateStr := Encode(cellDate);
        cells := cells + [Day(day, SameDate(cellDate, selected), Truthy(es, dateStr))];
      }
      forall j | 0 <= j < |cells|
        ensures cells[j] == MonthGrid(year, month, selected, es)[j]
      {
        MonthGridCell(year, month, selected, es, j);
      }
      MonthGridCell(year, month, selected, es, 0);
    }
  }

  lemma {:induction false} StreakBegins(entries: Entries, today: Date, start: Date)
    requires ValidDate(today)
    requires start == if Truthy(entries, Encode(today)) then today else PrevDay(today)
    ensures start == StreakStart(entries, today) && ValidDate(start)
    ensures start == DaysBefore(start, 0) && RunFrom(entries, start, 0)
  {
    StreakStartDay(entries, today);
  }

  /** The keys of the first n days walked back from `start`. */
  ghost function CountedKeys(start: Date, n: nat): set<string>
    decreases n
  {
    if n == 0 then {} else CountedKeys(start, n - 1) + {Encode(DaysBefore(start, n - 1))}
  }

  /** The keys of a run's days are keys of the store. */
  lemma {:induction false} CountedKeysStored(entries: Entries, start: Date, n: nat)
    requires RunFrom(entries, start, n)
    ensures CountedKeys(start, n) <= entries.Keys
    decreases n
  {
    if n > 0 {
      CountedKeysStored(entries, start, n - 1);
    }
  }

  /** The day the walk looks at next has a key none of the days counted so
      far has. */
  lemma {:induction false} NextKeyFresh(start: Date, n: nat, m: nat)
    requires ValidDate(start) && n <= m
    ensures Encode(DaysBefore(start, m)) !in CountedKeys(start, n)
    decreases n
  {
    if n > 0 {
      NextKeyFresh(start, n - 1, m);
      DistinctDaysBack(start, n - 1, m);
    }
  }

  /** Different distances back from a valid date give different keys. */
  lemma {:induction false} DistinctDaysBack(start: Date, i: nat, m: nat)
    requires ValidDate(start) && i < m
    ensures Encode(DaysBefore(start, i)) != Encode(DaysBefore(start, m))
  {
    DaysBeforeNumber(start, i);
    DaysBeforeNumber(start, m);
    EncodeInjective(DaysBefore(start, i), DaysBefore(start, m));
  }

  /** Counting a day that has an entry extends the run and leaves fewer keys
      of the store uncounted, so the walk ends. */
  lemma {:induction false} WalkStep(entries: Entries, start: Date, streak: nat)
    requires ValidDate(start) && RunFrom(entries, start, streak)
    requires Truthy(entries, Encode(DaysBefore(start, streak)))
    ensures RunFrom(entries, start, streak + 1)
    ensures |entries.Keys - CountedKeys(start, streak + 1)| < |entries.Keys - CountedKeys(start, streak)|
  {
    var key := Encode(DaysBefore(start, streak));
    CountedKeysStored(entries, start, streak);
    NextKeyFresh(start, streak, streak);
    assert entries.Keys - CountedKeys(start, streak + 1) == (entries.Keys - CountedKeys(start, streak)) - {key};
  }

  /** When the walk reaches a day without an entry, the days counted are the
      streak. */
  lemma {:induction false} WalkDone(entries: Entries, today: Date, start: Date, streak: nat, checkDate: Date)
    requires start == StreakStart(entries, today) && checkDate == DaysBefore(start, streak)
    requires RunFrom(entries, start, streak)
    requires !Truthy(entries, Encode(checkDate))
    ensures IsStreak(entries, today, streak)
  {
    RunFromAll(entries, start, streak);
    assert !HasEntry(entries, DaysBefore(start, streak));
  }

  /** The message shareContent offers, none when the trimmed editor text is
      empty. */
  function ShareText(input: string): (r: Option<string>)
    ensures r.None? <==> AllSpace(input)
    ensures r.Some? ==> r.value == "Today, I'm grateful for: " + Trim(input) + " #Gratitude #OpenPlayground"
  {
    TrimEmptyIffAllSpace(input);
    var content := Trim(input);
    if content == "" then None
    else Some("Today, I'm grateful for: " + content + " #Gratitude #OpenPlayground")
  }
}
