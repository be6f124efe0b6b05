/** The calendar view: the cells of a month grid, and moving the viewed month
    back and forth. */
module MonthView {
  import opened Calendar
  import opened DateKey
  import opened EntryStore

  /** A grid cell: a blank before the first of the month, or a numbered day
      with its `active` and `has-entry` marks. */
  datatype Cell = Blank | Day(day: nat, active: bool, hasEntry: bool)

  /** `new Date(year, month, 1).getDay()`: how many blanks precede day 1. */
  function FirstDayOfMonth(y: int, m: nat): (w: nat)
    ensures w < 7
  {
    Weekday(Date(y, m, 1))
  }

  /** `new Date(year, month + 1, 0).getDate()`: day 0 of the following month
      is the last day of this one, which is the Gregorian month length: 29 in
      a leap February, 28 in any other. */
  function LastDayOfMonth(y: int, m: nat): (n: nat)
    requires m < 12
    ensures n == DaysInMonth(y, m)
    ensures m == 1 ==> n == if IsLeapYear(y) then 29 else 28
  {
    PrevDay(FirstOfNextMonth(y, m)).day
  }

  /** With the view on February of year 0 the grid is that of February 1900,
      which has 28 days although year 0 is a leap year. */
  lemma YearZeroFebruary(selected: Date, entries: Entries)
    ensures IsLeapYear(0) && ConstructorYear(0) == 1900
    ensures |MonthGrid(ConstructorYear(0), 1, selected, entries)| == FirstDayOfMonth(1900, 1) + 28
  {
  }

  /** The cell for day `day` of month m of year y: `active` when it is the
      selected date, `has-entry` when its key holds text. */
  function DayCell(y: int, m: nat, day: nat, selected: Date, entries: Entries): (c: Cell)
    ensures c.Day? && c.day == day
    ensures c.active <==> selected == Date(y, m, day)
    ensures c.hasEntry <==> StoredText(entries, Encode(Date(y, m, day))) != ""
  {
    var date := Date(y, m, day);
    Day(day, SameDate(date, selected), HasEntry(entries, date))
  }

  /** The grid renderCalendar draws for month m of year y. */
  function MonthGrid(y: int, m: nat, selected: Date, entries: Entries): (cells: seq<Cell>)
    requires m < 12
    ensures |cells| == FirstDayOfMonth(y, m) + LastDayOfMonth(y, m)
  {
    var first := FirstDayOfMonth(y, m);
    seq(first + DaysInMonth(y, m), i =>
      if i < first then Blank else DayCell(y, m, i - first + 1, selected, entries))
  }

  lemma {:induction false} MonthGridCell(y: int, m: nat, selected: Date, entries: Entries, i: nat)
    requires m < 12 && i < FirstDayOfMonth(y, m) + DaysInMonth(y, m)
    ensures |MonthGrid(y, m, selected, entries)| == FirstDayOfMonth(y, m) + DaysInMonth(y, m)
    ensures MonthGrid(y, m, selected, entries)[i]
            == if i < FirstDayOfMonth(y, m) then Blank
               else DayCell(y, m, i - FirstDayOfMonth(y, m) + 1, selected, entries)
  {
  }

  /** The grid has FirstDayOfMonth blanks, then the days 1 to DaysInMonth in
      order, each with `active` exactly when it is the selected date and
      `has-entry` exactly when its key has a truthy value. */
  lemma {:induction false} MonthGridLayout(y: int, m: nat, selected: Date, entries: Entries)
    requires m < 12
    ensures var cells, first := MonthGrid(y, m, selected, entries), FirstDayOfMonth(y, m);
      && |cells| == first + DaysInMonth(y, m)
      && (forall i :: 0 <= i < first ==> cells[i] == Blank)
      && (forall day :: 1 <= day <= DaysInMonth(y, m) ==>
            && cells[first + day - 1].Day?
            && cells[first + day - 1].day == day
            && (cells[first + day - 1].active <==> Date(y, m, day) == selected)
            && (cells[first + day - 1].hasEntry <==> Truthy(entries, Encode(Date(y, m, day)))))
  {
    MonthGridBlanks(y, m, selected, entries);
    MonthGridDays(y, m, selected, entries);
  }

  lemma {:induction false} MonthGridBlanks(y: int, m: nat, selected: Date, entries: Entries)
    requires m < 12
    ensures forall i :: 0 <= i < FirstDayOfMonth(y, m) ==> MonthGrid(y, m, selected, entries)[i] == Blank
  {
    forall i | 0 <= i < FirstDayOfMonth(y, m)
      ensures MonthGrid(y, m, selected, entries)[i] == Blank
    {
      MonthGridCell(y, m, selected, entries, i);
    }
  }

  lemma {:induction false} MonthGridDays(y: int, m: nat, selected: Date, entries: Entries)
    requires m < 12
    ensures forall day :: 1 <= day <= DaysInMonth(y, m) ==>
              MonthGrid(y, m, selected, entries)[FirstDayOfMonth(y, m) + day - 1] == DayCell(y, m, day, selected, entries)
  {
    forall day | 1 <= day <= DaysInMonth(y, m)
      ensures MonthGrid(y, m, selected, entries)[FirstDayOfMonth(y, m) + day - 1] == DayCell(y, m, day, selected, entries)
    {
      MonthGridCell(y, m, selected, entries, FirstDayOfMonth(y, m) + day - 1);
    }
  }

  /** Every day of the month appears in exactly one cell. */
  lemma {:induction false} MonthGridDaysOnce(y: int, m: nat, selected: Date, entries: Entries, i: nat, j: nat)
    requires m < 12
    requires i < |MonthGrid(y, m, selected, entries)| && j < |MonthGrid(y, m, selected, entries)|
    requires MonthGrid(y, m, selected, entries)[i].Day? && MonthGrid(y, m, selected, entries)[j].Day?
    requires MonthGrid(y, m, selected, entries)[i].day == MonthGrid(y, m, selected, entries)[j].day
    ensures i == j
  {
    MonthGridCell(y, m, selected, entries, i);
    MonthGridCell(y, m, selected, entries, j);
  }

  /** At most one cell is active, and one is exactly when the selected date
      lies in the viewed month. */
  lemma {:induction false} MonthGridActive(y: int, m: nat, selected: Date, entries: Entries)
    requires m < 12 && ValidDate(selected)
    ensures var cells := MonthGrid(y, m, selected, entries);
      && (forall i, j :: 0 <= i < j < |cells| && cells[i].Day? && cells[j].Day? ==>
            !(cells[i].active && cells[j].active))
      && ((exists i :: 0 <= i < |cells| && cells[i].Day? && cells[i].active)
          <==> selected.year == y && selected.month == m)
  {
    var cells, first := MonthGrid(y, m, selected, entries), FirstDayOfMonth(y, m);
    forall i | 0 <= i < |cells|
      ensures cells[i].Day? && cells[i].active ==> i == first + selected.day - 1 && selected.year == y && selected.month == m
    {
      MonthGridCell(y, m, selected, entries, i);
    }
    if selected.year == y && selected.month == m {
      var i := first + selected.day - 1;
      MonthGridCell(y, m, selected, entries, i);
      assert cells[i].Day? && cells[i].active;
    }
  }

  /** The grid is laid out in rows of seven starting on Sunday: the cell of
      each day stands in the column of its weekday. */
  lemma {:induction false} MonthGridColumns(y: int, m: nat, day: nat)
    requires m < 12 && 1 <= day <= DaysInMonth(y, m)
    ensures (FirstDayOfMonth(y, m) + day - 1) % 7 == Weekday(Date(y, m, day))
    decreases day
  {
    if day > 1 {
      MonthGridColumns(y, m, day - 1);
      WeekdayNext(Date(y, m, day - 1));
      assert NextDay(Date(y, m, day - 1)) == Date(y, m, day);
      ModSucc(FirstDayOfMonth(y, m) + day - 2);
    }
  }

  /** Months counted from January of year 0, so that moving the view is
      adding to this index. */
  function MonthIndex(d: Date): int {
    12 * d.year + d.month
  }

  /** The first of the month after month m of year y. */
  function FirstOfNextMonth(y: int, m: nat): Date {
    if m < 11 then Date(y, m + 1, 1) else Date(y + 1, 0, 1)
  }

  /** The first of the month before month m of year y. */
  function FirstOfPrevMonth(y: int, m: nat): Date {
    if m > 0 then Date(y, m - 1, 1) else Date(y - 1, 11, 1)
  }

  /** The first of the month the view moves to: one month on when `forward`,
      one month back otherwise. */
  function TargetMonth(d: Date, forward: bool): (t: Date)
    ensures t.day == 1
    ensures d.month < 12 ==> t.month < 12 && MonthIndex(t) == MonthIndex(d) + (if forward then 1 else -1)
  {
    if forward then FirstOfNextMonth(d.year, d.month) else FirstOfPrevMonth(d.year, d.month)
  }

  /** `d.setMonth(d.getMonth() + 1)` or `d.setMonth(d.getMonth() - 1)` as
      JavaScript performs it: the month rolls over into the year, and a day
      the target month does not have spills into the month after it. */
  function ShiftMonthAsWritten(d: Date, forward: bool): Date {
    var t := TargetMonth(d, forward);
    var len := DaysInMonth(t.year, t.month);
    if d.day <= len then Date(t.year, t.month, d.day)
    else
      var n := FirstOfNextMonth(t.year, t.month);
      Date(n.year, n.month, d.day - len)
  }

  /** ShiftMonthAsWritten is JavaScript's date arithmetic: the result is the
      valid date that lies `day - 1` days after the first of the target
      month. */
  lemma {:induction false} ShiftMonthAsWrittenIsMakeDate(d: Date, forward: bool)
    requires ValidDate(d)
    ensures ValidDate(ShiftMonthAsWritten(d, forward))
    ensures DayNumber(ShiftMonthAsWritten(d, forward)) == DayNumber(TargetMonth(d, forward)) + d.day - 1
  {
    var t := TargetMonth(d, forward);
    if d.day > DaysInMonth(t.year, t.month) {
      SpillIntoNextMonth(t.year, t.month, d.day);
    }
  }

  /** A day number past the end of month m that is at most 31 lands in the
      first days of the month after it. */
  lemma {:induction false} SpillIntoNextMonth(y: int, m: nat, day: nat)
    requires m < 12 && DaysInMonth(y, m) < day <= 31
    ensures var n := FirstOfNextMonth(y, m);
      && ValidDate(Date(n.year, n.month, day - DaysInMonth(y, m)))
      && DayNumber(Date(n.year, n.month, day - DaysInMonth(y, m))) == DayNumber(Date(y, m, 1)) + day - 1
  {
    MonthLength(y, m);
  }

  /** The view lands on the target month when the day exists there, and on
      the month after the target otherwise: two months on for "next", and
      back where it was for "previous". */
  lemma {:induction false} ShiftMonthAsWrittenIndex(d: Date, forward: bool)
    requires ValidDate(d)
    ensures var t := TargetMonth(d, forward);
      MonthIndex(ShiftMonthAsWritten(d, forward))
      == MonthIndex(t) + (if d.day <= DaysInMonth(t.year, t.month) then 0 else 1)
  {
  }

  /** From 31 March 2025 the previous-month button leaves the view in March:
      31 February 2025 is 3 March. */
  lemma PrevMonthFromMarch31()
    ensures ShiftMonthAsWritten(Date(2025, 2, 31), false) == Date(2025, 2, 3)
    ensures MonthIndex(ShiftMonthAsWritten(Date(2025, 2, 31), false)) == MonthIndex(Date(2025, 2, 31))
  {
  }

  /** From 31 January 2025 the next-month button skips February: 31 February
      2025 is 3 March. */
  lemma NextMonthFromJanuary31()
    ensures ShiftMonthAsWritten(Date(2025, 0, 31), true) == Date(2025, 2, 3)
    ensures MonthIndex(ShiftMonthAsWritten(Date(2025, 0, 31), true)) == MonthIndex(Date(2025, 0, 31)) + 2
  {
  }

  /** Moving the view one month, keeping the day where the target month has
      it and using the target month's last day otherwise. */
  function ShiftMonth(d: Date, forward: bool): (r: Date)
    requires ValidDate(d)
    ensures ValidDate(r)
    ensures MonthIndex(r) == MonthIndex(d) + (if forward then 1 else -1)
    ensures d.day <= DaysInMonth(r.year, r.month) ==> r == ShiftMonthAsWritten(d, forward)
    ensures d.day > DaysInMonth(r.year, r.month) ==> r.day == DaysInMonth(r.year, r.month)
  {
    var t := TargetMonth(d, forward);
    var len := DaysInMonth(t.year, t.month);
    Date(t.year, t.month, if d.day <= len then d.day else len)
  }

  /** Going one month back and one forward returns to the same month, and to
      the same date when the day exists in every month. */
  lemma {:induction false} ShiftMonthRoundTrip(d: Date)
    requires ValidDate(d)
    ensures MonthIndex(ShiftMonth(ShiftMonth(d, false), true)) == MonthIndex(d)
    ensures MonthIndex(ShiftMonth(ShiftMonth(d, true), false)) == MonthIndex(d)
    ensures d.day <= 28 ==> ShiftMonth(ShiftMonth(d, false), true) == d
    ensures d.day <= 28 ==> ShiftMonth(ShiftMonth(d, true), false) == d
  {
    var p, n := ShiftMonth(d, false), ShiftMonth(d, true);
    if d.day <= 28 {
      assert p.day == d.day && n.day == d.day;
      MonthIndexDetermines(ShiftMonth(p, true), d);
      MonthIndexDetermines(ShiftMonth(n, false), d);
    }
  }

  /** Two dates with the same month index, month in range and day are the
      same date. */
  lemma {:induction false} MonthIndexDetermines(a: Date, b: Date)
    requires a.month < 12 && b.month < 12 && MonthIndex(a) == MonthIndex(b) && a.day == b.day
    ensures a == b
  {
  }
}
