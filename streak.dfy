/** What calculateStreak computes: the number of consecutive days with an
    entry, counted backwards from today, or from yesterday when today has no
    entry yet. */
module Streak {
  import opened Calendar
  import opened DateKey
  import opened EntryStore

  /** The date n days before d. */
  function DaysBefore(d: Date, n: nat): Date
    decreases n
  {
    if n == 0 then d else PrevDay(DaysBefore(d, n - 1))
  }

  /** n days back from a valid date is the valid date n day numbers
      earlier. */
  lemma {:induction false} DaysBeforeNumber(d: Date, n: nat)
    requires ValidDate(d)
    ensures ValidDate(DaysBefore(d, n))
    ensures DayNumber(DaysBefore(d, n)) == DayNumber(d) - n
    decreases n
  {
    if n > 0 {
      DaysBeforeNumber(d, n - 1);
      PrevDayStep(DaysBefore(d, n - 1));
    }
  }

  /** The day the count starts from: today when it has an entry, yesterday
      otherwise. */
  function StreakStart(entries: Entries, today: Date): Date {
    if HasEntry(entries, today) then today else PrevDay(today)
  }

  /** The count starts on a valid day: today, or the day before it. */
  lemma {:induction false} StreakStartDay(entries: Entries, today: Date)
    requires ValidDate(today)
    ensures ValidDate(StreakStart(entries, today))
    ensures HasEntry(entries, today) ==> StreakStart(entries, today) == today
    ensures !HasEntry(entries, today) ==> DayNumber(StreakStart(entries, today)) == DayNumber(today) - 1
  {
    PrevDayStep(today);
  }

  /** n days from `start` backwards all have entries, and the day before
      them does not. */
  ghost predicate MaximalRun(entries: Entries, start: Date, n: nat) {
    && (forall i :: 0 <= i < n ==> HasEntry(entries, DaysBefore(start, i)))
    && !HasEntry(entries, DaysBefore(start, n))
  }

  /** The same run, counted one day at a time. */
  ghost predicate RunFrom(entries: Entries, start: Date, n: nat)
    decreases n
  {
    n == 0 || (RunFrom(entries, start, n - 1) && HasEntry(entries, DaysBefore(start, n - 1)))
  }

  /** Every day of a run counted one at a time has an entry. */
  lemma {:induction false} RunFromAt(entries: Entries, start: Date, n: nat, i: nat)
    requires RunFrom(entries, start, n) && i < n
    ensures HasEntry(entries, DaysBefore(start, i))
    decreases n
  {
    if i < n - 1 {
      RunFromAt(entries, start, n - 1, i);
    }
  }

  /** Days that all have entries make a run counted one at a time. */
  lemma {:induction false} RunFromOfAll(entries: Entries, start: Date, n: nat)
    requires forall i :: 0 <= i < n ==> HasEntry(entries, DaysBefore(start, i))
    ensures RunFrom(entries, start, n)
    decreases n
  {
    if n > 0 {
      RunFromOfAll(entries, start, n - 1);
    }
  }

  /** A run that fails counted one day at a time misses some day. */
  lemma {:induction false} RunFromNotAll(entries: Entries, start: Date, n: nat)
    requires !RunFrom(entries, start, n)
    ensures exists i :: 0 <= i < n && !HasEntry(entries, DaysBefore(start, i))
  {
    if forall i :: 0 <= i < n ==> HasEntry(entries, DaysBefore(start, i)) {
      RunFromOfAll(entries, start, n);
    }
  }

  /** Counting day by day and checking all days at once agree. */
  lemma {:induction false} RunFromAll(entries: Entries, start: Date, n: nat)
    ensures RunFrom(entries, start, n) <==> forall i :: 0 <= i < n ==> HasEntry(entries, DaysBefore(start, i))
  {
    if RunFrom(entries, start, n) {
      forall i | 0 <= i < n
        ensures HasEntry(entries, DaysBefore(start, i))
      {
        RunFromAt(entries, start, n, i);
      }
    } else {
      RunFromNotAll(entries, start, n);
    }
  }

  /** n is the streak for `entries` on `today`. */
  ghost predicate IsStreak(entries: Entries, today: Date, n: nat) {
    MaximalRun(entries, StreakStart(entries, today), n)
  }

  /** There is at most one maximal run from a day, so the streak is a
      function of the entries and today. */
  lemma {:induction false} StreakUnique(entries: Entries, today: Date, n: nat, m: nat)
    requires IsStreak(entries, today, n) && IsStreak(entries, today, m)
    ensures n == m
  {
  }

  /** Every day the streak counts or examines lies on or before today and no
      earlier than the day just before the counted run. */
  lemma {:induction false} StreakNeverLooksAhead(entries: Entries, today: Date, n: nat, i: nat)
    requires ValidDate(today)
    requires IsStreak(entries, today, n)
    requires i <= n
    ensures DayNumber(DaysBefore(StreakStart(entries, today), i)) <= DayNumber(today)
    ensures DayNumber(today) - n - 1 <= DayNumber(DaysBefore(StreakStart(entries, today), i))
  {
    StreakStartDay(entries, today);
    DaysBeforeNumber(StreakStart(entries, today), i);
  }

  /** The streak is zero exactly when neither today nor yesterday has an
      entry. */
  lemma {:induction false} StreakZero(entries: Entries, today: Date, n: nat)
    requires IsStreak(entries, today, n)
    ensures n == 0 <==> !HasEntry(entries, today) && !HasEntry(entries, PrevDay(today))
  {
    var start := StreakStart(entries, today);
    assert DaysBefore(start, 0) == start;
  }

  /** Entries on the N days ending today, and none on the day before them,
      give a streak of N. */
  lemma {:induction false} StreakOfRunEndingToday(entries: Entries, today: Date, n: nat)
    requires n >= 1
    requires forall i :: 0 <= i < n ==> HasEntry(entries, DaysBefore(today, i))
    requires !HasEntry(entries, DaysBefore(today, n))
    ensures IsStreak(entries, today, n)
  {
    assert DaysBefore(today, 0) == today;
  }

  /** With no entry today, entries on the N days ending yesterday, and none on
      the day before them, give a streak of N. */
  lemma {:induction false} StreakOfRunEndingYesterday(entries: Entries, today: Date, n: nat)
    requires !HasEntry(entries, today)
    requires forall i :: 1 <= i <= n ==> HasEntry(entries, DaysBefore(today, i))
    requires !HasEntry(entries, DaysBefore(today, n + 1))
    ensures IsStreak(entries, today, n)
  {
    var start := StreakStart(entries, today);
    assert start == DaysBefore(today, 1);
    forall i: nat | i <= n
      ensures DaysBefore(start, i) == DaysBefore(today, i + 1)
    {
      DaysBeforeAdd(today, 1, i);
    }
  }

  /** Going back m days and then n more is going back m + n days. */
  lemma {:induction false} DaysBeforeAdd(d: Date, m: nat, n: nat)
    ensures DaysBefore(DaysBefore(d, m), n) == DaysBefore(d, m + n)
    decreases n
  {
    if n > 0 {
      DaysBeforeAdd(d, m, n - 1);
    }
  }

  /** A valid date is determined by its distance back from d. */
  lemma {:induction false} DayNumberOfDaysBefore(d: Date, n: nat, e: Date)
    requires ValidDate(d) && ValidDate(e)
    requires DayNumber(e) == DayNumber(d) - n
    ensures e == DaysBefore(d, n)
  {
    DaysBeforeNumber(d, n);
    DayNumberInjective(e, DaysBefore(d, n));
  }

  lemma MarchKeys()
    ensures Encode(Date(2024, 2, 4)) == "2024-3-4"
    ensures Encode(Date(2024, 2, 5)) == "2024-3-5"
    ensures Encode(Date(2024, 2, 6)) == "2024-3-6"
    ensures Encode(Date(2024, 2, 7)) == "2024-3-7"
  {
    Year2024();
  }

  lemma Year2024()
    ensures IntToString(2024) == "2024"
  {
    assert NatToString(20) == "20";
    assert NatToString(202) == "202";
  }

  /** Entries on 5 and 6 March 2024, today 6 March 2024: the streak is 2. */
  lemma ScenarioTwoDays(n: nat)
    requires IsStreak(map["2024-3-5" := "family", "2024-3-6" := "health"], Date(2024, 2, 6), n)
    ensures n == 2
  {
    var entries := map["2024-3-5" := "family", "2024-3-6" := "health"];
    var today := Date(2024, 2, 6);
    assert DaysBefore(today, 1) == Date(2024, 2, 5);
    assert DaysBefore(today, 2) == Date(2024, 2, 4);
    MarchKeys();
    StreakOfRunEndingToday(entries, today, 2);
    StreakUnique(entries, today, n, 2);
  }

  /** An entry on 5 March 2024 only, today 7 March 2024: the streak is 0. */
  lemma ScenarioGap(n: nat)
    requires IsStreak(map["2024-3-5" := "family"], Date(2024, 2, 7), n)
    ensures n == 0
  {
    var today := Date(2024, 2, 7);
    assert PrevDay(today) == Date(2024, 2, 6);
    MarchKeys();
    StreakZero(map["2024-3-5" := "family"], today, n);
  }

  /** With no entries at all the streak is 0 on any day. */
  lemma ScenarioEmpty(today: Date, n: nat)
    requires IsStreak(map[], today, n)
    ensures n == 0
  {
    StreakZero(map[], today, n);
  }
}
