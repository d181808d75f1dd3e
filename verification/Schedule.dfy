/** The calendar grid of a week or a month, as day numbers. Day 0 is a Thursday and weeks start on Sunday. */
module Schedule {
  datatype ScheduleType = Week | Month | OtherType

  type MonthLength = n: nat | 28 <= n <= 31 witness 30

  /** The month a date lies in: its first day and its length. */
  datatype MonthSpan = MonthSpan(first: int, length: MonthLength)

  /** 0 for Sunday to 6 for Saturday. */
  function Weekday(day: int): nat { (day + 4) % 7 }

  /** Weekdays repeat every seven days, and 1 January 1970 was a Thursday. */
  lemma WeekdayCounts(day: int)
    ensures Weekday(0) == 4
    ensures Weekday(day + 1) == if Weekday(day) == 6 then 0 else Weekday(day) + 1
  {}

  function StartOfWeek(day: int): int { day - Weekday(day) }

  function EndOfWeek(day: int): int { day - Weekday(day) + 6 }

  predicate Consecutive(days: seq<int>) { forall k :: 0 < k < |days| ==> days[k] == days[k - 1] + 1 }

  /** Whole weeks: a run of consecutive days from a week start to a week end. */
  predicate WholeWeeks(days: seq<int>) {
    Consecutive(days) && |days| % 7 == 0 && (days != [] ==> Weekday(days[0]) == 0 && Weekday(days[|days| - 1]) == 6)
  }

  function Occurrences(days: seq<int>, day: int): nat {
    if days == [] then 0 else Occurrences(days[..|days| - 1], day) + if days[|days| - 1] == day then 1 else 0
  }

  lemma {:induction false} ConsecutiveFrom(days: seq<int>, k: nat)
    requires Consecutive(days) && k < |days|
    ensures days[k] == days[0] + k
  {
    if k > 0 { ConsecutiveFrom(days, k - 1); }
  }

  /** In a run of consecutive days every day of the run occurs once and no other day occurs. */
  lemma {:induction false} OccursOnce(days: seq<int>, day: int)
    requires Consecutive(days)
    ensures Occurrences(days, day) == if days != [] && days[0] <= day < days[0] + |days| then 1 else 0
  {
    if days != [] {
      ConsecutiveFrom(days, |days| - 1);
      OccursOnce(days[..|days| - 1], day);
    }
  }

  /** The while loop of both branches: push days until the current one is past the end. */
  method DaysBetween(start: int, end: int) returns (days: seq<int>)
    requires start <= end
    ensures Consecutive(days) && |days| == end - start + 1 && days[0] == start && days[|days| - 1] == end
  {
    days := [];
    var currentDay := start;
    while currentDay <= end
      invariant start <= currentDay <= end + 1
      invariant |days| == currentDay - start && Consecutive(days)
      invariant days != [] ==> days[0] == start && days[|days| - 1] == currentDay - 1
      decreases end + 1 - currentDay
    {
      days := days + [currentDay];
      currentDay := currentDay + 1;
    }
  }

  /**
   getSchedule. A month's grid is whole weeks holding every day of the month exactly once; it has 28 days just for a
   28-day month starting a week, 42 just when the month reaches into a sixth week, and 35 otherwise.
   */
  method GetSchedule(date: int, month: MonthSpan, scheduleType: ScheduleType) returns (days: seq<int>)
    requires month.first <= date < month.first + month.length
    ensures WholeWeeks(days)
    ensures scheduleType == OtherType <==> days == []
    ensures scheduleType == Week ==> |days| == 7 && Occurrences(days, date) == 1
    ensures scheduleType == Month ==>
              forall day :: month.first <= day < month.first + month.length ==> Occurrences(days, day) == 1
    ensures scheduleType == Month ==>
              |days| == if month.length == 28 && Weekday(month.first) == 0 then 28
                        else if Weekday(month.first) + month.length > 35 then 42
                        else 35
  {
    days := [];
    if scheduleType == Week {
      WeekEnds(date, date);
      days := DaysBetween(StartOfWeek(date), EndOfWeek(date));
      OccursOnce(days, date);
    } else if scheduleType == Month {
      var last := month.first + month.length - 1;
      WeekEnds(month.first, last);
      days := DaysBetween(StartOfWeek(month.first), EndOfWeek(last));
      GridLength(month);
      forall day | month.first <= day <= last ensures Occurrences(days, day) == 1 { OccursOnce(days, day); }
    }
  }

  /** From the week of one day to the week of a later one there are whole weeks. */
  lemma WeekEnds(from: int, to: int)
    requires from <= to
    ensures Weekday(StartOfWeek(from)) == 0 && Weekday(EndOfWeek(to)) == 6
    ensures StartOfWeek(from) <= from <= to <= EndOfWeek(to)
    ensures (EndOfWeek(to) - StartOfWeek(from) + 1) % 7 == 0
  {
    assert StartOfWeek(from) == 7 * ((from + 4) / 7) - 4;
    assert StartOfWeek(to) == 7 * ((to + 4) / 7) - 4;
  }

  lemma GridLength(month: MonthSpan)
    ensures var n := EndOfWeek(month.first + month.length - 1) - StartOfWeek(month.first) + 1;
            n == if month.length == 28 && Weekday(month.first) == 0 then 28
                 else if Weekday(month.first) + month.length > 35 then 42
                 else 35
  {
    var w := Weekday(month.first);
    assert Weekday(month.first + month.length - 1) == (w + month.length - 1) % 7;
  }
}
