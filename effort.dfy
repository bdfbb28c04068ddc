/**
 * `EffortLogic` (src/backend/logic/effort.logic.ts): summing the points of a
 * work bucket and counting the working days of an employee. The aggregation
 * pipeline `CalculateStats` that combines them lives in modules EffortStats and Calculation.
 */
module EffortLogic {
  import opened Wrappers
  import opened Calendar
  import opened Model

  // ---------------------------------------------------------------- points

  /** `task.estimation || noEstimationValue || 0`: an estimation of 0 is as falsy as a missing one. */
  function Contribution(task: Task, noEstimationValue: Option<int>): int {
    if task.estimation.Some? && task.estimation.value != 0 then task.estimation.value
    else if noEstimationValue.Some? && noEstimationValue.value != 0 then noEstimationValue.value
    else 0
  }

  /** The sum `calculatePoints` accumulates over `tasks`, in order. */
  function TotalPoints(tasks: seq<Task>, noEstimationValue: Option<int>): int {
    if tasks == [] then 0
    else TotalPoints(tasks[..|tasks| - 1], noEstimationValue) + Contribution(tasks[|tasks| - 1], noEstimationValue)
  }

  /** The sum of the estimations, counting a missing estimation as 0. */
  function EstimateSum(tasks: seq<Task>): int {
    if tasks == [] then 0 else EstimateSum(tasks[..|tasks| - 1]) + tasks[|tasks| - 1].estimation.GetOr(0)
  }

  /** The number of tasks whose estimation is missing or 0. */
  function Unestimated(tasks: seq<Task>): nat {
    if tasks == [] then 0
    else Unestimated(tasks[..|tasks| - 1]) + (if tasks[|tasks| - 1].estimation.GetOr(0) == 0 then 1 else 0)
  }

  /** With a default of 1, as the bucket total uses, every unestimated task weighs one point. */
  lemma {:induction false} TotalWithDefaultOne(tasks: seq<Task>)
    ensures TotalPoints(tasks, Some(1)) == EstimateSum(tasks) + Unestimated(tasks)
  {
    if tasks != [] {
      TotalWithDefaultOne(tasks[..|tasks| - 1]);
    }
  }

  /** Without a (truthy) default, the total is the plain sum of the estimations. */
  lemma {:induction false} TotalWithoutDefault(tasks: seq<Task>, noEstimationValue: Option<int>)
    requires noEstimationValue.GetOr(0) == 0
    ensures TotalPoints(tasks, noEstimationValue) == EstimateSum(tasks)
  {
    if tasks != [] {
      TotalWithoutDefault(tasks[..|tasks| - 1], noEstimationValue);
    }
  }

  /** Points of a concatenation add up. */
  lemma {:induction false} TotalPointsAppend(a: seq<Task>, b: seq<Task>, noEstimationValue: Option<int>)
    ensures TotalPoints(a + b, noEstimationValue) == TotalPoints(a, noEstimationValue) + TotalPoints(b, noEstimationValue)
    decreases |b|
  {
    if b != [] {
      assert (a + b)[..|a + b| - 1] == a + b[..|b| - 1];
      TotalPointsAppend(a, b[..|b| - 1], noEstimationValue);
    } else {
      assert a + b == a;
    }
  }

  /** `calculatePoints(workBucket, noEstimationValue)`. */
  method CalculatePoints(workBucket: Option<WorkBucket>, noEstimationValue: Option<int>) returns (r: Result<int>)
    ensures workBucket.None? ==> r == Err("Argument 'workBucket' is mandatory")
    ensures workBucket.Some? ==> r == Ok(TotalPoints(workBucket.value.tasks, noEstimationValue))
  {
    if workBucket.None? {
      return Err("Argument 'workBucket' is mandatory");
    }
    var tasks := workBucket.value.tasks;
    if |tasks| == 0 {
      return Ok(0);
    }
    var points := 0;
    for i := 0 to |tasks|
      invariant points == TotalPoints(tasks[..i], noEstimationValue)
    {
      assert tasks[..i + 1][..i] == tasks[..i];
      points := points + Contribution(tasks[i], noEstimationValue);
    }
    assert tasks[..|tasks|] == tasks;
    return Ok(points);
  }

  // ---------------------------------------------------------- working days

  /** `compareDateWithoutTime`: same UTC year, month and day of the month. */
  method CompareDateWithoutTime(date1: Time, date2: Time) returns (same: bool)
    ensures same <==> Day(date1) == Day(date2)
  {
    SameFieldsSameDay(date1, date2);
    same := YearFromTime(date1) == YearFromTime(date2) && MonthFromTime(date1) == MonthFromTime(date2)
            && DateFromTime(date1) == DateFromTime(date2);
  }

  /** Some holiday starts on the UTC day of `day`. */
  predicate IsHoliday(countryHolidays: seq<Holiday>, day: Time) {
    exists k :: 0 <= k < |countryHolidays| && Day(countryHolidays[k].startDate) == Day(day)
  }

  /** Some time-off record falls on the UTC day of `day`. */
  predicate IsTimeOff(timeOff: seq<TimeOff>, day: Time) {
    exists k :: 0 <= k < |timeOff| && Day(timeOff[k].date) == Day(day)
  }

  /** A day the counter counts: Monday to Friday, no holiday start and no time off on it. */
  predicate IsWorkingDay(day: Time, countryHolidays: seq<Holiday>, timeOff: seq<TimeOff>) {
    WeekDay(day) != 0 && WeekDay(day) != 6 && !IsHoliday(countryHolidays, day) && !IsTimeOff(timeOff, day)
  }

  /** The working days among `day`, `day` + 1 day, ... up to and including `endDate`. */
  function WorkingDays(day: Time, endDate: Time, countryHolidays: seq<Holiday>, timeOff: seq<TimeOff>): nat
    decreases endDate - day
  {
    if day > endDate then 0
    else (if IsWorkingDay(day, countryHolidays, timeOff) then 1 else 0)
         + WorkingDays(day + MsPerDay, endDate, countryHolidays, timeOff)
  }

  /** How many days the counter visits from `day` to `endDate`. */
  function VisitedDays(day: Time, endDate: Time): nat {
    if day > endDate then 0 else (endDate - day) / MsPerDay + 1
  }

  /** `calculateEmployeeWorkingDays(employee, countryHolidays, startDate, endDate)`. */
  method CalculateEmployeeWorkingDays(employee: Employee, countryHolidays: seq<Holiday>, startDate: Time, endDate: Time)
    returns (workingDays: nat)
    ensures workingDays == WorkingDays(startDate, endDate, countryHolidays, employee.timeOff.GetOr([]))
  {
    var timeOff := employee.timeOff.GetOr([]);
    workingDays := 0;
    var dayToAnalyze := startDate;
    while dayToAnalyze <= endDate
      invariant workingDays + WorkingDays(dayToAnalyze, endDate, countryHolidays, timeOff)
                == WorkingDays(startDate, endDate, countryHolidays, timeOff)
      decreases endDate - dayToAnalyze
    {
      var dayOfTheWeek := WeekDay(dayToAnalyze);
      if dayOfTheWeek != 0 && dayOfTheWeek != 6 {
        var isHoliday := FindHoliday(countryHolidays, dayToAnalyze);
        if !isHoliday {
          var isTimeOff := FindTimeOff(timeOff, dayToAnalyze);
          if !isTimeOff {
            workingDays := workingDays + 1;
          }
        }
      }
      WorkingDaysStep(dayToAnalyze, endDate, countryHolidays, timeOff);
      dayToAnalyze := NextDay(dayToAnalyze);
    }
  }

  /** The holiday loop of `calculateEmployeeWorkingDays`: some holiday starts on the same UTC day. */
  method FindHoliday(countryHolidays: seq<Holiday>, day: Time) returns (isHoliday: bool)
    ensures isHoliday == IsHoliday(countryHolidays, day)
  {
    isHoliday := false;
    var k := 0;
    while k < |countryHolidays|
      invariant 0 <= k <= |countryHolidays|
      invariant forall j :: 0 <= j < k ==> Day(countryHolidays[j].startDate) != Day(day)
    {
      var countryHoliday := countryHolidays[k];
      var same := CompareDateWithoutTime(countryHoliday.startDate, day);
      if same {
        isHoliday := true;
        break;
      }
      k := k + 1;
    }
  }

  /** The time-off loop of `calculateEmployeeWorkingDays`: some time off falls on the same UTC day. */
  method FindTimeOff(timeOff: seq<TimeOff>, day: Time) returns (isTimeOff: bool)
    ensures isTimeOff == IsTimeOff(timeOff, day)
  {
    isTimeOff := false;
    var m := 0;
    while m < |timeOff|
      invariant 0 <= m <= |timeOff|
      invariant forall j :: 0 <= j < m ==> Day(timeOff[j].date) != Day(day)
    {
      var pto := timeOff[m];
      var same := CompareDateWithoutTime(pto.date, day);
      if same {
        isTimeOff := true;
        break;
      }
      m := m + 1;
    }
  }

  /** `dayToAnalyze.setUTCDate(dayToAnalyze.getUTCDate() + 1)`: the same time of day on the next day. */
  method NextDay(day: Time) returns (next: Time)
    ensures next == day + MsPerDay
    ensures Day(next) == Day(day) + 1 && TimeWithinDay(next) == TimeWithinDay(day)
  {
    NextUtcDate(day);
    next := SetUtcDate(day, DateFromTime(day) + 1);
  }

  /** One step of the count: the visited day, then the rest. */
  lemma WorkingDaysStep(day: Time, endDate: Time, countryHolidays: seq<Holiday>, timeOff: seq<TimeOff>)
    requires day <= endDate
    ensures WorkingDays(day, endDate, countryHolidays, timeOff)
            == (if IsWorkingDay(day, countryHolidays, timeOff) then 1 else 0)
               + WorkingDays(day + MsPerDay, endDate, countryHolidays, timeOff)
  {
  }

  /** No count when the range is empty, and never more than the days visited. */
  lemma {:induction false} WorkingDaysBound(day: Time, endDate: Time, countryHolidays: seq<Holiday>, timeOff: seq<TimeOff>)
    ensures WorkingDays(day, endDate, countryHolidays, timeOff) <= VisitedDays(day, endDate)
    ensures day > endDate ==> WorkingDays(day, endDate, countryHolidays, timeOff) == 0
    decreases endDate - day
  {
    if day <= endDate {
      WorkingDaysBound(day + MsPerDay, endDate, countryHolidays, timeOff);
      if day + MsPerDay <= endDate {
        DivShift(endDate - day - MsPerDay, MsPerDay, 1);
      }
    }
  }

  /** Counting up to just before a later visited day `split`, then from `split` on, counts the same days. */
  lemma {:induction false} WorkingDaysSplit(day: Time, split: Time, endDate: Time, countryHolidays: seq<Holiday>, timeOff: seq<TimeOff>)
    requires day <= split && (split - day) % MsPerDay == 0 && split - MsPerDay <= endDate
    ensures WorkingDays(day, endDate, countryHolidays, timeOff)
            == WorkingDays(day, split - 1, countryHolidays, timeOff) + WorkingDays(split, endDate, countryHolidays, timeOff)
    decreases split - day
  {
    if day < split {
      assert (split - (day + MsPerDay)) % MsPerDay == 0 by {
        DivShift(split - day - MsPerDay, MsPerDay, 1);
      }
      WorkingDaysSplit(day + MsPerDay, split, endDate, countryHolidays, timeOff);
      WorkingDaysStep(day, endDate, countryHolidays, timeOff);
      WorkingDaysStep(day, split - 1, countryHolidays, timeOff);
    }
  }

  /** Seven consecutive days without holidays or time off hold five working days. */
  lemma {:induction false} FullWeek(day: Time)
    ensures WorkingDays(day, day + 7 * MsPerDay - 1, [], []) == 5
  {
    var w := WeekDay(day);
    WeekDayShift(day, 1);
    WeekDayShift(day, 2);
    WeekDayShift(day, 3);
    WeekDayShift(day, 4);
    WeekDayShift(day, 5);
    WeekDayShift(day, 6);
    var e := day + 7 * MsPerDay - 1;
    assert WorkingDays(day + 7 * MsPerDay, e, [], []) == 0;
    assert WorkingDays(day + 6 * MsPerDay, e, [], []) == (if w != 1 && w != 0 then 1 else 0);
    assert WorkingDays(day + 5 * MsPerDay, e, [], []) == (if w != 2 && w != 1 then 1 else 0)
      + WorkingDays(day + 6 * MsPerDay, e, [], []);
    assert WorkingDays(day + 4 * MsPerDay, e, [], []) == (if w != 3 && w != 2 then 1 else 0)
      + WorkingDays(day + 5 * MsPerDay, e, [], []);
    assert WorkingDays(day + 3 * MsPerDay, e, [], []) == (if w != 4 && w != 3 then 1 else 0)
      + WorkingDays(day + 4 * MsPerDay, e, [], []);
    assert WorkingDays(day + 2 * MsPerDay, e, [], []) == (if w != 5 && w != 4 then 1 else 0)
      + WorkingDays(day + 3 * MsPerDay, e, [], []);
    assert WorkingDays(day + MsPerDay, e, [], []) == (if w != 6 && w != 5 then 1 else 0)
      + WorkingDays(day + 2 * MsPerDay, e, [], []);
  }

  /** `weeks` whole weeks without holidays or time off hold five working days each. */
  lemma {:induction false} WholeWeeks(day: Time, weeks: nat)
    ensures WorkingDays(day, day + 7 * weeks * MsPerDay - 1, [], []) == 5 * weeks
    decreases weeks
  {
    if weeks > 0 {
      var e := day + 7 * weeks * MsPerDay - 1;
      var split := day + 7 * MsPerDay;
      assert split - MsPerDay <= e;
      WorkingDaysSplit(day, split, e, [], []);
      FullWeek(day);
      WholeWeeks(split, weeks - 1);
      assert split + 7 * (weeks - 1) * MsPerDay - 1 == e;
    }
  }

  /** The visited day, counting from `day`, that falls on the UTC day of `t` (possibly before `day`). */
  function VisitOn(day: Time, t: Time): Time {
    day + (Day(t) - Day(day)) * MsPerDay
  }

  lemma VisitOnDay(day: Time, t: Time)
    ensures Day(VisitOn(day, t)) == Day(t)
    ensures VisitOn(day + MsPerDay, t) == VisitOn(day, t)
  {
    DivShift(day, MsPerDay, Day(t) - Day(day));
    DivShift(day, MsPerDay, 1);
  }

  /** One more time-off record takes away exactly the working day visited on its date, if there is one. */
  lemma {:induction false} AddTimeOff(day: Time, endDate: Time, countryHolidays: seq<Holiday>, timeOff: seq<TimeOff>, extra: TimeOff)
    ensures var v := VisitOn(day, extra.date);
      WorkingDays(day, endDate, countryHolidays, timeOff + [extra])
      == WorkingDays(day, endDate, countryHolidays, timeOff)
         - (if day <= v <= endDate && IsWorkingDay(v, countryHolidays, timeOff) then 1 else 0)
    decreases endDate - day
  {
    var v := VisitOn(day, extra.date);
    VisitOnDay(day, extra.date);
    if day <= endDate {
      var more := timeOff + [extra];
      assert IsTimeOff(more, day) <==> IsTimeOff(timeOff, day) || Day(extra.date) == Day(day) by {
        assert more[|timeOff|] == extra;
        assert forall j :: 0 <= j < |timeOff| ==> more[j] == timeOff[j];
      }
      AddTimeOff(day + MsPerDay, endDate, countryHolidays, timeOff, extra);
      if Day(extra.date) == Day(day) {
        assert v == day;
        WorkingDaysBound(day + MsPerDay, endDate, countryHolidays, timeOff);
        assert !(day + MsPerDay <= v);
      } else if v > day {
        DivShift(day, MsPerDay, Day(extra.date) - Day(day));
      } else {
        DivShift(day, MsPerDay, Day(extra.date) - Day(day));
      }
    }
  }

  /** One more holiday takes away exactly the working day visited on its start date, if there is one;
      a holiday on a weekend, on a time-off day or on another holiday's day changes nothing. */
  lemma {:induction false} AddHoliday(day: Time, endDate: Time, countryHolidays: seq<Holiday>, timeOff: seq<TimeOff>, extra: Holiday)
    ensures var v := VisitOn(day, extra.startDate);
      WorkingDays(day, endDate, countryHolidays + [extra], timeOff)
      == WorkingDays(day, endDate, countryHolidays, timeOff)
         - (if day <= v <= endDate && IsWorkingDay(v, countryHolidays, timeOff) then 1 else 0)
    decreases endDate - day
  {
    var v := VisitOn(day, extra.startDate);
    VisitOnDay(day, extra.startDate);
    if day <= endDate {
      var more := countryHolidays + [extra];
      assert IsHoliday(more, day) <==> IsHoliday(countryHolidays, day) || Day(extra.startDate) == Day(day) by {
        assert more[|countryHolidays|] == extra;
        assert forall j :: 0 <= j < |countryHolidays| ==> more[j] == countryHolidays[j];
      }
      AddHoliday(day + MsPerDay, endDate, countryHolidays, timeOff, extra);
      if Day(extra.startDate) == Day(day) {
        assert v == day;
        WorkingDaysBound(day + MsPerDay, endDate, countryHolidays, timeOff);
      } else {
        DivShift(day, MsPerDay, Day(extra.startDate) - Day(day));
      }
    }
  }
}
