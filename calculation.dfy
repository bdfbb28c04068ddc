/**
 * The steps of `EffortLogic.CalculateStats` (src/backend/logic/effort.logic.ts) after the task
 * loop: the employee directory's records are copied onto the stored employees, their time off is
 * fetched, the holidays of their countries are fetched once per country, and the statistics of
 * each employee and of the whole work bucket are assembled.
 */
module Calculation {
  import opened Wrappers
  import opened Calendar
  import opened Model
  import opened Email
  import opened EffortLogic
  import opened EffortStats
  import opened BambooHR

  /** The matcher the application binds compares the local parts of the two e-mails. */
  lemma IgnoreDomainComparesLocalParts()
    ensures ComparesPart(IgnoreDomain, LocalPart)
  {
  }

  // ------------------------------------------------------ the directory records

  /** The first directory record whose e-mail matches no stored key: the one the loop throws on. */
  function FirstUnmatched(matcher: Matcher, keys: seq<string>, info: seq<EmployeeRecord>): (r: Option<nat>)
    ensures r.Some? ==> r.value < |info| && FirstMatch(matcher, keys, info[r.value].email).None?
    ensures r.Some? ==> forall k :: 0 <= k < r.value ==> FirstMatch(matcher, keys, info[k].email).Some?
    ensures r.None? <==> forall k :: 0 <= k < |info| ==> FirstMatch(matcher, keys, info[k].email).Some?
  {
    if info == [] then None
    else if FirstMatch(matcher, keys, info[0].email).None? then Some(0)
    else match FirstUnmatched(matcher, keys, info[1..])
      case Some(k) => Some(k + 1)
      case None => None
  }

  /** The last of the first `n` records whose e-mail the map stores under the key at `c`. */
  function LastRecord(matcher: Matcher, keys: seq<string>, info: seq<EmployeeRecord>, n: nat, c: nat): (r: Option<nat>)
    requires n <= |info|
    ensures r.Some? ==> r.value < n && FirstMatch(matcher, keys, info[r.value].email) == Some(c)
    ensures r.Some? ==> forall k :: r.value < k < n ==> FirstMatch(matcher, keys, info[k].email) != Some(c)
    ensures r.None? <==> forall k :: 0 <= k < n ==> FirstMatch(matcher, keys, info[k].email) != Some(c)
  {
    if n == 0 then None
    else if FirstMatch(matcher, keys, info[n - 1].email) == Some(c) then Some(n - 1)
    else LastRecord(matcher, keys, info, n - 1, c)
  }

  /** The records of the loop that completes: all of them, or those before the one it throws on. */
  function Applied(matcher: Matcher, keys: seq<string>, info: seq<EmployeeRecord>): (n: nat)
    ensures n <= |info|
  {
    match FirstUnmatched(matcher, keys, info)
    case Some(k) => k
    case None => |info|
  }

  /** The record that last wrote the employee of the key at `c`, among the records applied. */
  function Writer(matcher: Matcher, keys: seq<string>, info: seq<EmployeeRecord>, c: nat): Option<nat> {
    LastRecord(matcher, keys, info, Applied(matcher, keys, info), c)
  }

  /** An employee's directory fields: its id, name and country. */
  type Fields = (string, Option<string>, Option<Country>)

  /** The directory fields of `e` after the record at `w` was the last applied to it, or its
      `former` fields when no record was. */
  ghost predicate Wrote(e: Employee, info: seq<EmployeeRecord>, w: Option<nat>, former: Fields)
    reads e`id, e`name, e`country
  {
    if w.Some? && w.value < |info| then
      e.id == info[w.value].id && e.name == Some(info[w.value].name) && e.country == Some(info[w.value].country)
    else
      (e.id, e.name, e.country) == former
  }

  /** The directory fields of each employee, in order. */
  function FieldsOf(employees: seq<Employee>): (fields: seq<Fields>)
    reads (set e | e in employees)`id, (set e | e in employees)`name, (set e | e in employees)`country
    ensures |fields| == |employees|
    ensures forall i {:trigger fields[i]} :: 0 <= i < |employees| ==> fields[i] == (employees[i].id, employees[i].name, employees[i].country)
  {
    if employees == [] then []
    else
      var e := employees[|employees| - 1];
      FieldsOf(employees[..|employees| - 1]) + [(e.id, e.name, e.country)]
  }

  /** The fields the record at `w` writes, or `former` when no record was applied. */
  function RecordFields(info: seq<EmployeeRecord>, w: Option<nat>, former: Fields): Fields {
    if w.Some? && w.value < |info| then (info[w.value].id, Some(info[w.value].name), Some(info[w.value].country))
    else former
  }

  /** The fields of the employees stored under `keys` after the records of `info` are applied to
      employees whose fields were `before`. */
  function Written(matcher: Matcher, keys: seq<string>, info: seq<EmployeeRecord>, before: seq<Fields>): (now: seq<Fields>)
    ensures |now| == |before|
    ensures forall c :: 0 <= c < |before| ==> now[c] == RecordFields(info, Writer(matcher, keys, info, c), before[c])
  {
    seq(|before|, c requires 0 <= c < |before| => RecordFields(info, Writer(matcher, keys, info, c), before[c]))
  }

  /** Every stored employee holds the fields of the last of the first `n` records matching its key. */
  ghost predicate WroteAll(matcher: Matcher, keys: seq<string>, values: seq<Employee>, info: seq<EmployeeRecord>,
                           n: nat, before: map<Employee, Fields>)
    requires n <= |info|
    reads set e | e in values
  {
    forall c :: 0 <= c < |values| ==>
      values[c] in before && Wrote(values[c], info, LastRecord(matcher, keys, info, n, c), before[values[c]])
  }

  /** The body of the `forEach` once the record's employee `e`, stored under the key at `c`, is found:
      its name, country and id become the record's. */
  method CopyRecord(matcher: Matcher, keys: seq<string>, values: seq<Employee>, info: seq<EmployeeRecord>, n: nat,
                    e: Employee, ghost c: nat, ghost before: map<Employee, Fields>)
    requires n < |info| && c < |values| && values[c] == e && FirstMatch(matcher, keys, info[n].email) == Some(c)
    requires forall i, j :: 0 <= i < |values| && 0 <= j < |values| && i != j ==> values[i] != values[j]
    requires WroteAll(matcher, keys, values, info, n, before)
    modifies e`id, e`name, e`country
    ensures e.id == info[n].id && e.name == Some(info[n].name) && e.country == Some(info[n].country)
    ensures WroteAll(matcher, keys, values, info, n + 1, before)
  {
    e.name := Some(info[n].name);
    e.country := Some(info[n].country);
    e.id := info[n].id;
    forall d | 0 <= d < |values|
      ensures values[d] in before && Wrote(values[d], info, LastRecord(matcher, keys, info, n + 1, d), before[values[d]])
    {
      if d == c {
        assert LastRecord(matcher, keys, info, n + 1, d) == Some(n);
      } else {
        assert values[d] != e;
        assert LastRecord(matcher, keys, info, n + 1, d) == LastRecord(matcher, keys, info, n, d);
        assert (values[d].id, values[d].name, values[d].country) == old((values[d].id, values[d].name, values[d].country));
      }
    }
  }

  /** The loop of `employeesInfo.forEach(...)`: it stops at the first record whose e-mail matches
      no stored key (where the source throws) and returns how many records it applied. */
  method ApplyRecords(employees: EmailMap<Employee>, info: seq<EmployeeRecord>, ghost before: map<Employee, Fields>)
    returns (n: nat)
    requires employees.Valid()
    requires forall i, j :: 0 <= i < |employees.values| && 0 <= j < |employees.values| && i != j
               ==> employees.values[i] != employees.values[j]
    requires WroteAll(employees.matcher, employees.keys, employees.values, info, 0, before)
    modifies (set e | e in employees.values)`id, (set e | e in employees.values)`name,
             (set e | e in employees.values)`country
    ensures n == Applied(employees.matcher, employees.keys, info)
    ensures WroteAll(employees.matcher, employees.keys, employees.values, info, n, before)
  {
    var matcher, keys, values := employees.matcher, employees.keys, employees.values;
    n := 0;
    while n < |info|
      invariant n <= |info|
      invariant employees.keys == keys && employees.values == values && employees.Valid()
      invariant forall k :: 0 <= k < n ==> FirstMatch(matcher, keys, info[k].email).Some?
      invariant WroteAll(matcher, keys, values, info, n, before)
    {
      var baseEmployee := employees.Get(info[n].email);
      if baseEmployee.None? {
        assert FirstUnmatched(matcher, keys, info) == Some(n);
        return;
      }
      ghost var c := FirstMatch(matcher, keys, info[n].email).value;
      CopyRecord(matcher, keys, values, info, n, baseEmployee.value, c, before);
      assert forall k :: 0 <= k < n + 1 ==> FirstMatch(matcher, keys, info[k].email).Some?;
      n := n + 1;
    }
    assert FirstUnmatched(matcher, keys, info).None?;
  }

  /** `employeesInfo.forEach(...)`: each record's name, country and id go to the stored employee
      whose key its e-mail matches; a record that matches none throws, after the earlier records
      were applied. Distinct keys hold distinct employee records. */
  method AddEmployeeInformation(employees: EmailMap<Employee>, info: seq<EmployeeRecord>) returns (r: Result<()>)
    requires employees.Valid()
    requires forall i, j :: 0 <= i < |employees.values| && 0 <= j < |employees.values| && i != j
               ==> employees.values[i] != employees.values[j]
    modifies (set e | e in employees.values)`id, (set e | e in employees.values)`name,
             (set e | e in employees.values)`country
    ensures r.Err? <==> FirstUnmatched(employees.matcher, employees.keys, info).Some?
    ensures r.Err? ==> r.message == "All employees must match existing ones"
    ensures FieldsOf(employees.values) == Written(employees.matcher, employees.keys, info, old(FieldsOf(employees.values)))
    ensures unchanged((set e | e in employees.values)`email)
  {
    ghost var former := FieldsOf(employees.values);
    ghost var before: map<Employee, Fields> := map e: Employee | e in employees.values :: (e.id, e.name, e.country);
    var n := ApplyRecords(employees, info, before);
    r := if n < |info| then Err("All employees must match existing ones") else Ok(());
    WroteAllIsWritten(employees.matcher, employees.keys, employees.values, info, before, former);
  }

  /** The fields `WroteAll` describes once every applicable record is applied are `Written`. */
  lemma WroteAllIsWritten(matcher: Matcher, keys: seq<string>, values: seq<Employee>, info: seq<EmployeeRecord>,
                          before: map<Employee, Fields>, former: seq<Fields>)
    requires |former| == |values| && forall c :: 0 <= c < |values| ==> values[c] in before && before[values[c]] == former[c]
    requires WroteAll(matcher, keys, values, info, Applied(matcher, keys, info), before)
    ensures FieldsOf(values) == Written(matcher, keys, info, former)
  {
    var now, written := FieldsOf(values), Written(matcher, keys, info, former);
    forall c | 0 <= c < |values|
      ensures now[c] == written[c]
    {
      assert Wrote(values[c], info, Writer(matcher, keys, info, c), former[c]);
    }
  }

  // ------------------------------------------------------ countries and holidays

  /** `employeesList.forEach(e => countries.add(e.country || Country.Undefined))`. */
  method Countries(employees: seq<Employee>) returns (countries: set<Country>)
    ensures forall c :: c in countries <==> exists i :: 0 <= i < |employees| && employees[i].country.GetOr(Undefined) == c
  {
    countries := {};
    for i := 0 to |employees|
      invariant forall c :: c in countries <==> exists k :: 0 <= k < i && employees[k].country.GetOr(Undefined) == c
    {
      countries := countries + {employees[i].country.GetOr(Undefined)};
    }
  }

  /** The holidays an employee of `country` gets: none for an undefined country. */
  function HolidaysOf(holidays: (Country, Time, Time) -> seq<Holiday>, country: Option<Country>, range: DateRange): seq<Holiday> {
    var c := country.GetOr(Undefined);
    if c == Undefined then [] else holidays(c, range.start, range.end)
  }

  /** The holiday loop: one request per country but `Undefined`. */
  method FetchHolidays(countries: set<Country>, holidays: (Country, Time, Time) -> seq<Holiday>, range: DateRange)
    returns (holidaysPerCountry: map<Country, seq<Holiday>>)
    ensures holidaysPerCountry.Keys == countries - {Undefined}
    ensures forall c :: c in holidaysPerCountry ==> holidaysPerCountry[c] == holidays(c, range.start, range.end)
  {
    holidaysPerCountry := map[];
    var rest := countries;
    while rest != {}
      invariant rest <= countries
      invariant holidaysPerCountry.Keys == (countries - rest) - {Undefined}
      invariant forall c :: c in holidaysPerCountry ==> holidaysPerCountry[c] == holidays(c, range.start, range.end)
      decreases |rest|
    {
      var country :| country in rest;
      rest := rest - {country};
      if country == Undefined {
        continue;
      }
      holidaysPerCountry := holidaysPerCountry[country := holidays(country, range.start, range.end)];
    }
  }

  /** The country of every employee but an undefined one has its entry in the holiday map. */
  lemma CountriesFetched(employees: seq<Employee>, countries: set<Country>, holidaysPerCountry: map<Country, seq<Holiday>>)
    requires forall c :: c in countries <==> exists i :: 0 <= i < |employees| && employees[i].country.GetOr(Undefined) == c
    requires holidaysPerCountry.Keys == countries - {Undefined}
    ensures forall i :: 0 <= i < |employees| ==>
              (employees[i].country.GetOr(Undefined) in holidaysPerCountry <==> employees[i].country.GetOr(Undefined) != Undefined)
  {
    forall i | 0 <= i < |employees|
      ensures employees[i].country.GetOr(Undefined) in countries
    {
    }
  }

  /** The set of the employees' countries, then the holidays of each but `Undefined`: every
      employee of a defined country finds its country's holidays in the map. */
  method CountryHolidays(employees: seq<Employee>, holidays: (Country, Time, Time) -> seq<Holiday>, range: DateRange)
    returns (holidaysPerCountry: map<Country, seq<Holiday>>)
    ensures forall i :: 0 <= i < |employees| ==>
              (employees[i].country.GetOr(Undefined) in holidaysPerCountry <==> employees[i].country.GetOr(Undefined) != Undefined)
    ensures forall c :: c in holidaysPerCountry ==> holidaysPerCountry[c] == holidays(c, range.start, range.end)
  {
    var countries := Countries(employees);
    holidaysPerCountry := FetchHolidays(countries, holidays, range);
    CountriesFetched(employees, countries, holidaysPerCountry);
  }

  // ------------------------------------------------------ the statistics

  function SumWorkingDays(stats: seq<EmployeeStats>): int {
    if stats == [] then 0 else SumWorkingDays(stats[..|stats| - 1]) + stats[|stats| - 1].workingDays
  }

  lemma SumWorkingDaysAppend(stats: seq<EmployeeStats>, s: EmployeeStats)
    ensures SumWorkingDays(stats + [s]) == SumWorkingDays(stats) + s.workingDays
  {
    assert (stats + [s])[..|stats|] == stats;
  }

  /** The statistics of one employee, as the last loop of `CalculateStats` builds them. */
  ghost predicate StatsOf(s: EmployeeStats, e: Employee, holidays: (Country, Time, Time) -> seq<Holiday>,
                          range: DateRange, points: int)
    reads e
  {
    s.employee == e && s.dateRange == range && s.points == points
    && s.workingDays == WorkingDays(range.start, range.end, HolidaysOf(holidays, e.country, range), e.timeOff.GetOr([]))
    && s.avgPointsPerWorkingDays == Divide(s.points, s.workingDays)
  }

  /** The last loop of `CalculateStats`: each employee's working days in the range, without the
      holidays of its country and its time off, its points (`|| 0` when none are stored), their
      quotient, and the sum of the working days. */
  method CollectEmployeeStats(employees: seq<Employee>, employeesPoints: EmailMap<int>,
                              holidaysPerCountry: map<Country, seq<Holiday>>,
                              holidays: (Country, Time, Time) -> seq<Holiday>, range: DateRange)
    returns (stats: seq<EmployeeStats>, totalWorkingDays: int)
    requires employeesPoints.Valid()
    requires forall i :: 0 <= i < |employees| ==>
               (employees[i].country.GetOr(Undefined) in holidaysPerCountry <==> employees[i].country.GetOr(Undefined) != Undefined)
    requires forall c :: c in holidaysPerCountry ==> holidaysPerCountry[c] == holidays(c, range.start, range.end)
    ensures |stats| == |employees|
    ensures forall i :: 0 <= i < |employees| ==>
              StatsOf(stats[i], employees[i], holidays, range,
                      Lookup(employeesPoints.matcher, employeesPoints.keys, employeesPoints.values, employees[i].email).GetOr(0))
    ensures totalWorkingDays == SumWorkingDays(stats)
  {
    stats, totalWorkingDays := [], 0;
    for i := 0 to |employees|
      invariant |stats| == i
      invariant forall k :: 0 <= k < i ==>
                  StatsOf(stats[k], employees[k], holidays, range,
                          Lookup(employeesPoints.matcher, employeesPoints.keys, employeesPoints.values, employees[k].email).GetOr(0))
      invariant totalWorkingDays == SumWorkingDays(stats)
    {
      var employee := employees[i];
      var country := employee.country.GetOr(Undefined);
      var eCH := if country in holidaysPerCountry then holidaysPerCountry[country] else [];
      assert eCH == HolidaysOf(holidays, employee.country, range);
      var eWD := CalculateEmployeeWorkingDays(employee, eCH, range.start, range.end);
      var found := employeesPoints.Get(employee.email);
      var ePoints := found.GetOr(0);
      var s := EmployeeStats(employee, eWD, range, ePoints, Divide(ePoints, eWD));
      assert StatsOf(s, employee, holidays, range,
                     Lookup(employeesPoints.matcher, employeesPoints.keys, employeesPoints.values, employee.email).GetOr(0));
      SumWorkingDaysAppend(stats, s);
      stats := stats + [s];
      totalWorkingDays := totalWorkingDays + eWD;
    }
  }

  // ------------------------------------------------------ the whole computation

  /** The e-mail of each task's assignee, `None` for an unassigned task. */
  ghost function AssigneeEmails(tasks: seq<Task>): (emails: seq<Option<string>>)
    reads Assignees(tasks)`email
    ensures EmailsOf(tasks, emails)
  {
    if tasks == [] then []
    else
      var task := tasks[|tasks| - 1];
      assert Assignees(tasks[..|tasks| - 1]) <= Assignees(tasks) by {
        forall e | e in Assignees(tasks[..|tasks| - 1]) ensures e in Assignees(tasks) {
          var k :| 0 <= k < |tasks| - 1 && tasks[k].assignedTo.Some? && tasks[k].assignedTo.value == e;
          assert tasks[k] == tasks[..|tasks| - 1][k];
        }
      }
      AssigneeEmails(tasks[..|tasks| - 1]) + [if task.assignedTo.Some? then Some(task.assignedTo.value.email) else None]
  }

  /** The `tasks` field of every assignee. */
  ghost function TaskLists(tasks: seq<Task>): (lists: map<Employee, Option<seq<Task>>>)
    reads Assignees(tasks)`tasks
    ensures lists.Keys == Assignees(tasks) && AssigneesIn(tasks, lists) && Current(lists)
  {
    map e | e in Assignees(tasks) :: e.tasks
  }

  /** The employees of the statistics, in order. */
  function EmployeesOf(stats: seq<EmployeeStats>): (employees: seq<Employee>)
    ensures |employees| == |stats| && forall i :: 0 <= i < |stats| ==> employees[i] == stats[i].employee
  {
    if stats == [] then [] else EmployeesOf(stats[..|stats| - 1]) + [stats[|stats| - 1].employee]
  }

  /** The statistics of the work bucket over `range` for the employees and their stored points:
      the points of all the tasks (1 for a task without estimation), each employee's statistics,
      the sum of their working days and the quotient of the two. */
  ghost predicate Summary(s: WorkBucketStats, workBucket: WorkBucket, employees: seq<Employee>,
                          employeesPoints: EmailMap<int>, holidays: (Country, Time, Time) -> seq<Holiday>,
                          range: DateRange)
    reads set e | e in employees
    reads employeesPoints
    requires employeesPoints.Valid()
  {
    s.workBucket == workBucket && s.points == TotalPoints(workBucket.tasks, Some(1)) && s.dateRange == range
    && |s.employeeStats| == |employees|
    && (forall i :: 0 <= i < |employees| ==>
          StatsOf(s.employeeStats[i], employees[i], holidays, range,
                  Lookup(employeesPoints.matcher, employeesPoints.keys, employeesPoints.values, employees[i].email).GetOr(0)))
    && s.workingDays == SumWorkingDays(s.employeeStats)
    && s.avgPointsPerWorkingDays == Divide(s.points, s.workingDays)
  }

  /** The steps of `CalculateStats` after the time off is fetched: the holidays, the points of the
      work bucket and the statistics of each employee. */
  method BuildStats(workBucket: WorkBucket, employees: seq<Employee>, employeesPoints: EmailMap<int>,
                    range: DateRange, holidays: (Country, Time, Time) -> seq<Holiday>)
    returns (s: WorkBucketStats)
    requires employeesPoints.Valid()
    ensures Summary(s, workBucket, employees, employeesPoints, holidays, range)
  {
    var holidaysPerCountry := CountryHolidays(employees, holidays, range);
    var totalPoints := CalculatePoints(Some(workBucket), Some(1));
    var employeeStats, totalWorkingDays := CollectEmployeeStats(employees, employeesPoints, holidaysPerCountry,
                                                                holidays, range);
    s := WorkBucketStats(workBucket, totalPoints.value, totalWorkingDays, employeeStats,
                         Divide(totalPoints.value, totalWorkingDays), range);
  }

  /** `GetEmployeesTimeOff` over the range's dates, keeping the directory fields. */
  method RecordTimeOff(employees: seq<Employee>, range: DateRange, requests: (string, string) -> seq<TimeOffEntry>)
    modifies (set e | e in employees)`timeOff
    ensures BambooHR.Applied(Owners(employees, old(Ids(employees))), old(Ids(employees)), old(TimeOffs(employees)),
                             TimeOffs(employees),
                             requests(ConvertDateToString(range.start), ConvertDateToString(range.end)))
    ensures FieldsOf(employees) == old(FieldsOf(employees)) && Ids(employees) == old(Ids(employees))
    ensures unchanged((set e | e in employees)`email)
  {
    var _ := GetEmployeesTimeOff(employees, range.start, range.end, requests);
    FieldsKept(employees);
  }

  /** Employees whose ids, names and countries stay have the same directory fields and ids. */
  twostate lemma FieldsKept(employees: seq<Employee>)
    requires unchanged((set e | e in employees)`id, (set e | e in employees)`name, (set e | e in employees)`country)
    ensures FieldsOf(employees) == old(FieldsOf(employees)) && Ids(employees) == old(Ids(employees))
  {
    var fields, now := old(FieldsOf(employees)), FieldsOf(employees);
    var ids, nowIds := old(Ids(employees)), Ids(employees);
    assert forall i :: 0 <= i < |employees| ==> now[i] == fields[i] && nowIds[i] == ids[i];
  }

  /** The steps of `CalculateStats` after the directory's records are copied: the time off, then
      `BuildStats`. */
  method TimeOffAndStats(workBucket: WorkBucket, employees: seq<Employee>, employeesPoints: EmailMap<int>,
                         range: DateRange, requests: (string, string) -> seq<TimeOffEntry>,
                         holidays: (Country, Time, Time) -> seq<Holiday>)
    returns (s: WorkBucketStats)
    requires employeesPoints.Valid()
    modifies (set e | e in employees)`timeOff
    ensures Summary(s, workBucket, employees, employeesPoints, holidays, range)
    ensures BambooHR.Applied(Owners(employees, old(Ids(employees))), old(Ids(employees)), old(TimeOffs(employees)),
                             TimeOffs(employees),
                             requests(ConvertDateToString(range.start), ConvertDateToString(range.end)))
    ensures unchanged((set e | e in employees)`email)
  {
    RecordTimeOff(employees, range, requests);
    s := BuildStats(workBucket, employees, employeesPoints, range, holidays);
  }

  /** The steps of `CalculateStats` after the task loop, for the stored employees and their points
      and the date range: the directory's records, the time off, then `BuildStats`. */
  method AssembleStats(workBucket: WorkBucket, employees: EmailMap<Employee>, employeesList: seq<Employee>,
                       employeesPoints: EmailMap<int>,
                       range: DateRange, directory: seq<string> -> seq<EmployeeRecord>,
                       requests: (string, string) -> seq<TimeOffEntry>,
                       holidays: (Country, Time, Time) -> seq<Holiday>)
    returns (r: Result<WorkBucketStats>)
    requires employees.Valid() && employeesPoints.Valid() && employeesList == employees.values
    requires forall i, j :: 0 <= i < |employeesList| && 0 <= j < |employeesList| && i != j
               ==> employeesList[i] != employeesList[j]
    modifies (set e | e in employeesList)`id, (set e | e in employeesList)`name,
             (set e | e in employeesList)`country, (set e | e in employeesList)`timeOff
    ensures r.Err? <==> FirstUnmatched(employees.matcher, employees.keys, directory(employees.keys)).Some?
    ensures r.Err? ==> r.message == "All employees must match existing ones"
    ensures r.Ok? ==> Summary(r.value, workBucket, employeesList, employeesPoints, holidays, range)
    ensures FieldsOf(employeesList) == Written(employees.matcher, employees.keys, directory(employees.keys),
                                               old(FieldsOf(employeesList)))
    ensures unchanged((set e | e in employeesList)`email)
  {
    var added := AddEmployeeInformation(employees, directory(employees.keys));
    if added.Err? {
      return Err(added.message);
    }
    label enriched:
    var s := TimeOffAndStats(workBucket, employeesList, employeesPoints, range, requests, holidays);
    FieldsKept@enriched(employeesList);
    r := Ok(s);
  }

  /** `e` is the assignee of the first task whose e-mail, `emails` giving the tasks' e-mails, matches
      `key`. */
  ghost predicate FirstAssignee(matcher: Matcher, tasks: seq<Task>, emails: seq<Option<string>>, key: string,
                                e: Employee)
    requires |emails| == |tasks|
  {
    FirstWith(matcher, emails, |tasks|, key).Some? && tasks[FirstWith(matcher, emails, |tasks|, key).value].assignedTo == Some(e)
  }

  /** The stored employees are assignees of the tasks, each the assignee of the first task matching
      its key and stored under its own e-mail, and each key's points are found under that e-mail. */
  lemma StoredEmployees(matcher: Matcher, part: string -> string, tasks: seq<Task>, emails: seq<Option<string>>,
                        keys: seq<string>, employees: seq<Employee>, points: seq<int>)
    requires ComparesPart(matcher, part) && EmailsOf(tasks, emails)
    requires Collected(matcher, tasks, emails, |tasks|, keys, employees, points)
    ensures |employees| == |keys| == |points|
    ensures forall i :: 0 <= i < |keys| ==>
              employees[i] in Assignees(tasks) && FirstAssignee(matcher, tasks, emails, keys[i], employees[i])
              && employees[i].email == keys[i] && Lookup(matcher, keys, points, keys[i]) == Some(points[i])
  {
    forall i | 0 <= i < |keys|
      ensures employees[i] in Assignees(tasks) && FirstAssignee(matcher, tasks, emails, keys[i], employees[i])
              && employees[i].email == keys[i] && Lookup(matcher, keys, points, keys[i]) == Some(points[i])
    {
      var f := FirstWith(matcher, emails, |tasks|, keys[i]).value;
      assert tasks[f].assignedTo == Some(employees[i]);
      assert emails[f] == Some(keys[i]);
      FirstMatchOfStoredKey(matcher, keys, i);
    }
  }

  /** The task loop of `CalculateStats`: the stores it fills and the dates it finds. */
  method Tally(matcher: Matcher, ghost part: string -> string, tasks: seq<Task>)
    returns (employees: EmailMap<Employee>, employeesPoints: EmailMap<int>, minDate: int, maxDate: int)
    requires ComparesPart(matcher, part)
    modifies Assignees(tasks)`tasks
    ensures fresh(employees) && fresh(employeesPoints)
    ensures employees.Valid() && employeesPoints.Valid()
    ensures employees.matcher == matcher && employeesPoints.matcher == matcher && employeesPoints.keys == employees.keys
    ensures employees.keys == KeysUpTo(matcher, old(AssigneeEmails(tasks)), |tasks|)
    ensures forall i, j :: 0 <= i < |employees.values| && 0 <= j < |employees.values| && i != j
              ==> employees.values[i] != employees.values[j]
    ensures forall i :: 0 <= i < |employees.values| ==> employees.values[i] in Assignees(tasks)
    ensures forall i :: 0 <= i < |employees.keys| ==>
              var tasksOf := TasksUpTo(matcher, tasks, old(AssigneeEmails(tasks)), |tasks|, employees.keys[i]);
              FirstAssignee(matcher, tasks, old(AssigneeEmails(tasks)), employees.keys[i], employees.values[i])
              && employees.values[i].email == employees.keys[i]
              && Lookup(matcher, employees.keys, employeesPoints.values, employees.keys[i]) == Some(EstimateSum(tasksOf))
              && employees.values[i].tasks == Some(old(TaskLists(tasks))[employees.values[i]].GetOr([]) + tasksOf)
    ensures forall e :: e in Assignees(tasks) && e !in employees.values ==> e.tasks == old(e.tasks)
    ensures minDate == MinStarted(tasks, |tasks|) && maxDate == MaxDone(tasks, |tasks|)
  {
    ghost var emails := AssigneeEmails(tasks);
    ghost var start := TaskLists(tasks);
    ghost var lists;
    employees, employeesPoints, minDate, maxDate, lists := CollectTasks(matcher, part, tasks, emails, start);
    StoredEmployees(matcher, part, tasks, emails, employees.keys, employees.values, employeesPoints.values);
  }

  /** What `CalculateStats` returns for `workBucket` when every employee matches the directory,
      `emails` being the assignees' e-mails before the call: the points of all the tasks (1 for a
      task without estimation), the date range (the earliest start and the latest completion when
      no date is given), and one entry per class of matching e-mails in order of first appearance,
      for the assignee of the first task with such an e-mail, with the estimations of the class's tasks, its
      working days in the range without its country's holidays and its time off, and their
      quotient; then the sum of the working days and the overall quotient. */
  ghost predicate WorkStats(s: WorkBucketStats, workBucket: WorkBucket, matcher: Matcher, emails: seq<Option<string>>,
                            startDate: Option<Time>, endDate: Option<Time>, holidays: (Country, Time, Time) -> seq<Holiday>)
    reads set i | 0 <= i < |s.employeeStats| :: s.employeeStats[i].employee
    requires |emails| == |workBucket.tasks|
  {
    var tasks := workBucket.tasks;
    var keys := KeysUpTo(matcher, emails, |tasks|);
    s.workBucket == workBucket && s.points == TotalPoints(tasks, Some(1))
    && s.dateRange == DateRange(startDate.GetOr(MinStarted(tasks, |tasks|)), endDate.GetOr(MaxDone(tasks, |tasks|)))
    && |s.employeeStats| == |keys|
    && (forall i :: 0 <= i < |keys| ==>
          var e := s.employeeStats[i].employee;
          FirstAssignee(matcher, tasks, emails, keys[i], e) && e.email == keys[i]
          && StatsOf(s.employeeStats[i], e, holidays, s.dateRange,
                     EstimateSum(TasksUpTo(matcher, tasks, emails, |tasks|, keys[i]))))
    && s.workingDays == SumWorkingDays(s.employeeStats)
    && s.avgPointsPerWorkingDays == Divide(s.points, s.workingDays)
  }

  /** The statistics `AssembleStats` builds for the stored employees are the statistics of the work. */
  lemma SummaryIsWorkStats(s: WorkBucketStats, workBucket: WorkBucket, matcher: Matcher, emails: seq<Option<string>>,
                           employees: seq<Employee>, employeesPoints: EmailMap<int>,
                           startDate: Option<Time>, endDate: Option<Time>,
                           holidays: (Country, Time, Time) -> seq<Holiday>, range: DateRange)
    requires |emails| == |workBucket.tasks| && employeesPoints.Valid()
    requires Summary(s, workBucket, employees, employeesPoints, holidays, range)
    requires employeesPoints.matcher == matcher
    requires employeesPoints.keys == KeysUpTo(matcher, emails, |workBucket.tasks|)
    requires |employees| == |employeesPoints.keys|
    requires forall i :: 0 <= i < |employees| ==>
               FirstAssignee(matcher, workBucket.tasks, emails, employeesPoints.keys[i], employees[i])
               && employees[i].email == employeesPoints.keys[i]
               && Lookup(matcher, employeesPoints.keys, employeesPoints.values, employeesPoints.keys[i])
                  == Some(EstimateSum(TasksUpTo(matcher, workBucket.tasks, emails, |workBucket.tasks|, employeesPoints.keys[i])))
    requires range == DateRange(startDate.GetOr(MinStarted(workBucket.tasks, |workBucket.tasks|)),
                                endDate.GetOr(MaxDone(workBucket.tasks, |workBucket.tasks|)))
    ensures WorkStats(s, workBucket, matcher, emails, startDate, endDate, holidays)
  {
    var keys := employeesPoints.keys;
    forall i | 0 <= i < |keys|
      ensures var e := s.employeeStats[i].employee;
              FirstAssignee(matcher, workBucket.tasks, emails, keys[i], e) && e.email == keys[i]
              && StatsOf(s.employeeStats[i], e, holidays, s.dateRange,
                         EstimateSum(TasksUpTo(matcher, workBucket.tasks, emails, |workBucket.tasks|, keys[i])))
    {
    }
  }

  /** `AssembleStats` for the employees and points the task loop stored from `workBucket`, the
      assignees' e-mails having been `emails`, and the range the dates give: its statistics are the
      work statistics. */
  method StoredStats(workBucket: WorkBucket, matcher: Matcher, ghost emails: seq<Option<string>>,
                     employees: EmailMap<Employee>, employeesPoints: EmailMap<int>,
                     startDate: Option<Time>, endDate: Option<Time>, range: DateRange,
                     directory: seq<string> -> seq<EmployeeRecord>,
                     requests: (string, string) -> seq<TimeOffEntry>,
                     holidays: (Country, Time, Time) -> seq<Holiday>)
    returns (r: Result<WorkBucketStats>)
    requires |emails| == |workBucket.tasks| && employees.Valid() && employeesPoints.Valid()
    requires employeesPoints.matcher == matcher && employeesPoints.keys == employees.keys
    requires employees.keys == KeysUpTo(matcher, emails, |workBucket.tasks|)
    requires forall i, j :: 0 <= i < |employees.values| && 0 <= j < |employees.values| && i != j
               ==> employees.values[i] != employees.values[j]
    requires forall i :: 0 <= i < |employees.keys| ==>
               FirstAssignee(matcher, workBucket.tasks, emails, employees.keys[i], employees.values[i])
               && employees.values[i].email == employees.keys[i]
               && Lookup(matcher, employees.keys, employeesPoints.values, employees.keys[i])
                  == Some(EstimateSum(TasksUpTo(matcher, workBucket.tasks, emails, |workBucket.tasks|, employees.keys[i])))
    requires range == DateRange(startDate.GetOr(MinStarted(workBucket.tasks, |workBucket.tasks|)),
                                endDate.GetOr(MaxDone(workBucket.tasks, |workBucket.tasks|)))
    modifies (set e | e in employees.values)`id, (set e | e in employees.values)`name,
             (set e | e in employees.values)`country, (set e | e in employees.values)`timeOff
    ensures r.Err? <==> FirstUnmatched(employees.matcher, employees.keys, directory(employees.keys)).Some?
    ensures r.Err? ==> r.message == "All employees must match existing ones"
    ensures r.Ok? ==> WorkStats(r.value, workBucket, matcher, emails, startDate, endDate, holidays)
  {
    ghost var stored := employees.values;
    r := AssembleStats(workBucket, employees, employees.values, employeesPoints, range, directory, requests, holidays);
    if r.Ok? {
      SummaryIsWorkStats(r.value, workBucket, matcher, emails, stored, employeesPoints, startDate, endDate, holidays, range);
    }
  }

  /** The steps of `CalculateStats` once the work bucket is fetched. */
  method SummarizeWork(matcher: Matcher, ghost part: string -> string, workBucket: WorkBucket,
                       startDate: Option<Time>, endDate: Option<Time>,
                       directory: seq<string> -> seq<EmployeeRecord>,
                       requests: (string, string) -> seq<TimeOffEntry>,
                       holidays: (Country, Time, Time) -> seq<Holiday>)
    returns (r: Result<WorkBucketStats>)
    requires ComparesPart(matcher, part)
    modifies Assignees(workBucket.tasks)
    ensures
      var tasks := workBucket.tasks;
      var keys := KeysUpTo(matcher, old(AssigneeEmails(tasks)), |tasks|);
      (r.Err? <==> FirstUnmatched(matcher, keys, directory(keys)).Some?)
      && (r.Err? ==> r.message == "All employees must match existing ones")
    ensures r.Ok? ==> WorkStats(r.value, workBucket, matcher, old(AssigneeEmails(workBucket.tasks)), startDate, endDate, holidays)
  {
    var tasks := workBucket.tasks;
    ghost var emails := AssigneeEmails(tasks);
    var employees, employeesPoints, minDate, maxDate := Tally(matcher, part, tasks);
    var range := DateRange(startDate.GetOr(minDate), endDate.GetOr(maxDate));
    r := StoredStats(workBucket, matcher, emails, employees, employeesPoints, startDate, endDate, range,
                     directory, requests, holidays);
  }

  /** `CalculateStats(workbucketURI, startDate, endDate)`. `work` is what the work source returns for
      the URI and the dates; `directory`, `requests` and `holidays` stand for the employee
      directory, the time-off source and the holiday source. */
  method CalculateStats(matcher: Matcher, ghost part: string -> string, work: Result<WorkBucket>,
                        startDate: Option<Time>, endDate: Option<Time>,
                        directory: seq<string> -> seq<EmployeeRecord>,
                        requests: (string, string) -> seq<TimeOffEntry>,
                        holidays: (Country, Time, Time) -> seq<Holiday>)
    returns (r: Result<WorkBucketStats>)
    requires ComparesPart(matcher, part)
    modifies if work.Ok? then Assignees(work.value.tasks) else {}
    ensures work.Err? ==> r == Err(work.message)
    ensures work.Ok? ==>
      var tasks := work.value.tasks;
      var keys := KeysUpTo(matcher, old(AssigneeEmails(tasks)), |tasks|);
      (r.Err? <==> FirstUnmatched(matcher, keys, directory(keys)).Some?)
      && (r.Err? ==> r.message == "All employees must match existing ones")
    ensures work.Ok? && r.Ok? ==> WorkStats(r.value, work.value, matcher, old(AssigneeEmails(work.value.tasks)), startDate, endDate, holidays)
  {
    if work.Err? {
      return Err(work.message);
    }
    r := SummarizeWork(matcher, part, work.value, startDate, endDate, directory, requests, holidays);
  }
}
