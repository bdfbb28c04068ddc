# emtoolkit work-bucket statistics, in Dafny

emtoolkit computes the statistics of a work bucket: a Linear team, cycle, project or project
milestone. `EffortLogic.CalculateStats` runs these steps:

1. It takes the bucket's tasks from the work source, Linear.
2. It groups the tasks by assignee. Two assignees are the same person when the local parts of
   their e-mails are equal (`IgnoreDomain`), and an `EmailMap` keyed by that matcher holds
   them.
3. It copies each person's id, name and country from the HR directory, BambooHR.
4. It appends the approved time off from BambooHR to each person.
5. It fetches the public holidays of each person's country, once per country.
6. It counts each person's working days in the date range and divides the points by them.

This project models these parts of the system, each module following one source file:

- `Email`: `IgnoreDomain`, together with `EmailMap` and `EmailSet`. The two containers look keys
  up with a pluggable matcher instead of equality.
- `EffortLogic`: `calculatePoints`, `compareDateWithoutTime` and
  `calculateEmployeeWorkingDays`.
- `EffortStats`: the task loop of `CalculateStats`.
- `Calculation`: the rest of `CalculateStats`, from the directory records to the final
  statistics.
- `Linear`: `parseWorkBucketURI`, `buildFilter` and the folds of `GetWorkBucket`.
- `BambooHR`: `convertDateToString`, `convertCountryNameToCountry`, `GetEmployeesTimeOff` and
  `GetEmployeesByEmail`.
- Support modules: `Calendar` provides the UTC calendar of ECMA-262 section 21.4.1, and `Text`
  the string operations the code uses. `Model` holds the shared records and `Wrappers` holds
  `Option` and `Result`.

State is modelled as the source keeps it:

- Employees are objects. Several tasks share one, and the integrations and the aggregation
  update them in place, so `Employee` is a class.
- `EmailMap` and `EmailSet` are classes. Their storage sequences are in insertion order, the way
  JavaScript's `Map` and `Set` keep their keys.
- The loops are methods. Each loop is proved against a specification function: `Fold`,
  `TotalPoints`, `WorkingDays`, `KeysUpTo`, `TasksUpTo`, `Selected` and `RecordsFor`.

`CalculateStats` is proved for every matcher that compares one part of the two e-mails, which
`IgnoreDomain` does (`Calculation.IgnoreDomainComparesLocalParts`). Its result is described in
terms of the tasks alone:

- one entry per class of matching assignee e-mails, in order of first appearance;
- for each entry, the assignee object of the first task whose e-mail is in the class, its tasks' estimations, and its
  working days without its country's holidays and its time off;
- the date range;
- the bucket's points, in which a task without an estimation counts 1.

HTTP responses and the other collaborators are parameters:

- the issues and users that Linear returns, as functions of the filter and of the id list;
- the directory records, as a function of the e-mail list;
- the time-off requests, as a function of the two formatted dates;
- the holidays, as a function of the country and the range;
- the bucket id, which the source draws with `uuidv4`.

In these places the code follows the source where a simpler model would differ:

- `task.estimation || noEstimationValue || 0` treats an estimation of 0 as missing.
- The bucket total uses a default of 1 and the per-employee points use 0.
- A holiday counts only on the UTC day of its start.
- The day loop keeps the start's time of day and compares it with the full end timestamp.
- The directory e-mail replaces nothing. Only the id, name and country are copied.
- A directory record matching no stored e-mail throws only after the records before it were
  applied.

## Model

| member | source | states |
|---|---|---|
| Email.LocalPart | src/backend/logic/email.logic.ts:6-7 | the text before the first `@`, or all of it when there is none: a prefix holding no `@` that is followed by `@` when shorter than the address |
| Email.LocalPartOf | src/backend/logic/email.logic.ts:6-7 | the local part of `local@domain` is `local` whenever `local` holds no `@` |
| Email.IgnoreDomainOfAddresses | src/backend/logic/email.logic.ts:5-10 | two addresses match exactly when their local parts are equal, whatever their domains (case-sensitive) |
| Email.IgnoreDomainIsEquivalence | src/backend/logic/email.logic.ts:5-10 | `IgnoreDomain` is reflexive, symmetric and transitive |
| Email.FirstMatch | src/backend/logic/email.logic.ts:30-34 | the position of the first stored key, in insertion order, that the key matches; none exactly when no stored key matches |
| Email.EmailMap.constructor | src/backend/logic/email.logic.ts:14-16 | an empty map bound to the given matcher |
| Email.EmailMap.Has | src/backend/logic/email.logic.ts:18-27 | true exactly when some stored key matches the key |
| Email.EmailMap.Get | src/backend/logic/email.logic.ts:29-37 | the value of the first matching stored key, or undefined when none matches |
| Email.EmailMap.Set | src/backend/logic/email.logic.ts:39-50 | the storage after `set`: the first matching key's value replaced, or the pair appended when nothing matches; keys stay distinct |
| Email.PutOnMatch | src/backend/logic/email.logic.ts:40-45 | when a stored key matches, only that key's value changes: the keys, their order and the other values are kept |
| Email.PutOnNoMatch | src/backend/logic/email.logic.ts:47-49 | when no stored key matches, the pair is appended |
| Email.LookupAfterPut | src/backend/logic/email.logic.ts:39-50 | with a reflexive matcher, `get(k)` after `set(k, v)` is `v` |
| Email.PutKeepsUnambiguous | src/backend/logic/email.logic.ts:39-50 | with a symmetric matcher, `set` never leaves two stored keys that match each other |
| Email.FirstMatchOfStoredKey | src/backend/logic/email.logic.ts:29-37 | among keys no two of which match, a stored key finds itself |
| Email.SetTwoMatchingKeys | src/backend/logic/email.logic.ts:39-50 | setting two matching keys keeps the first spelling with the second value, found under either key |
| Email.FirstMatchExtend | src/backend/logic/email.logic.ts:29-37 | appending keys does not change a lookup that already succeeds |
| Email.EmailSet.constructor | src/backend/logic/email.logic.ts:54-56 | an empty set bound to the given matcher |
| Email.EmailSet.Has | src/backend/logic/email.logic.ts:58-67 | true exactly when some stored element matches the key |
| Email.EmailSet.Add | src/backend/logic/email.logic.ts:69-79 | the storage after `add`: unchanged when an element matches, otherwise the key appended |
| Email.InsertCases | src/backend/logic/email.logic.ts:69-79 | `add` is a no-op when some element matches, and appends the key when nothing stored matches it and it matches itself |
| Email.InsertKeepsUnambiguous | src/backend/logic/email.logic.ts:69-79 | with a symmetric matcher, `add` never leaves two elements that match each other |
| Email.InsertAllFromKeys | src/backend/integrations/bamboohr.ts:201-202 | every element of the set built from a list is one of the list's e-mails |
| Email.InsertAllCovers | src/backend/integrations/bamboohr.ts:201-202 | with a reflexive matcher, every added e-mail is matched by the set built from the list |
| Text.IntToStringRoundTrip | src/backend/integrations/bamboohr.ts:88 | `String(n)` is an optional `-` followed by decimal digits that denotes `n` |
| Text.PadStart | src/backend/integrations/bamboohr.ts:88 | `padStart(len, fill)`: the string ends with the input, is at least `len` long, and is preceded only by `fill` |
| Text.TwoDigits | src/backend/integrations/bamboohr.ts:88 | a number below 100 padded to two places is two digits denoting it |
| Text.Split | src/backend/logic/email.logic.ts:6-7 | `split` on a one-character separator yields at least one part and no part holds the separator |
| Text.JoinSplit | src/backend/logic/email.logic.ts:6-7 | joining the parts of a split with the separator gives the string back |
| Text.SplitJoin | src/backend/integrations/linear.ts:23 | splitting parts free of the separator after joining them gives the parts back |
| Text.ToLower | src/backend/integrations/bamboohr.ts:98 | `toLowerCase` lowers each ASCII capital and keeps every other character at its place |
| Text.ToLowerEquals | src/backend/integrations/bamboohr.ts:98-111 | comparing the lower-cased name with a lower-case constant is comparing ignoring letter case |
| Calendar.WeekDay | src/backend/logic/effort.logic.ts:81 | `getUTCDay()` is in 0..6 |
| Calendar.WeekDayShift | src/backend/logic/effort.logic.ts:80-84 | `k` days later the weekday is shifted by `k` modulo 7 |
| Calendar.YearFromDay | src/backend/logic/effort.logic.ts:61 | `getUTCFullYear()`: the year whose first day is on or before the day and whose next year's first day is after it |
| Calendar.MonthFromTime | src/backend/logic/effort.logic.ts:62 | `getUTCMonth()` is in 0..11 |
| Calendar.DateFromTime | src/backend/logic/effort.logic.ts:63 | `getUTCDate()` is in 1..31 |
| Calendar.DayFromFields | src/backend/logic/effort.logic.ts:60-64 | the day number is determined by the UTC year, month and day of the month |
| Calendar.SameFieldsSameDay | src/backend/logic/effort.logic.ts:60-64 | two times have the same UTC year, month and day of the month exactly when they fall on the same UTC day |
| Calendar.NextUtcDate | src/backend/logic/effort.logic.ts:80 | `setUTCDate(getUTCDate() + 1)` moves exactly one day forward and keeps the time of day |
| Model.Employee.constructor | src/backend/integrations/linear.ts:197-200 | the literal `{ id, email }`: the given id and e-mail, every optional property undefined |
| Model.Divide | src/backend/logic/effort.logic.ts:236 | `points / workingDays`: a number whose product with the days is the points when the days are not 0, otherwise NaN for 0 points and an infinity of the points' sign |
| EffortLogic.CalculatePoints | src/backend/logic/effort.logic.ts:38-53 | throws "Argument 'workBucket' is mandatory" without a bucket, otherwise the total of `estimation \|\| noEstimationValue \|\| 0` over the tasks (0 for no tasks) |
| EffortLogic.TotalWithDefaultOne | src/backend/logic/effort.logic.ts:220 | with the default 1 the total is the sum of the estimations plus one per task estimated missing or 0 |
| EffortLogic.TotalWithoutDefault | src/backend/logic/effort.logic.ts:49 | with no default (or 0) the total is the sum of the estimations, missing ones counting 0 |
| EffortLogic.TotalPointsAppend | src/backend/logic/effort.logic.ts:47-50 | the total of two task lists one after the other is the sum of their totals |
| EffortLogic.CompareDateWithoutTime | src/backend/logic/effort.logic.ts:60-64 | true exactly when the two times fall on the same UTC day |
| EffortLogic.CalculateEmployeeWorkingDays | src/backend/logic/effort.logic.ts:75-113 | the number of days visited from the start in one-day steps while not after the end that are Monday to Friday, start no holiday and hold no time off of the employee |
| EffortLogic.FindHoliday | src/backend/logic/effort.logic.ts:87-93 | true exactly when some holiday starts on the UTC day |
| EffortLogic.FindTimeOff | src/backend/logic/effort.logic.ts:98-104 | true exactly when some time-off record falls on the UTC day |
| EffortLogic.NextDay | src/backend/logic/effort.logic.ts:80 | the next value of the day cursor: the next UTC day at the same time of day |
| EffortLogic.WorkingDaysStep | src/backend/logic/effort.logic.ts:80-110 | each visited day adds one exactly when it is a working day |
| EffortLogic.WorkingDaysBound | src/backend/logic/effort.logic.ts:77-112 | the count is 0 when the start is after the end and never exceeds the number of visited days |
| EffortLogic.WorkingDaysSplit | src/backend/logic/effort.logic.ts:80 | the count over a range is the sum of the counts over two consecutive parts split at a whole day |
| EffortLogic.FullWeek | src/backend/logic/effort.logic.ts:81-84 | without holidays or time off, any seven consecutive days hold five working days |
| EffortLogic.WholeWeeks | src/backend/logic/effort.logic.ts:81-84 | without holidays or time off, `w` whole weeks hold `5 w` working days |
| EffortLogic.AddTimeOff | src/backend/logic/effort.logic.ts:97-106 | one more time-off record removes one working day exactly when its UTC day is visited and was a working day, so a day already off is not subtracted twice |
| EffortLogic.AddHoliday | src/backend/logic/effort.logic.ts:86-95 | one more holiday removes one working day exactly when the UTC day of its start is visited and was a working day |
| EffortStats.KeysUpToFor | src/backend/logic/effort.logic.ts:150-155 | the stored keys hold one spelling per class of matching assignee e-mails, the first seen, in order of first appearance; every assignee e-mail matches one |
| EffortStats.TasksUpTo | src/backend/logic/effort.logic.ts:165-169 | the tasks whose assignee e-mail matches a key, in order; empty exactly when no assignee matches it |
| EffortStats.MinStarted | src/backend/logic/effort.logic.ts:129-139 | the earliest `startedAt` over all tasks, assigned or not, or the sentinel 8640000000000000 when none has one |
| EffortStats.MaxDone | src/backend/logic/effort.logic.ts:129-143 | the latest `doneAt` over all tasks, or the sentinel -8640000000000000 when none has one |
| EffortStats.EstimateSumAppend | src/backend/logic/effort.logic.ts:162 | a task appended to a key's list adds its estimation, or 0 when undefined |
| EffortStats.OnlyMatch | src/backend/logic/effort.logic.ts:151 | among keys no two of which match, an e-mail matching the first key found matches no other key |
| EffortStats.TasksStepAll | src/backend/logic/effort.logic.ts:165-169 | the next task joins the task list of exactly the keys its assignee's e-mail matches |
| EffortStats.Chosen | src/backend/logic/effort.logic.ts:151-155 | the employee that gets a task is the one stored under the first matching key, or the task's own assignee when no key matches |
| EffortStats.AssignStep | src/backend/logic/effort.logic.ts:150-169 | one assigned task folded in: the chosen employee's task list gets the task, and the keys, employees and points keep their lengths aligned |
| EffortStats.Fold | src/backend/logic/effort.logic.ts:135-170 | the state of the task loop after `n` tasks: aligned keys, employees and points, every employee one of the assignees |
| EffortStats.FoldNext | src/backend/logic/effort.logic.ts:146-169 | the loop state after an assigned task is the step applied to the state before it |
| EffortStats.FoldKeys | src/backend/logic/effort.logic.ts:150-155 | the loop's keys are exactly the first spelling of each class of assignee e-mails |
| EffortStats.FoldEmployees | src/backend/logic/effort.logic.ts:151-155 | each key's employee is the assignee of the first task with a matching e-mail, and no employee is stored twice |
| EffortStats.FoldPoints | src/backend/logic/effort.logic.ts:157-163 | each key's points are the sum of the estimations of the tasks matching it, undefined counting 0 |
| EffortStats.FoldCollected | src/backend/logic/effort.logic.ts:135-170 | keys, employees and points of the loop together, as the three lemmas above state them |
| EffortStats.FoldSelects | src/backend/logic/effort.logic.ts:150-169 | an assigned task goes to exactly one stored employee, the one whose key its e-mail matches |
| EffortStats.FoldLists | src/backend/logic/effort.logic.ts:165-169 | each stored employee's task list is its previous list followed by all tasks matching its key; every other assignee's list is untouched |
| EffortStats.StoreAssignee | src/backend/logic/effort.logic.ts:150-163 | the `get`/`set` pair on both maps: the points under the first matching key grow by the estimation, or the e-mail, the assignee and the estimation are appended |
| EffortStats.PushTask | src/backend/logic/effort.logic.ts:166-169 | the employee's task list, created when undefined, gets the task at its end |
| EffortStats.AssignTask | src/backend/logic/effort.logic.ts:150-169 | one loop body for an assigned task performs exactly the fold step on both maps and on the task lists |
| EffortStats.CollectTask | src/backend/logic/effort.logic.ts:135-170 | one iteration: the fold step when assigned, nothing stored otherwise, and the date bounds updated |
| EffortStats.CollectTasks | src/backend/logic/effort.logic.ts:129-170 | the whole task loop: the maps hold the keys, employees and points above, each stored employee's task list is extended by its tasks, and the date bounds |
| Calculation.IgnoreDomainComparesLocalParts | src/backend/logic/email.logic.ts:5-10 | `IgnoreDomain` matches two e-mails exactly when their local parts are equal, so the pipeline's proofs apply to it |
| Calculation.FirstUnmatched | src/backend/logic/effort.logic.ts:187-190 | the first directory record whose e-mail matches no stored employee, or none when all match |
| Calculation.LastRecord | src/backend/logic/effort.logic.ts:187-195 | the last of the first `n` directory records that resolves to stored employee `c` |
| Calculation.Applied | src/backend/logic/effort.logic.ts:187-190 | the number of records applied before the loop throws, at most all of them |
| Calculation.Written | src/backend/logic/effort.logic.ts:187-195 | each stored employee's id, name and country are those of the last applied record resolving to it, or its former fields when there is none |
| Calculation.CopyRecord | src/backend/logic/effort.logic.ts:192-194 | the record's id, name and country are written onto the employee it resolves to |
| Calculation.ApplyRecords | src/backend/logic/effort.logic.ts:187-195 | all records up to the first unmatched one are applied, in order |
| Calculation.AddEmployeeInformation | src/backend/logic/effort.logic.ts:186-195 | throws "All employees must match existing ones" exactly when some record's e-mail matches no stored employee; the employees' fields are then as `Written` says and their e-mails are untouched |
| Calculation.Countries | src/backend/logic/effort.logic.ts:207-208 | the set of the employees' countries, undefined read as `Undefined` |
| Calculation.FetchHolidays | src/backend/logic/effort.logic.ts:211-217 | one holiday request per country other than `Undefined`, stored under that country |
| Calculation.CountriesFetched | src/backend/logic/effort.logic.ts:206-217 | an employee's country has holidays stored exactly when it is defined |
| Calculation.CountryHolidays | src/backend/logic/effort.logic.ts:206-217 | the holidays of every employee's defined country, fetched for the range |
| Calculation.CollectEmployeeStats | src/backend/logic/effort.logic.ts:223-240 | per employee: its working days in the range without its country's holidays (none for an undefined country) and its time off, its stored points or 0, their quotient; and the sum of the working days |
| Calculation.BuildStats | src/backend/logic/effort.logic.ts:206-249 | the bucket's points with default 1, each employee's statistics, the total working days and the overall quotient |
| Calculation.RecordTimeOff | src/backend/logic/effort.logic.ts:197-204 | the time-off requests between the range's two formatted dates are appended to the employee that owns each request's id, matched by the ids held at the call; the ids, names, countries and e-mails stay as they were |
| Calculation.TimeOffAndStats | src/backend/logic/effort.logic.ts:197-249 | the statistics are built over the employees after the time-off requests between the range's two formatted dates were appended to the owner of each request's id, matched by the ids held at the call; the e-mails stay as they were |
| Calculation.AssembleStats | src/backend/logic/effort.logic.ts:183-249 | throws "All employees must match existing ones" exactly when a directory record matches no stored e-mail; otherwise the statistics of the stored employees over the range; either way each stored employee's id, name and country are those of the last directory record for its e-mail applied before any throw, or stay as they were |
| Calculation.StoredStats | src/backend/logic/effort.logic.ts:173-249 | for the employees and points the task loop stored: the directory error exactly when a record matches no stored e-mail, otherwise the work statistics, each entry reporting the assignee of the first task whose e-mail matches its key |
| Calculation.StoredEmployees | src/backend/logic/effort.logic.ts:150-163 | after the task loop every stored employee is the assignee of the first task whose e-mail matches its key, carries its key as e-mail, and its key finds its points |
| Calculation.Tally | src/backend/logic/effort.logic.ts:129-170 | the task loop from fresh maps: the keys, each key's employee (the assignee of the first task matching the key), its points, its extended task list, the untouched lists of the other assignees, and the date bounds |
| Calculation.SummaryIsWorkStats | src/backend/logic/effort.logic.ts:173-249 | the statistics of the stored employees are the statistics of the work, stated in terms of the tasks alone, each entry reporting the assignee of the first task matching its key |
| Calculation.SummarizeWork | src/backend/logic/effort.logic.ts:129-249 | everything after the work bucket is fetched: the directory error exactly when a record matches no assignee class, otherwise the work statistics, each entry reporting the assignee of the first task matching its key |
| Calculation.CalculateStats | src/backend/logic/effort.logic.ts:121-254 | a failed work fetch is passed on; then throws "All employees must match existing ones" exactly when a directory record matches no assignee e-mail; otherwise one entry per assignee class in order of first appearance, for the assignee of the class's first task, with its points, working days and quotient, the date range and the bucket's totals |
| Linear.ParseWorkBucketURI | src/backend/integrations/linear.ts:36-58 | fails only with "Invalid 'workBucketURI' provided"; a parsed filter has a team name and no time window |
| Linear.ParseSegments | src/backend/integrations/linear.ts:42-55 | the same statement for the `/`-separated segments of the URI |
| Linear.ParseSegmentsOf | src/backend/integrations/linear.ts:42-55 | the segments of a well-formed filter, keywords in any letter case, parse back to that filter |
| Linear.ParseRender | src/backend/integrations/linear.ts:36-58 | every well-formed filter, written as a URI with any keyword spelling, parses back to itself |
| Linear.MatchedSegments | src/backend/integrations/linear.ts:42-55 | segments that parse are the segments of the parsed filter for some keyword spelling |
| Linear.ParsedSegments | src/backend/integrations/linear.ts:36-58 | the URI's segments are those of the parsed filter for some keyword spelling |
| Linear.ParseWellFormed | src/backend/integrations/linear.ts:36-58 | a parsed filter has non-empty values free of `/`, a milestone only with a project, and no time window |
| Linear.ParseComplete | src/backend/integrations/linear.ts:36-58 | a URI that parses is its well-formed filter written out as `team/T[/cycle/C][/project/P[/milestone/M]]` with some spelling of the keywords (`Linear.ParseRender` gives the converse) |
| Linear.BuildFilter | src/backend/integrations/linear.ts:60-109 | the team filter is always the team name; the project, cycle, start and completion filters are set exactly when their inputs are, and the milestone filter only with a project |
| Linear.FilterOfURI | src/backend/integrations/linear.ts:156-170 | the issue filter of a URI names exactly its segments, and the dates given |
| Linear.DistinctAssignees | src/backend/integrations/linear.ts:183-204 | the keys of `userEmployeeMap`: each non-empty assignee id once |
| Linear.LastUser | src/backend/integrations/linear.ts:237-244 | the last user record with a given id, none when no user has it |
| Linear.FoldedStep | src/backend/integrations/linear.ts:187-217 | after one more issue the tasks still hold one task per issue, and equal assignee ids share one record |
| Linear.CollectTasks | src/backend/integrations/linear.ts:183-224 | one task per issue in order; an assignee per non-empty id, a new record for each distinct id with only its id and an empty e-mail |
| Linear.ApplyUsers | src/backend/integrations/linear.ts:235-251 | each record's e-mail and name become those of the last user with its id, and nothing else changes |
| Linear.GetWorkBucket | src/backend/integrations/linear.ts:156-254 | throws for an empty URI and for a malformed one; otherwise one task per issue in order, records shared exactly by equal assignee ids, and each record's e-mail and name from the users |
| BambooHR.FormatShape | src/backend/integrations/bamboohr.ts:87-89 | a four-digit year, then `-`, the 1-based month in two digits, `-`, and the day in two digits |
| BambooHR.FormatInjective | src/backend/integrations/bamboohr.ts:87-89 | two dates format alike exactly when their year, month and day are equal |
| BambooHR.DateStringShape | src/backend/integrations/bamboohr.ts:87-89 | `YYYY-MM-DD` of the date's year, 1-based month and day |
| BambooHR.DateStringsEqual | src/backend/integrations/bamboohr.ts:87-89 | two times format alike exactly when they fall on the same day |
| BambooHR.ConvertCountryNameToCountry | src/backend/integrations/bamboohr.ts:91-114 | `Portugal` and `UnitedStates` for those names in any letter case, `Undefined` for an empty or missing name and for every other name |
| BambooHR.TimeOffsOf | src/backend/integrations/bamboohr.ts:160-173 | at most one record per date, each with a positive quantity |
| BambooHR.TimeOffsOfMembers | src/backend/integrations/bamboohr.ts:160-173 | a record is produced exactly for a date whose parsed quantity is positive, and carries it |
| BambooHR.CollectTimeOffs | src/backend/integrations/bamboohr.ts:160-173 | the loop over one request's dates builds exactly those records |
| BambooHR.WithTimeOff | src/backend/integrations/bamboohr.ts:175-185 | the list is created only when there is something to append, and the records are appended to it |
| BambooHR.WithTimeOffTwice | src/backend/integrations/bamboohr.ts:175-185 | appending twice is appending the concatenation |
| BambooHR.Ids | src/backend/integrations/bamboohr.ts:137 | the employees' ids, in order |
| BambooHR.DistinctIds | src/backend/integrations/bamboohr.ts:138 | each id once, in order of first occurrence, as a `Map` built from pairs keeps its keys |
| BambooHR.LastIndex | src/backend/integrations/bamboohr.ts:138 | the last position holding an id, whose employee the `Map` keeps |
| BambooHR.IdMap | src/backend/integrations/bamboohr.ts:137-138 | the map from each id to the last employee with it |
| BambooHR.AppliedStep | src/backend/integrations/bamboohr.ts:152-187 | one more request appends its records to the owner of its id and changes nothing else |
| BambooHR.ApplyRequest | src/backend/integrations/bamboohr.ts:152-186 | one request: ignored for an unknown id, otherwise its records appended to the employee the map keeps for the id |
| BambooHR.AddTimeOffs | src/backend/integrations/bamboohr.ts:152-187 | every employee the map keeps gets the records of all requests for its id, in order; the others and all e-mails are untouched |
| BambooHR.MapAndApply | src/backend/integrations/bamboohr.ts:137-187 | the id map built and the requests applied through it |
| BambooHR.Representatives | src/backend/integrations/bamboohr.ts:189 | the map's values: one employee per distinct id, in first-insertion order |
| BambooHR.GetEmployeesTimeOff | src/backend/integrations/bamboohr.ts:135-190 | the requests for the two formatted dates are applied; it returns the input employee objects, one per distinct id |
| BambooHR.GetEmployeesByEmail | src/backend/integrations/bamboohr.ts:192-225 | the records of the wanted users, in the users' order, read through the set built from the requested e-mails |
| BambooHR.AddedSetMatches | src/backend/integrations/bamboohr.ts:201-211 | with an equivalence as matcher, the set built from the e-mails matches an address exactly when some requested e-mail does |
| BambooHR.SelectedUsers | src/backend/integrations/bamboohr.ts:201-221 | a record is returned exactly when some user has a non-empty e-mail matching a requested one and the record is its HR entry: "first last", the work e-mail, the converted country and the HR id |

Three functions that model source functions have no row of their own. Their contracts are stated through the rows that use them:

- `BambooHR.ConvertDateToString` (src/backend/integrations/bamboohr.ts:86-88), through `BambooHR.DateStringShape` and `BambooHR.DateStringsEqual`;
- `Linear.BucketFilter` (src/backend/integrations/linear.ts:163-170), through `Linear.FilterOfURI`;
- `BambooHR.RecordOf` (src/backend/integrations/bamboohr.ts:215-220), through `BambooHR.SelectedUsers`.

## Left out

- HTTP and SDK calls are left out: the axios requests, the Linear client, and pagination through `fetchNext`. Their responses are parameters, as listed above in the description.
- Progress reporting (`Activity`, `LevelUp`, `LevelDown`) is left out. `Activity` is the identity on its callback.
- The CSV output, the CLI, the Express server and dependency injection are not part of this model.
- The holiday integrations (`dateHolidays.ts`, `openholidays.ts`) are left out. They wrap a library and an HTTP API, and the holidays are a parameter instead.
- JavaScript `Date` objects are integer milliseconds. Time zones are not modelled: `convertDateToString` reads local fields in the source and the UTC fields here.
- Date parsing is left out. That covers the time-off dates (`new Date(index)`) and the CLI's `Date.parse`. The time-off request dates arrive as times, and `parseFloat` arrives as an optional real.
- Invalid dates (NaN time values) are not modelled, and neither is `TimeClip` beyond the two sentinels.
- Floating point is left out. `Quotient` is the exact quotient, and IEEE rounding is not modelled. Estimations and points are integers, although Linear could send a fractional estimate.
- The `g` and `m` flags of `REGEX_WORKBUCKETURI` are not modelled. The match is single-line and anchored. The `i` flag is modelled as a keyword comparison that ignores ASCII case, which is what non-Unicode `i` matching does for these ASCII keywords. The state `g` keeps in `lastIndex` between calls is not modelled.
- `toLowerCase` is modelled on ASCII letters only.
- `country.enum.ts` is not part of this model. `Country` has only the three members the code names.
- Fetch order is not modelled for the holidays: the countries form a Dafny set, not an insertion-ordered `Set`.
- Object key order is not modelled for `meta/users`: the users arrive as a sequence already in enumeration order.
- A `tasks` array that two employee objects share is not modelled. Task lists are values, so pushing onto one list cannot change another.
- Awaits are taken in program order, so concurrency is not modelled.
- A bucket whose `tasks` is undefined is not modelled. A work bucket always has a task sequence, possibly empty.
- BambooHR.DateStringShape: states the `YYYY-MM-DD` layout only for years 1000 to 9999. Outside that range `String(year)` has fewer digits or a sign, which `ConvertDateToString` models but no lemma describes.
- Calculation.CalculateStats: does not restate its effects on the employee objects. Those are the tasks pushed, the directory fields written and the time off appended. `Calculation.Tally`, `Calculation.AddEmployeeInformation` and `BambooHR.GetEmployeesTimeOff` state them.
- Calculation.SummarizeWork: does not restate those effects either, for the same reason.
- Calculation.AssembleStats: does not restate the time off appended. `Calculation.TimeOffAndStats` states it, for the ids the directory wrote.
- The time-off integration's return value is discarded, by `CalculateStats` in the source and by `Calculation.TimeOffAndStats` here.
