/**
 * The BambooHR integration (src/backend/integrations/bamboohr.ts) with its HTTP
 * responses given as data: dates formatted for the time-off query, country
 * names mapped to `Country`, approved time off folded into the employee
 * records, and directory users selected through the e-mail matcher.
 */
module BambooHR {
  import opened Wrappers
  import opened Calendar
  import opened Text
  import opened Model
  import opened Email

  // ------------------------------------------------------------ date format

  /** The text `convertDateToString` builds from a year, a 0-based month and a day of the month. */
  function FormatDate(year: int, month: int, date: int): string {
    IntToString(year) + "-" + PadStart(IntToString(month + 1), 2, '0') + "-" + PadStart(IntToString(date), 2, '0')
  }

  /** `convertDateToString(date)`: the year, the 1-based month and the day of the month, the last two
      padded to two digits, joined by `-`. */
  function ConvertDateToString(date: Time): string {
    FormatDate(YearFromTime(date), MonthFromTime(date), DateFromTime(date))
  }

  /** Every character is a decimal digit. */
  predicate AllDigits(s: string) {
    forall i :: 0 <= i < |s| ==> IsDigit(s[i])
  }

  /** A four-digit year, a two-digit month and a two-digit day joined by `-` read back as their values. */
  lemma DateLayout(y: string, mm: string, dd: string)
    requires |y| == 4 && |mm| == 2 && |dd| == 2 && AllDigits(y) && AllDigits(mm) && AllDigits(dd)
    ensures var s := y + "-" + mm + "-" + dd;
      |s| == 10 && s[4] == '-' && s[7] == '-' && s[..4] == y && s[5..7] == mm && s[8..] == dd
  {
    var s := y + "-" + mm + "-" + dd;
    assert s[..4] == y;
    assert s[5..7] == mm;
    assert s[8..] == dd;
  }

  /** For a four-digit year the text is `YYYY-MM-DD`, and its three numbers read back as the fields. */
  lemma FormatShape(year: int, month: int, date: int)
    requires 1000 <= year <= 9999 && 0 <= month < 12 && 1 <= date <= 31
    ensures var s := FormatDate(year, month, date);
      |s| == 10 && s[4] == '-' && s[7] == '-' && AllDigits(s[..4]) && AllDigits(s[5..7]) && AllDigits(s[8..])
      && DigitsValue(s[..4]) == year && DigitsValue(s[5..7]) == month + 1 && DigitsValue(s[8..]) == date
  {
    var y := IntToString(year);
    var mm := PadStart(IntToString(month + 1), 2, '0');
    var dd := PadStart(IntToString(date), 2, '0');
    FourDigits(year);
    NatToStringValue(year);
    assert |y| == 4 && AllDigits(y) && DigitsValue(y) == year;
    TwoDigits(month + 1);
    TwoDigits(date);
    assert AllDigits(mm) && AllDigits(dd);
    DateLayout(y, mm, dd);
  }

  /** A text `Y-MM-DD` with two-character month and day determines its three parts. */
  lemma DateParts(ya: string, ma: string, da: string, yb: string, mb: string, db: string)
    requires |ma| == |mb| == |da| == |db| == 2
    requires ya + "-" + ma + "-" + da == yb + "-" + mb + "-" + db
    ensures ya == yb && ma == mb && da == db
  {
    var s := ya + "-" + ma + "-" + da;
    assert |ya| == |yb|;
    assert ya == s[..|ya|] == yb;
    assert ma == s[|ya| + 1..|ya| + 3] == mb;
    assert da == s[|ya| + 4..] == db;
  }

  /** Distinct fields give distinct texts. */
  lemma FormatInjective(y1: int, m1: int, d1: int, y2: int, m2: int, d2: int)
    requires 0 <= m1 < 12 && 1 <= d1 <= 31 && 0 <= m2 < 12 && 1 <= d2 <= 31
    ensures FormatDate(y1, m1, d1) == FormatDate(y2, m2, d2) <==> y1 == y2 && m1 == m2 && d1 == d2
  {
    if FormatDate(y1, m1, d1) == FormatDate(y2, m2, d2) {
      TwoDigits(m1 + 1);
      TwoDigits(m2 + 1);
      TwoDigits(d1);
      TwoDigits(d2);
      DateParts(IntToString(y1), PadStart(IntToString(m1 + 1), 2, '0'), PadStart(IntToString(d1), 2, '0'),
                IntToString(y2), PadStart(IntToString(m2 + 1), 2, '0'), PadStart(IntToString(d2), 2, '0'));
      IntToStringRoundTrip(y1);
      IntToStringRoundTrip(y2);
    }
  }

  /** For a date in a four-digit year the string is `YYYY-MM-DD`, and its numbers read back as the date. */
  lemma DateStringShape(date: Time)
    requires 1000 <= YearFromTime(date) <= 9999
    ensures var s := ConvertDateToString(date);
      |s| == 10 && s[4] == '-' && s[7] == '-' && AllDigits(s[..4]) && AllDigits(s[5..7]) && AllDigits(s[8..])
      && DigitsValue(s[..4]) == YearFromTime(date)
      && DigitsValue(s[5..7]) == MonthFromTime(date) + 1
      && DigitsValue(s[8..]) == DateFromTime(date)
  {
    FormatShape(YearFromTime(date), MonthFromTime(date), DateFromTime(date));
  }

  /** Two dates give the same string exactly when they fall on the same UTC day. */
  lemma DateStringsEqual(a: Time, b: Time)
    ensures ConvertDateToString(a) == ConvertDateToString(b) <==> Day(a) == Day(b)
  {
    SameFieldsSameDay(a, b);
    FormatInjective(YearFromTime(a), MonthFromTime(a), DateFromTime(a), YearFromTime(b), MonthFromTime(b), DateFromTime(b));
  }

  // ---------------------------------------------------------------- country

  /** `convertCountryNameToCountry(country)`; `None` is a missing name. */
  function ConvertCountryNameToCountry(country: Option<string>): (code: Country)
    ensures code == Portugal <==> country.Some? && EqualsIgnoringCase(country.value, "portugal")
    ensures code == UnitedStates <==> country.Some? && EqualsIgnoringCase(country.value, "united states")
    ensures code == Undefined <==> country.None? || (!EqualsIgnoringCase(country.value, "portugal")
                                                     && !EqualsIgnoringCase(country.value, "united states"))
  {
    if country.None? || country.value == "" then Undefined
    else
      var lowerCaseName := ToLower(country.value);
      ToLowerEquals(country.value, "portugal");
      ToLowerEquals(country.value, "united states");
      if lowerCaseName == "portugal" then Portugal
      else if lowerCaseName == "united states" then UnitedStates
      else Undefined
  }

  // --------------------------------------------------------------- time off

  /** One approved request: the employee it belongs to and its `dates` object, each key parsed as a
      date and each amount as `Number.parseFloat` gives it (`None` for NaN), in iteration order. */
  datatype TimeOffEntry = TimeOffEntry(employeeId: string, dates: seq<(Time, Option<real>)>)

  /** The records one request contributes: its dates with a positive amount, in order. */
  function TimeOffsOf(dates: seq<(Time, Option<real>)>): (records: seq<TimeOff>)
    ensures |records| <= |dates|
    ensures forall i :: 0 <= i < |records| ==> records[i].quantity > 0.0
  {
    if dates == [] then []
    else
      var (day, qtd) := dates[|dates| - 1];
      TimeOffsOf(dates[..|dates| - 1]) + (if qtd.Some? && qtd.value > 0.0 then [TimeOff(day, qtd.value)] else [])
  }

  /** A positive amount on a date is a record of that date and amount; nothing else is. */
  lemma {:induction false} TimeOffsOfMembers(dates: seq<(Time, Option<real>)>, record: TimeOff)
    ensures record in TimeOffsOf(dates) <==> record.quantity > 0.0 && (record.date, Some(record.quantity)) in dates
  {
    if dates != [] {
      var init := dates[..|dates| - 1];
      var (day, qtd) := dates[|dates| - 1];
      TimeOffsOfMembers(init, record);
      assert dates == init + [dates[|dates| - 1]];
      var pair := (record.date, Some(record.quantity));
      assert pair in dates <==> pair in init || pair == (day, qtd);
      assert record in (if qtd.Some? && qtd.value > 0.0 then [TimeOff(day, qtd.value)] else [])
             <==> qtd.Some? && qtd.value > 0.0 && record == TimeOff(day, qtd.value);
    }
  }

  /** All the records the requests in `data` contribute to the employee with id `id`, in order. */
  function RecordsFor(data: seq<TimeOffEntry>, id: string): seq<TimeOff> {
    if data == [] then []
    else
      var element := data[|data| - 1];
      RecordsFor(data[..|data| - 1], id) + (if element.employeeId == id then TimeOffsOf(element.dates) else [])
  }

  /** A `timeOff` list after appending `records`: created only when there is something to append. */
  function WithTimeOff(current: Option<seq<TimeOff>>, records: seq<TimeOff>): (after: Option<seq<TimeOff>>)
    ensures after.Some? <==> current.Some? || records != []
    ensures after.Some? ==> after.value == current.GetOr([]) + records
  {
    if records == [] then current else Some(current.GetOr([]) + records)
  }

  /** Appending twice is appending the concatenation. */
  lemma WithTimeOffTwice(current: Option<seq<TimeOff>>, a: seq<TimeOff>, b: seq<TimeOff>)
    ensures WithTimeOff(WithTimeOff(current, a), b) == WithTimeOff(current, a + b)
  {
    if a != [] && b != [] {
      assert current.GetOr([]) + a + b == current.GetOr([]) + (a + b);
    } else if a == [] {
      assert a + b == b;
    } else {
      assert a + b == a;
    }
  }

  /** The `id` of each employee, in order. */
  function Ids(employees: seq<Employee>): (ids: seq<string>)
    reads (set e | e in employees)`id
    ensures |ids| == |employees| && forall i :: 0 <= i < |employees| ==> ids[i] == employees[i].id
  {
    if employees == [] then [] else Ids(employees[..|employees| - 1]) + [employees[|employees| - 1].id]
  }

  /** The distinct ids in order of first occurrence: the keys of `new Map(employees.map(e => [e.id, e]))`. */
  function DistinctIds(ids: seq<string>): (keys: seq<string>)
    ensures forall x :: x in keys <==> x in ids
    ensures Distinct(keys)
  {
    if ids == [] then []
    else
      var keys := DistinctIds(ids[..|ids| - 1]);
      var x := ids[|ids| - 1];
      assert forall y :: y in ids <==> y in ids[..|ids| - 1] || y == x by {
        assert ids == ids[..|ids| - 1] + [x];
      }
      if x in keys then keys else keys + [x]
  }

  /** The position of the last occurrence of `x`: the entry the map keeps for that id. */
  function LastIndex(ids: seq<string>, x: string): (i: nat)
    requires x in ids
    ensures i < |ids| && ids[i] == x
    ensures forall j :: i < j < |ids| ==> ids[j] != x
  {
    if ids[|ids| - 1] == x then |ids| - 1 else LastIndex(ids[..|ids| - 1], x)
  }

  /** The records of one request's `dates`, built by the inner loop of `GetEmployeesTimeOff`. */
  method CollectTimeOffs(dates: seq<(Time, Option<real>)>) returns (timeOffs: seq<TimeOff>)
    ensures timeOffs == TimeOffsOf(dates)
  {
    timeOffs := [];
    for m := 0 to |dates|
      invariant timeOffs == TimeOffsOf(dates[..m])
    {
      assert dates[..m + 1][..m] == dates[..m];
      var (timeLine, qtd) := dates[m];
      if qtd.Some? && qtd.value > 0.0 {
        timeOffs := timeOffs + [TimeOff(timeLine, qtd.value)];
      }
    }
    assert dates[..|dates|] == dates;
  }

  /** One more id extends the distinct ids when it is new. */
  lemma DistinctIdsStep(ids: seq<string>, i: nat)
    requires i < |ids|
    ensures DistinctIds(ids[..i + 1]) == if ids[i] in ids[..i] then DistinctIds(ids[..i]) else DistinctIds(ids[..i]) + [ids[i]]
    ensures forall x :: x in ids[..i + 1] <==> x in ids[..i] || x == ids[i]
  {
    assert ids[..i + 1] == ids[..i] + [ids[i]];
    assert ids[..i + 1][..i] == ids[..i];
  }

  /** One more id becomes its own last occurrence and leaves the others' where they were. */
  lemma LastIndexStep(ids: seq<string>, i: nat, x: string)
    requires i < |ids| && x in ids[..i + 1]
    ensures x != ids[i] ==> x in ids[..i]
    ensures LastIndex(ids[..i + 1], x) == if x == ids[i] then i else LastIndex(ids[..i], x)
  {
    assert ids[..i + 1] == ids[..i] + [ids[i]];
    assert ids[..i + 1][..i] == ids[..i];
  }

  /** `keys` and `m` are the map built from the first `n` records. */
  ghost predicate Indexed(employees: seq<Employee>, ids: seq<string>, keys: seq<string>, m: map<string, Employee>, n: nat)
    requires n <= |ids| == |employees|
  {
    keys == DistinctIds(ids[..n])
    && (forall x :: x in m <==> x in ids[..n])
    && (forall x :: x in m ==> m[x] == employees[LastIndex(ids[..n], x)])
  }

  lemma IndexedStep(employees: seq<Employee>, ids: seq<string>, keys: seq<string>, m: map<string, Employee>, n: nat)
    requires n < |ids| == |employees| && Indexed(employees, ids, keys, m, n)
    ensures Indexed(employees, ids, if ids[n] in m then keys else keys + [ids[n]], m[ids[n] := employees[n]], n + 1)
  {
    DistinctIdsStep(ids, n);
    forall x | x in ids[..n + 1] ensures LastIndex(ids[..n + 1], x) == if x == ids[n] then n else LastIndex(ids[..n], x) {
      LastIndexStep(ids, n, x);
    }
  }

  /** `new Map(employees.map(e => [e.id, e]))`: the distinct ids in order, each with its last record. */
  method IdMap(employees: seq<Employee>) returns (keys: seq<string>, employeesMap: map<string, Employee>)
    ensures keys == DistinctIds(Ids(employees))
    ensures forall x :: x in employeesMap <==> x in Ids(employees)
    ensures forall x :: x in employeesMap ==> employeesMap[x] == employees[LastIndex(Ids(employees), x)]
  {
    ghost var ids := Ids(employees);
    keys := [];
    employeesMap := map[];
    for i := 0 to |employees|
      invariant Indexed(employees, ids, keys, employeesMap, i)
    {
      var id := employees[i].id;
      assert id == ids[i];
      IndexedStep(employees, ids, keys, employeesMap, i);
      if id !in employeesMap {
        keys := keys + [id];
      }
      employeesMap := employeesMap[id := employees[i]];
    }
    assert ids[..|employees|] == ids;
  }

  lemma RecordsForStep(data: seq<TimeOffEntry>, k: nat, id: string)
    requires k < |data|
    ensures RecordsFor(data[..k + 1], id)
            == RecordsFor(data[..k], id) + (if data[k].employeeId == id then TimeOffsOf(data[k].dates) else [])
  {
    assert data[..k + 1][..k] == data[..k];
  }

  /** The `timeOff` of each employee, in order. */
  function TimeOffs(employees: seq<Employee>): (lists: seq<Option<seq<TimeOff>>>)
    reads (set e | e in employees)`timeOff
    ensures |lists| == |employees| && forall i :: 0 <= i < |employees| ==> lists[i] == employees[i].timeOff
  {
    if employees == [] then [] else TimeOffs(employees[..|employees| - 1]) + [employees[|employees| - 1].timeOff]
  }

  /** Which positions of `employees` hold the record the map keeps for their id: the last record
      with that id. */
  ghost function Owners(employees: seq<Employee>, ids: seq<string>): (owners: seq<bool>)
    requires |ids| == |employees|
    ensures |owners| == |ids|
    ensures forall i :: 0 <= i < |ids| ==> owners[i] == (employees[LastIndex(ids, ids[i])] == employees[i])
  {
    seq(|ids|, i requires 0 <= i < |ids| => employees[LastIndex(ids, ids[i])] == employees[i])
  }

  /** `now` is `before` after the requests in `data`: every position that owns its id has that id's
      records appended, and every other position is as it was. */
  ghost predicate Applied(owners: seq<bool>, ids: seq<string>, before: seq<Option<seq<TimeOff>>>,
                          now: seq<Option<seq<TimeOff>>>, data: seq<TimeOffEntry>)
  {
    |owners| == |ids| == |before| == |now|
    && forall i :: 0 <= i < |ids| ==>
         now[i] == if owners[i] then WithTimeOff(before[i], RecordsFor(data, ids[i])) else before[i]
  }

  /** One more request appends its records to the owner of its id, and changes nothing else. */
  lemma AppliedStep(owners: seq<bool>, ids: seq<string>, before: seq<Option<seq<TimeOff>>>,
                    now: seq<Option<seq<TimeOff>>>, next: seq<Option<seq<TimeOff>>>,
                    data: seq<TimeOffEntry>, k: nat)
    requires k < |data| && Applied(owners, ids, before, now, data[..k])
    requires |next| == |now|
    requires forall i :: 0 <= i < |ids| ==>
      next[i] == if owners[i] && ids[i] == data[k].employeeId then WithTimeOff(now[i], TimeOffsOf(data[k].dates))
                 else now[i]
    ensures Applied(owners, ids, before, next, data[..k + 1])
  {
    forall i | 0 <= i < |ids|
      ensures next[i] == if owners[i] then WithTimeOff(before[i], RecordsFor(data[..k + 1], ids[i])) else before[i]
    {
      RecordsForStep(data, k, ids[i]);
      var r := RecordsFor(data[..k], ids[i]);
      if owners[i] && ids[i] == data[k].employeeId {
        WithTimeOffTwice(before[i], r, TimeOffsOf(data[k].dates));
      } else if owners[i] {
        assert r + [] == r;
      }
    }
  }

  /** A record occurring twice in `employees` has one id: `ids` is read from the records. */
  ghost predicate SameIdSameRecord(employees: seq<Employee>, ids: seq<string>)
    requires |ids| == |employees|
  {
    forall i, j :: 0 <= i < |employees| && 0 <= j < |employees| && employees[i] == employees[j] ==> ids[i] == ids[j]
  }

  lemma IdsConsistent(employees: seq<Employee>)
    ensures SameIdSameRecord(employees, Ids(employees))
  {
  }

  /** One request of the loop in `GetEmployeesTimeOff`: when its id is known and it has records, they
      are appended to the record the map keeps for that id. */
  method ApplyRequest(employees: seq<Employee>, ghost ids: seq<string>, employeesMap: map<string, Employee>,
                      element: TimeOffEntry)
    requires |ids| == |employees| && SameIdSameRecord(employees, ids)
    requires forall x :: x in employeesMap <==> x in ids
    requires forall x :: x in employeesMap ==> employeesMap[x] == employees[LastIndex(ids, x)]
    modifies (set e | e in employees)`timeOff
    ensures forall i :: 0 <= i < |employees| ==>
      employees[i].timeOff == if employees[LastIndex(ids, ids[i])] == employees[i] && ids[i] == element.employeeId
                              then WithTimeOff(old(employees[i].timeOff), TimeOffsOf(element.dates))
                              else old(employees[i].timeOff)
  {
    if element.employeeId in employeesMap {
      var timeOffs := CollectTimeOffs(element.dates);
      if |timeOffs| > 0 {
        var employee := employeesMap[element.employeeId];
        assert forall i :: 0 <= i < |employees| ==>
          (employees[i] == employee <==> employees[LastIndex(ids, ids[i])] == employees[i] && ids[i] == element.employeeId);
        employee.timeOff := Some(employee.timeOff.GetOr([]) + timeOffs);
      }
    } else {
      assert forall i :: 0 <= i < |ids| ==> ids[i] != element.employeeId;
    }
  }

  /** The request at `k`, after those before it: `Applied` extends to it. */
  method ApplyRequestAt(employees: seq<Employee>, ghost ids: seq<string>, employeesMap: map<string, Employee>,
                        data: seq<TimeOffEntry>, k: nat, ghost owners: seq<bool>, ghost before: seq<Option<seq<TimeOff>>>)
    requires |ids| == |employees| && SameIdSameRecord(employees, ids) && k < |data|
    requires forall x :: x in employeesMap <==> x in ids
    requires forall x :: x in employeesMap ==> employeesMap[x] == employees[LastIndex(ids, x)]
    requires |owners| == |ids| && forall i :: 0 <= i < |ids| ==> owners[i] == (employees[LastIndex(ids, ids[i])] == employees[i])
    requires Applied(owners, ids, before, TimeOffs(employees), data[..k])
    modifies (set e | e in employees)`timeOff
    ensures Applied(owners, ids, before, TimeOffs(employees), data[..k + 1])
  {
    ghost var now := TimeOffs(employees);
    ApplyRequest(employees, ids, employeesMap, data[k]);
    AppliedStep(owners, ids, before, now, TimeOffs(employees), data, k);
  }

  /** The request loop of `GetEmployeesTimeOff`: each request of a known id appends its records to the
      record the map keeps for that id. */
  method AddTimeOffs(employees: seq<Employee>, ghost ids: seq<string>, employeesMap: map<string, Employee>,
                     data: seq<TimeOffEntry>)
    requires |ids| == |employees| && SameIdSameRecord(employees, ids)
    requires forall x :: x in employeesMap <==> x in ids
    requires forall x :: x in employeesMap ==> employeesMap[x] == employees[LastIndex(ids, x)]
    modifies (set e | e in employees)`timeOff
    ensures Applied(Owners(employees, ids), ids, old(TimeOffs(employees)), TimeOffs(employees), data)
    ensures unchanged((set e | e in employees)`email)
  {
    ghost var before := TimeOffs(employees);
    ghost var owners := Owners(employees, ids);
    for k := 0 to |data|
      invariant Applied(owners, ids, before, TimeOffs(employees), data[..k])
    {
      ApplyRequestAt(employees, ids, employeesMap, data, k, owners, before);
    }
    assert data[..|data|] == data;
  }

  /** `GetEmployeesTimeOff(employees, startDate, endDate)`; `requests(start, end)` is the approved
      time-off requests BambooHR returns for the two formatted dates. Only the last employee record
      with a given id receives that id's records, since the map keeps one record per id. */
  method GetEmployeesTimeOff(employees: seq<Employee>, startDate: Time, endDate: Time,
                             requests: (string, string) -> seq<TimeOffEntry>)
    returns (r: seq<Employee>)
    modifies (set e | e in employees)`timeOff
    ensures var ids := old(Ids(employees));
      var keys := DistinctIds(ids);
      |r| == |keys| && forall k :: 0 <= k < |keys| ==> r[k] == employees[LastIndex(ids, keys[k])]
    ensures Applied(Owners(employees, old(Ids(employees))), old(Ids(employees)), old(TimeOffs(employees)),
                    TimeOffs(employees), requests(ConvertDateToString(startDate), ConvertDateToString(endDate)))
    ensures unchanged((set e | e in employees)`email)
  {
    ghost var ids := Ids(employees);
    var data := requests(ConvertDateToString(startDate), ConvertDateToString(endDate));
    IdsConsistent(employees);
    var keys, employeesMap := MapAndApply(employees, ids, data);
    r := Representatives(employees, ids, keys, employeesMap);
  }

  /** The map from id to employee record, then the requests in `data` applied through it. */
  method MapAndApply(employees: seq<Employee>, ghost ids: seq<string>, data: seq<TimeOffEntry>)
    returns (keys: seq<string>, employeesMap: map<string, Employee>)
    requires ids == Ids(employees) && SameIdSameRecord(employees, ids)
    modifies (set e | e in employees)`timeOff
    ensures keys == DistinctIds(ids)
    ensures forall x :: x in employeesMap <==> x in ids
    ensures forall x :: x in employeesMap ==> employeesMap[x] == employees[LastIndex(ids, x)]
    ensures Applied(Owners(employees, ids), ids, old(TimeOffs(employees)), TimeOffs(employees), data)
    ensures unchanged((set e | e in employees)`email)
  {
    keys, employeesMap := IdMap(employees);
    AddTimeOffs(employees, ids, employeesMap, data);
  }

  /** `Array.from(employeesMap.values())`: the record kept for each id, in the map's key order. */
  method Representatives(employees: seq<Employee>, ghost ids: seq<string>, keys: seq<string>,
                         employeesMap: map<string, Employee>)
    returns (r: seq<Employee>)
    requires |ids| == |employees| && keys == DistinctIds(ids)
    requires forall x :: x in employeesMap <==> x in ids
    requires forall x :: x in employeesMap ==> employeesMap[x] == employees[LastIndex(ids, x)]
    ensures |r| == |keys| && forall k :: 0 <= k < |keys| ==> r[k] == employees[LastIndex(ids, keys[k])]
  {
    r := [];
    for k := 0 to |keys|
      invariant |r| == k && forall j :: 0 <= j < k ==> r[j] == employees[LastIndex(ids, keys[j])]
    {
      r := r + [employeesMap[keys[k]]];
    }
  }

  // -------------------------------------------------------------- directory

  /** An entry of `meta/users`. */
  datatype BambooUser = BambooUser(email: string, employeeId: int)

  /** The fields `employees/{id}` returns; `country` is missing when the key may not read it. */
  datatype BambooEmployee = BambooEmployee(id: string, firstName: string, lastName: string, workEmail: string,
                                           country: Option<string>)

  /** The employee record `GetEmployeesByEmail` returns for a directory user; it is never updated
      afterwards, so it is a value. */
  datatype EmployeeRecord = EmployeeRecord(id: string, email: string, name: string, country: Country)

  function RecordOf(employee: BambooEmployee): EmployeeRecord {
    EmployeeRecord(employee.id, employee.workEmail, employee.firstName + " " + employee.lastName,
                   ConvertCountryNameToCountry(employee.country))
  }

  /** A user the loop keeps: present, with a non-empty e-mail matching a stored element. */
  predicate Wanted(matcher: Matcher, elements: seq<string>, user: Option<BambooUser>) {
    user.Some? && user.value.email != "" && FirstMatch(matcher, elements, user.value.email).Some?
  }

  /** The records of the wanted users, in the users' order. */
  function Selected(matcher: Matcher, elements: seq<string>, users: seq<Option<BambooUser>>,
                    employeeById: string -> BambooEmployee): seq<EmployeeRecord>
  {
    if users == [] then []
    else
      var user := users[|users| - 1];
      Selected(matcher, elements, users[..|users| - 1], employeeById)
      + (if Wanted(matcher, elements, user) then [RecordOf(employeeById(IntToString(user.value.employeeId)))] else [])
  }

  /** `GetEmployeesByEmail(employeeEmails)`; `users` is `meta/users` in iteration order and
      `employeeById(id)` is what `employees/{id}` returns. */
  method GetEmployeesByEmail(employeeEmails: seq<string>, matcher: Matcher, users: seq<Option<BambooUser>>,
                             employeeById: string -> BambooEmployee)
    returns (employees: seq<EmployeeRecord>)
    ensures employees == Selected(matcher, InsertAll(matcher, employeeEmails), users, employeeById)
  {
    var employeesEmailsSet := new EmailSet(matcher);
    for i := 0 to |employeeEmails|
      invariant employeesEmailsSet.Valid() && employeesEmailsSet.matcher == matcher
      invariant employeesEmailsSet.elements == InsertAll(matcher, employeeEmails[..i])
    {
      assert employeeEmails[..i + 1][..i] == employeeEmails[..i];
      employeesEmailsSet.Add(employeeEmails[i]);
    }
    assert employeeEmails[..|employeeEmails|] == employeeEmails;
    employees := [];
    for u := 0 to |users|
      invariant employeesEmailsSet.Valid() && employeesEmailsSet.matcher == matcher
      invariant employeesEmailsSet.elements == InsertAll(matcher, employeeEmails)
      invariant employees == Selected(matcher, employeesEmailsSet.elements, users[..u], employeeById)
    {
      assert users[..u + 1][..u] == users[..u];
      var user := users[u];
      if user.Some? && user.value.email != "" {
        var found := employeesEmailsSet.Has(user.value.email);
        if found {
          var bambooHREmployee := employeeById(IntToString(user.value.employeeId));
          employees := employees + [RecordOf(bambooHREmployee)];
        }
      }
    }
    assert users[..|users|] == users;
  }

  /** With an equivalence as matcher, the set of requested e-mails holds a match for `email` exactly
      when some requested e-mail matches it. */
  lemma AddedSetMatches(matcher: Matcher, employeeEmails: seq<string>, email: string)
    requires Reflexive(matcher) && Symmetric(matcher) && Transitive(matcher)
    ensures FirstMatch(matcher, InsertAll(matcher, employeeEmails), email).Some?
            <==> exists k :: 0 <= k < |employeeEmails| && matcher(email, employeeEmails[k])
  {
    var elements := InsertAll(matcher, employeeEmails);
    InsertAllFromKeys(matcher, employeeEmails);
    if FirstMatch(matcher, elements, email).Some? {
      var i := FirstMatch(matcher, elements, email).value;
      var k :| 0 <= k < |employeeEmails| && employeeEmails[k] == elements[i];
      assert matcher(email, employeeEmails[k]);
    }
    if exists k :: 0 <= k < |employeeEmails| && matcher(email, employeeEmails[k]) {
      var k :| 0 <= k < |employeeEmails| && matcher(email, employeeEmails[k]);
      InsertAllCovers(matcher, employeeEmails, k);
      var i := FirstMatch(matcher, elements, employeeEmails[k]).value;
      assert matcher(employeeEmails[k], elements[i]);
      assert matcher(email, elements[i]);
    }
  }

  /** `user` has a non-empty e-mail matching a requested one and `record` is its directory record. */
  ghost predicate Picked(matcher: Matcher, employeeEmails: seq<string>, user: Option<BambooUser>,
                         employeeById: string -> BambooEmployee, record: EmployeeRecord)
  {
    user.Some? && user.value.email != ""
    && (exists k :: 0 <= k < |employeeEmails| && matcher(user.value.email, employeeEmails[k]))
    && record == RecordOf(employeeById(IntToString(user.value.employeeId)))
  }

  /** A directory user yields a record exactly when it has a non-empty e-mail matching a requested one;
      the record carries the directory's own e-mail, name, country and id. */
  lemma {:induction false} SelectedUsers(matcher: Matcher, employeeEmails: seq<string>, users: seq<Option<BambooUser>>,
                                        employeeById: string -> BambooEmployee, record: EmployeeRecord)
    requires Reflexive(matcher) && Symmetric(matcher) && Transitive(matcher)
    ensures record in Selected(matcher, InsertAll(matcher, employeeEmails), users, employeeById)
            <==> exists u :: 0 <= u < |users| && Picked(matcher, employeeEmails, users[u], employeeById, record)
  {
    if users != [] {
      var last := users[|users| - 1];
      SelectedUsers(matcher, employeeEmails, users[..|users| - 1], employeeById, record);
      if last.Some? {
        AddedSetMatches(matcher, employeeEmails, last.value.email);
      }
      SelectedStep(matcher, employeeEmails, InsertAll(matcher, employeeEmails), users, employeeById, record);
    }
  }

  /** One more user keeps `SelectedUsers`, given that the set's answer for it is the requested e-mails'. */
  lemma SelectedStep(matcher: Matcher, employeeEmails: seq<string>, elements: seq<string>,
                     users: seq<Option<BambooUser>>, employeeById: string -> BambooEmployee, record: EmployeeRecord)
    requires users != []
    requires var init := users[..|users| - 1];
      record in Selected(matcher, elements, init, employeeById)
      <==> exists u :: 0 <= u < |init| && Picked(matcher, employeeEmails, init[u], employeeById, record)
    requires var last := users[|users| - 1];
      last.Some? ==> (FirstMatch(matcher, elements, last.value.email).Some?
                      <==> exists k :: 0 <= k < |employeeEmails| && matcher(last.value.email, employeeEmails[k]))
    ensures record in Selected(matcher, elements, users, employeeById)
            <==> exists u :: 0 <= u < |users| && Picked(matcher, employeeEmails, users[u], employeeById, record)
  {
    var init := users[..|users| - 1];
    var last := users[|users| - 1];
    var lastPicked := Wanted(matcher, elements, last)
                      && record == RecordOf(employeeById(IntToString(last.value.employeeId)));
    assert lastPicked <==> Picked(matcher, employeeEmails, last, employeeById, record);
    assert record in Selected(matcher, elements, users, employeeById)
           <==> record in Selected(matcher, elements, init, employeeById) || lastPicked;
    if record in Selected(matcher, elements, users, employeeById) {
      if record in Selected(matcher, elements, init, employeeById) {
        var u :| 0 <= u < |init| && Picked(matcher, employeeEmails, init[u], employeeById, record);
        assert users[u] == init[u];
      } else {
        assert Picked(matcher, employeeEmails, users[|users| - 1], employeeById, record);
      }
    }
    if u :| 0 <= u < |users| && Picked(matcher, employeeEmails, users[u], employeeById, record) {
      if u < |init| {
        assert users[u] == init[u];
      } else {
        assert u == |users| - 1;
      }
    }
  }
}
