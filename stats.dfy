/**
 * The task loop of `EffortLogic.CalculateStats` (src/backend/logic/effort.logic.ts): every
 * assigned task is filed under the first stored e-mail that matches its assignee's, its
 * estimation is added to that e-mail's points and the task is pushed onto the stored employee's
 * task list. The loop is specified by a fold over the tasks (`Fold`) and by closed forms of what
 * it builds (`KeysUpTo`, `TasksUpTo`, `EstimateSum`); the rest of the pipeline is in module
 * Calculation.
 */
module EffortStats {
  import opened Wrappers
  import opened Calendar
  import opened Model
  import opened Email
  import opened EffortLogic

  // ------------------------------------------- what the task loop builds, in closed form

  /** A matcher that compares one part of the two e-mails, as `IgnoreDomain` compares the local parts. */
  ghost predicate ComparesPart(matcher: Matcher, part: string -> string) {
    forall a, b :: matcher(a, b) <==> part(a) == part(b)
  }

  /** An assignee e-mail (`None` for an unassigned task) that the matcher matches with `key`. */
  predicate MatchesKey(matcher: Matcher, email: Option<string>, key: string) {
    email.Some? && matcher(email.value, key)
  }

  /** The first of the first `n` tasks whose assignee e-mail matches `key`. */
  function FirstWith(matcher: Matcher, emails: seq<Option<string>>, n: nat, key: string): (r: Option<nat>)
    requires n <= |emails|
    ensures r.Some? ==> r.value < n && MatchesKey(matcher, emails[r.value], key)
    ensures r.Some? ==> forall j :: 0 <= j < r.value ==> !MatchesKey(matcher, emails[j], key)
    ensures r.None? <==> forall j :: 0 <= j < n ==> !MatchesKey(matcher, emails[j], key)
  {
    if n == 0 then None
    else match FirstWith(matcher, emails, n - 1, key)
      case Some(j) => Some(j)
      case None => if MatchesKey(matcher, emails[n - 1], key) then Some(n - 1) else None
  }

  /** The keys `employees` (and `employeesPoints`) hold after the first `n` tasks. */
  function KeysUpTo(matcher: Matcher, emails: seq<Option<string>>, n: nat): seq<string>
    requires n <= |emails|
  {
    if n == 0 then []
    else
      var keys := KeysUpTo(matcher, emails, n - 1);
      var e := emails[n - 1];
      if e.Some? && FirstMatch(matcher, keys, e.value).None? then keys + [e.value] else keys
  }

  /** Keys for the first `n` tasks: no two match each other, every e-mail seen matches one, and each
      is spelled as the first e-mail that matches it. */
  ghost predicate KeysFor(matcher: Matcher, emails: seq<Option<string>>, n: nat, keys: seq<string>)
    requires n <= |emails|
  {
    Unambiguous(matcher, keys)
    && (forall j :: 0 <= j < n && emails[j].Some? ==> FirstMatch(matcher, keys, emails[j].value).Some?)
    && (forall i :: 0 <= i < |keys| ==>
          FirstWith(matcher, emails, n, keys[i]).Some?
          && emails[FirstWith(matcher, emails, n, keys[i]).value] == Some(keys[i]))
  }

  /** With an equivalence as matcher, the keys hold one spelling per class of e-mails seen, the first. */
  lemma {:induction false} KeysUpToFor(matcher: Matcher, part: string -> string, emails: seq<Option<string>>, n: nat)
    requires ComparesPart(matcher, part) && n <= |emails|
    ensures KeysFor(matcher, emails, n, KeysUpTo(matcher, emails, n))
  {
    if n > 0 {
      var m := n - 1;
      KeysUpToFor(matcher, part, emails, m);
      KeysStep(matcher, part, emails, m);
    }
  }

  /** One task of the loop keeps `KeysFor`. */
  lemma KeysStep(matcher: Matcher, part: string -> string, emails: seq<Option<string>>, n: nat)
    requires ComparesPart(matcher, part) && n < |emails|
    requires KeysFor(matcher, emails, n, KeysUpTo(matcher, emails, n))
    ensures KeysFor(matcher, emails, n + 1, KeysUpTo(matcher, emails, n + 1))
  {
    var keys := KeysUpTo(matcher, emails, n);
    var e := emails[n];
    if e.Some? && FirstMatch(matcher, keys, e.value).None? {
      NewKey(matcher, part, emails, n, keys, e.value);
    } else {
      SameKeys(matcher, emails, n, keys);
    }
  }


  /** A task whose e-mail matches no key adds that e-mail as a key. */
  lemma NewKey(matcher: Matcher, part: string -> string, emails: seq<Option<string>>, n: nat, keys: seq<string>, email: string)
    requires ComparesPart(matcher, part)
    requires n < |emails| && emails[n] == Some(email)
    requires KeysFor(matcher, emails, n, keys) && FirstMatch(matcher, keys, email).None?
    ensures KeysFor(matcher, emails, n + 1, keys + [email])
  {
    NoEarlierMatch(matcher, part, emails, n, keys, email);
    var ks := keys + [email];
    assert matcher(email, email);
    assert FirstWith(matcher, emails, n + 1, email) == Some(n);
    forall i | 0 <= i < |ks|
      ensures FirstWith(matcher, emails, n + 1, ks[i]).Some?
              && emails[FirstWith(matcher, emails, n + 1, ks[i]).value] == Some(ks[i])
    {
      if i < |keys| {
        assert ks[i] == keys[i];
        assert FirstWith(matcher, emails, n + 1, ks[i]) == FirstWith(matcher, emails, n, keys[i]);
      }
    }
    forall j | 0 <= j < n + 1 && emails[j].Some?
      ensures FirstMatch(matcher, ks, emails[j].value).Some?
    {
      if j < n {
        FirstMatchExtend(matcher, keys, [email], emails[j].value);
      } else {
        assert matcher(email, ks[|keys|]);
      }
    }
    PutOnNoMatch(matcher, keys, keys, email, email);
    PutKeepsUnambiguous(matcher, keys, keys, email, email);
  }

  /** A task that is unassigned, or whose e-mail matches a key, leaves the keys as they are. */
  lemma SameKeys(matcher: Matcher, emails: seq<Option<string>>, n: nat, keys: seq<string>)
    requires n < |emails| && KeysFor(matcher, emails, n, keys)
    requires emails[n].Some? ==> FirstMatch(matcher, keys, emails[n].value).Some?
    ensures KeysFor(matcher, emails, n + 1, keys)
  {
    forall i | 0 <= i < |keys|
      ensures FirstWith(matcher, emails, n + 1, keys[i]) == FirstWith(matcher, emails, n, keys[i])
    {
    }
  }

  /** An e-mail that matches no key so far matches none of the e-mails seen so far. */
  lemma NoEarlierMatch(matcher: Matcher, part: string -> string, emails: seq<Option<string>>, n: nat, keys: seq<string>, email: string)
    requires ComparesPart(matcher, part) && n <= |emails|
    requires forall j :: 0 <= j < n && emails[j].Some? ==> FirstMatch(matcher, keys, emails[j].value).Some?
    requires FirstMatch(matcher, keys, email).None?
    ensures FirstWith(matcher, emails, n, email).None?
  {
  }


  /** The tasks, among the first `n`, of the employee keyed by `key`: those whose assignee e-mail
      matches the key, in order. */
  function TasksUpTo(matcher: Matcher, tasks: seq<Task>, emails: seq<Option<string>>, n: nat, key: string): (r: seq<Task>)
    requires |emails| == |tasks| && n <= |tasks|
    ensures r == [] <==> FirstWith(matcher, emails, n, key).None?
    ensures |r| <= n
  {
    if n == 0 then []
    else TasksUpTo(matcher, tasks, emails, n - 1, key)
         + (if MatchesKey(matcher, emails[n - 1], key) then [tasks[n - 1]] else [])
  }

  /** `Math.min` of the sentinel and every start date among the first `n` tasks. */
  function MinStarted(tasks: seq<Task>, n: nat): (m: int)
    requires n <= |tasks|
    ensures m <= MaxTime
    ensures forall k :: 0 <= k < n && tasks[k].startedAt.Some? ==> m <= tasks[k].startedAt.value
    ensures m == MaxTime || exists k :: 0 <= k < n && tasks[k].startedAt == Some(m)
  {
    if n == 0 then MaxTime
    else
      var m := MinStarted(tasks, n - 1);
      if tasks[n - 1].startedAt.Some? && tasks[n - 1].startedAt.value < m then tasks[n - 1].startedAt.value else m
  }

  /** `Math.max` of the sentinel and every completion date among the first `n` tasks. */
  function MaxDone(tasks: seq<Task>, n: nat): (m: int)
    requires n <= |tasks|
    ensures m >= -MaxTime
    ensures forall k :: 0 <= k < n && tasks[k].doneAt.Some? ==> m >= tasks[k].doneAt.value
    ensures m == -MaxTime || exists k :: 0 <= k < n && tasks[k].doneAt == Some(m)
  {
    if n == 0 then -MaxTime
    else
      var m := MaxDone(tasks, n - 1);
      if tasks[n - 1].doneAt.Some? && tasks[n - 1].doneAt.value > m then tasks[n - 1].doneAt.value else m
  }

  lemma EstimateSumAppend(tasks: seq<Task>, task: Task)
    ensures EstimateSum(tasks + [task]) == EstimateSum(tasks) + task.estimation.GetOr(0)
  {
    assert (tasks + [task])[..|tasks|] == tasks;
  }

  // ------------------------------------------------------ the task loop: keys and points

  /** `emails` holds the e-mail of each task's assignee, `None` for an unassigned task. */
  ghost predicate EmailsOf(tasks: seq<Task>, emails: seq<Option<string>>)
    reads Assignees(tasks)`email
  {
    |emails| == |tasks|
    && forall k :: 0 <= k < |tasks| ==>
      emails[k] == if tasks[k].assignedTo.Some? then Some(tasks[k].assignedTo.value.email) else None
  }

  /** Two tasks assigned to the same employee record carry the same e-mail. */
  ghost predicate SameAssigneeSameEmail(tasks: seq<Task>, emails: seq<Option<string>>)
    requires |emails| == |tasks|
  {
    forall k, j :: 0 <= k < |tasks| && 0 <= j < |tasks| && tasks[k].assignedTo.Some? && tasks[k].assignedTo == tasks[j].assignedTo
      ==> emails[k] == emails[j]
  }

  lemma EmailsConsistent(tasks: seq<Task>, emails: seq<Option<string>>)
    requires EmailsOf(tasks, emails)
    ensures SameAssigneeSameEmail(tasks, emails)
  {
  }

  /** The employee of each key: the assignee of the first task whose e-mail matches the key, a
      different record for each key. */
  ghost predicate EmployeesFor(matcher: Matcher, tasks: seq<Task>, emails: seq<Option<string>>, n: nat,
                               keys: seq<string>, employees: seq<Employee>)
    requires |emails| == |tasks| && n <= |tasks|
  {
    |employees| == |keys|
    && (forall i :: 0 <= i < |keys| ==>
          FirstWith(matcher, emails, n, keys[i]).Some?
          && tasks[FirstWith(matcher, emails, n, keys[i]).value].assignedTo == Some(employees[i]))
    && (forall i, j :: 0 <= i < |keys| && 0 <= j < |keys| && i != j ==> employees[i] != employees[j])
  }

  /** The points of each key: the estimations of the tasks whose e-mail matches it. */
  ghost predicate PointsFor(matcher: Matcher, tasks: seq<Task>, emails: seq<Option<string>>, n: nat,
                            keys: seq<string>, points: seq<int>)
    requires |emails| == |tasks| && n <= |tasks|
  {
    |points| == |keys|
    && forall i :: 0 <= i < |keys| ==> points[i] == EstimateSum(TasksUpTo(matcher, tasks, emails, n, keys[i]))
  }

  /** Among keys no two of which match, an e-mail matching the key at `c` matches no other key. */
  lemma OnlyMatch(matcher: Matcher, part: string -> string, keys: seq<string>, email: string, c: nat)
    requires ComparesPart(matcher, part) && Unambiguous(matcher, keys)
    requires FirstMatch(matcher, keys, email) == Some(c)
    ensures forall i :: 0 <= i < |keys| ==> (matcher(email, keys[i]) <==> i == c)
  {
    forall i | 0 <= i < |keys| && i != c
      ensures !matcher(email, keys[i])
    {
      assert !matcher(keys[c], keys[i]);
    }
  }

  /** The next task joins the tasks of exactly the keys its e-mail matches. */
  lemma TasksStep(matcher: Matcher, tasks: seq<Task>, emails: seq<Option<string>>, n: nat, key: string)
    requires |emails| == |tasks| && n < |tasks|
    ensures TasksUpTo(matcher, tasks, emails, n + 1, key)
            == TasksUpTo(matcher, tasks, emails, n, key) + (if MatchesKey(matcher, emails[n], key) then [tasks[n]] else [])
    ensures EstimateSum(TasksUpTo(matcher, tasks, emails, n + 1, key))
            == EstimateSum(TasksUpTo(matcher, tasks, emails, n, key))
               + (if MatchesKey(matcher, emails[n], key) then tasks[n].estimation.GetOr(0) else 0)
  {
    var before := TasksUpTo(matcher, tasks, emails, n, key);
    if MatchesKey(matcher, emails[n], key) {
      EstimateSumAppend(before, tasks[n]);
    } else {
      assert before + [] == before;
    }
  }

  /** `employeesPoints.set` after `get` for a task whose e-mail matches the key at `c`: its
      estimation is added to that key's points. */
  lemma PointsMatch(matcher: Matcher, tasks: seq<Task>, emails: seq<Option<string>>, n: nat,
                    keys: seq<string>, points: seq<int>, c: nat)
    requires |emails| == |tasks| && n < |tasks| && PointsFor(matcher, tasks, emails, n, keys, points)
    requires c < |keys| && forall i :: 0 <= i < |keys| ==> (MatchesKey(matcher, emails[n], keys[i]) <==> i == c)
    ensures PointsFor(matcher, tasks, emails, n + 1, keys, points[c := points[c] + tasks[n].estimation.GetOr(0)])
  {
    var added := points[c := points[c] + tasks[n].estimation.GetOr(0)];
    forall i | 0 <= i < |keys|
      ensures added[i] == EstimateSum(TasksUpTo(matcher, tasks, emails, n + 1, keys[i]))
    {
      TasksStep(matcher, tasks, emails, n, keys[i]);
      if i == c {
        assert added[i] == points[i] + tasks[n].estimation.GetOr(0);
      } else {
        assert added[i] == points[i];
      }
    }
  }

  /** `employeesPoints.set` for a task whose e-mail matches no key yet: the e-mail becomes a key
      holding the task's estimation. */
  lemma PointsNew(matcher: Matcher, tasks: seq<Task>, emails: seq<Option<string>>, n: nat,
                  keys: seq<string>, points: seq<int>, x: string)
    requires |emails| == |tasks| && n < |tasks| && PointsFor(matcher, tasks, emails, n, keys, points)
    requires emails[n] == Some(x) && matcher(x, x) && FirstWith(matcher, emails, n, x).None?
    requires forall i :: 0 <= i < |keys| ==> !MatchesKey(matcher, emails[n], keys[i])
    ensures PointsFor(matcher, tasks, emails, n + 1, keys + [x], points + [tasks[n].estimation.GetOr(0)])
  {
    var ks := keys + [x];
    forall i | 0 <= i < |keys|
      ensures points[i] == EstimateSum(TasksUpTo(matcher, tasks, emails, n + 1, ks[i]))
    {
      assert ks[i] == keys[i];
      TasksStep(matcher, tasks, emails, n, keys[i]);
    }
    TasksStep(matcher, tasks, emails, n, x);
    assert TasksUpTo(matcher, tasks, emails, n, x) == [];
  }

  /** `continue` on an unassigned task: every key's points stay. */
  lemma PointsSkip(matcher: Matcher, tasks: seq<Task>, emails: seq<Option<string>>, n: nat,
                   keys: seq<string>, points: seq<int>)
    requires |emails| == |tasks| && n < |tasks| && PointsFor(matcher, tasks, emails, n, keys, points)
    requires emails[n].None?
    ensures PointsFor(matcher, tasks, emails, n + 1, keys, points)
  {
    forall i | 0 <= i < |keys|
      ensures points[i] == EstimateSum(TasksUpTo(matcher, tasks, emails, n + 1, keys[i]))
    {
      TasksStep(matcher, tasks, emails, n, keys[i]);
    }
  }

  /** A task that adds no key leaves each key's employee as it is. */
  lemma EmployeesKept(matcher: Matcher, tasks: seq<Task>, emails: seq<Option<string>>, n: nat,
                      keys: seq<string>, employees: seq<Employee>)
    requires |emails| == |tasks| && n < |tasks|
    requires EmployeesFor(matcher, tasks, emails, n, keys, employees)
    ensures EmployeesFor(matcher, tasks, emails, n + 1, keys, employees)
  {
    forall i | 0 <= i < |keys|
      ensures FirstWith(matcher, emails, n + 1, keys[i]) == FirstWith(matcher, emails, n, keys[i])
    {
    }
  }

  /** A task whose e-mail becomes a new key makes its assignee that key's employee: a record no
      other key holds, since tasks of the same record carry the same e-mail. */
  lemma EmployeesAdded(matcher: Matcher, tasks: seq<Task>, emails: seq<Option<string>>, n: nat,
                       keys: seq<string>, employees: seq<Employee>, newKeys: seq<string>, newEmployees: seq<Employee>)
    requires |emails| == |tasks| && n < |tasks| && SameAssigneeSameEmail(tasks, emails)
    requires EmployeesFor(matcher, tasks, emails, n, keys, employees)
    requires forall i :: 0 <= i < |keys| ==> emails[FirstWith(matcher, emails, n, keys[i]).value] == Some(keys[i])
    requires emails[n].Some? && tasks[n].assignedTo.Some?
    requires FirstWith(matcher, emails, n, emails[n].value).None? && matcher(emails[n].value, emails[n].value)
    requires forall i :: 0 <= i < |keys| ==> keys[i] != emails[n].value
    requires newKeys == keys + [emails[n].value] && newEmployees == employees + [tasks[n].assignedTo.value]
    ensures EmployeesFor(matcher, tasks, emails, n + 1, newKeys, newEmployees)
    ensures tasks[n].assignedTo.value !in employees
  {
    var x := emails[n].value;
    var employee := tasks[n].assignedTo.value;
    forall i | 0 <= i < |keys|
      ensures FirstWith(matcher, emails, n + 1, newKeys[i]) == FirstWith(matcher, emails, n, keys[i])
    {
      assert newKeys[i] == keys[i];
    }
    assert newKeys[|keys|] == x && newEmployees[|keys|] == employee;
    assert FirstWith(matcher, emails, n + 1, x) == Some(n);
    forall i | 0 <= i < |employees|
      ensures employees[i] != employee
    {
      var first := FirstWith(matcher, emails, n, keys[i]).value;
      assert emails[first] == Some(keys[i]) != emails[n];
    }
  }

  /** The keys, the employee and the points of each key after the first `n` tasks. */
  ghost predicate Collected(matcher: Matcher, tasks: seq<Task>, emails: seq<Option<string>>, n: nat,
                            keys: seq<string>, employees: seq<Employee>, points: seq<int>)
    requires |emails| == |tasks| && n <= |tasks|
  {
    keys == KeysUpTo(matcher, emails, n) && KeysFor(matcher, emails, n, keys)
    && EmployeesFor(matcher, tasks, emails, n, keys, employees)
    && PointsFor(matcher, tasks, emails, n, keys, points)
  }

  /** The next task joins the tasks of exactly the keys its e-mail matches, for every key at once. */
  lemma TasksStepAll(matcher: Matcher, tasks: seq<Task>, emails: seq<Option<string>>, n: nat, keys: seq<string>)
    requires |emails| == |tasks| && n < |tasks|
    ensures forall i :: 0 <= i < |keys| ==>
              TasksUpTo(matcher, tasks, emails, n + 1, keys[i])
              == TasksUpTo(matcher, tasks, emails, n, keys[i]) + (if MatchesKey(matcher, emails[n], keys[i]) then [tasks[n]] else [])
  {
    forall i | 0 <= i < |keys|
      ensures TasksUpTo(matcher, tasks, emails, n + 1, keys[i])
              == TasksUpTo(matcher, tasks, emails, n, keys[i]) + (if MatchesKey(matcher, emails[n], keys[i]) then [tasks[n]] else [])
    {
      TasksStep(matcher, tasks, emails, n, keys[i]);
    }
  }

  // ------------------------------------------------------ the task loop: task lists

  /** Each key's employee holds, in `lists`, the tasks it had before the loop (`start`) followed by
      the key's tasks so far; every other assignee's list is as before. */
  ghost predicate ListsFor(matcher: Matcher, tasks: seq<Task>, emails: seq<Option<string>>, n: nat,
                           keys: seq<string>, employees: seq<Employee>,
                           start: map<Employee, Option<seq<Task>>>, lists: map<Employee, Option<seq<Task>>>)
    requires |emails| == |tasks| && n <= |tasks| && |keys| == |employees|
  {
    (forall e :: e in start ==> e in lists)
    && (forall i :: 0 <= i < |employees| ==>
          employees[i] in start
          && lists[employees[i]] == Some(start[employees[i]].GetOr([]) + TasksUpTo(matcher, tasks, emails, n, keys[i])))
    && (forall e :: e in start && e !in employees ==> lists[e] == start[e])
  }

  /** The `tasks` field of every assignee, as `lists` records it. */
  ghost predicate Current(lists: map<Employee, Option<seq<Task>>>)
    reads lists.Keys`tasks
  {
    forall e :: e in lists ==> e.tasks == lists[e]
  }

  /** `lists` with `task` appended to the list of `e` (an undefined list counts as empty). */
  function Pushed(lists: map<Employee, Option<seq<Task>>>, e: Employee, task: Task): (r: map<Employee, Option<seq<Task>>>)
    requires e in lists
    ensures r.Keys == lists.Keys && r[e] == Some(lists[e].GetOr([]) + [task])
    ensures forall e' :: e' in lists && e' != e ==> r[e'] == lists[e']
  {
    lists[e := Some(lists[e].GetOr([]) + [task])]
  }

  /** Pushing the task to `employee`'s list, and changing no other list, keeps `ListsFor`. */
  lemma ListsStep(matcher: Matcher, tasks: seq<Task>, emails: seq<Option<string>>, n: nat,
                  keys: seq<string>, employees: seq<Employee>, newKeys: seq<string>, newEmployees: seq<Employee>,
                  start: map<Employee, Option<seq<Task>>>, lists: map<Employee, Option<seq<Task>>>, employee: Employee)
    requires |emails| == |tasks| && n < |tasks| && |keys| == |employees| && |newKeys| == |newEmployees|
    requires ListsFor(matcher, tasks, emails, n, keys, employees, start, lists)
    requires employee in start
    requires ((newKeys, newEmployees) == (keys, employees) && employee in employees)
             || (|keys| < |newKeys| && newKeys[..|keys|] == keys && newEmployees == employees + [employee]
                 && employee !in employees && TasksUpTo(matcher, tasks, emails, n, newKeys[|keys|]) == [])
    requires forall i, j :: 0 <= i < |newEmployees| && 0 <= j < |newEmployees| && i != j ==> newEmployees[i] != newEmployees[j]
    requires forall i :: 0 <= i < |newKeys| ==> (MatchesKey(matcher, emails[n], newKeys[i]) <==> newEmployees[i] == employee)
    ensures var pushed := Pushed(lists, employee, tasks[n]);
            (forall e :: e in start ==> e in pushed)
            && (forall i :: 0 <= i < |newEmployees| ==>
                  newEmployees[i] in start
                  && pushed[newEmployees[i]]
                     == Some(start[newEmployees[i]].GetOr([]) + TasksUpTo(matcher, tasks, emails, n + 1, newKeys[i])))
            && (forall e :: e in start && e !in newEmployees ==> pushed[e] == start[e])
  {
    var pushed := Pushed(lists, employee, tasks[n]);
    TasksStepAll(matcher, tasks, emails, n, newKeys);
    forall i | 0 <= i < |newEmployees|
      ensures newEmployees[i] in start
      ensures pushed[newEmployees[i]]
              == Some(start[newEmployees[i]].GetOr([]) + TasksUpTo(matcher, tasks, emails, n + 1, newKeys[i]))
    {
      if i < |employees| {
        assert newEmployees[i] == employees[i] && newKeys[i] == keys[i];
      }
      ListAt(start, lists, newEmployees[i], employee, tasks[n], TasksUpTo(matcher, tasks, emails, n, newKeys[i]),
             TasksUpTo(matcher, tasks, emails, n + 1, newKeys[i]));
    }
    forall e | e in start && e !in newEmployees
      ensures pushed[e] == start[e]
    {
      assert e != employee && e !in employees;
    }
  }

  /** The list of one employee after `task` is pushed to `employee`'s list. */
  lemma ListAt(start: map<Employee, Option<seq<Task>>>, lists: map<Employee, Option<seq<Task>>>,
               e: Employee, employee: Employee, task: Task, before: seq<Task>, after: seq<Task>)
    requires e in start && e in lists && employee in lists
    requires e != employee ==> lists[e] == Some(start[e].GetOr([]) + before) && after == before
    requires e == employee ==> lists[e].GetOr([]) == start[e].GetOr([]) + before && after == before + [task]
    ensures lists[employee := Some(lists[employee].GetOr([]) + [task])][e] == Some(start[e].GetOr([]) + after)
  {
    if e == employee {
      assert start[e].GetOr([]) + before + [task] == start[e].GetOr([]) + (before + [task]);
    }
  }

  // ------------------------------------------------------------ the task loop as a fold

  /** What the task loop has built: the stored keys, the employee and the points of each key, and
      the task list of every employee record the tasks share. */
  datatype Tally = Tally(keys: seq<string>, employees: seq<Employee>, points: seq<int>,
                         lists: map<Employee, Option<seq<Task>>>)

  /** The employee record that gets an assigned task: the one stored under the first key
      matching `email`, or `assignee` when no key matches. */
  function Chosen(matcher: Matcher, t: Tally, email: string, assignee: Employee): (e: Employee)
    requires |t.keys| == |t.employees|
    ensures e == assignee || e in t.employees
  {
    match FirstMatch(matcher, t.keys, email)
    case Some(c) => t.employees[c]
    case None => assignee
  }

  /** One assigned task folded into the tally: the first key matching `email` gets the estimation
      and its employee gets the task; with no matching key, `email` becomes a key whose employee
      is `assignee`. */
  function AssignStep(matcher: Matcher, t: Tally, email: string, assignee: Employee, task: Task): (r: Tally)
    requires |t.keys| == |t.employees| == |t.points|
    requires assignee in t.lists && forall i :: 0 <= i < |t.employees| ==> t.employees[i] in t.lists
    ensures |r.keys| == |r.employees| == |r.points| && r.lists.Keys == t.lists.Keys
    ensures forall i :: 0 <= i < |r.employees| ==> r.employees[i] in t.lists
    ensures r.lists == Pushed(t.lists, Chosen(matcher, t, email, assignee), task)
  {
    match FirstMatch(matcher, t.keys, email)
    case Some(c) =>
      Tally(t.keys, t.employees, t.points[c := t.points[c] + task.estimation.GetOr(0)], Pushed(t.lists, t.employees[c], task))
    case None =>
      Tally(t.keys + [email], t.employees + [assignee], t.points + [task.estimation.GetOr(0)], Pushed(t.lists, assignee, task))
  }

  lemma AssignStepOnMatch(matcher: Matcher, t: Tally, email: string, assignee: Employee, task: Task, c: nat, r: Tally)
    requires |t.keys| == |t.employees| == |t.points|
    requires assignee in t.lists && forall i :: 0 <= i < |t.employees| ==> t.employees[i] in t.lists
    requires FirstMatch(matcher, t.keys, email) == Some(c) && r == AssignStep(matcher, t, email, assignee, task)
    ensures c < |t.employees| && r.keys == t.keys && r.employees == t.employees
    ensures r.points == t.points[c := t.points[c] + task.estimation.GetOr(0)]
    ensures Chosen(matcher, t, email, assignee) == t.employees[c]
  {
  }

  lemma AssignStepOnNew(matcher: Matcher, t: Tally, email: string, assignee: Employee, task: Task, r: Tally)
    requires |t.keys| == |t.employees| == |t.points|
    requires assignee in t.lists && forall i :: 0 <= i < |t.employees| ==> t.employees[i] in t.lists
    requires FirstMatch(matcher, t.keys, email).None? && r == AssignStep(matcher, t, email, assignee, task)
    ensures r.keys == t.keys + [email] && r.employees == t.employees + [assignee]
    ensures r.points == t.points + [task.estimation.GetOr(0)] && Chosen(matcher, t, email, assignee) == assignee
  {
  }

  /** With distinct employees, the keys an e-mail matches are exactly the keys of one employee. */
  lemma MatchesOneEmployee(matcher: Matcher, email: Option<string>, keys: seq<string>, employees: seq<Employee>, c: nat)
    requires |keys| == |employees| && c < |keys| && email.Some?
    requires forall i :: 0 <= i < |keys| ==> (matcher(email.value, keys[i]) <==> i == c)
    requires forall i, j :: 0 <= i < |employees| && 0 <= j < |employees| && i != j ==> employees[i] != employees[j]
    ensures forall i :: 0 <= i < |keys| ==> (MatchesKey(matcher, email, keys[i]) <==> employees[i] == employees[c])
  {
  }

  /** An e-mail matching no stored key, stored with a new employee, matches exactly that employee's key. */
  lemma MatchesNewEmployee(matcher: Matcher, email: Option<string>, keys: seq<string>, employees: seq<Employee>,
                           employee: Employee, newKeys: seq<string>, newEmployees: seq<Employee>)
    requires |keys| == |employees| && email.Some? && matcher(email.value, email.value)
    requires forall i :: 0 <= i < |keys| ==> !matcher(email.value, keys[i])
    requires employee !in employees
    requires newKeys == keys + [email.value] && newEmployees == employees + [employee]
    ensures forall i :: 0 <= i < |newKeys| ==> (MatchesKey(matcher, email, newKeys[i]) <==> newEmployees[i] == employee)
  {
    forall i | 0 <= i < |newKeys|
      ensures MatchesKey(matcher, email, newKeys[i]) <==> newEmployees[i] == employee
    {
      if i < |keys| {
        assert newKeys[i] == keys[i] && newEmployees[i] == employees[i];
      }
    }
  }

  /** Every assignee has a task list in `start`. */
  ghost predicate AssigneesIn(tasks: seq<Task>, start: map<Employee, Option<seq<Task>>>) {
    forall k :: 0 <= k < |tasks| && tasks[k].assignedTo.Some? ==> tasks[k].assignedTo.value in start
  }

  /** `emails` has an e-mail exactly for the assigned tasks. */
  ghost predicate Aligned(tasks: seq<Task>, emails: seq<Option<string>>) {
    |emails| == |tasks| && forall k :: 0 <= k < |tasks| ==> (emails[k].Some? <==> tasks[k].assignedTo.Some?)
  }

  /** The tally of the loop over the first `n` tasks, from empty maps and the task lists `start`. */
  function Fold(matcher: Matcher, tasks: seq<Task>, emails: seq<Option<string>>,
                start: map<Employee, Option<seq<Task>>>, n: nat): (t: Tally)
    requires |emails| == |tasks| && n <= |tasks| && AssigneesIn(tasks, start)
    ensures |t.keys| == |t.employees| == |t.points| && t.lists.Keys == start.Keys
    ensures forall i :: 0 <= i < |t.employees| ==> t.employees[i] in start
  {
    if n == 0 then Tally([], [], [], start)
    else
      var t := Fold(matcher, tasks, emails, start, n - 1);
      var task := tasks[n - 1];
      if task.assignedTo.Some? && emails[n - 1].Some? then AssignStep(matcher, t, emails[n - 1].value, task.assignedTo.value, task)
      else t
  }

  /** How the fold's tally changes on an assigned task whose e-mail matches the key at `c`. */
  lemma FoldStepOnMatch(matcher: Matcher, tasks: seq<Task>, emails: seq<Option<string>>,
                        start: map<Employee, Option<seq<Task>>>, n: nat, c: nat)
    requires |emails| == |tasks| && AssigneesIn(tasks, start) && n < |tasks|
    requires tasks[n].assignedTo.Some? && emails[n].Some?
    requires FirstMatch(matcher, Fold(matcher, tasks, emails, start, n).keys, emails[n].value) == Some(c)
    ensures var t, r := Fold(matcher, tasks, emails, start, n), Fold(matcher, tasks, emails, start, n + 1);
            c < |t.points| && r.keys == t.keys && r.employees == t.employees
            && r.points == t.points[c := t.points[c] + tasks[n].estimation.GetOr(0)]
  {
    AssignStepOnMatch(matcher, Fold(matcher, tasks, emails, start, n), emails[n].value, tasks[n].assignedTo.value, tasks[n], c, Fold(matcher, tasks, emails, start, n + 1));
  }

  /** On a matching e-mail the task goes to the employee of the key at `c`. */
  lemma FoldListsOnMatch(matcher: Matcher, tasks: seq<Task>, emails: seq<Option<string>>,
                         start: map<Employee, Option<seq<Task>>>, n: nat, c: nat)
    requires |emails| == |tasks| && AssigneesIn(tasks, start) && n < |tasks|
    requires tasks[n].assignedTo.Some? && emails[n].Some?
    requires FirstMatch(matcher, Fold(matcher, tasks, emails, start, n).keys, emails[n].value) == Some(c)
    ensures var t, r := Fold(matcher, tasks, emails, start, n), Fold(matcher, tasks, emails, start, n + 1);
            c < |t.employees| && r.lists == Pushed(t.lists, t.employees[c], tasks[n])
            && Chosen(matcher, t, emails[n].value, tasks[n].assignedTo.value) == t.employees[c]
  {
    AssignStepOnMatch(matcher, Fold(matcher, tasks, emails, start, n), emails[n].value, tasks[n].assignedTo.value, tasks[n], c, Fold(matcher, tasks, emails, start, n + 1));
  }

  /** How the fold's tally changes on an assigned task whose e-mail matches no key. */
  lemma FoldStepOnNew(matcher: Matcher, tasks: seq<Task>, emails: seq<Option<string>>,
                      start: map<Employee, Option<seq<Task>>>, n: nat)
    requires |emails| == |tasks| && AssigneesIn(tasks, start) && n < |tasks|
    requires tasks[n].assignedTo.Some? && emails[n].Some?
    requires FirstMatch(matcher, Fold(matcher, tasks, emails, start, n).keys, emails[n].value).None?
    ensures var t, r := Fold(matcher, tasks, emails, start, n), Fold(matcher, tasks, emails, start, n + 1);
            r.keys == t.keys + [emails[n].value] && r.employees == t.employees + [tasks[n].assignedTo.value]
            && r.points == t.points + [tasks[n].estimation.GetOr(0)]
            && r.lists == Pushed(t.lists, tasks[n].assignedTo.value, tasks[n])
            && Chosen(matcher, t, emails[n].value, tasks[n].assignedTo.value) == tasks[n].assignedTo.value
  {
    AssignStepOnNew(matcher, Fold(matcher, tasks, emails, start, n), emails[n].value, tasks[n].assignedTo.value, tasks[n], Fold(matcher, tasks, emails, start, n + 1));
  }

  /** After the first `n` tasks the fold holds the keys `KeysUpTo` computes. */
  lemma {:induction false} FoldKeys(matcher: Matcher, tasks: seq<Task>, emails: seq<Option<string>>,
                                    start: map<Employee, Option<seq<Task>>>, n: nat)
    requires Aligned(tasks, emails) && AssigneesIn(tasks, start) && n <= |tasks|
    ensures Fold(matcher, tasks, emails, start, n).keys == KeysUpTo(matcher, emails, n)
  {
    if n > 0 {
      var m := n - 1;
      FoldKeys(matcher, tasks, emails, start, m);
      if tasks[m].assignedTo.Some? {
        match FirstMatch(matcher, Fold(matcher, tasks, emails, start, m).keys, emails[m].value)
        case Some(c) => FoldStepOnMatch(matcher, tasks, emails, start, m, c);
        case None => FoldStepOnNew(matcher, tasks, emails, start, m);
      }
    }
  }

  /** The fold's keys are `KeysFor` the tasks seen. */
  lemma FoldKeysFor(matcher: Matcher, part: string -> string, tasks: seq<Task>, emails: seq<Option<string>>,
                    start: map<Employee, Option<seq<Task>>>, n: nat)
    requires ComparesPart(matcher, part) && Aligned(tasks, emails) && AssigneesIn(tasks, start) && n <= |tasks|
    ensures KeysFor(matcher, emails, n, Fold(matcher, tasks, emails, start, n).keys)
  {
    FoldKeys(matcher, tasks, emails, start, n);
    KeysUpToFor(matcher, part, emails, n);
  }

  /** The key at `c`, the first the e-mail of the next task matches, is the only one it matches. */
  lemma FoldOnlyMatch(matcher: Matcher, part: string -> string, tasks: seq<Task>, emails: seq<Option<string>>,
                      start: map<Employee, Option<seq<Task>>>, n: nat, c: nat)
    requires ComparesPart(matcher, part) && Aligned(tasks, emails) && AssigneesIn(tasks, start) && n < |tasks|
    requires emails[n].Some? && FirstMatch(matcher, Fold(matcher, tasks, emails, start, n).keys, emails[n].value) == Some(c)
    ensures forall i :: 0 <= i < |Fold(matcher, tasks, emails, start, n).keys| ==> (MatchesKey(matcher, emails[n], Fold(matcher, tasks, emails, start, n).keys[i]) <==> i == c)
  {
    FoldKeysFor(matcher, part, tasks, emails, start, n);
    OnlyMatch(matcher, part, Fold(matcher, tasks, emails, start, n).keys, emails[n].value, c);
  }

  /** An assigned task whose e-mail matches the key at `c` adds its estimation to that key only. */
  lemma FoldPointsOnMatch(matcher: Matcher, part: string -> string, tasks: seq<Task>, emails: seq<Option<string>>,
                          start: map<Employee, Option<seq<Task>>>, n: nat, c: nat)
    requires ComparesPart(matcher, part) && Aligned(tasks, emails) && AssigneesIn(tasks, start) && n < |tasks|
    requires tasks[n].assignedTo.Some? && emails[n].Some?
    requires FirstMatch(matcher, Fold(matcher, tasks, emails, start, n).keys, emails[n].value) == Some(c)
    requires PointsFor(matcher, tasks, emails, n, Fold(matcher, tasks, emails, start, n).keys, Fold(matcher, tasks, emails, start, n).points)
    ensures PointsFor(matcher, tasks, emails, n + 1, Fold(matcher, tasks, emails, start, n + 1).keys, Fold(matcher, tasks, emails, start, n + 1).points)
  {
    FoldStepOnMatch(matcher, tasks, emails, start, n, c);
    FoldOnlyMatch(matcher, part, tasks, emails, start, n, c);
    PointsMatch(matcher, tasks, emails, n, Fold(matcher, tasks, emails, start, n).keys, Fold(matcher, tasks, emails, start, n).points, c);
  }

  /** An assigned task whose e-mail matches no key opens a key holding its estimation. */
  lemma FoldPointsOnNew(matcher: Matcher, part: string -> string, tasks: seq<Task>, emails: seq<Option<string>>,
                        start: map<Employee, Option<seq<Task>>>, n: nat)
    requires ComparesPart(matcher, part) && Aligned(tasks, emails) && AssigneesIn(tasks, start) && n < |tasks|
    requires tasks[n].assignedTo.Some? && emails[n].Some?
    requires FirstMatch(matcher, Fold(matcher, tasks, emails, start, n).keys, emails[n].value).None?
    requires PointsFor(matcher, tasks, emails, n, Fold(matcher, tasks, emails, start, n).keys, Fold(matcher, tasks, emails, start, n).points)
    ensures PointsFor(matcher, tasks, emails, n + 1, Fold(matcher, tasks, emails, start, n + 1).keys, Fold(matcher, tasks, emails, start, n + 1).points)
  {
    FoldStepOnNew(matcher, tasks, emails, start, n);
    FoldKeysFor(matcher, part, tasks, emails, start, n);
    NoEarlierMatch(matcher, part, emails, n, Fold(matcher, tasks, emails, start, n).keys, emails[n].value);
    assert matcher(emails[n].value, emails[n].value);
    PointsNew(matcher, tasks, emails, n, Fold(matcher, tasks, emails, start, n).keys, Fold(matcher, tasks, emails, start, n).points, emails[n].value);
  }

  /** After the first `n` tasks each key of the fold holds the estimations of its tasks. */
  lemma {:induction false} FoldPoints(matcher: Matcher, part: string -> string, tasks: seq<Task>, emails: seq<Option<string>>,
                                      start: map<Employee, Option<seq<Task>>>, n: nat)
    requires ComparesPart(matcher, part) && Aligned(tasks, emails) && AssigneesIn(tasks, start) && n <= |tasks|
    ensures PointsFor(matcher, tasks, emails, n, Fold(matcher, tasks, emails, start, n).keys, Fold(matcher, tasks, emails, start, n).points)
  {
    if n > 0 {
      var m := n - 1;
      FoldPoints(matcher, part, tasks, emails, start, m);
      if tasks[m].assignedTo.None? {
        PointsSkip(matcher, tasks, emails, m, Fold(matcher, tasks, emails, start, m).keys, Fold(matcher, tasks, emails, start, m).points);
      } else {
        match FirstMatch(matcher, Fold(matcher, tasks, emails, start, m).keys, emails[m].value)
        case Some(c) => FoldPointsOnMatch(matcher, part, tasks, emails, start, m, c);
        case None => FoldPointsOnNew(matcher, part, tasks, emails, start, m);
      }
    }
  }

  /** An assigned task whose e-mail matches no key stores its assignee, a record not stored before. */
  lemma FoldEmployeesOnNew(matcher: Matcher, part: string -> string, tasks: seq<Task>, emails: seq<Option<string>>,
                           start: map<Employee, Option<seq<Task>>>, n: nat)
    requires ComparesPart(matcher, part) && Aligned(tasks, emails) && SameAssigneeSameEmail(tasks, emails)
    requires AssigneesIn(tasks, start) && n < |tasks| && tasks[n].assignedTo.Some? && emails[n].Some?
    requires FirstMatch(matcher, Fold(matcher, tasks, emails, start, n).keys, emails[n].value).None?
    requires EmployeesFor(matcher, tasks, emails, n, Fold(matcher, tasks, emails, start, n).keys, Fold(matcher, tasks, emails, start, n).employees)
    ensures EmployeesFor(matcher, tasks, emails, n + 1, Fold(matcher, tasks, emails, start, n + 1).keys, Fold(matcher, tasks, emails, start, n + 1).employees)
    ensures tasks[n].assignedTo.value !in Fold(matcher, tasks, emails, start, n).employees
    ensures FirstWith(matcher, emails, n, emails[n].value).None?
  {
    FoldStepOnNew(matcher, tasks, emails, start, n);
    FoldKeysFor(matcher, part, tasks, emails, start, n);
    NoEarlierMatch(matcher, part, emails, n, Fold(matcher, tasks, emails, start, n).keys, emails[n].value);
    assert matcher(emails[n].value, emails[n].value);
    EmployeesAdded(matcher, tasks, emails, n, Fold(matcher, tasks, emails, start, n).keys, Fold(matcher, tasks, emails, start, n).employees, Fold(matcher, tasks, emails, start, n + 1).keys, Fold(matcher, tasks, emails, start, n + 1).employees);
  }

  /** After the first `n` tasks each key of the fold holds the assignee of its first task. */
  lemma {:induction false} FoldEmployees(matcher: Matcher, part: string -> string, tasks: seq<Task>, emails: seq<Option<string>>,
                                         start: map<Employee, Option<seq<Task>>>, n: nat)
    requires ComparesPart(matcher, part) && Aligned(tasks, emails) && SameAssigneeSameEmail(tasks, emails)
    requires AssigneesIn(tasks, start) && n <= |tasks|
    ensures EmployeesFor(matcher, tasks, emails, n, Fold(matcher, tasks, emails, start, n).keys, Fold(matcher, tasks, emails, start, n).employees)
  {
    if n > 0 {
      var m := n - 1;
      FoldEmployees(matcher, part, tasks, emails, start, m);
      if tasks[m].assignedTo.None? {
        EmployeesKept(matcher, tasks, emails, m, Fold(matcher, tasks, emails, start, m).keys, Fold(matcher, tasks, emails, start, m).employees);
      } else {
        match FirstMatch(matcher, Fold(matcher, tasks, emails, start, m).keys, emails[m].value)
        case Some(c) => {
          FoldStepOnMatch(matcher, tasks, emails, start, m, c);
          EmployeesKept(matcher, tasks, emails, m, Fold(matcher, tasks, emails, start, m).keys, Fold(matcher, tasks, emails, start, m).employees);
        }
        case None => FoldEmployeesOnNew(matcher, part, tasks, emails, start, m);
      }
    }
  }

  /** After the first `n` tasks the keys, their employees and their points are as `Collected` says. */
  lemma FoldCollected(matcher: Matcher, part: string -> string, tasks: seq<Task>, emails: seq<Option<string>>,
                      start: map<Employee, Option<seq<Task>>>, n: nat)
    requires ComparesPart(matcher, part) && Aligned(tasks, emails) && SameAssigneeSameEmail(tasks, emails)
    requires AssigneesIn(tasks, start) && n <= |tasks|
    ensures Collected(matcher, tasks, emails, n, Fold(matcher, tasks, emails, start, n).keys, Fold(matcher, tasks, emails, start, n).employees, Fold(matcher, tasks, emails, start, n).points)
  {
    FoldKeys(matcher, tasks, emails, start, n);
    FoldKeysFor(matcher, part, tasks, emails, start, n);
    FoldEmployees(matcher, part, tasks, emails, start, n);
    FoldPoints(matcher, part, tasks, emails, start, n);
  }

  /** Which record gets an assigned task and what that says about the keys: the facts `ListsStep` needs. */
  ghost predicate Selects(matcher: Matcher, tasks: seq<Task>, emails: seq<Option<string>>, n: nat,
                          start: map<Employee, Option<seq<Task>>>, t: Tally, r: Tally, e: Employee)
    requires |emails| == |tasks| && n < |tasks|
  {
    e in start && e in t.lists && r.lists == Pushed(t.lists, e, tasks[n]) && |r.keys| == |r.employees|
    && (((r.keys, r.employees) == (t.keys, t.employees) && e in t.employees)
        || (|t.keys| < |r.keys| && r.keys[..|t.keys|] == t.keys && r.employees == t.employees + [e]
            && e !in t.employees && TasksUpTo(matcher, tasks, emails, n, r.keys[|t.keys|]) == []))
    && (forall i, j :: 0 <= i < |r.employees| && 0 <= j < |r.employees| && i != j ==> r.employees[i] != r.employees[j])
    && (forall i :: 0 <= i < |r.keys| ==> (MatchesKey(matcher, emails[n], r.keys[i]) <==> r.employees[i] == e))
  }

  lemma SelectsOnMatch(matcher: Matcher, part: string -> string, tasks: seq<Task>, emails: seq<Option<string>>,
                       n: nat, start: map<Employee, Option<seq<Task>>>, t: Tally, r: Tally, c: nat)
    requires ComparesPart(matcher, part) && |emails| == |tasks| && n < |tasks| && emails[n].Some?
    requires |t.keys| == |t.employees| && t.lists.Keys == start.Keys
    requires forall i :: 0 <= i < |t.employees| ==> t.employees[i] in start
    requires Unambiguous(matcher, t.keys) && FirstMatch(matcher, t.keys, emails[n].value) == Some(c)
    requires forall i, j :: 0 <= i < |t.employees| && 0 <= j < |t.employees| && i != j ==> t.employees[i] != t.employees[j]
    requires r.keys == t.keys && r.employees == t.employees && r.lists == Pushed(t.lists, t.employees[c], tasks[n])
    ensures Selects(matcher, tasks, emails, n, start, t, r, t.employees[c])
  {
    OnlyMatch(matcher, part, t.keys, emails[n].value, c);
    MatchesOneEmployee(matcher, emails[n], t.keys, t.employees, c);
  }

  lemma SelectsOnNew(matcher: Matcher, part: string -> string, tasks: seq<Task>, emails: seq<Option<string>>,
                     n: nat, start: map<Employee, Option<seq<Task>>>, t: Tally, r: Tally)
    requires ComparesPart(matcher, part) && |emails| == |tasks| && n < |tasks|
    requires emails[n].Some? && tasks[n].assignedTo.Some? && tasks[n].assignedTo.value in start
    requires |t.keys| == |t.employees| && t.lists.Keys == start.Keys
    requires FirstMatch(matcher, t.keys, emails[n].value).None? && FirstWith(matcher, emails, n, emails[n].value).None?
    requires forall i, j :: 0 <= i < |t.employees| && 0 <= j < |t.employees| && i != j ==> t.employees[i] != t.employees[j]
    requires tasks[n].assignedTo.value !in t.employees
    requires r.keys == t.keys + [emails[n].value] && r.employees == t.employees + [tasks[n].assignedTo.value]
    requires r.lists == Pushed(t.lists, tasks[n].assignedTo.value, tasks[n])
    ensures Selects(matcher, tasks, emails, n, start, t, r, tasks[n].assignedTo.value)
  {
    var email, assignee := emails[n].value, tasks[n].assignedTo.value;
    assert matcher(email, email);
    MatchesNewEmployee(matcher, emails[n], t.keys, t.employees, assignee, r.keys, r.employees);
    assert r.keys[|t.keys|] == email && r.keys[..|t.keys|] == t.keys;
    forall i, j | 0 <= i < |r.employees| && 0 <= j < |r.employees| && i != j
      ensures r.employees[i] != r.employees[j]
    {
      if i < |t.employees| && j < |t.employees| {
        assert r.employees[i] == t.employees[i] && r.employees[j] == t.employees[j];
      }
    }
  }

  /** For an assigned task, which record of the fold gets it and what that says about the keys. */
  lemma FoldSelects(matcher: Matcher, part: string -> string, tasks: seq<Task>, emails: seq<Option<string>>,
                    start: map<Employee, Option<seq<Task>>>, n: nat)
    requires ComparesPart(matcher, part) && Aligned(tasks, emails) && SameAssigneeSameEmail(tasks, emails)
    requires AssigneesIn(tasks, start) && n < |tasks| && tasks[n].assignedTo.Some?
    ensures emails[n].Some?
    ensures Selects(matcher, tasks, emails, n, start, Fold(matcher, tasks, emails, start, n), Fold(matcher, tasks, emails, start, n + 1),
                    Chosen(matcher, Fold(matcher, tasks, emails, start, n), emails[n].value, tasks[n].assignedTo.value))
  {
    FoldEmployees(matcher, part, tasks, emails, start, n);
    assert emails[n].Some?;
    match FirstMatch(matcher, Fold(matcher, tasks, emails, start, n).keys, emails[n].value)
    case Some(c) => {
      FoldKeysFor(matcher, part, tasks, emails, start, n);
      FoldStepOnMatch(matcher, tasks, emails, start, n, c);
      FoldListsOnMatch(matcher, tasks, emails, start, n, c);
      SelectsOnMatch(matcher, part, tasks, emails, n, start, Fold(matcher, tasks, emails, start, n), Fold(matcher, tasks, emails, start, n + 1), c);
    }
    case None => {
      FoldEmployeesOnNew(matcher, part, tasks, emails, start, n);
      FoldStepOnNew(matcher, tasks, emails, start, n);
      SelectsOnNew(matcher, part, tasks, emails, n, start, Fold(matcher, tasks, emails, start, n), Fold(matcher, tasks, emails, start, n + 1));
    }
  }

  /** An unassigned task changes no task list. */
  lemma ListsSkip(matcher: Matcher, tasks: seq<Task>, emails: seq<Option<string>>, n: nat,
                  keys: seq<string>, employees: seq<Employee>, start: map<Employee, Option<seq<Task>>>,
                  lists: map<Employee, Option<seq<Task>>>)
    requires |emails| == |tasks| && n < |tasks| && |keys| == |employees| && emails[n].None?
    requires ListsFor(matcher, tasks, emails, n, keys, employees, start, lists)
    ensures ListsFor(matcher, tasks, emails, n + 1, keys, employees, start, lists)
  {
    forall i | 0 <= i < |employees|
      ensures TasksUpTo(matcher, tasks, emails, n + 1, keys[i]) == TasksUpTo(matcher, tasks, emails, n, keys[i])
    {
      TasksStep(matcher, tasks, emails, n, keys[i]);
    }
  }

  /** After the first `n` tasks every key's employee holds its earlier tasks followed by the key's
      tasks, and every other record's tasks are as before. */
  lemma {:induction false} FoldLists(matcher: Matcher, part: string -> string, tasks: seq<Task>, emails: seq<Option<string>>,
                                     start: map<Employee, Option<seq<Task>>>, n: nat)
    requires ComparesPart(matcher, part) && Aligned(tasks, emails) && SameAssigneeSameEmail(tasks, emails)
    requires AssigneesIn(tasks, start) && n <= |tasks|
    ensures var t := Fold(matcher, tasks, emails, start, n); ListsFor(matcher, tasks, emails, n, t.keys, t.employees, start, t.lists)
  {
    if n > 0 {
      var m := n - 1;
      FoldLists(matcher, part, tasks, emails, start, m);
      if tasks[m].assignedTo.Some? {
        FoldSelects(matcher, part, tasks, emails, start, m);
        ListsStep(matcher, tasks, emails, m, Fold(matcher, tasks, emails, start, m).keys, Fold(matcher, tasks, emails, start, m).employees, Fold(matcher, tasks, emails, start, n).keys, Fold(matcher, tasks, emails, start, n).employees, start, Fold(matcher, tasks, emails, start, m).lists,
                  Chosen(matcher, Fold(matcher, tasks, emails, start, m), emails[m].value, tasks[m].assignedTo.value));
      } else {
        ListsSkip(matcher, tasks, emails, m, Fold(matcher, tasks, emails, start, m).keys, Fold(matcher, tasks, emails, start, m).employees, start, Fold(matcher, tasks, emails, start, m).lists);
      }
    }
  }

  /** `employeesRecord` and `employeesPoints` updated for one assigned task, and the task pushed
      onto the recorded employee's `tasks`. */
  method AssignTask(tasks: seq<Task>, n: nat, employees: EmailMap<Employee>, employeesPoints: EmailMap<int>,
                    ghost lists: map<Employee, Option<seq<Task>>>)
    returns (ghost pushed: map<Employee, Option<seq<Task>>>)
    requires n < |tasks| && tasks[n].assignedTo.Some? && tasks[n].assignedTo.value in lists
    requires employees.Valid() && employeesPoints.Valid()
    requires employees.matcher == employeesPoints.matcher && employeesPoints.keys == employees.keys
    requires forall i :: 0 <= i < |employees.values| ==> employees.values[i] in lists
    requires employees.matcher(tasks[n].assignedTo.value.email, tasks[n].assignedTo.value.email)
    requires Current(lists)
    modifies employees, employeesPoints, lists.Keys`tasks
    ensures employees.Valid() && employeesPoints.Valid() && employeesPoints.keys == employees.keys
    ensures Tally(employees.keys, employees.values, employeesPoints.values, pushed)
            == AssignStep(employees.matcher, Tally(old(employees.keys), old(employees.values), old(employeesPoints.values), lists),
                          tasks[n].assignedTo.value.email, tasks[n].assignedTo.value, tasks[n])
    ensures Current(pushed)
  {
    var assignee := tasks[n].assignedTo.value;
    var employee := StoreAssignee(employees, employeesPoints, assignee.email, assignee, tasks[n].estimation.GetOr(0));
    pushed := PushTask(employee, tasks[n], lists);
  }

  /** The two `set` calls of the loop body for an assignee with e-mail `email`: the record stored
      under the first key matching `email` (or `assignee`, stored under `email`, when none does)
      and the points of that key increased by `estimation`. */
  method StoreAssignee(employees: EmailMap<Employee>, employeesPoints: EmailMap<int>, email: string,
                       assignee: Employee, estimation: int)
    returns (employee: Employee)
    requires employees.Valid() && employeesPoints.Valid()
    requires employees.matcher == employeesPoints.matcher && employeesPoints.keys == employees.keys
    requires employees.matcher(email, email)
    modifies employees, employeesPoints
    ensures employees.Valid() && employeesPoints.Valid() && employeesPoints.keys == employees.keys
    ensures match FirstMatch(employees.matcher, old(employees.keys), email)
      case Some(c) =>
        employee == old(employees.values)[c] && employees.keys == old(employees.keys)
        && employees.values == old(employees.values)
        && employeesPoints.values == old(employeesPoints.values)[c := old(employeesPoints.values)[c] + estimation]
      case None =>
        employee == assignee && employees.keys == old(employees.keys) + [email]
        && employees.values == old(employees.values) + [assignee]
        && employeesPoints.values == old(employeesPoints.values) + [estimation]
  {
    ghost var keys, values, points := employees.keys, employees.values, employeesPoints.values;
    ghost var c := FirstMatch(employees.matcher, keys, email);
    var found := employees.Get(email);
    assert found.Some? <==> c.Some?;
    assert c.Some? ==> found.value == values[c.value];
    if found.None? {
      employees.Set(email, assignee);
      employee := assignee;
    } else {
      employee := found.value;
    }
    var current := employeesPoints.Get(email);
    var total := current.GetOr(0) + estimation;
    employeesPoints.Set(email, total);
    if c.Some? {
      PutOnMatch(employees.matcher, keys, points, email, total, c.value);
    } else {
      PutOnNoMatch(employees.matcher, keys, values, email, assignee);
      PutOnNoMatch(employees.matcher, keys, points, email, total);
    }
  }

  /** `employee.tasks = employee.tasks || []` then `employee.tasks.push(task)`. */
  method PushTask(employee: Employee, task: Task, ghost lists: map<Employee, Option<seq<Task>>>)
    returns (ghost pushed: map<Employee, Option<seq<Task>>>)
    requires employee in lists && Current(lists)
    modifies employee`tasks
    ensures pushed == Pushed(lists, employee, task) && Current(pushed)
  {
    if employee.tasks.None? {
      employee.tasks := Some([]);
    }
    employee.tasks := Some(employee.tasks.value + [task]);
    pushed := Pushed(lists, employee, task);
  }

  /** One step of the fold on the task at `n`, for an assigned task whose e-mail is `email`. */
  lemma FoldNext(matcher: Matcher, tasks: seq<Task>, emails: seq<Option<string>>,
                 start: map<Employee, Option<seq<Task>>>, n: nat, email: string)
    requires |emails| == |tasks| && AssigneesIn(tasks, start) && n < |tasks|
    requires tasks[n].assignedTo.Some? && emails[n] == Some(email)
    ensures Fold(matcher, tasks, emails, start, n + 1)
            == AssignStep(matcher, Fold(matcher, tasks, emails, start, n), email, tasks[n].assignedTo.value, tasks[n])
  {
  }

  /** One pass of the task loop on the task at `n`: the dates first, then the assignment of an
      assigned task; the state after it is the fold over `n + 1` tasks. */
  method CollectTask(matcher: Matcher, ghost part: string -> string, tasks: seq<Task>,
                     ghost emails: seq<Option<string>>, ghost start: map<Employee, Option<seq<Task>>>, n: nat,
                     employees: EmailMap<Employee>, employeesPoints: EmailMap<int>, minDate: int, maxDate: int,
                     ghost lists: map<Employee, Option<seq<Task>>>)
    returns (newMin: int, newMax: int, ghost pushed: map<Employee, Option<seq<Task>>>)
    requires ComparesPart(matcher, part) && |emails| == |tasks| && AssigneesIn(tasks, start) && n < |tasks|
    requires tasks[n].assignedTo.Some? ==> emails[n] == Some(tasks[n].assignedTo.value.email)
    requires employees.Valid() && employeesPoints.Valid()
    requires employees.matcher == matcher && employeesPoints.matcher == matcher && employeesPoints.keys == employees.keys
    requires Tally(employees.keys, employees.values, employeesPoints.values, lists)
             == Fold(matcher, tasks, emails, start, n)
    requires Current(lists)
    requires minDate == MinStarted(tasks, n) && maxDate == MaxDone(tasks, n)
    modifies employees, employeesPoints, start.Keys`tasks
    ensures employees.Valid() && employeesPoints.Valid() && employeesPoints.keys == employees.keys
    ensures Tally(employees.keys, employees.values, employeesPoints.values, pushed)
            == Fold(matcher, tasks, emails, start, n + 1)
    ensures Current(pushed)
    ensures newMin == MinStarted(tasks, n + 1) && newMax == MaxDone(tasks, n + 1)
  {
    var task := tasks[n];
    newMin, newMax := minDate, maxDate;
    if task.startedAt.Some? && task.startedAt.value < newMin {
      newMin := task.startedAt.value;
    }
    if task.doneAt.Some? && task.doneAt.value > newMax {
      newMax := task.doneAt.value;
    }
    if task.assignedTo.None? {
      pushed := lists;
      return;
    }
    var email := task.assignedTo.value.email;
    FoldNext(matcher, tasks, emails, start, n, email);
    assert matcher(email, email);
    pushed := AssignTask(tasks, n, employees, employeesPoints, lists);
  }

  /** The task loop of `CalculateStats`: the earliest start date, the latest completion date, the
      employee and the points of each key, and every assignee's `tasks` as the fold says. `start`
      is the `tasks` field of every assignee before the loop. */
  method CollectTasks(matcher: Matcher, ghost part: string -> string, tasks: seq<Task>,
                      ghost emails: seq<Option<string>>, ghost start: map<Employee, Option<seq<Task>>>)
    returns (employees: EmailMap<Employee>, employeesPoints: EmailMap<int>, minDate: int, maxDate: int,
             ghost lists: map<Employee, Option<seq<Task>>>)
    requires ComparesPart(matcher, part) && EmailsOf(tasks, emails)
    requires AssigneesIn(tasks, start) && Current(start)
    modifies start.Keys`tasks
    ensures fresh(employees) && fresh(employeesPoints)
    ensures employees.Valid() && employeesPoints.Valid()
    ensures employees.matcher == matcher && employeesPoints.matcher == matcher && employeesPoints.keys == employees.keys
    ensures Current(lists)
    ensures minDate == MinStarted(tasks, |tasks|) && maxDate == MaxDone(tasks, |tasks|)
    ensures Collected(matcher, tasks, emails, |tasks|, employees.keys, employees.values, employeesPoints.values)
    ensures ListsFor(matcher, tasks, emails, |tasks|, employees.keys, employees.values, start, lists)
  {
    EmailsConsistent(tasks, emails);
    assert Aligned(tasks, emails);
    employees := new EmailMap(matcher);
    employeesPoints := new EmailMap(matcher);
    minDate, maxDate := MaxTime, -MaxTime;
    lists := start;
    for n := 0 to |tasks|
      invariant fresh(employees) && fresh(employeesPoints)
      invariant employees.Valid() && employeesPoints.Valid()
      invariant employees.matcher == matcher && employeesPoints.matcher == matcher && employeesPoints.keys == employees.keys
      invariant Tally(employees.keys, employees.values, employeesPoints.values, lists)
                == Fold(matcher, tasks, emails, start, n)
      invariant Current(lists)
      invariant minDate == MinStarted(tasks, n) && maxDate == MaxDone(tasks, n)
    {
      assert tasks[n].assignedTo.Some? ==> emails[n] == Some(old(tasks[n].assignedTo.value.email));
      minDate, maxDate, lists := CollectTask(matcher, part, tasks, emails, start, n, employees, employeesPoints,
                                             minDate, maxDate, lists);
    }
    FoldCollected(matcher, part, tasks, emails, start, |tasks|);
    FoldLists(matcher, part, tasks, emails, start, |tasks|);
  }
}
