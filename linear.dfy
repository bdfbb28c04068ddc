/**
 * The Linear work source (src/backend/integrations/linear.ts): the work-bucket
 * URI grammar `team/T[/cycle/C][/project/P[/milestone/M]]`, the issue filter
 * built from it, and the fold turning issue pages into tasks whose assignees
 * are shared employee records.
 */
module Linear {
  import opened Wrappers
  import opened Calendar
  import opened Text
  import opened Model

  const InvalidURI: string := "Invalid 'workBucketURI' provided"
  const MandatoryURI: string := "Argument 'workBucketURI' is mandatory"

  datatype TimeWindow = TimeWindow(from: Option<Time>, to: Option<Time>)

  /** `LinearWorkBucketFilter`. */
  datatype WorkBucketFilter = WorkBucketFilter(teamName: string, projectMilestoneName: Option<string>,
                                               cycleName: Option<string>, projectName: Option<string>,
                                               time: Option<TimeWindow>)

  /** The part of Linear's `IssueFilter` that `buildFilter` fills in: one comparator per field. */
  datatype IssueFilter = IssueFilter(teamNameEqIgnoreCase: string, projectNameEq: Option<string>,
                                     projectMilestoneNameEq: Option<string>, cycleNameEq: Option<string>,
                                     startedAtGte: Option<Time>, completedAtLte: Option<Time>)

  // ------------------------------------------------------------ URI grammar

  /** An optional `keyword/value` pair at the front of the remaining segments. */
  function Segment(parts: seq<string>, keyword: string): (r: (Option<string>, seq<string>))
    ensures r.0.Some? <==> |parts| >= 2 && EqualsIgnoringCase(parts[0], keyword) && parts[1] != ""
    ensures r.0.Some? ==> r.0.value == parts[1] && r.1 == parts[2..]
    ensures r.0.None? ==> r.1 == parts
  {
    if |parts| >= 2 && EqualsIgnoringCase(parts[0], keyword) && parts[1] != "" then (Some(parts[1]), parts[2..])
    else (None, parts)
  }

  /** `parseWorkBucketURI`: REGEX_WORKBUCKETURI matched against the whole (single-line) URI, the
      keywords in any letter case, each captured value a non-empty run of characters other than `/`. */
  function ParseWorkBucketURI(workBucketURI: string): (r: Result<WorkBucketFilter>)
    ensures r.Err? ==> r.message == InvalidURI
    ensures r.Ok? ==> r.value.time.None? && r.value.teamName != ""
  {
    ParseSegments(Split(workBucketURI, '/'))
  }

  /** The regex match on the `/`-separated segments: `team/T`, then the optional pairs in order. */
  function ParseSegments(parts: seq<string>): (r: Result<WorkBucketFilter>)
    ensures r.Err? ==> r.message == InvalidURI
    ensures r.Ok? ==> r.value.time.None? && r.value.teamName != ""
  {
    if |parts| < 2 || !EqualsIgnoringCase(parts[0], "team") || parts[1] == "" then Err(InvalidURI)
    else
      var cycle := Segment(parts[2..], "cycle");
      var project := Segment(cycle.1, "project");
      var milestone := if project.0.Some? then Segment(project.1, "milestone") else (None, project.1);
      if milestone.1 == [] then Ok(WorkBucketFilter(parts[1], milestone.0, cycle.0, project.0, None))
      else Err(InvalidURI)
  }

  /** A URI segment value the regex can capture. */
  predicate IsValue(s: string) {
    s != "" && '/' !in s
  }

  predicate IsOptionalValue(s: Option<string>) {
    s.Some? ==> IsValue(s.value)
  }

  /** The filters `parseWorkBucketURI` can return. */
  predicate WellFormed(f: WorkBucketFilter) {
    IsValue(f.teamName) && IsOptionalValue(f.cycleName) && IsOptionalValue(f.projectName)
    && IsOptionalValue(f.projectMilestoneName)
    && (f.projectMilestoneName.Some? ==> f.projectName.Some?)
    && f.time.None?
  }

  /** How the four keywords of a URI are spelled. */
  datatype Keywords = Keywords(team: string, cycle: string, project: string, milestone: string)

  predicate ValidSpelling(k: Keywords) {
    EqualsIgnoringCase(k.team, "team") && EqualsIgnoringCase(k.cycle, "cycle")
    && EqualsIgnoringCase(k.project, "project") && EqualsIgnoringCase(k.milestone, "milestone")
  }

  function OptionalPair(keyword: string, value: Option<string>): seq<string> {
    if value.Some? then [keyword, value.value] else []
  }

  /** The `/`-separated segments of the URI denoting `f`. */
  function Segments(f: WorkBucketFilter, k: Keywords): seq<string> {
    [k.team, f.teamName] + OptionalPair(k.cycle, f.cycleName) + OptionalPair(k.project, f.projectName)
    + (if f.projectName.Some? then OptionalPair(k.milestone, f.projectMilestoneName) else [])
  }

  /** The URI denoting `f`, with the keywords spelled as in `k`. */
  function Render(f: WorkBucketFilter, k: Keywords): string {
    Join(Segments(f, k), '/')
  }

  /** A case variant of a keyword holds no `/`. */
  lemma KeywordHasNoSlash(s: string, keyword: string)
    requires EqualsIgnoringCase(s, keyword) && '/' !in keyword
    ensures '/' !in s
  {
    forall i | 0 <= i < |s|
      ensures s[i] != '/'
    {
      assert ToLowerChar(s[i]) == ToLowerChar(keyword[i]);
    }
  }

  /** An optional pair spelled with a variant of `keyword` is read back by `Segment`, provided an
      absent pair is not followed by one. */
  lemma SegmentOfPair(spelled: string, value: Option<string>, rest: seq<string>, keyword: string)
    requires EqualsIgnoringCase(spelled, keyword) && IsOptionalValue(value)
    requires value.None? ==> !(|rest| >= 2 && EqualsIgnoringCase(rest[0], keyword) && rest[1] != "")
    ensures Segment(OptionalPair(spelled, value) + rest, keyword) == (value, rest)
  {
    var p := OptionalPair(spelled, value) + rest;
    if value.Some? {
      assert p[0] == spelled && p[1] == value.value && p[2..] == rest;
    } else {
      assert p == rest;
    }
  }

  /** The segments of a well-formed filter, in any keyword spelling, match as that filter. */
  lemma ParseSegmentsOf(f: WorkBucketFilter, k: Keywords)
    requires WellFormed(f) && ValidSpelling(k)
    ensures ParseSegments(Segments(f, k)) == Ok(f)
  {
    var tail := if f.projectName.Some? then OptionalPair(k.milestone, f.projectMilestoneName) else [];
    var afterCycle := OptionalPair(k.project, f.projectName) + tail;
    var parts := Segments(f, k);
    assert parts == [k.team, f.teamName] + (OptionalPair(k.cycle, f.cycleName) + afterCycle);
    assert parts[2..] == OptionalPair(k.cycle, f.cycleName) + afterCycle;
    if f.projectName.Some? {
      SegmentOfPair(k.milestone, f.projectMilestoneName, [], "milestone");
      assert tail == OptionalPair(k.milestone, f.projectMilestoneName) + [];
    }
    SegmentOfPair(k.project, f.projectName, tail, "project");
    SegmentOfPair(k.cycle, f.cycleName, afterCycle, "cycle");
  }

  /** Every well-formed filter is denoted by a URI, the one `Render` gives, in any keyword spelling. */
  lemma ParseRender(f: WorkBucketFilter, k: Keywords)
    requires WellFormed(f) && ValidSpelling(k)
    ensures ParseWorkBucketURI(Render(f, k)) == Ok(f)
  {
    var parts := Segments(f, k);
    KeywordHasNoSlash(k.team, "team");
    KeywordHasNoSlash(k.cycle, "cycle");
    KeywordHasNoSlash(k.project, "project");
    KeywordHasNoSlash(k.milestone, "milestone");
    assert forall i :: 0 <= i < |parts| ==> '/' !in parts[i];
    SplitJoin(parts, '/');
    ParseSegmentsOf(f, k);
  }

  /** The segments `Segment` consumes are the pair it returns, spelled as found. */
  lemma SegmentParts(parts: seq<string>, keyword: string)
    ensures var r := Segment(parts, keyword);
      parts == OptionalPair(if r.0.Some? then parts[0] else keyword, r.0) + r.1
      && (r.0.Some? ==> EqualsIgnoringCase(parts[0], keyword))
      && ((forall i :: 0 <= i < |parts| ==> '/' !in parts[i]) ==> IsOptionalValue(r.0))
  {
    if Segment(parts, keyword).0.Some? {
      assert parts == [parts[0], parts[1]] + parts[2..];
    }
  }

  /** What the match returns for segments that match, and the keyword spelling they use. */
  lemma MatchedSegments(parts: seq<string>) returns (k: Keywords)
    requires ParseSegments(parts).Ok?
    ensures ValidSpelling(k) && Segments(ParseSegments(parts).value, k) == parts
  {
    var f := ParseSegments(parts).value;
    var cycle := Segment(parts[2..], "cycle");
    var project := Segment(cycle.1, "project");
    SegmentParts(parts[2..], "cycle");
    SegmentParts(cycle.1, "project");
    var kc := if cycle.0.Some? then parts[2] else "cycle";
    var kp := if project.0.Some? then cycle.1[0] else "project";
    var km := "milestone";
    var tail: seq<string> := [];
    if project.0.Some? {
      SegmentParts(project.1, "milestone");
      km := if Segment(project.1, "milestone").0.Some? then project.1[0] else "milestone";
      tail := OptionalPair(km, f.projectMilestoneName);
    }
    assert project.1 == tail;
    k := Keywords(parts[0], kc, kp, km);
    var head, c, p := [parts[0], parts[1]], OptionalPair(kc, f.cycleName), OptionalPair(kp, f.projectName);
    assert parts[2..] == c + (p + tail);
    assert parts == head + parts[2..];
    assert (if f.projectName.Some? then OptionalPair(k.milestone, f.projectMilestoneName) else []) == tail;
    assert Segments(f, k) == head + c + p + tail;
    AppendAssoc(head, c, p, tail);
  }

  lemma AppendAssoc(a: seq<string>, b: seq<string>, c: seq<string>, d: seq<string>)
    ensures a + b + c + d == a + (b + (c + d))
  {
  }

  /** What `parseWorkBucketURI` returns for a URI that parses, and the segments it read. */
  lemma ParsedSegments(workBucketURI: string) returns (k: Keywords)
    requires ParseWorkBucketURI(workBucketURI).Ok?
    ensures var f := ParseWorkBucketURI(workBucketURI).value;
      ValidSpelling(k) && Segments(f, k) == Split(workBucketURI, '/')
  {
    k := MatchedSegments(Split(workBucketURI, '/'));
  }

  /** Every filter `parseWorkBucketURI` returns is well formed. */
  lemma ParseWellFormed(workBucketURI: string)
    requires ParseWorkBucketURI(workBucketURI).Ok?
    ensures WellFormed(ParseWorkBucketURI(workBucketURI).value)
  {
    var parts := Split(workBucketURI, '/');
    var cycle := Segment(parts[2..], "cycle");
    var project := Segment(cycle.1, "project");
    assert forall i :: 0 <= i < |parts[2..]| ==> '/' !in parts[2..][i] by {
      forall i | 0 <= i < |parts[2..]| ensures '/' !in parts[2..][i] {
        assert parts[2..][i] == parts[i + 2];
      }
    }
    SegmentParts(parts[2..], "cycle");
    assert forall i :: 0 <= i < |cycle.1| ==> '/' !in cycle.1[i];
    SegmentParts(cycle.1, "project");
    assert forall i :: 0 <= i < |project.1| ==> '/' !in project.1[i];
    SegmentParts(project.1, "milestone");
  }

  /** Every URI that parses denotes the filter it parses to. */
  lemma ParseComplete(workBucketURI: string)
    requires ParseWorkBucketURI(workBucketURI).Ok?
    ensures var f := ParseWorkBucketURI(workBucketURI).value;
      WellFormed(f) && exists k :: ValidSpelling(k) && Render(f, k) == workBucketURI
  {
    ParseWellFormed(workBucketURI);
    var k := ParsedSegments(workBucketURI);
    JoinSplit(workBucketURI, '/');
    assert Render(ParseWorkBucketURI(workBucketURI).value, k) == workBucketURI;
  }

  // ------------------------------------------------------------- the filter

  /** A string property that JavaScript treats as true: present and non-empty. */
  predicate Truthy(s: Option<string>) {
    s.Some? && s.value != ""
  }

  /** `buildFilter(config)`. */
  function BuildFilter(config: WorkBucketFilter): (f: IssueFilter)
    ensures f.teamNameEqIgnoreCase == config.teamName
    ensures f.projectNameEq.Some? <==> Truthy(config.projectName)
    ensures f.projectMilestoneNameEq.Some? <==> Truthy(config.projectName) && Truthy(config.projectMilestoneName)
    ensures f.cycleNameEq.Some? <==> Truthy(config.cycleName)
    ensures f.startedAtGte.Some? <==> config.time.Some? && config.time.value.from.Some?
    ensures f.completedAtLte.Some? <==> config.time.Some? && config.time.value.to.Some?
    ensures f.projectNameEq.Some? ==> f.projectNameEq == config.projectName
    ensures f.projectMilestoneNameEq.Some? ==> f.projectMilestoneNameEq == config.projectMilestoneName
    ensures f.cycleNameEq.Some? ==> f.cycleNameEq == config.cycleName
    ensures f.startedAtGte.Some? ==> f.startedAtGte == config.time.value.from
    ensures f.completedAtLte.Some? ==> f.completedAtLte == config.time.value.to
  {
    var project := if Truthy(config.projectName) then config.projectName else None;
    var milestone := if Truthy(config.projectName) && Truthy(config.projectMilestoneName)
                     then config.projectMilestoneName else None;
    var cycle := if Truthy(config.cycleName) then config.cycleName else None;
    var gte := if config.time.Some? then config.time.value.from else None;
    var lte := if config.time.Some? then config.time.value.to else None;
    IssueFilter(config.teamName, project, milestone, cycle, gte, lte)
  }

  /** The filter `GetWorkBucket` sends for a URI that parses: a time window only when a date is given. */
  function BucketFilter(config: WorkBucketFilter, startDate: Option<Time>, endDate: Option<Time>): IssueFilter {
    var withTime := if startDate.Some? || endDate.Some? then config.(time := Some(TimeWindow(startDate, endDate)))
                    else config;
    BuildFilter(withTime)
  }

  /** The issue filter of a URI: exactly the segments it names, and the dates given. */
  lemma FilterOfURI(f: WorkBucketFilter, k: Keywords, startDate: Option<Time>, endDate: Option<Time>)
    requires WellFormed(f) && ValidSpelling(k)
    ensures ParseWorkBucketURI(Render(f, k)).Ok?
    ensures var q := BucketFilter(ParseWorkBucketURI(Render(f, k)).value, startDate, endDate);
      q == IssueFilter(f.teamName, f.projectName, f.projectMilestoneName, f.cycleName, startDate, endDate)
  {
    ParseRender(f, k);
  }

  // ------------------------------------------------------------- the fold

  /** An issue node as the SDK returns it. */
  datatype Issue = Issue(id: string, title: string, estimate: Option<int>, createdAt: Time,
                         startedAt: Option<Time>, completedAt: Option<Time>, assigneeId: Option<string>)

  datatype LinearUser = LinearUser(id: string, email: string, name: string)

  /** `node["_assignee"]?.id`, where the empty string, like `undefined`, means "no assignee". */
  function AssigneeId(issue: Issue): string {
    issue.assigneeId.GetOr("")
  }

  /** The keys of `userEmployeeMap` after the issues, in insertion order. */
  function DistinctAssignees(issues: seq<Issue>): (ids: seq<string>)
    ensures forall x :: x in ids <==> x != "" && exists k :: 0 <= k < |issues| && AssigneeId(issues[k]) == x
    ensures Distinct(ids)
  {
    if issues == [] then []
    else
      var ids := DistinctAssignees(issues[..|issues| - 1]);
      var x := AssigneeId(issues[|issues| - 1]);
      assert forall k :: 0 <= k < |issues| - 1 ==> issues[..|issues| - 1][k] == issues[k];
      if x != "" && x !in ids then ids + [x] else ids
  }

  predicate Distinct(ids: seq<string>) {
    forall i, j :: 0 <= i < j < |ids| ==> ids[i] != ids[j]
  }

  /** The last user record with id `id`, as the users loop leaves it. */
  function LastUser(users: seq<LinearUser>, id: string): (u: Option<LinearUser>)
    ensures u.Some? ==> u.value.id == id && u.value in users
    ensures u.None? <==> forall i :: 0 <= i < |users| ==> users[i].id != id
  {
    if users == [] then None
    else if users[|users| - 1].id == id then Some(users[|users| - 1])
    else LastUser(users[..|users| - 1], id)
  }

  /** The task built from an issue, assigned to `assignee`. */
  function TaskOf(issue: Issue, assignee: Option<Employee>): (t: Task)
    ensures t.id == issue.id && t.title == issue.title && t.estimation == issue.estimate
    ensures t.createdAt == issue.createdAt && t.startedAt == issue.startedAt && t.doneAt == issue.completedAt
    ensures t.assignedTo == assignee
  {
    Task(issue.id, issue.title, issue.estimate, issue.createdAt, issue.startedAt, issue.completedAt, assignee)
  }

  /** The employee record `userEmployeeMap` holds for the issue's assignee, if any. */
  function AssigneeIn(userEmployeeMap: map<string, Employee>, issue: Issue): Option<Employee> {
    if AssigneeId(issue) != "" && AssigneeId(issue) in userEmployeeMap then Some(userEmployeeMap[AssigneeId(issue)])
    else None
  }

  /** The pure part of the issue loop's state after `nodes`: the map's keys in insertion order, and
      one task per issue assigned to the record of its assignee id. */
  ghost predicate Folded(nodes: seq<Issue>, tasks: seq<Task>, userEmployeeMap: map<string, Employee>, ids: seq<string>) {
    ids == DistinctAssignees(nodes)
    && (forall x :: x in userEmployeeMap <==> x in ids)
    && |tasks| == |nodes|
    && (forall j :: 0 <= j < |nodes| ==> tasks[j] == TaskOf(nodes[j], AssigneeIn(userEmployeeMap, nodes[j])))
    && (forall j :: 0 <= j < |nodes| ==> (AssigneeIn(userEmployeeMap, nodes[j]).Some? <==> AssigneeId(nodes[j]) != ""))
  }

  /** One issue of the loop: no record for an empty assignee id, the known record for a known id, and
      a new record, stored under the new id, otherwise. */
  lemma FoldedStep(nodes: seq<Issue>, tasks: seq<Task>, userEmployeeMap: map<string, Employee>, ids: seq<string>,
                   issue: Issue, assignee: Option<Employee>, nextMap: map<string, Employee>, nextIds: seq<string>)
    requires Folded(nodes, tasks, userEmployeeMap, ids)
    requires var x := AssigneeId(issue);
      if x == "" then assignee.None? && nextMap == userEmployeeMap && nextIds == ids
      else if x in userEmployeeMap then assignee == Some(userEmployeeMap[x]) && nextMap == userEmployeeMap && nextIds == ids
      else assignee.Some? && nextMap == userEmployeeMap[x := assignee.value] && nextIds == ids + [x]
    ensures Folded(nodes + [issue], tasks + [TaskOf(issue, assignee)], nextMap, nextIds)
  {
    var more := nodes + [issue];
    var moreTasks := tasks + [TaskOf(issue, assignee)];
    assert more[..|nodes|] == nodes;
    assert DistinctAssignees(more) == nextIds;
    AssigneesKept(nodes, userEmployeeMap, nextMap);
    forall j | 0 <= j < |more|
      ensures moreTasks[j] == TaskOf(more[j], AssigneeIn(nextMap, more[j]))
      ensures AssigneeIn(nextMap, more[j]).Some? <==> AssigneeId(more[j]) != ""
    {
      if j < |nodes| {
        assert more[j] == nodes[j] && moreTasks[j] == tasks[j];
      }
    }
  }

  /** A larger map gives every issue already folded the record it had. */
  lemma AssigneesKept(nodes: seq<Issue>, userEmployeeMap: map<string, Employee>, nextMap: map<string, Employee>)
    requires forall x :: x in userEmployeeMap ==> x in nextMap && nextMap[x] == userEmployeeMap[x]
    requires forall j :: 0 <= j < |nodes| ==> (AssigneeIn(userEmployeeMap, nodes[j]).Some? <==> AssigneeId(nodes[j]) != "")
    ensures forall j :: 0 <= j < |nodes| ==> AssigneeIn(nextMap, nodes[j]) == AssigneeIn(userEmployeeMap, nodes[j])
  {
  }

  /** The issue loop of `GetWorkBucket`: one task per issue, one new employee record per assignee id. */
  method CollectTasks(nodes: seq<Issue>) returns (tasks: seq<Task>, userEmployeeMap: map<string, Employee>, ids: seq<string>)
    ensures Folded(nodes, tasks, userEmployeeMap, ids)
    ensures forall x :: x in userEmployeeMap ==>
      var e := userEmployeeMap[x];
      fresh(e) && e.id == x && e.email == "" && e.name.None? && e.timeOff.None? && e.country.None? && e.tasks.None?
    ensures forall x, y :: x in userEmployeeMap && y in userEmployeeMap && x != y ==> userEmployeeMap[x] != userEmployeeMap[y]
  {
    userEmployeeMap := map[];
    ids := [];
    tasks := [];
    for k := 0 to |nodes|
      invariant Folded(nodes[..k], tasks, userEmployeeMap, ids)
      invariant forall x :: x in userEmployeeMap ==>
        var e := userEmployeeMap[x];
        fresh(e) && e.id == x && e.email == "" && e.name.None? && e.timeOff.None? && e.country.None? && e.tasks.None?
      invariant forall x, y :: x in userEmployeeMap && y in userEmployeeMap && x != y ==>
        userEmployeeMap[x] != userEmployeeMap[y]
    {
      assert nodes[..k + 1] == nodes[..k] + [nodes[k]];
      var userId := AssigneeId(nodes[k]);
      var employee: Option<Employee> := None;
      ghost var (before, beforeIds) := (userEmployeeMap, ids);
      if userId != "" {
        if userId in userEmployeeMap {
          employee := Some(userEmployeeMap[userId]);
        } else {
          var created := new Employee(userId, "");
          userEmployeeMap := userEmployeeMap[userId := created];
          ids := ids + [userId];
          employee := Some(created);
        }
      }
      FoldedStep(nodes[..k], tasks, before, beforeIds, nodes[k], employee, userEmployeeMap, ids);
      tasks := tasks + [TaskOf(nodes[k], employee)];
    }
    assert nodes[..|nodes|] == nodes;
  }

  /** The users loop of `GetWorkBucket`: each record found copies its e-mail and name to the employee
      with its id; a later record for the same id wins. */
  method ApplyUsers(userEmployeeMap: map<string, Employee>, found: seq<LinearUser>)
    requires forall x, y :: x in userEmployeeMap && y in userEmployeeMap && x != y ==> userEmployeeMap[x] != userEmployeeMap[y]
    modifies userEmployeeMap.Values
    ensures forall x :: x in userEmployeeMap ==>
      var e := userEmployeeMap[x];
      e.id == old(e.id) && e.timeOff == old(e.timeOff) && e.country == old(e.country) && e.tasks == old(e.tasks)
      && e.email == (if LastUser(found, x).Some? then LastUser(found, x).value.email else old(e.email))
      && e.name == (if LastUser(found, x).Some? then Some(LastUser(found, x).value.name) else old(e.name))
  {
    for u := 0 to |found|
      invariant forall x :: x in userEmployeeMap ==>
        var e := userEmployeeMap[x];
        e.id == old(e.id) && e.timeOff == old(e.timeOff) && e.country == old(e.country) && e.tasks == old(e.tasks)
        && e.email == (if LastUser(found[..u], x).Some? then LastUser(found[..u], x).value.email else old(e.email))
        && e.name == (if LastUser(found[..u], x).Some? then Some(LastUser(found[..u], x).value.name) else old(e.name))
    {
      assert found[..u + 1][..u] == found[..u];
      var user := found[u];
      if user.id in userEmployeeMap {
        var employee := userEmployeeMap[user.id];
        employee.email := user.email;
        employee.name := Some(user.name);
      }
    }
    assert found[..|found|] == found;
  }

  /** `GetWorkBucket(workBucketURI, startDate, endDate)`; the bucket's random identifier is `bucketId`,
      the issue pages of a filter joined are `issues(filter)`, and the user pages for a list of ids
      joined are `users(ids)`. */
  method GetWorkBucket(workBucketURI: string, startDate: Option<Time>, endDate: Option<Time>, bucketId: string,
                       issues: IssueFilter -> seq<Issue>, users: seq<string> -> seq<LinearUser>)
    returns (r: Result<WorkBucket>)
    ensures workBucketURI == "" ==> r == Err(MandatoryURI)
    ensures workBucketURI != "" && ParseWorkBucketURI(workBucketURI).Err? ==> r == Err(InvalidURI)
    ensures r.Ok? <==> workBucketURI != "" && ParseWorkBucketURI(workBucketURI).Ok?
    ensures r.Ok? ==>
      var nodes := issues(BucketFilter(ParseWorkBucketURI(workBucketURI).value, startDate, endDate));
      var found := users(DistinctAssignees(nodes));
      var tasks := r.value.tasks;
      r.value.id == bucketId && r.value.name == "" && |tasks| == |nodes|
      && (forall k :: 0 <= k < |tasks| ==>
            tasks[k] == TaskOf(nodes[k], tasks[k].assignedTo)
            && (tasks[k].assignedTo.Some? <==> AssigneeId(nodes[k]) != ""))
      && (forall k, j :: 0 <= k < |tasks| && 0 <= j < |tasks| && tasks[k].assignedTo.Some? && tasks[j].assignedTo.Some? ==>
            (tasks[k].assignedTo == tasks[j].assignedTo <==> AssigneeId(nodes[k]) == AssigneeId(nodes[j])))
      && (forall k :: 0 <= k < |tasks| && tasks[k].assignedTo.Some? ==>
            var e := tasks[k].assignedTo.value;
            fresh(e) && e.id == AssigneeId(nodes[k])
            && e.email == (if LastUser(found, e.id).Some? then LastUser(found, e.id).value.email else "")
            && e.name == (if LastUser(found, e.id).Some? then Some(LastUser(found, e.id).value.name) else None)
            && e.timeOff.None? && e.country.None? && e.tasks.None?)
  {
    if workBucketURI == "" {
      return Err(MandatoryURI);
    }
    var parsed := ParseWorkBucketURI(workBucketURI);
    if parsed.Err? {
      return Err(InvalidURI);
    }
    var nodes := issues(BucketFilter(parsed.value, startDate, endDate));
    var tasks, userEmployeeMap, ids := CollectTasks(nodes);
    ApplyUsers(userEmployeeMap, users(ids));
    return Ok(WorkBucket(bucketId, "", tasks));
  }
}
