/**
 * The data shapes of src/backend/model: employees are objects that the
 * aggregation and the integrations update in place and that tasks share by
 * reference; tasks, holidays, time off and statistics are values.
 */
module Model {
  import opened Wrappers
  import opened Calendar

  /** The countries the code names; the enum's other members (if any) are not part of this model. */
  datatype Country = Undefined | Portugal | UnitedStates

  /** One day, or part of one, that an employee was away. */
  datatype TimeOff = TimeOff(date: Time, quantity: real)

  datatype Holiday = Holiday(startDate: Time, endDate: Time, name: string, country: Country)

  /** `Employee`; `email` is the cross-source identity, `id` means different things per source. */
  class Employee {
    var id: string
    var email: string
    var name: Option<string>
    var timeOff: Option<seq<TimeOff>>
    var country: Option<Country>
    var tasks: Option<seq<Task>>

    /** The object literal `{ id, email }` with every optional property left undefined. */
    constructor (id: string, email: string)
      ensures this.id == id && this.email == email
      ensures name == None && timeOff == None && country == None && tasks == None
    {
      this.id, this.email := id, email;
      name, timeOff, country, tasks := None, None, None, None;
    }
  }

  /** `Task`: an estimation is a number of points, or undefined when the task was not estimated. */
  datatype Task = Task(id: string, title: string, estimation: Option<int>, createdAt: Time,
                       startedAt: Option<Time>, doneAt: Option<Time>, assignedTo: Option<Employee>)

  datatype WorkBucket = WorkBucket(id: string, name: string, tasks: seq<Task>)

  datatype DateRange = DateRange(start: Time, end: Time)

  /** A double-precision quotient of two integers, without rounding: a real number, or one of the
      values IEEE 754 division by zero yields. */
  datatype Quotient = Number(value: real) | NaN | PlusInfinity | MinusInfinity

  /** `points / workingDays` as JavaScript evaluates it. */
  function Divide(points: int, days: int): (q: Quotient)
    ensures q.Number? <==> days != 0
    ensures q.Number? ==> q.value * days as real == points as real
    ensures q == NaN <==> points == 0 && days == 0
    ensures q == PlusInfinity <==> points > 0 && days == 0
  {
    if days != 0 then Number(points as real / days as real)
    else if points == 0 then NaN
    else if points > 0 then PlusInfinity
    else MinusInfinity
  }

  datatype EmployeeStats = EmployeeStats(employee: Employee, workingDays: int, dateRange: DateRange,
                                         points: int, avgPointsPerWorkingDays: Quotient)

  datatype WorkBucketStats = WorkBucketStats(workBucket: WorkBucket, points: int, workingDays: int,
                                             employeeStats: seq<EmployeeStats>,
                                             avgPointsPerWorkingDays: Quotient, dateRange: DateRange)

  /** The employee objects the tasks are assigned to. */
  function Assignees(tasks: seq<Task>): set<Employee> {
    set k | 0 <= k < |tasks| && tasks[k].assignedTo.Some? :: tasks[k].assignedTo.value
  }
}
