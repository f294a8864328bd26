/** `availableWorkers`: the active employees linked to an active worker user
    who have no assignment on the requested date, in collection order, with
    a dash for a missing or empty trade or employee code. */
module Availability {
  import opened Seqs
  import opened Records
  import BulkAssignment

  /** One entry of the answer. `fullName` is passed through unchanged. */
  datatype AvailableWorker = AvailableWorker(
    id: int,
    fullName: Option<string>,
    trade: string,
    employeeCode: string,
    userId: int)

  /** The answer: HTTP 400 when the date is missing, otherwise the list. */
  datatype AvailabilityResult =
    | Invalid(message: string)
    | Workers(data: seq<AvailableWorker>)

  const DateRequiredMessage: string := "Date is required"

  /** Some company user with this user id is an active worker. */
  predicate IsWorkerUser(users: seq<CompanyUser>, userId: int) {
    exists c :: c in users && c.role == WorkerRole && c.status == Active && c.userId == userId
  }

  /** What makes an employee available on `date`. */
  predicate Available(e: Employee, users: seq<CompanyUser>, rows: seq<Assignment>, date: Date) {
    e.status == Active && IsWorkerUser(users, e.userId) && !AssignedOn(rows, e.id, date)
  }

  /** The fields sent for one worker, with `||` defaults. */
  function Present(e: Employee): AvailableWorker {
    AvailableWorker(e.id, e.fullName, OrDash(e.trade), OrDash(e.employeeCode), e.userId)
  }

  /** Step 1: the distinct user ids of active worker users. */
  function WorkerUserIds(users: seq<CompanyUser>): (ids: set<int>)
    ensures forall u :: u in ids <==> IsWorkerUser(users, u)
  {
    set c | c in users && c.role == WorkerRole && c.status == Active :: c.userId
  }

  /** Step 2: active employees whose user id is among `userIds`. */
  function WorkerEmployees(employees: seq<Employee>, userIds: set<int>): seq<Employee> {
    Filter(employees, (e: Employee) => e.status == Active && e.userId in userIds)
  }

  /** Step 3: the distinct employee ids among `ids` with a row on `date`. */
  function AssignedIds(rows: seq<Assignment>, date: Date, ids: set<int>): set<int> {
    set r | r in rows && r.date == date && r.employeeId in ids :: r.employeeId
  }

  /** Step 4: the workers whose id is not in `booked`. */
  function Unassigned(workers: seq<Employee>, booked: set<int>): seq<Employee> {
    Filter(workers, (w: Employee) => w.id !in booked)
  }

  /** The whole handler. */
  function AvailableWorkers(users: seq<CompanyUser>, employees: seq<Employee>,
                            rows: seq<Assignment>, date: Option<Date>): (r: AvailabilityResult)
    ensures r.Invalid? <==> date.None?
    ensures r.Invalid? ==> r.message == DateRequiredMessage
    ensures r.Workers? ==> forall w :: w in r.data ==>
              exists e :: e in employees && Available(e, users, rows, date.value) && w == Present(e)
    ensures r.Workers? ==> forall e :: e in employees && Available(e, users, rows, date.value) ==>
              Present(e) in r.data
  {
    if date.None? then Invalid(DateRequiredMessage)
    else
      var userIds := WorkerUserIds(users);
      if |userIds| == 0 then
        assert forall e :: e in employees ==> !IsWorkerUser(users, e.userId);
        Workers([])
      else
        var all := WorkerEmployees(employees, userIds);
        if |all| == 0 then
          assert forall e :: e in employees && e.status == Active ==> e.userId !in userIds by {
            forall e | e in employees && e.status == Active ensures e.userId !in userIds {
              assert e !in all;
            }
          }
          Workers([])
        else
          var allIds := set e | e in all :: e.id;
          var booked := AssignedIds(rows, date.value, allIds);
          AssignedIdsSpec(rows, date.value, all, allIds, booked);
          Workers(MapSeq(Unassigned(all, booked), Present))
  }

  /** Among the candidate workers, membership in step 3's set is exactly
      having a row on the date. */
  lemma AssignedIdsSpec(rows: seq<Assignment>, date: Date, all: seq<Employee>,
                        allIds: set<int>, booked: set<int>)
    requires allIds == set e | e in all :: e.id
    requires booked == AssignedIds(rows, date, allIds)
    ensures forall e :: e in all ==> (e.id in booked <==> AssignedOn(rows, e.id, date))
  {
    forall e | e in all ensures e.id in booked <==> AssignedOn(rows, e.id, date) {
      assert e.id in allIds;
      if AssignedOn(rows, e.id, date) {
        var r :| r in rows && r.employeeId == e.id && r.date == date;
        assert r.employeeId in booked;
      }
    }
  }

  // ---------------------------------------------------------------------
  // A reference definition, one employee at a time.

  /** The available workers, defined by a single pass over the employees. */
  function ExpectedAvailable(employees: seq<Employee>, users: seq<CompanyUser>,
                             rows: seq<Assignment>, date: Date): seq<AvailableWorker>
  {
    if employees == [] then []
    else
      var rest := ExpectedAvailable(employees[1..], users, rows, date);
      if Available(employees[0], users, rows, date) then [Present(employees[0])] + rest else rest
  }

  lemma {:induction false} ExpectedEmptyWhenNoneAvailable(employees: seq<Employee>, users: seq<CompanyUser>,
                                                        rows: seq<Assignment>, date: Date)
    requires forall e :: e in employees ==> !Available(e, users, rows, date)
    ensures ExpectedAvailable(employees, users, rows, date) == []
  {
    if employees != [] {
      assert employees[0] in employees;
      ExpectedEmptyWhenNoneAvailable(employees[1..], users, rows, date);
    }
  }

  lemma WorkerEmployeesCons(employees: seq<Employee>, userIds: set<int>)
    requires employees != []
    ensures WorkerEmployees(employees, userIds) ==
              (if employees[0].status == Active && employees[0].userId in userIds
               then [employees[0]] else []) + WorkerEmployees(employees[1..], userIds)
  {
  }

  lemma UnassignedCons(workers: seq<Employee>, booked: set<int>)
    requires workers != []
    ensures Unassigned(workers, booked) ==
              (if workers[0].id !in booked then [workers[0]] else []) + Unassigned(workers[1..], booked)
  {
  }

  /** Steps 2, 4 and 5 over any employee list agree with the reference,
      whatever set stands for step 3 as long as it is right about every
      candidate worker. */
  lemma {:induction false} PipelineMatchesReference(employees: seq<Employee>, users: seq<CompanyUser>,
                                                  rows: seq<Assignment>, date: Date, booked: set<int>)
    requires forall e :: e in WorkerEmployees(employees, WorkerUserIds(users)) ==>
               (e.id in booked <==> AssignedOn(rows, e.id, date))
    ensures MapSeq(Unassigned(WorkerEmployees(employees, WorkerUserIds(users)), booked), Present) ==
              ExpectedAvailable(employees, users, rows, date)
  {
    var userIds := WorkerUserIds(users);
    if employees != [] {
      var e := employees[0];
      var tail := employees[1..];
      var all := WorkerEmployees(employees, userIds);
      var allTail := WorkerEmployees(tail, userIds);
      WorkerEmployeesCons(employees, userIds);
      assert forall x :: x in allTail ==> x in all;
      PipelineMatchesReference(tail, users, rows, date, booked);
      var rest := MapSeq(Unassigned(allTail, booked), Present);
      assert rest == ExpectedAvailable(tail, users, rows, date);
      if e.status == Active && e.userId in userIds {
        assert all == [e] + allTail;
        UnassignedCons(all, booked);
        assert all[1..] == allTail;
        assert e in all;
        if e.id !in booked {
          MapSeqCons(e, Unassigned(allTail, booked), Present);
        }
      } else {
        assert all == allTail;
      }
    }
  }

  /** With a date, the handler's answer is exactly the reference list, in
      collection order; the two early returns change nothing. */
  lemma AvailableMatchesReference(users: seq<CompanyUser>, employees: seq<Employee>,
                                  rows: seq<Assignment>, date: Date)
    ensures AvailableWorkers(users, employees, rows, Some(date)) ==
              Workers(ExpectedAvailable(employees, users, rows, date))
  {
    var userIds := WorkerUserIds(users);
    var all := WorkerEmployees(employees, userIds);
    forall e | e in employees && Available(e, users, rows, date) ensures e in all {
      assert e.userId in userIds;
    }
    if |userIds| == 0 || |all| == 0 {
      ExpectedEmptyWhenNoneAvailable(employees, users, rows, date);
    } else {
      var allIds := set e | e in all :: e.id;
      var booked := AssignedIds(rows, date, allIds);
      AssignedIdsSpec(rows, date, all, allIds, booked);
      PipelineMatchesReference(employees, users, rows, date, booked);
    }
  }

  // ---------------------------------------------------------------------
  // Availability against bulk assignment.

  /** Once a batch is booked, none of its employees is available on its
      date. */
  lemma AssignedAreUnavailable(rows: seq<Assignment>, employees: seq<Employee>,
                               projects: seq<Project>, req: BulkAssignment.BulkRequest,
                               users: seq<CompanyUser>)
    requires BulkAssignment.Assign(rows, employees, projects, req).result.Assigned?
    ensures req.date.Some?
    ensures var after := BulkAssignment.Assign(rows, employees, projects, req).rows;
            forall w :: w in AvailableWorkers(users, employees, after, req.date).data ==>
              w.id !in req.employeeIds
  {
    var after := BulkAssignment.Assign(rows, employees, projects, req).rows;
    BulkAssignment.AssignedAppendsBatch(rows, employees, projects, req);
    var d := req.date.value;
    forall k | 0 <= k < |req.employeeIds| ensures AssignedOn(after, req.employeeIds[k], d) {
      BulkAssignment.AssignedRowContents(rows, employees, projects, req, k);
      assert after[|rows| + k] in after;
    }
    forall w | w in AvailableWorkers(users, employees, after, req.date).data
      ensures w.id !in req.employeeIds
    {
      var e :| e in employees && Available(e, users, after, d) && w == Present(e);
    }
  }

  /** An assignment changes no one else's availability, on any date. */
  lemma AssignLeavesOthersAlone(rows: seq<Assignment>, employees: seq<Employee>,
                                projects: seq<Project>, req: BulkAssignment.BulkRequest,
                                users: seq<CompanyUser>, e: Employee, date: Date)
    requires e.id !in req.employeeIds
    ensures Available(e, users, BulkAssignment.Assign(rows, employees, projects, req).rows, date) ==
              Available(e, users, rows, date)
  {
    var o := BulkAssignment.Assign(rows, employees, projects, req);
    if o.result.Assigned? {
      BulkAssignment.AssignedAppendsBatch(rows, employees, projects, req);
      if AssignedOn(o.rows, e.id, date) {
        var r :| r in o.rows && r.employeeId == e.id && r.date == date;
        var i :| 0 <= i < |o.rows| && o.rows[i] == r;
        if i >= |rows| {
          BulkAssignment.AssignedRowContents(rows, employees, projects, req, i - |rows|);
        } else {
          assert o.rows[..|rows|][i] == r;
        }
      }
      if AssignedOn(rows, e.id, date) {
        var r :| r in rows && r.employeeId == e.id && r.date == date;
        assert r in o.rows[..|rows|];
      }
    }
  }
}
