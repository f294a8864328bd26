/** `bulkAssignWorkers`: validate a request, look up the project, reject the
    whole batch when any requested employee is already assigned on the date,
    otherwise append one row per employee with ids continuing from the
    current maximum. `Assign` is the specification the store's imperative
    `BulkAssign` method is proved against. */
module BulkAssignment {
  import opened Seqs
  import opened Records

  /** The request body; an absent `employeeIds` behaves as the empty list. */
  datatype BulkRequest = BulkRequest(
    projectId: Option<int>,
    supervisorId: Option<int>,
    vehicleId: Option<int>,
    date: Option<Date>,
    employeeIds: seq<int>)

  /** The four answers the handler gives (HTTP 400, 404, 400, 201). */
  datatype BulkResult =
    | Invalid(message: string)
    | ProjectNotFound
    | AlreadyAssigned(duplicates: seq<Option<string>>)
    | Assigned(count: nat, projectId: int, date: Date, supervisorId: int)

  /** A result together with the assignment collection it leaves behind. */
  datatype Outcome = Outcome(result: BulkResult, rows: seq<Assignment>)

  /** The fields every row of one batch shares. */
  datatype Template = Template(
    projectId: int,
    supervisorId: int,
    vehicleId: Option<int>,
    date: Date,
    companyId: int)

  const MissingFieldsMessage: string :=
    "Project ID, supervisor ID, and at least one employee ID are required"
  const MissingDateMessage: string := "Date is required (YYYY-MM-DD)"

  /** The first validation check: a falsy project or supervisor id, or no
      employee ids. */
  predicate MissingFields(req: BulkRequest) {
    Falsy(req.projectId) || Falsy(req.supervisorId) || |req.employeeIds| == 0
  }

  predicate Validated(req: BulkRequest) {
    !MissingFields(req) && req.date.Some?
  }

  /** `Project.findOne({ id })`. */
  function FindProject(projects: seq<Project>, id: int): (p: Option<Project>)
    ensures p.None? <==> forall q :: q in projects ==> q.id != id
    ensures p.Some? ==> p.value in projects && p.value.id == id
  {
    match FirstWhere(projects, (q: Project) => q.id == id)
    case None => None
    case Some(k) => Some(projects[k])
  }

  /** The rows the conflict query finds: an employee of the request already
      assigned on `date`. */
  function ConflictingRows(rows: seq<Assignment>, employeeIds: seq<int>, date: Date): (c: seq<Assignment>)
    ensures forall r :: r in c <==> r in rows && r.employeeId in employeeIds && r.date == date
  {
    Filter(rows, (r: Assignment) => r.employeeId in employeeIds && r.date == date)
  }

  /** `Employee.find({ id: { $in: ids } })` projected on `fullName`, in
      collection order. */
  function FullNames(employees: seq<Employee>, ids: set<int>): (names: seq<Option<string>>)
    ensures |names| <= |employees|
    ensures forall n :: n in names <==> exists e :: e in employees && e.id in ids && e.fullName == n
  {
    var found := Filter(employees, (e: Employee) => e.id in ids);
    var names := MapSeq(found, (e: Employee) => e.fullName);
    assert forall n :: n in names ==> exists k :: 0 <= k < |found| && names[k] == n;
    names
  }

  /** The largest id in the collection, or 0 when it is empty, so that the
      next id is `MaxId(rows) + 1` in both of the handler's cases
      (`findOne().sort({ id: -1 })`). */
  function MaxId(rows: seq<Assignment>): int {
    MaxIdOfFirst(rows, |rows|)
  }

  /** The largest id among the first `n` rows (0 when `n` is 0). */
  function MaxIdOfFirst(rows: seq<Assignment>, n: nat): int
    requires n <= |rows|
  {
    if n == 0 then 0
    else if n == 1 then rows[0].id
    else
      var rest := MaxIdOfFirst(rows, n - 1);
      if rows[n - 1].id >= rest then rows[n - 1].id else rest
  }

  lemma {:induction false} MaxIdOfFirstIsMaximum(rows: seq<Assignment>, n: nat)
    requires n <= |rows|
    ensures forall i :: 0 <= i < n ==> rows[i].id <= MaxIdOfFirst(rows, n)
    ensures n > 0 ==> exists i :: 0 <= i < n && rows[i].id == MaxIdOfFirst(rows, n)
  {
    if n == 1 {
      assert rows[0].id == MaxIdOfFirst(rows, n);
    } else if n > 1 {
      MaxIdOfFirstIsMaximum(rows, n - 1);
      var i :| 0 <= i < n - 1 && rows[i].id == MaxIdOfFirst(rows, n - 1);
      if rows[n - 1].id >= MaxIdOfFirst(rows, n - 1) {
        assert rows[n - 1].id == MaxIdOfFirst(rows, n);
      } else {
        assert rows[i].id == MaxIdOfFirst(rows, n);
      }
    }
  }

  /** `MaxId` is the largest id present, and 0 only for an empty collection. */
  lemma MaxIdIsMaximum(rows: seq<Assignment>)
    ensures forall r :: r in rows ==> r.id <= MaxId(rows)
    ensures rows != [] ==> exists r :: r in rows && r.id == MaxId(rows)
    ensures rows == [] ==> MaxId(rows) == 0
  {
    MaxIdOfFirstIsMaximum(rows, |rows|);
    if rows != [] {
      var i :| 0 <= i < |rows| && rows[i].id == MaxId(rows);
      assert rows[i] in rows;
    }
  }

  /** `vehicleId || null`. */
  function VehicleOrNull(v: Option<int>): Option<int> {
    if Falsy(v) then None else v
  }

  /** A row of the batch: the given id and employee, the template's project,
      supervisor, vehicle, date and company, and no task. */
  function NewRow(t: Template, id: int, employeeId: int): Assignment {
    Assignment(id, t.projectId, t.supervisorId, t.vehicleId, employeeId, None, t.date, t.companyId)
  }

  /** The rows built by the handler's `map`, numbering from `firstId`. */
  function NewRows(t: Template, firstId: int, employeeIds: seq<int>): (batch: seq<Assignment>)
    ensures |batch| == |employeeIds|
    ensures forall i :: 0 <= i < |batch| ==> batch[i] == NewRow(t, firstId + i, employeeIds[i])
  {
    seq(|employeeIds|, i requires 0 <= i < |employeeIds| => NewRow(t, firstId + i, employeeIds[i]))
  }

  /** The collection after `insertMany` of a batch numbered from the
      current maximum id plus one. */
  function Commit(rows: seq<Assignment>, t: Template, employeeIds: seq<int>): (after: seq<Assignment>)
    ensures |after| == |rows| + |employeeIds|
    ensures after[..|rows|] == rows
    ensures forall k :: |rows| <= k < |after| ==>
              after[k] == NewRow(t, MaxId(rows) + 1 + (k - |rows|), employeeIds[k - |rows|])
  {
    rows + NewRows(t, MaxId(rows) + 1, employeeIds)
  }

  /** The request's project, supervisor and date, its vehicle or null, and
      the company of the project found. */
  function TemplateOf(req: BulkRequest, project: Project): Template
    requires Validated(req)
  {
    Template(req.projectId.value, req.supervisorId.value, VehicleOrNull(req.vehicleId),
             req.date.value, project.companyId)
  }

  /** The whole handler, as a function of the collection and the lookup
      tables. */
  function Assign(rows: seq<Assignment>, employees: seq<Employee>, projects: seq<Project>,
                  req: BulkRequest): (o: Outcome)
    ensures o.result.Invalid? <==> !Validated(req)
    ensures MissingFields(req) ==> o.result == Invalid(MissingFieldsMessage)
    ensures !MissingFields(req) && req.date.None? ==> o.result == Invalid(MissingDateMessage)
    ensures o.result.ProjectNotFound? <==>
              Validated(req) && forall q :: q in projects ==> q.id != req.projectId.value
    ensures o.result.AlreadyAssigned? <==>
              Validated(req) && FindProject(projects, req.projectId.value).Some? &&
              exists r :: r in rows && r.employeeId in req.employeeIds && r.date == req.date.value
    ensures !o.result.Assigned? ==> o.rows == rows
    ensures o.result.Assigned? ==>
              && o.result.count == |req.employeeIds|
              && o.result.projectId == req.projectId.value
              && o.result.date == req.date.value
              && o.result.supervisorId == req.supervisorId.value
              && |o.rows| == |rows| + |req.employeeIds|
              && o.rows[..|rows|] == rows
  {
    if MissingFields(req) then Outcome(Invalid(MissingFieldsMessage), rows)
    else if req.date.None? then Outcome(Invalid(MissingDateMessage), rows)
    else match FindProject(projects, req.projectId.value)
      case None => Outcome(ProjectNotFound, rows)
      case Some(project) =>
        var existing := ConflictingRows(rows, req.employeeIds, req.date.value);
        if |existing| > 0 then
          assert existing[0] in existing;
          Outcome(AlreadyAssigned(FullNames(employees, set r | r in existing :: r.employeeId)), rows)
        else
          assert forall r :: r in rows ==> !(r.employeeId in req.employeeIds && r.date == req.date.value);
          Outcome(Assigned(|req.employeeIds|, req.projectId.value, req.date.value, req.supervisorId.value),
                  Commit(rows, TemplateOf(req, project), req.employeeIds))
  }

  /** The duplicates reported on a conflict are the full names of exactly
      those employees who already have a row on the date. */
  lemma DuplicatesAreConflictingEmployees(rows: seq<Assignment>, employees: seq<Employee>,
                                          projects: seq<Project>, req: BulkRequest)
    requires Assign(rows, employees, projects, req).result.AlreadyAssigned?
    ensures forall n :: n in Assign(rows, employees, projects, req).result.duplicates <==>
              exists e :: e in employees && e.fullName == n &&
                AssignedOn(rows, e.id, req.date.value) && e.id in req.employeeIds
  {
    var d := req.date.value;
    var existing := ConflictingRows(rows, req.employeeIds, d);
    var ids := set r | r in existing :: r.employeeId;
    forall e | e in employees
      ensures e.id in ids <==> AssignedOn(rows, e.id, d) && e.id in req.employeeIds
    {
      if AssignedOn(rows, e.id, d) && e.id in req.employeeIds {
        var r :| r in rows && r.employeeId == e.id && r.date == d;
        assert r in existing;
      }
    }
  }

  /** A successful call appends exactly the batch built from the project's
      template, numbered from the current maximum plus one. */
  lemma AssignedAppendsBatch(rows: seq<Assignment>, employees: seq<Employee>,
                             projects: seq<Project>, req: BulkRequest)
    requires Assign(rows, employees, projects, req).result.Assigned?
    ensures Validated(req) && FindProject(projects, req.projectId.value).Some?
    ensures Assign(rows, employees, projects, req).rows ==
              Commit(rows, TemplateOf(req, FindProject(projects, req.projectId.value).value),
                     req.employeeIds)
  {
  }

  /** On success the i-th new row has id `MaxId + 1 + i` and the i-th
      requested employee, copies the request's project, supervisor and date,
      has the vehicle or null, no task, and the project's company. */
  lemma AssignedRowContents(rows: seq<Assignment>, employees: seq<Employee>,
                            projects: seq<Project>, req: BulkRequest, i: nat)
    requires Assign(rows, employees, projects, req).result.Assigned?
    requires i < |req.employeeIds|
    ensures Validated(req) && FindProject(projects, req.projectId.value).Some?
    ensures Assign(rows, employees, projects, req).rows[|rows| + i] ==
              NewRow(TemplateOf(req, FindProject(projects, req.projectId.value).value),
                     MaxId(rows) + 1 + i, req.employeeIds[i])
  {
    AssignedAppendsBatch(rows, employees, projects, req);
  }

  /** Every new id exceeds every id already in the collection, and the new
      ids are distinct; so a commit keeps ids unique. */
  lemma CommitKeepsIdsUnique(rows: seq<Assignment>, t: Template, employeeIds: seq<int>)
    ensures forall i, j :: 0 <= i < |rows| <= j < |Commit(rows, t, employeeIds)| ==>
              rows[i].id < Commit(rows, t, employeeIds)[j].id
    ensures UniqueIds(rows) ==> UniqueIds(Commit(rows, t, employeeIds))
  {
    var after := Commit(rows, t, employeeIds);
    var n := |rows|;
    MaxIdIsMaximum(rows);
    forall i, j | 0 <= i < n <= j < |after| ensures rows[i].id < after[j].id {
      assert rows[i] in rows;
    }
    if UniqueIds(rows) {
      forall i, j | 0 <= i < j < |after| ensures after[i].id != after[j].id {
        if j < n {
          assert after[i] == after[..n][i];
          assert after[j] == after[..n][j];
        }
      }
    }
  }

  /** A commit of distinct employees none of whom has a row on the
      template's date keeps one assignment per employee and day. */
  lemma CommitKeepsOnePerDay(rows: seq<Assignment>, t: Template, employeeIds: seq<int>)
    requires OnePerDay(rows)
    requires forall i, j :: 0 <= i < j < |employeeIds| ==> employeeIds[i] != employeeIds[j]
    requires forall r :: r in rows ==> !(r.employeeId in employeeIds && r.date == t.date)
    ensures OnePerDay(Commit(rows, t, employeeIds))
  {
    var after := Commit(rows, t, employeeIds);
    var n := |rows|;
    forall i, j | 0 <= i < j < |after|
      ensures !(after[i].employeeId == after[j].employeeId && after[i].date == after[j].date)
    {
      if i < n {
        assert after[i] == after[..n][i];
        if j < n {
          assert after[j] == after[..n][j];
        } else {
          assert rows[i] in rows;
          assert after[j].employeeId == employeeIds[j - n];
        }
      }
    }
  }

  /** Every id a call adds exceeds every id already there, so a collection
      with unique ids keeps them through any call. */
  lemma AssignKeepsIdsUnique(rows: seq<Assignment>, employees: seq<Employee>,
                             projects: seq<Project>, req: BulkRequest)
    ensures forall i, j :: 0 <= i < |rows| <= j < |Assign(rows, employees, projects, req).rows| ==>
              rows[i].id < Assign(rows, employees, projects, req).rows[j].id
    ensures UniqueIds(rows) ==> UniqueIds(Assign(rows, employees, projects, req).rows)
  {
    if Assign(rows, employees, projects, req).result.Assigned? {
      AssignedAppendsBatch(rows, employees, projects, req);
      CommitKeepsIdsUnique(rows, TemplateOf(req, FindProject(projects, req.projectId.value).value),
                           req.employeeIds);
    }
  }

  /** A batch of distinct employees keeps the collection free of double
      bookings: the conflict check has excluded every pair with an old row. */
  lemma AssignKeepsOnePerDay(rows: seq<Assignment>, employees: seq<Employee>,
                             projects: seq<Project>, req: BulkRequest)
    requires OnePerDay(rows)
    requires forall i, j :: 0 <= i < j < |req.employeeIds| ==> req.employeeIds[i] != req.employeeIds[j]
    ensures OnePerDay(Assign(rows, employees, projects, req).rows)
  {
    if Assign(rows, employees, projects, req).result.Assigned? {
      AssignedAppendsBatch(rows, employees, projects, req);
      CommitKeepsOnePerDay(rows, TemplateOf(req, FindProject(projects, req.projectId.value).value),
                           req.employeeIds);
    }
  }

  /** The handler does not reject an employee listed twice in one request:
      the batch is accepted and books that employee twice on the date. */
  lemma RepeatedEmployeeIsDoubleBooked()
    ensures
      var req := BulkRequest(Some(1), Some(5), None, Some(20240301), [7, 7]);
      var o := Assign([], [], [Project(1, Some("P"), 3)], req);
      o.result.Assigned? && !OnePerDay(o.rows)
  {
    var req := BulkRequest(Some(1), Some(5), None, Some(20240301), [7, 7]);
    var p := Project(1, Some("P"), 3);
    assert FindProject([p], 1) == Some(p);
    assert ConflictingRows([], [7, 7], 20240301) == [];
    var after := Commit([], Template(1, 5, None, 20240301, 3), [7, 7]);
    assert Assign([], [], [p], req) == Outcome(Assigned(2, 1, 20240301, 5), after);
    assert after[0].employeeId == after[1].employeeId == 7;
  }

  /** When the conflict query finds rows, the call reports the names of
      their employees and leaves the collection as it was. */
  lemma ConflictIsReported(rows: seq<Assignment>, employees: seq<Employee>,
                           projects: seq<Project>, req: BulkRequest)
    requires Validated(req) && FindProject(projects, req.projectId.value).Some?
    requires ConflictingRows(rows, req.employeeIds, req.date.value) != []
    ensures Assign(rows, employees, projects, req) ==
              Outcome(AlreadyAssigned(FullNames(employees,
                        set r | r in ConflictingRows(rows, req.employeeIds, req.date.value) :: r.employeeId)),
                      rows)
  {
  }

  /** After a batch is committed, every one of its employees conflicts on
      its date, and no other employee does. */
  lemma {:induction false} CommittedBatchConflicts(rows: seq<Assignment>, t: Template, employeeIds: seq<int>)
    requires employeeIds != []
    ensures ConflictingRows(Commit(rows, t, employeeIds), employeeIds, t.date) != []
    ensures (set r | r in ConflictingRows(Commit(rows, t, employeeIds), employeeIds, t.date) :: r.employeeId)
            == set e | e in employeeIds
  {
    var after := Commit(rows, t, employeeIds);
    var n := |rows|;
    var existing := ConflictingRows(after, employeeIds, t.date);
    var ids := set r | r in existing :: r.employeeId;
    forall k | 0 <= k < |employeeIds| ensures employeeIds[k] in ids {
      var row := after[n + k];
      assert row in after;
      assert row in existing;
    }
    assert after[n] in existing;
  }

  /** Re-submitting a request that has just succeeded is rejected, adds no
      rows, and names every employee of the request. */
  lemma ResubmissionIsRejected(rows: seq<Assignment>, employees: seq<Employee>,
                               projects: seq<Project>, req: BulkRequest)
    requires Assign(rows, employees, projects, req).result.Assigned?
    ensures
      var after := Assign(rows, employees, projects, req).rows;
      Assign(after, employees, projects, req) ==
        Outcome(AlreadyAssigned(FullNames(employees, set e | e in req.employeeIds)), after)
  {
    AssignedAppendsBatch(rows, employees, projects, req);
    var t := TemplateOf(req, FindProject(projects, req.projectId.value).value);
    CommittedBatchConflicts(rows, t, req.employeeIds);
    ConflictIsReported(Commit(rows, t, req.employeeIds), employees, projects, req);
  }
}
