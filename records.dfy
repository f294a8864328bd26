/** The collections the assignment controller reads and writes, and the
    invariants of the assignment collection. Every row carries the manually
    managed integer `id` the controller works with; the store's native
    identifiers play no part. */
module Records {
  import opened Seqs

  /** A calendar date without a time component, as a day number: the
      controller only compares dates for equality and sorts by them. */
  type Date = int

  /** The placeholder shown for a reference that does not resolve (U+2014). */
  const Dash: string := "\U{2014}"
  const Active: string := "active"
  const WorkerRole: string := "worker"

  datatype Employee = Employee(
    id: int,
    fullName: Option<string>,
    trade: Option<string>,
    employeeCode: Option<string>,
    userId: int,
    status: string)

  datatype Project = Project(id: int, projectName: Option<string>, companyId: int)

  datatype CompanyUser = CompanyUser(userId: int, role: string, status: string)

  datatype Vehicle = Vehicle(id: int, vehicleCode: Option<string>)

  /** One worker-task assignment row; `None` is the stored `null`. */
  datatype Assignment = Assignment(
    id: int,
    projectId: int,
    supervisorId: int,
    vehicleId: Option<int>,
    employeeId: int,
    taskId: Option<int>,
    date: Date,
    companyId: int)

  /** JavaScript falsiness of a numeric request field: absent or zero. */
  predicate Falsy(v: Option<int>) {
    v.None? || v.value == 0
  }

  /** MongoDB `$ifNull: [field, "—"]`: only a missing value is replaced. */
  function IfNull(v: Option<string>): string {
    if v.None? then Dash else v.value
  }

  /** JavaScript `field || "—"`: a missing or empty string is replaced. */
  function OrDash(v: Option<string>): string {
    if v.None? || v.value == "" then Dash else v.value
  }

  /** No two rows share an id. */
  predicate UniqueIds(rows: seq<Assignment>) {
    forall i, j :: 0 <= i < j < |rows| ==> rows[i].id != rows[j].id
  }

  /** No employee has two rows on the same date. */
  predicate OnePerDay(rows: seq<Assignment>) {
    forall i, j :: 0 <= i < j < |rows| ==>
      !(rows[i].employeeId == rows[j].employeeId && rows[i].date == rows[j].date)
  }

  /** Some row assigns `employeeId` on `date`. */
  predicate AssignedOn(rows: seq<Assignment>, employeeId: int, date: Date) {
    exists r :: r in rows && r.employeeId == employeeId && r.date == date
  }
}
