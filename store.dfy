/** The assignment collection as mutable state, and the three handlers that
    write to it. Each method is proved against the matching specification
    function, so every property proved about `Assign`, `Update` and `Delete`
    holds of the store after the call. */
module Store {
  import opened Seqs
  import opened Records
  import opened BulkAssignment
  import RowEdits

  class AssignmentStore {
    /** The assignment rows in collection order. */
    var rows: seq<Assignment>

    constructor(initial: seq<Assignment>)
      ensures rows == initial
    {
      rows := initial;
    }

    /** `bulkAssignWorkers`: checks in the handler's order, then numbers the
        batch with a running counter and inserts it at once. */
    method BulkAssign(employees: seq<Employee>, projects: seq<Project>, req: BulkRequest)
      returns (result: BulkResult)
      modifies this
      ensures Outcome(result, rows) == Assign(old(rows), employees, projects, req)
      ensures UniqueIds(old(rows)) ==> UniqueIds(rows)
      ensures result.Assigned? ==>
                forall k :: 0 <= k < |req.employeeIds| ==>
                  AssignedOn(rows, req.employeeIds[k], req.date.value)
    {
      if MissingFields(req) {
        return Invalid(MissingFieldsMessage);
      }
      if req.date.None? {
        return Invalid(MissingDateMessage);
      }
      var project := FindProject(projects, req.projectId.value);
      if project.None? {
        return ProjectNotFound;
      }
      var existing := ConflictingRows(rows, req.employeeIds, req.date.value);
      if |existing| > 0 {
        assert existing[0] in existing;
        return AlreadyAssigned(FullNames(employees, set r | r in existing :: r.employeeId));
      }

      var t := TemplateOf(req, project.value);
      var first := MaxId(rows) + 1;
      var nextId := first;
      var batch: seq<Assignment> := [];
      var i := 0;
      while i < |req.employeeIds|
        invariant 0 <= i <= |req.employeeIds|
        invariant nextId == first + i
        invariant |batch| == i
        invariant forall k :: 0 <= k < i ==> batch[k] == NewRow(t, first + k, req.employeeIds[k])
      {
        batch := batch + [NewRow(t, nextId, req.employeeIds[i])];
        nextId := nextId + 1;
        i := i + 1;
      }
      ghost var before := rows;
      assert batch == NewRows(t, first, req.employeeIds);
      rows := rows + batch;
      result := Assigned(|batch|, req.projectId.value, req.date.value, req.supervisorId.value);
      assert Outcome(result, rows) == Assign(before, employees, projects, req);
      if UniqueIds(before) {
        AssignKeepsIdsUnique(before, employees, projects, req);
      }
      forall k | 0 <= k < |req.employeeIds| ensures AssignedOn(rows, req.employeeIds[k], req.date.value) {
        AssignedRowContents(before, employees, projects, req, k);
        assert rows[|before| + k] in rows;
      }
    }

    /** `updateAssignment`. */
    method Update(id: int, patch: RowEdits.Patch) returns (result: RowEdits.UpdateResult)
      modifies this
      ensures RowEdits.UpdateOutcome(result, rows) == RowEdits.Update(old(rows), id, patch)
      ensures result.UpdateNotFound? ==> rows == old(rows)
      ensures patch.id.None? && UniqueIds(old(rows)) ==> UniqueIds(rows)
    {
      var k := RowEdits.RowIndex(rows, id);
      if k.None? {
        return RowEdits.UpdateNotFound;
      }
      ghost var before := rows;
      var row := RowEdits.ApplyPatch(rows[k.value], patch);
      rows := rows[k.value := row];
      result := RowEdits.Updated(row);
      if patch.id.None? && UniqueIds(before) {
        RowEdits.UpdateKeepsUniqueIds(before, id, patch);
      }
    }

    /** `deleteAssignment`. */
    method Delete(id: int) returns (result: RowEdits.DeleteResult)
      modifies this
      ensures RowEdits.DeleteOutcome(result, rows) == RowEdits.Delete(old(rows), id)
      ensures result.DeleteNotFound? ==> rows == old(rows)
      ensures UniqueIds(old(rows)) ==> UniqueIds(rows)
      ensures OnePerDay(old(rows)) ==> OnePerDay(rows)
    {
      ghost var before := rows;
      RowEdits.DeleteKeepsInvariants(before, id);
      var k := RowEdits.RowIndex(rows, id);
      if k.None? {
        return RowEdits.DeleteNotFound;
      }
      rows := rows[..k.value] + rows[k.value + 1..];
      result := RowEdits.Deleted(id);
    }
  }
}
