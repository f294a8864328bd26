/** `updateAssignment` and `deleteAssignment`: both address a row by the
    numeric form of the path parameter and act on the first row in
    collection order whose `id` equals it. An update overwrites the fields
    the body supplies and nothing is re-validated; a delete removes the row.
    When no row matches, the collection is left as it was. */
module RowEdits {
  import opened Seqs
  import opened Records

  /** The fields an update body may carry; `None` leaves the field as it is.
      `vehicleId` and `taskId` may be set to `null`, hence `Some(None)`. */
  datatype Patch = Patch(
    id: Option<int>,
    projectId: Option<int>,
    supervisorId: Option<int>,
    vehicleId: Option<Option<int>>,
    employeeId: Option<int>,
    taskId: Option<Option<int>>,
    date: Option<Date>,
    companyId: Option<int>)

  const NoChange: Patch := Patch(None, None, None, None, None, None, None, None)

  datatype UpdateResult = UpdateNotFound | Updated(row: Assignment)
  datatype UpdateOutcome = UpdateOutcome(result: UpdateResult, rows: seq<Assignment>)

  /** A delete answers with the id it was given. */
  datatype DeleteResult = DeleteNotFound | Deleted(deletedId: int)
  datatype DeleteOutcome = DeleteOutcome(result: DeleteResult, rows: seq<Assignment>)

  function Override<T>(current: T, v: Option<T>): T {
    if v.Some? then v.value else current
  }

  /** The row after `$set` of the supplied fields. */
  function ApplyPatch(r: Assignment, p: Patch): Assignment {
    Assignment(
      Override(r.id, p.id),
      Override(r.projectId, p.projectId),
      Override(r.supervisorId, p.supervisorId),
      Override(r.vehicleId, p.vehicleId),
      Override(r.employeeId, p.employeeId),
      Override(r.taskId, p.taskId),
      Override(r.date, p.date),
      Override(r.companyId, p.companyId))
  }

  /** Position of the first row with this id: the row `findOneAnd…` picks. */
  function RowIndex(rows: seq<Assignment>, id: int): Option<nat> {
    FirstWhere(rows, (r: Assignment) => r.id == id)
  }

  /** `findOneAndUpdate({ id: Number(id) }, body, { new: true })`, for a
      path parameter that is a number. */
  function Update(rows: seq<Assignment>, id: int, patch: Patch): (o: UpdateOutcome)
    ensures o.result.UpdateNotFound? <==> forall r :: r in rows ==> r.id != id
    ensures o.result.UpdateNotFound? ==> o.rows == rows
    ensures o.result.Updated? ==>
              exists k :: 0 <= k < |rows| && rows[k].id == id &&
                (forall j :: 0 <= j < k ==> rows[j].id != id) &&
                o.rows == rows[k := ApplyPatch(rows[k], patch)] &&
                o.result.row == o.rows[k]
  {
    match RowIndex(rows, id)
    case None => UpdateOutcome(UpdateNotFound, rows)
    case Some(k) =>
      var after := rows[k := ApplyPatch(rows[k], patch)];
      UpdateOutcome(Updated(after[k]), after)
  }

  /** `findOneAndDelete({ id: Number(id) })`, for a path parameter that is
      a number. */
  function Delete(rows: seq<Assignment>, id: int): (o: DeleteOutcome)
    ensures o.result.DeleteNotFound? <==> forall r :: r in rows ==> r.id != id
    ensures o.result.DeleteNotFound? ==> o.rows == rows
    ensures o.result.Deleted? ==>
              o.result.deletedId == id && |o.rows| == |rows| - 1 &&
              exists k :: 0 <= k < |rows| && rows[k].id == id &&
                (forall j :: 0 <= j < k ==> rows[j].id != id) &&
                o.rows == rows[..k] + rows[k + 1..]
  {
    match RowIndex(rows, id)
    case None => DeleteOutcome(DeleteNotFound, rows)
    case Some(k) => DeleteOutcome(Deleted(id), rows[..k] + rows[k + 1..])
  }

  // ---------------------------------------------------------------------
  // Update

  /** Each field of an updated row comes from the body when supplied and
      from the row otherwise, so an empty body changes nothing and applying
      the same body twice is the same as once. */
  lemma PatchIsIdempotent(r: Assignment, p: Patch)
    ensures ApplyPatch(ApplyPatch(r, p), p) == ApplyPatch(r, p)
    ensures ApplyPatch(r, NoChange) == r
  {
  }

  /** Only the addressed row changes, and its length does not. */
  lemma UpdateChangesOnlyTarget(rows: seq<Assignment>, id: int, patch: Patch)
    requires Update(rows, id, patch).result.Updated?
    ensures |Update(rows, id, patch).rows| == |rows|
    ensures forall i :: 0 <= i < |rows| && rows[i].id != id ==>
              Update(rows, id, patch).rows[i] == rows[i]
  {
  }

  /** An update that leaves the id alone keeps ids unique. */
  lemma UpdateKeepsUniqueIds(rows: seq<Assignment>, id: int, patch: Patch)
    requires UniqueIds(rows)
    requires patch.id.None?
    ensures UniqueIds(Update(rows, id, patch).rows)
  {
    var o := Update(rows, id, patch);
    forall i, j | 0 <= i < j < |o.rows| ensures o.rows[i].id != o.rows[j].id {
      assert o.rows[i].id == rows[i].id && o.rows[j].id == rows[j].id;
    }
  }

  /** Repeating an update whose body leaves the id alone changes nothing
      more. */
  lemma UpdateTwiceIsUpdateOnce(rows: seq<Assignment>, id: int, patch: Patch)
    requires patch.id.None?
    ensures var once := Update(rows, id, patch);
            Update(once.rows, id, patch) == once
  {
    var once := Update(rows, id, patch);
    if once.result.Updated? {
      var k := RowIndex(rows, id).value;
      assert forall j :: 0 <= j < |rows| ==> once.rows[j].id == rows[j].id;
      assert RowIndex(once.rows, id) == Some(k) by {
        assert forall j :: 0 <= j < k ==> once.rows[j].id != id;
      }
      PatchIsIdempotent(rows[k], patch);
    }
  }

  /** Nothing is re-validated: moving a row onto a date its employee already
      works breaks one-assignment-per-day. */
  lemma UpdateCanDoubleBook()
    ensures var rows := [Assignment(1, 1, 1, None, 7, None, 10, 1),
                         Assignment(2, 1, 1, None, 7, None, 11, 1)];
            OnePerDay(rows) &&
            !OnePerDay(Update(rows, 2, NoChange.(date := Some(10))).rows)
  {
    var rows := [Assignment(1, 1, 1, None, 7, None, 10, 1),
                 Assignment(2, 1, 1, None, 7, None, 11, 1)];
    var after := Update(rows, 2, NoChange.(date := Some(10))).rows;
    assert RowIndex(rows, 2) == Some(1);
    assert after[0].employeeId == after[1].employeeId && after[0].date == after[1].date;
  }

  // ---------------------------------------------------------------------
  // Delete

  /** Deleting takes out exactly one row carrying the id. */
  lemma DeleteRemovesOneRow(rows: seq<Assignment>, id: int)
    requires Delete(rows, id).result.Deleted?
    ensures exists r :: r in rows && r.id == id &&
              multiset(Delete(rows, id).rows) + multiset{r} == multiset(rows)
  {
    var k := RowIndex(rows, id).value;
    RemoveAtMultiset(rows, k);
    assert rows[k] in rows;
  }

  lemma RemoveAtMultiset(rows: seq<Assignment>, k: nat)
    requires k < |rows|
    ensures multiset(rows[..k] + rows[k + 1..]) + multiset{rows[k]} == multiset(rows)
  {
    var before, after := rows[..k], rows[k + 1..];
    assert rows == before + [rows[k]] + after;
  }

  /** Removing one row keeps every pairwise invariant of the collection. */
  lemma DeleteKeepsInvariants(rows: seq<Assignment>, id: int)
    ensures UniqueIds(rows) ==> UniqueIds(Delete(rows, id).rows)
    ensures OnePerDay(rows) ==> OnePerDay(Delete(rows, id).rows)
  {
    if Delete(rows, id).result.Deleted? {
      RemoveAtKeepsInvariants(rows, RowIndex(rows, id).value);
    }
  }

  lemma RemoveAtKeepsInvariants(rows: seq<Assignment>, k: nat)
    requires k < |rows|
    ensures UniqueIds(rows) ==> UniqueIds(rows[..k] + rows[k + 1..])
    ensures OnePerDay(rows) ==> OnePerDay(rows[..k] + rows[k + 1..])
  {
    var after := rows[..k] + rows[k + 1..];
    assert forall i :: 0 <= i < |after| ==> after[i] == rows[if i < k then i else i + 1];
  }

  /** With unique ids, no row with the deleted id remains, so a second
      delete of the same id finds nothing. */
  lemma DeleteIsFinal(rows: seq<Assignment>, id: int)
    requires UniqueIds(rows)
    requires Delete(rows, id).result.Deleted?
    ensures forall r :: r in Delete(rows, id).rows ==> r.id != id
    ensures Delete(Delete(rows, id).rows, id).result.DeleteNotFound?
  {
    var o := Delete(rows, id);
    var k := RowIndex(rows, id).value;
    forall r | r in o.rows ensures r.id != id {
      var i :| 0 <= i < |o.rows| && o.rows[i] == r;
      if i < k {
        assert r == rows[i];
      } else {
        assert r == rows[i + 1];
      }
    }
  }

  /** With one assignment per employee and day, deleting a row frees its
      employee on its date. */
  lemma DeleteFreesEmployee(rows: seq<Assignment>, id: int)
    requires OnePerDay(rows)
    requires Delete(rows, id).result.Deleted?
    ensures var k := RowIndex(rows, id).value;
            k < |rows| && !AssignedOn(Delete(rows, id).rows, rows[k].employeeId, rows[k].date)
  {
    var o := Delete(rows, id);
    var k := RowIndex(rows, id).value;
    forall i | 0 <= i < |o.rows|
      ensures !(o.rows[i].employeeId == rows[k].employeeId && o.rows[i].date == rows[k].date)
    {
      if i < k {
        assert o.rows[i] == rows[i];
      } else {
        assert o.rows[i] == rows[i + 1];
      }
    }
  }
}
