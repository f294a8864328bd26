# Worker task assignments — a Dafny model

This project models the worker task assignment controller of a construction
company back office (`backend/controllers/workerTaskAssignmentController.js`).
The controller keeps one collection of assignment rows. Each row places one
employee on a project, under a supervisor and optionally with a vehicle, on
one date. Rows are addressed by a manually managed integer `id`. The five
handlers are modelled as follows.

- **Bulk assignment** (`bulkAssignWorkers`) validates the request and looks
  up the project. It rejects the whole batch when any requested employee
  already has a row on the date. Otherwise it appends one row per employee,
  with ids running on from the current maximum.
- **Listing** (`getAssignmentsByDate`) has an optional project filter. It
  joins every row with its employee, supervisor, project and vehicle, and
  shows an em-dash (U+2014) for what is missing. It sorts by date, then id,
  both descending. It keeps one entry per id, the way a JavaScript `Map`
  does.
- **Available workers** (`availableWorkers`) lists the active employees
  linked to an active user with the worker role who have no row on the date.
- **Update** and **delete** (`updateAssignment`, `deleteAssignment`) act on
  the first row with the given id. When no row has that id they answer "not
  found" and leave the collection as it was.

Modules:

- `Seqs` (seqs.dfy): `Option`, plus the query primitives "first match",
  "filter", "map" and "flat map".
- `Records` (records.dfy): the collections and the store invariants
  `UniqueIds` and `OnePerDay`.
- `BulkAssignment` (bulk_assignment.dfy): the bulk-assign handler as the
  function `Assign`, which returns the answer and the new collection.
- `Listing` (listing.dfy): the aggregation and the `Map` de-duplication.
- `Availability` (availability.dfy): the available-workers pipeline, and a
  one-pass reference definition it is proved equal to.
- `RowEdits` (row_edits.dfy): update and delete as functions on the
  collection.
- `Store` (store.dfy): the class `AssignmentStore`, whose field `rows` is the
  collection. Its methods `BulkAssign`, `Update` and `Delete` change it in
  place. Each method is proved to leave exactly the state, and give exactly
  the answer, of the matching function. `BulkAssign` numbers the batch with
  a running counter in a loop, as the handler's `nextId++` does.

Dates are day numbers. A request field that is absent is `None`.
JavaScript falsiness of a numeric id is "absent or 0" (`Records.Falsy`).
Two defaults are modelled separately:

- `$ifNull` (listing names) replaces only a missing value.
- `||` (trade and employee code in the available-workers answer) also
  replaces the empty string.

## Model

| member | source | states |
|---|---|---|
| BulkAssignment.Assign | backend/controllers/workerTaskAssignmentController.js:9-63 | The request is rejected as invalid exactly when a project id, a supervisor id, at least one employee id or the date is missing. It answers "project not found" exactly when the request is valid and no project has the id. It reports duplicates exactly when the project exists and some requested employee already has a row on the date. A missing project, supervisor or employee list is reported with the "missing fields" message, and a missing date alone with the "date" message. Every answer except success leaves the collection unchanged. Success reports the batch size and echoes the request's project id, date and supervisor id; it appends one row per requested employee after the old rows. |
| BulkAssignment.FindProject | backend/controllers/workerTaskAssignmentController.js:22-25 | Finds nothing exactly when no project has the id. Otherwise it returns a project from the collection that has the id. |
| BulkAssignment.ConflictingRows | backend/controllers/workerTaskAssignmentController.js:28-31 | Exactly the rows whose employee is among the requested ids and whose date is the requested date. |
| BulkAssignment.FullNames | backend/controllers/workerTaskAssignmentController.js:35-36 | A name is reported exactly when some employee with one of the given ids has it. There are no more names than employees. |
| BulkAssignment.DuplicatesAreConflictingEmployees | backend/controllers/workerTaskAssignmentController.js:28-41 | The duplicates answer lists exactly the full names of the employees that have a row on the date and were requested. |
| BulkAssignment.ConflictIsReported | backend/controllers/workerTaskAssignmentController.js:28-41 | When some requested employee already has a row on the date of a valid request for an existing project, the answer is the duplicates answer and the collection is unchanged. |
| BulkAssignment.MaxIdIsMaximum | backend/controllers/workerTaskAssignmentController.js:44-45 | The id the counter starts after is at least every stored id, and is some row's id when the collection is not empty. On an empty collection it is 0, so the first id handed out is 1. |
| BulkAssignment.Commit | backend/controllers/workerTaskAssignmentController.js:44-58 | The old rows are kept as a prefix. The k-th new row is numbered current maximum + 1 + k and carries the k-th requested employee. |
| BulkAssignment.AssignedAppendsBatch | backend/controllers/workerTaskAssignmentController.js:44-60 | Success happens only for a valid request with an existing project. The new collection is the old one with the numbered batch appended. |
| BulkAssignment.AssignedRowContents | backend/controllers/workerTaskAssignmentController.js:47-56 | New row i has id max + 1 + i, the request's project, supervisor and date, the vehicle or null, no task, the i-th employee and the project's company. |
| BulkAssignment.CommitKeepsIdsUnique | backend/controllers/workerTaskAssignmentController.js:44-58 | Over integer ids, every id in a batch numbered from the current maximum exceeds every old id, so appending it keeps ids unique. |
| BulkAssignment.CommitKeepsOnePerDay | backend/controllers/workerTaskAssignmentController.js:44-58 | Appending a batch of distinct employees, none of whom has a row on the date, keeps one assignment per employee per day. |
| BulkAssignment.AssignKeepsIdsUnique | backend/controllers/workerTaskAssignmentController.js:44-58 | Over integer ids, every id a bulk assignment adds exceeds every id already stored, and a collection with unique ids keeps them. |
| BulkAssignment.AssignKeepsOnePerDay | backend/controllers/workerTaskAssignmentController.js:28-58 | If no employee has two rows on one date before, and the request names each employee once, the same holds after. |
| BulkAssignment.RepeatedEmployeeIsDoubleBooked | backend/controllers/workerTaskAssignmentController.js:28-58 | A request that names employee 7 twice succeeds and books employee 7 twice on the date. |
| BulkAssignment.CommittedBatchConflicts | backend/controllers/workerTaskAssignmentController.js:28-31 | After a batch is stored, the conflict query for the same employees and date is non-empty. Its employees are exactly the requested ones. |
| BulkAssignment.ResubmissionIsRejected | backend/controllers/workerTaskAssignmentController.js:28-41 | Sending a successful request again is rejected with the names of all its employees, and the collection is unchanged. |
| Store.AssignmentStore.BulkAssign | backend/controllers/workerTaskAssignmentController.js:7-64 | The method returns `Assign`'s answer and leaves `Assign`'s collection. It keeps unique ids unique. On success every requested employee has a row on the date. |
| Listing.Unwound | backend/controllers/workerTaskAssignmentController.js:99 | An unwind never drops a row: with no match it yields exactly one absent value; otherwise it yields the matches, in order, one value each. |
| Listing.RowEntriesDrawnFrom | backend/controllers/workerTaskAssignmentController.js:90-148 | A row yields at least one entry. Each entry copies the row's fields. Each name is the dash when the lookup finds nothing, and otherwise the `$ifNull`-defaulted name of a matching document. |
| Listing.JoinedDrawnFromRows | backend/controllers/workerTaskAssignmentController.js:84-148 | Every document reaching the sort is drawn from a row the filter selected. Every selected row's id reaches the sort. |
| Listing.SortNewestFirst | backend/controllers/workerTaskAssignmentController.js:150 | The sort output is a permutation of its input, ordered by date, then id, both descending. |
| Listing.DedupBasics | backend/controllers/workerTaskAssignmentController.js:154 | After the `Map` pass ids are unique, every value is an input entry, and the ids are exactly the input's ids. |
| Listing.DedupKeepsLastValue | backend/controllers/workerTaskAssignmentController.js:154 | Each id keeps the entry of its last occurrence. |
| Listing.DedupKeepsFirstPosition | backend/controllers/workerTaskAssignmentController.js:154 | Entries appear in the order of their ids' first occurrences. |
| Listing.DedupFirstNewestFirst | backend/controllers/workerTaskAssignmentController.js:150-154 | If entries sharing an id share a date, de-duplicating a newest-first sequence keeps it newest first. |
| Listing.ListAssignments | backend/controllers/workerTaskAssignmentController.js:84-156 | The listing holds one entry per id. Each entry is drawn from a selected row and its lookups. Every selected row's id is listed. |
| Listing.FilterRespected | backend/controllers/workerTaskAssignmentController.js:84-88 | With a project filter, every listed entry belongs to that project. |
| Listing.ListingIsNewestFirst | backend/controllers/workerTaskAssignmentController.js:150-154 | Over a collection with unique ids, the listing is ordered by date, then id, both descending. |
| Listing.JoinedWithoutTables | backend/controllers/workerTaskAssignmentController.js:84-148 | With no lookup documents and no filter, every row reaches the sort as exactly one entry, in collection order, with every name a dash. |
| Listing.ReusedIdBreaksOrder | backend/controllers/workerTaskAssignmentController.js:150-154 | Take three rows on strictly decreasing dates, the first and last sharing an id the middle one lacks. The listing is the last row's entry followed by the middle row's: the shared id keeps its first position but the oldest value. |
| Listing.ReusedIdCanBreakOrder | backend/controllers/workerTaskAssignmentController.js:150-154 | Some collection lists out of order: rows with id 5 on day 3, id 4 on day 2 and id 5 on day 1 are listed day 1 before day 2. |
| Availability.WorkerUserIds | backend/controllers/workerTaskAssignmentController.js:173-174 | A user id is collected exactly when some active company user with the worker role has it. |
| Availability.AvailableWorkers | backend/controllers/workerTaskAssignmentController.js:167-210 | A missing date is rejected with "Date is required". Otherwise every listed worker is the presented form of an available employee. Every available employee is listed. |
| Availability.AvailableMatchesReference | backend/controllers/workerTaskAssignmentController.js:172-208 | With a date, the answer equals the one-pass reference list, in collection order. The two early empty answers agree with it. |
| Availability.PipelineMatchesReference | backend/controllers/workerTaskAssignmentController.js:181-208 | The employee filter, the exclusion of booked ids and the mapping together compute the reference list, given any booked-id set that is right about each candidate worker. |
| Availability.AssignedIdsSpec | backend/controllers/workerTaskAssignmentController.js:191-194 | For a candidate worker, being in the booked-id set is the same as having a row on the date. |
| Availability.AssignedAreUnavailable | backend/controllers/workerTaskAssignmentController.js:190-199 | After a successful bulk assignment, none of its employees is listed as available on its date. |
| Availability.AssignLeavesOthersAlone | backend/controllers/workerTaskAssignmentController.js:190-199 | A bulk assignment changes no other employee's availability, on any date. |
| RowEdits.Update | backend/controllers/workerTaskAssignmentController.js:227-237 | "Not found" is answered exactly when no row has the path id, and then the collection is unchanged. Otherwise only the first row with the id is rewritten with the supplied fields, and that new row is returned. |
| RowEdits.PatchIsIdempotent | backend/controllers/workerTaskAssignmentController.js:229-233 | Applying the same body twice equals applying it once. An empty body changes nothing. |
| RowEdits.UpdateChangesOnlyTarget | backend/controllers/workerTaskAssignmentController.js:229-233 | An update keeps the collection's length. Rows with other ids are untouched. |
| RowEdits.UpdateKeepsUniqueIds | backend/controllers/workerTaskAssignmentController.js:229-233 | An update whose body does not set `id` keeps ids unique. |
| RowEdits.UpdateTwiceIsUpdateOnce | backend/controllers/workerTaskAssignmentController.js:229-237 | Repeating an update whose body does not set `id` gives the same answer and the same collection. |
| RowEdits.UpdateCanDoubleBook | backend/controllers/workerTaskAssignmentController.js:229-233 | Moving a row to a date its employee already works is accepted, which breaks one assignment per employee per day. |
| Store.AssignmentStore.Update | backend/controllers/workerTaskAssignmentController.js:225-242 | The method returns `Update`'s answer and leaves `Update`'s collection. "Not found" leaves the rows unchanged. An update that does not set `id` keeps ids unique. |
| RowEdits.Delete | backend/controllers/workerTaskAssignmentController.js:247-253 | "Not found" is answered exactly when no row has the path id, and then the collection is unchanged. Otherwise the first row with the id is removed, one row fewer remains, and the id is echoed. |
| RowEdits.DeleteRemovesOneRow | backend/controllers/workerTaskAssignmentController.js:249 | The new collection is the old one minus exactly one row carrying the id, as multisets. |
| RowEdits.DeleteKeepsInvariants | backend/controllers/workerTaskAssignmentController.js:249 | A delete keeps unique ids unique and keeps one assignment per employee per day. |
| RowEdits.DeleteIsFinal | backend/controllers/workerTaskAssignmentController.js:249-251 | With unique ids, no row with the deleted id remains, and deleting it again answers "not found". |
| RowEdits.DeleteFreesEmployee | backend/controllers/workerTaskAssignmentController.js:249 | With one assignment per employee per day, deleting a row leaves its employee with no row on its date. |
| Store.AssignmentStore.Delete | backend/controllers/workerTaskAssignmentController.js:245-258 | The method returns `Delete`'s answer and leaves `Delete`'s collection. "Not found" leaves the rows unchanged. A delete keeps both store invariants. |

## Left out

- HTTP and the data store: status codes, JSON envelopes, and the query and update machinery are not modelled. Each query becomes a function over sequences, in collection order. The `try`/`catch` paths that answer 500 are also left out.
- Concurrency: the duplicate-key branch (error code 11000) and races between two bulk assignments are not modelled. Each handler runs atomically here.
- Listing.ListingIsNewestFirst: holds only when ids are unique. The handler makes no such assumption, and `Listing.ReusedIdCanBreakOrder` shows the order failing without it.
- BulkAssignment.AssignKeepsOnePerDay: requires that the request names each employee once. The handler does not check this, and `BulkAssignment.RepeatedEmployeeIsDoubleBooked` shows the double booking.
- Ties in the sort: the data store leaves the order of entries with equal date and id unspecified. The model uses a stable insertion sort, so the entry kept for a duplicated id is the last one in that order.
- A vehicle lookup with a null `vehicleId` matches no vehicle here. The data store would also match vehicle documents that lack an `id`.
- Non-numeric query and path values: a listing filter that is not a number (`NaN`) is not modelled. For update and delete the path id is taken as a number; a non-numeric one fails the data store's cast of the filter, which the handler's catch answers with 500, and that path is not modelled.
- Ids are JavaScript numbers (IEEE-754 doubles). The model's ids are unbounded integers, so it does not capture that `id + 1` stops advancing at 2^53 and beyond, where the new ids of a batch repeat an old one. An update body can set such an id, or a non-integer one such as 1.5, which `RowEdits.Patch` cannot represent.
- BulkAssignment.CommitKeepsIdsUnique: proves that new ids exceed old ones over unbounded integers. The handler keeps that promise only while the largest stored id plus the batch size stays below 2^53.
- BulkAssignment.AssignKeepsIdsUnique: proves that new ids exceed old ones and that uniqueness is kept, over unbounded integers. With a stored id at or beyond 2^53, which an update can set, the handler hands out a repeated id instead.
- Delete echoes the numeric id, not the raw path string the handler returns.
- Date strings are not parsed. A date is a day number, and "missing" covers both an absent and an empty value.
- A `null` supplied for a required field in an update body, and casting errors, are not modelled. The body's fields are the eight stored fields.
- An absent `employeeIds` in a bulk request is modelled as the empty list. Both are rejected the same way.
- The available-workers answer passes `fullName` through unchanged, as an optional string.
