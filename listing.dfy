/** `getAssignmentsByDate`: the denormalised listing of assignments. The
    aggregation keeps the rows of the requested project (all rows when no
    project is given), joins each with its employee, supervisor, project and
    vehicle (`$lookup` then `$unwind` with `preserveNullAndEmptyArrays`, so a
    row yields one entry per combination of matches and one entry with the
    field absent when nothing matches), projects the display fields with an
    em-dash for what is missing, sorts by date then id, both descending, and
    finally keeps one entry per id the way a JavaScript `Map` built from
    `[id, entry]` pairs does. */
module Listing {
  import opened Seqs
  import opened Records

  /** One entry of the listing. */
  datatype Listed = Listed(
    id: int,
    date: Date,
    employeeId: int,
    supervisorId: int,
    projectId: int,
    vehicleId: Option<int>,
    employeeName: string,
    supervisorName: string,
    projectName: string,
    vehicleCode: string)

  /** The lookup tables the aggregation joins against. */
  datatype Tables = Tables(employees: seq<Employee>, projects: seq<Project>, vehicles: seq<Vehicle>)

  /** `$unwind` with `preserveNullAndEmptyArrays`: one value per match, or
      a single absent value when there is none. */
  function Unwound<T(!new)>(matches: seq<T>): (r: seq<Option<T>>)
    ensures matches == [] ==> r == [None]
    ensures matches != [] ==> |r| == |matches| && forall i :: 0 <= i < |r| ==> r[i] == Some(matches[i])
  {
    if matches == [] then [None] else MapSeq(matches, (x: T) => Some(x))
  }

  function EmployeeMatches(employees: seq<Employee>, id: int): seq<Option<Employee>> {
    Unwound(Filter(employees, (e: Employee) => e.id == id))
  }

  function ProjectMatches(projects: seq<Project>, id: int): seq<Option<Project>> {
    Unwound(Filter(projects, (p: Project) => p.id == id))
  }

  /** A stored null `vehicleId` matches no vehicle, every vehicle having an id. */
  function VehicleMatches(vehicles: seq<Vehicle>, id: Option<int>): seq<Option<Vehicle>> {
    Unwound(Filter(vehicles, (v: Vehicle) => id.Some? && v.id == id.value))
  }

  function EmployeeName(e: Option<Employee>): string {
    if e.None? then Dash else IfNull(e.value.fullName)
  }

  function ProjectName(p: Option<Project>): string {
    if p.None? then Dash else IfNull(p.value.projectName)
  }

  function VehicleCode(v: Option<Vehicle>): string {
    if v.None? then Dash else IfNull(v.value.vehicleCode)
  }

  /** The `$project` stage for one joined document. */
  function Shape(r: Assignment, e: Option<Employee>, s: Option<Employee>,
                 p: Option<Project>, v: Option<Vehicle>): Listed {
    Listed(r.id, r.date, r.employeeId, r.supervisorId, r.projectId, r.vehicleId,
           EmployeeName(e), EmployeeName(s), ProjectName(p), VehicleCode(v))
  }

  /** The entries one row contributes after the four unwinds, in the order
      they produce them: employee matches outermost, vehicle matches
      innermost. */
  function RowEntries(r: Assignment, t: Tables): seq<Listed> {
    FlatMap(EmployeeMatches(t.employees, r.employeeId),
            (e: Option<Employee>) => SupervisorLayer(r, e, t))
  }

  function SupervisorLayer(r: Assignment, e: Option<Employee>, t: Tables): seq<Listed> {
    FlatMap(EmployeeMatches(t.employees, r.supervisorId),
            (s: Option<Employee>) => ProjectLayer(r, e, s, t))
  }

  function ProjectLayer(r: Assignment, e: Option<Employee>, s: Option<Employee>, t: Tables): seq<Listed> {
    FlatMap(ProjectMatches(t.projects, r.projectId),
            (p: Option<Project>) => VehicleLayer(r, e, s, p, t))
  }

  function VehicleLayer(r: Assignment, e: Option<Employee>, s: Option<Employee>,
                        p: Option<Project>, t: Tables): seq<Listed> {
    MapSeq(VehicleMatches(t.vehicles, r.vehicleId), (v: Option<Vehicle>) => Shape(r, e, s, p, v))
  }

  /** The `$match` stage: the optional project filter. */
  predicate Selected(r: Assignment, projectFilter: Option<int>) {
    projectFilter.None? || r.projectId == projectFilter.value
  }

  /** A display name resolved by a lookup on `id`: the dash when nothing
      matches, otherwise the (`$ifNull`-defaulted) name of some match. */
  predicate EmployeeNameFor(name: string, employees: seq<Employee>, id: int) {
    || ((forall e :: e in employees ==> e.id != id) && name == Dash)
    || (exists e :: e in employees && e.id == id && name == IfNull(e.fullName))
  }

  predicate ProjectNameFor(name: string, projects: seq<Project>, id: int) {
    || ((forall p :: p in projects ==> p.id != id) && name == Dash)
    || (exists p :: p in projects && p.id == id && name == IfNull(p.projectName))
  }

  predicate VehicleCodeFor(code: string, vehicles: seq<Vehicle>, id: Option<int>) {
    || ((forall v :: v in vehicles ==> !(id.Some? && v.id == id.value)) && code == Dash)
    || (exists v :: v in vehicles && id.Some? && v.id == id.value && code == IfNull(v.vehicleCode))
  }

  /** `x` carries the row's own fields. */
  predicate CopiesRow(x: Listed, r: Assignment) {
    && x.id == r.id && x.date == r.date && x.employeeId == r.employeeId
    && x.supervisorId == r.supervisorId && x.projectId == r.projectId && x.vehicleId == r.vehicleId
  }

  /** `x` is an entry drawn from row `r`: the row's own fields, and every
      name resolved through its lookup. */
  predicate DrawnFrom(x: Listed, r: Assignment, t: Tables) {
    && CopiesRow(x, r)
    && EmployeeNameFor(x.employeeName, t.employees, r.employeeId)
    && EmployeeNameFor(x.supervisorName, t.employees, r.supervisorId)
    && ProjectNameFor(x.projectName, t.projects, r.projectId)
    && VehicleCodeFor(x.vehicleCode, t.vehicles, r.vehicleId)
  }

  lemma EmployeeMatchName(employees: seq<Employee>, id: int, m: Option<Employee>)
    requires m in EmployeeMatches(employees, id)
    ensures EmployeeNameFor(EmployeeName(m), employees, id)
  {
    if m.None? {
      forall e | e in employees ensures e.id != id { }
    }
  }

  lemma ProjectMatchName(projects: seq<Project>, id: int, m: Option<Project>)
    requires m in ProjectMatches(projects, id)
    ensures ProjectNameFor(ProjectName(m), projects, id)
  {
    if m.None? {
      forall p | p in projects ensures p.id != id { }
    }
  }

  lemma VehicleMatchCode(vehicles: seq<Vehicle>, id: Option<int>, m: Option<Vehicle>)
    requires m in VehicleMatches(vehicles, id)
    ensures VehicleCodeFor(VehicleCode(m), vehicles, id)
  {
    if m.None? {
      forall v | v in vehicles ensures !(id.Some? && v.id == id.value) { }
    }
  }

  lemma VehicleLayerEntries(r: Assignment, e: Option<Employee>, s: Option<Employee>,
                            p: Option<Project>, t: Tables)
    ensures VehicleLayer(r, e, s, p, t) != []
    ensures forall x :: x in VehicleLayer(r, e, s, p, t) ==>
              && CopiesRow(x, r) && x.employeeName == EmployeeName(e)
              && x.supervisorName == EmployeeName(s) && x.projectName == ProjectName(p)
              && VehicleCodeFor(x.vehicleCode, t.vehicles, r.vehicleId)
  {
    var vs := VehicleMatches(t.vehicles, r.vehicleId);
    forall x | x in VehicleLayer(r, e, s, p, t)
      ensures VehicleCodeFor(x.vehicleCode, t.vehicles, r.vehicleId)
    {
      var v :| v in vs && x == Shape(r, e, s, p, v);
      VehicleMatchCode(t.vehicles, r.vehicleId, v);
    }
  }

  lemma ProjectLayerEntries(r: Assignment, e: Option<Employee>, s: Option<Employee>, t: Tables)
    ensures ProjectLayer(r, e, s, t) != []
    ensures forall x :: x in ProjectLayer(r, e, s, t) ==>
              && CopiesRow(x, r) && x.employeeName == EmployeeName(e)
              && x.supervisorName == EmployeeName(s)
              && ProjectNameFor(x.projectName, t.projects, r.projectId)
              && VehicleCodeFor(x.vehicleCode, t.vehicles, r.vehicleId)
  {
    var ps := ProjectMatches(t.projects, r.projectId);
    VehicleLayerEntries(r, e, s, ps[0], t);
    var x0 := VehicleLayer(r, e, s, ps[0], t)[0];
    assert x0 in VehicleLayer(r, e, s, ps[0], t);
    assert x0 in ProjectLayer(r, e, s, t);
    forall x | x in ProjectLayer(r, e, s, t)
      ensures && CopiesRow(x, r) && x.employeeName == EmployeeName(e)
              && x.supervisorName == EmployeeName(s)
              && ProjectNameFor(x.projectName, t.projects, r.projectId)
              && VehicleCodeFor(x.vehicleCode, t.vehicles, r.vehicleId)
    {
      var p :| p in ps && x in VehicleLayer(r, e, s, p, t);
      VehicleLayerEntries(r, e, s, p, t);
      ProjectMatchName(t.projects, r.projectId, p);
    }
  }

  lemma SupervisorLayerEntries(r: Assignment, e: Option<Employee>, t: Tables)
    ensures SupervisorLayer(r, e, t) != []
    ensures forall x :: x in SupervisorLayer(r, e, t) ==>
              && CopiesRow(x, r) && x.employeeName == EmployeeName(e)
              && EmployeeNameFor(x.supervisorName, t.employees, r.supervisorId)
              && ProjectNameFor(x.projectName, t.projects, r.projectId)
              && VehicleCodeFor(x.vehicleCode, t.vehicles, r.vehicleId)
  {
    var ss := EmployeeMatches(t.employees, r.supervisorId);
    ProjectLayerEntries(r, e, ss[0], t);
    var x0 := ProjectLayer(r, e, ss[0], t)[0];
    assert x0 in ProjectLayer(r, e, ss[0], t);
    assert x0 in SupervisorLayer(r, e, t);
    forall x | x in SupervisorLayer(r, e, t)
      ensures && CopiesRow(x, r) && x.employeeName == EmployeeName(e)
              && EmployeeNameFor(x.supervisorName, t.employees, r.supervisorId)
              && ProjectNameFor(x.projectName, t.projects, r.projectId)
              && VehicleCodeFor(x.vehicleCode, t.vehicles, r.vehicleId)
    {
      var s :| s in ss && x in ProjectLayer(r, e, s, t);
      ProjectLayerEntries(r, e, s, t);
      EmployeeMatchName(t.employees, r.supervisorId, s);
    }
  }

  /** Every entry a row yields is drawn from it, and every row yields at
      least one entry (nothing is lost by an unmatched lookup). */
  lemma RowEntriesDrawnFrom(r: Assignment, t: Tables)
    ensures RowEntries(r, t) != []
    ensures forall x :: x in RowEntries(r, t) ==> DrawnFrom(x, r, t)
  {
    var es := EmployeeMatches(t.employees, r.employeeId);
    SupervisorLayerEntries(r, es[0], t);
    var x0 := SupervisorLayer(r, es[0], t)[0];
    assert x0 in SupervisorLayer(r, es[0], t);
    assert x0 in RowEntries(r, t);
    forall x | x in RowEntries(r, t) ensures DrawnFrom(x, r, t) {
      var e :| e in es && x in SupervisorLayer(r, e, t);
      SupervisorLayerEntries(r, e, t);
      EmployeeMatchName(t.employees, r.employeeId, e);
    }
  }

  /** The documents reaching `$sort`. */
  function Joined(rows: seq<Assignment>, t: Tables, projectFilter: Option<int>): seq<Listed> {
    FlatMap(Filter(rows, (r: Assignment) => Selected(r, projectFilter)),
            (r: Assignment) => RowEntries(r, t))
  }

  /** Every joined entry is drawn from a selected row, and every selected
      row contributes an entry with its id. */
  lemma JoinedDrawnFromRows(rows: seq<Assignment>, t: Tables, projectFilter: Option<int>)
    ensures forall x :: x in Joined(rows, t, projectFilter) ==>
              exists r :: r in rows && Selected(r, projectFilter) && DrawnFrom(x, r, t)
    ensures forall r :: r in rows && Selected(r, projectFilter) ==>
              r.id in IdsOf(Joined(rows, t, projectFilter))
  {
    var selected := Filter(rows, (r: Assignment) => Selected(r, projectFilter));
    var js := Joined(rows, t, projectFilter);
    forall x | x in js ensures exists r :: r in rows && Selected(r, projectFilter) && DrawnFrom(x, r, t) {
      var r :| r in selected && x in RowEntries(r, t);
      RowEntriesDrawnFrom(r, t);
    }
    IdsOfSpec(js);
    forall r | r in rows && Selected(r, projectFilter) ensures r.id in IdsOf(js) {
      assert r in selected;
      RowEntriesDrawnFrom(r, t);
      var x := RowEntries(r, t)[0];
      assert x in RowEntries(r, t);
      assert x in js;
    }
  }

  // ---------------------------------------------------------------------
  // `$sort: { date: -1, id: -1 }`

  /** `a` may precede `b` in the listing: a later date, or the same date and
      a greater or equal id. */
  predicate NewerOrSame(a: Listed, b: Listed) {
    a.date > b.date || (a.date == b.date && a.id >= b.id)
  }

  predicate NewestFirst(s: seq<Listed>) {
    forall i, j :: 0 <= i < j < |s| ==> NewerOrSame(s[i], s[j])
  }

  /** Insertion of `x` in front of the first entry it may precede. */
  function Insert(x: Listed, s: seq<Listed>): (r: seq<Listed>)
    ensures multiset(r) == multiset(s) + multiset{x}
  {
    if s == [] || NewerOrSame(x, s[0]) then [x] + s
    else
      assert s == [s[0]] + s[1..];
      [s[0]] + Insert(x, s[1..])
  }

  /** An entry at least as new as every entry of a sorted sequence can go
      in front of it. */
  lemma ConsNewestFirst(y: Listed, t: seq<Listed>)
    requires NewestFirst(t)
    requires forall z :: z in t ==> NewerOrSame(y, z)
    ensures NewestFirst([y] + t)
  {
    var r := [y] + t;
    forall i, j | 0 <= i < j < |r| ensures NewerOrSame(r[i], r[j]) {
      if i == 0 {
        assert r[j] == t[j - 1] && t[j - 1] in t;
      } else {
        assert r[i] == t[i - 1] && r[j] == t[j - 1];
      }
    }
  }

  /** Inserting into a sorted sequence keeps it sorted. */
  lemma {:induction false} InsertKeepsOrder(x: Listed, s: seq<Listed>)
    requires NewestFirst(s)
    ensures NewestFirst(Insert(x, s))
  {
    if s == [] || NewerOrSame(x, s[0]) {
      forall z | z in s ensures NewerOrSame(x, z) {
        var k :| 0 <= k < |s| && s[k] == z;
        if k > 0 {
          assert NewerOrSame(s[0], s[k]);
        }
      }
      ConsNewestFirst(x, s);
    } else {
      var tail := s[1..];
      assert NewestFirst(tail) by {
        forall i, j | 0 <= i < j < |tail| ensures NewerOrSame(tail[i], tail[j]) {
          assert tail[i] == s[i + 1] && tail[j] == s[j + 1];
        }
      }
      InsertKeepsOrder(x, tail);
      var r := Insert(x, tail);
      forall z | z in r ensures NewerOrSame(s[0], z) {
        assert z in multiset(r);
        if z != x {
          assert z in multiset(tail);
          var k :| 0 <= k < |tail| && tail[k] == z;
          assert NewerOrSame(s[0], s[k + 1]);
        }
      }
      ConsNewestFirst(s[0], r);
    }
  }

  /** The `$sort` stage, as a stable insertion sort. */
  function SortNewestFirst(s: seq<Listed>): (r: seq<Listed>)
    ensures multiset(r) == multiset(s)
    ensures NewestFirst(r)
  {
    if s == [] then []
    else
      assert s == [s[0]] + s[1..];
      var sortedTail := SortNewestFirst(s[1..]);
      InsertKeepsOrder(s[0], sortedTail);
      Insert(s[0], sortedTail)
  }

  // ---------------------------------------------------------------------
  // `Array.from(new Map(data.map(a => [a.id, a])).values())`

  function IndexOfId(acc: seq<Listed>, id: int): Option<nat> {
    FirstWhere(acc, (a: Listed) => a.id == id)
  }

  /** `map.set(e.id, e)`: a known key keeps its position and takes the new
      value; a new key goes last. */
  function Put(acc: seq<Listed>, e: Listed): seq<Listed> {
    match IndexOfId(acc, e.id)
    case Some(k) => acc[k := e]
    case None => acc + [e]
  }

  predicate UniqueListedIds(s: seq<Listed>) {
    forall i, j :: 0 <= i < j < |s| ==> s[i].id != s[j].id
  }

  /** The values of the map after inserting every entry of `s` in order. */
  function DedupById(s: seq<Listed>): seq<Listed> {
    DedupFirst(s, |s|)
  }

  /** The values of the map after inserting the first `n` entries of `s`. */
  function DedupFirst(s: seq<Listed>, n: nat): seq<Listed>
    requires n <= |s|
  {
    if n == 0 then [] else Put(DedupFirst(s, n - 1), s[n - 1])
  }

  /** What one `set` does to the map's values. */
  lemma PutFacts(acc: seq<Listed>, e: Listed)
    ensures IndexOfId(acc, e.id).Some? ==>
              var k := IndexOfId(acc, e.id).value;
              k < |acc| && acc[k].id == e.id && Put(acc, e) == acc[k := e]
    ensures IndexOfId(acc, e.id).None? ==>
              (forall y :: y in acc ==> y.id != e.id) && Put(acc, e) == acc + [e]
  {
  }

  /** `set` keeps the keys distinct. */
  lemma PutKeepsUnique(acc: seq<Listed>, e: Listed)
    requires UniqueListedIds(acc)
    ensures UniqueListedIds(Put(acc, e))
  {
    PutFacts(acc, e);
  }

  /** `set` keeps every old key in its slot and adds at most one slot, for
      a key new to the map. */
  lemma PutShape(acc: seq<Listed>, e: Listed)
    ensures |acc| <= |Put(acc, e)| <= |acc| + 1
    ensures forall p :: 0 <= p < |acc| ==> Put(acc, e)[p].id == acc[p].id
    ensures |Put(acc, e)| == |acc| + 1 ==>
              Put(acc, e)[|acc|] == e && forall y :: y in acc ==> y.id != e.id
  {
    PutFacts(acc, e);
  }

  /** With distinct keys, every slot after `set` holds either the new value
      or the old value of a different key. */
  lemma PutOtherSlots(acc: seq<Listed>, e: Listed)
    requires UniqueListedIds(acc)
    ensures forall p :: 0 <= p < |Put(acc, e)| ==>
              Put(acc, e)[p] == e || (p < |acc| && Put(acc, e)[p] == acc[p] && acc[p].id != e.id)
  {
    PutFacts(acc, e);
    var out := Put(acc, e);
    forall p | 0 <= p < |out| && out[p] != e
      ensures p < |acc| && out[p] == acc[p] && acc[p].id != e.id
    {
      assert acc[p] in acc;
    }
  }

  /** `set` stores only the old values and the new one. */
  lemma PutMembers(acc: seq<Listed>, e: Listed)
    ensures e in Put(acc, e)
    ensures forall x :: x in Put(acc, e) ==> x in acc || x == e
  {
    PutFacts(acc, e);
    if IndexOfId(acc, e.id).Some? {
      var k := IndexOfId(acc, e.id).value;
      assert Put(acc, e)[k] == e;
      forall x | x in Put(acc, e) ensures x in acc || x == e {
        var p :| 0 <= p < |Put(acc, e)| && Put(acc, e)[p] == x;
        if p != k { assert acc[p] == x; }
      }
    } else {
      assert Put(acc, e)[|acc|] == e;
    }
  }

  /** The ids of the first `n` entries of `s`. */
  function IdsOfFirst(s: seq<Listed>, n: nat): set<int>
    requires n <= |s|
  {
    if n == 0 then {} else IdsOfFirst(s, n - 1) + {s[n - 1].id}
  }

  /** The ids of `s`. */
  function IdsOf(s: seq<Listed>): set<int> {
    IdsOfFirst(s, |s|)
  }

  lemma {:induction false} IdsOfFirstSpec(s: seq<Listed>, n: nat)
    requires n <= |s|
    ensures forall i :: 0 <= i < n ==> s[i].id in IdsOfFirst(s, n)
    ensures forall id :: id in IdsOfFirst(s, n) ==> exists i :: 0 <= i < n && s[i].id == id
  {
    if n > 0 {
      IdsOfFirstSpec(s, n - 1);
    }
  }

  lemma IdsOfSpec(s: seq<Listed>)
    ensures forall x :: x in s ==> x.id in IdsOf(s)
    ensures forall id :: id in IdsOf(s) ==> exists x :: x in s && x.id == id
  {
    IdsOfFirstSpec(s, |s|);
  }

  /** `set` adds its key to the map's keys. */
  lemma PutKeys(acc: seq<Listed>, e: Listed)
    ensures IdsOf(Put(acc, e)) == IdsOf(acc) + {e.id}
  {
    PutFacts(acc, e);
    PutMembers(acc, e);
    IdsOfSpec(acc);
    IdsOfSpec(Put(acc, e));
    var out := Put(acc, e);
    forall id ensures id in IdsOf(out) <==> id in IdsOf(acc) + {e.id} {
      if id in IdsOf(out) {
        var x :| x in out && x.id == id;
        assert x in acc || x == e;
      }
      if id in IdsOf(acc) {
        var y :| y in acc && y.id == id;
        var p :| 0 <= p < |acc| && acc[p] == y;
        assert out[p] in out && out[p].id == id;
      }
    }
  }

  /** After `n` insertions the map holds each id once. */
  lemma {:induction false} DedupFirstUnique(s: seq<Listed>, n: nat)
    requires n <= |s|
    ensures UniqueListedIds(DedupFirst(s, n))
  {
    if n > 0 {
      DedupFirstUnique(s, n - 1);
      PutKeepsUnique(DedupFirst(s, n - 1), s[n - 1]);
    }
  }

  /** After `n` insertions the map holds only values among the first `n`
      entries. */
  lemma {:induction false} DedupFirstMembers(s: seq<Listed>, n: nat)
    requires n <= |s|
    ensures forall x :: x in DedupFirst(s, n) ==> exists i :: 0 <= i < n && s[i] == x
  {
    if n > 0 {
      DedupFirstMembers(s, n - 1);
      PutMembers(DedupFirst(s, n - 1), s[n - 1]);
    }
  }

  /** After `n` insertions the map's keys are the ids of the first `n`
      entries. */
  lemma {:induction false} DedupFirstKeys(s: seq<Listed>, n: nat)
    requires n <= |s|
    ensures IdsOf(DedupFirst(s, n)) == IdsOfFirst(s, n)
  {
    if n > 0 {
      DedupFirstKeys(s, n - 1);
      PutKeys(DedupFirst(s, n - 1), s[n - 1]);
    }
  }

  /** Every entry of `d` is the LAST of the first `n` entries of `s` with
      its id. */
  predicate LastValuesKept(s: seq<Listed>, n: nat, d: seq<Listed>)
    requires n <= |s|
  {
    forall p :: 0 <= p < |d| ==>
      exists i :: 0 <= i < n && s[i] == d[p] &&
        forall j :: i < j < n ==> s[j].id != d[p].id
  }

  /** Each id keeps the value of its LAST occurrence in the input. */
  lemma {:induction false} DedupFirstLastValue(s: seq<Listed>, n: nat)
    requires n <= |s|
    ensures LastValuesKept(s, n, DedupFirst(s, n))
  {
    if n > 0 {
      DedupFirstLastValue(s, n - 1);
      DedupFirstUnique(s, n - 1);
      LastValuesPut(s, n, DedupFirst(s, n - 1));
    } else {
      assert DedupFirst(s, n) == [];
    }
  }

  lemma LastValuesPut(s: seq<Listed>, n: nat, acc: seq<Listed>)
    requires 0 < n <= |s|
    requires UniqueListedIds(acc)
    requires LastValuesKept(s, n - 1, acc)
    ensures LastValuesKept(s, n, Put(acc, s[n - 1]))
  {
    PutOtherSlots(acc, s[n - 1]);
    LastValuesStep(s, n, acc, Put(acc, s[n - 1]));
  }

  /** One `set` of entry `n - 1`: its slot now holds that entry, and every
      other slot keeps a value whose id entry `n - 1` does not carry. */
  lemma LastValuesStep(s: seq<Listed>, n: nat, acc: seq<Listed>, out: seq<Listed>)
    requires 0 < n <= |s|
    requires LastValuesKept(s, n - 1, acc)
    requires forall p :: 0 <= p < |out| ==>
               out[p] == s[n - 1] || (p < |acc| && out[p] == acc[p] && acc[p].id != s[n - 1].id)
    ensures LastValuesKept(s, n, out)
  {
    var e := s[n - 1];
    forall p | 0 <= p < |out|
      ensures exists i :: 0 <= i < n && s[i] == out[p] &&
                forall j :: i < j < n ==> s[j].id != out[p].id
    {
      if out[p] == e {
        assert s[n - 1] == out[p];
      } else {
        var i :| 0 <= i < n - 1 && s[i] == acc[p] &&
                 forall j :: i < j < n - 1 ==> s[j].id != acc[p].id;
      }
    }
  }

  /** Some one of the first `m` entries of `s` carries `id`. */
  predicate Occurs(s: seq<Listed>, m: nat, id: int)
    requires m <= |s|
  {
    exists i :: 0 <= i < m && s[i].id == id
  }

  /** Of any two entries of `d`, the earlier one's id occurs among the first
      `n` entries of `s` before any occurrence of the later one's id. */
  predicate FirstPositionsKept(s: seq<Listed>, n: nat, d: seq<Listed>)
    requires n <= |s|
  {
    forall p, q :: 0 <= p < q < |d| ==> Precedes(s, n, d[p].id, d[q].id)
  }

  /** Among the first `n` entries of `s`, `a` occurs before any
      occurrence of `b`. */
  predicate Precedes(s: seq<Listed>, n: nat, a: int, b: int)
    requires n <= |s|
  {
    exists i :: 0 <= i < n && s[i].id == a && forall j :: 0 <= j <= i ==> s[j].id != b
  }

  /** Each id keeps the position of its FIRST occurrence. */
  lemma {:induction false} DedupFirstFirstPosition(s: seq<Listed>, n: nat)
    requires n <= |s|
    ensures FirstPositionsKept(s, n, DedupFirst(s, n))
  {
    if n > 0 {
      DedupFirstFirstPosition(s, n - 1);
      DedupFirstKeys(s, n - 1);
      FirstPositionsPut(s, n, DedupFirst(s, n - 1));
    } else {
      assert DedupFirst(s, n) == [];
    }
  }

  lemma FirstPositionsPut(s: seq<Listed>, n: nat, acc: seq<Listed>)
    requires 0 < n <= |s|
    requires IdsOf(acc) == IdsOfFirst(s, n - 1)
    requires FirstPositionsKept(s, n - 1, acc)
    ensures FirstPositionsKept(s, n, Put(acc, s[n - 1]))
  {
    PutShape(acc, s[n - 1]);
    PrefixKeys(s, n - 1, acc, s[n - 1]);
    FirstPositionsStep(s, n, acc, Put(acc, s[n - 1]));
  }

  /** When the map's keys are the ids of the first `m` entries, each key
      occurs among them, and a key absent from the map occurs nowhere
      among them. */
  lemma PrefixKeys(s: seq<Listed>, m: nat, acc: seq<Listed>, e: Listed)
    requires m <= |s|
    requires IdsOf(acc) == IdsOfFirst(s, m)
    ensures forall p :: 0 <= p < |acc| ==> Occurs(s, m, acc[p].id)
    ensures (forall y :: y in acc ==> y.id != e.id) ==> forall j :: 0 <= j < m ==> s[j].id != e.id
  {
    IdsOfSpec(acc);
    IdsOfFirstSpec(s, m);
    forall p | 0 <= p < |acc| ensures Occurs(s, m, acc[p].id) {
      assert acc[p] in acc;
    }
    if forall y :: y in acc ==> y.id != e.id {
      forall j | 0 <= j < m ensures s[j].id != e.id {
        assert s[j].id in IdsOf(acc);
      }
    }
  }

  /** One `set` of entry `n - 1` keeps the order of the keys already there
      and puts a new key after all of them. */
  lemma FirstPositionsStep(s: seq<Listed>, n: nat, acc: seq<Listed>, out: seq<Listed>)
    requires 0 < n <= |s|
    requires FirstPositionsKept(s, n - 1, acc)
    requires forall p :: 0 <= p < |acc| ==> Occurs(s, n - 1, acc[p].id)
    requires |acc| <= |out| <= |acc| + 1
    requires forall p :: 0 <= p < |acc| ==> out[p].id == acc[p].id
    requires |out| == |acc| + 1 ==>
               out[|acc|] == s[n - 1] && forall j :: 0 <= j < n - 1 ==> s[j].id != s[n - 1].id
    ensures FirstPositionsKept(s, n, out)
  {
    forall p, q | 0 <= p < q < |out| ensures Precedes(s, n, out[p].id, out[q].id) {
      FirstPositionPair(s, n, acc, out, p, q);
    }
  }

  /** The step above for one pair of slots. */
  lemma FirstPositionPair(s: seq<Listed>, n: nat, acc: seq<Listed>, out: seq<Listed>, p: nat, q: nat)
    requires 0 < n <= |s|
    requires FirstPositionsKept(s, n - 1, acc)
    requires p < |acc| ==> Occurs(s, n - 1, acc[p].id)
    requires |acc| <= |out| <= |acc| + 1
    requires p < |acc| ==> out[p].id == acc[p].id
    requires q < |acc| ==> out[q].id == acc[q].id
    requires |out| == |acc| + 1 ==>
               out[|acc|] == s[n - 1] && forall j :: 0 <= j < n - 1 ==> s[j].id != s[n - 1].id
    requires p < q < |out|
    ensures Precedes(s, n, out[p].id, out[q].id)
  {
    if q < |acc| {
      assert Precedes(s, n - 1, acc[p].id, acc[q].id);
      var k :| 0 <= k < n - 1 && s[k].id == acc[p].id &&
               forall j :: 0 <= j <= k ==> s[j].id != acc[q].id;
    } else {
      var k :| 0 <= k < n - 1 && s[k].id == acc[p].id;
      assert forall j :: 0 <= j <= k ==> s[j].id != out[q].id;
    }
  }

  /** Entries sharing an id share a date. */
  predicate DateFollowsId(s: seq<Listed>) {
    forall x, y :: x in s && y in s && x.id == y.id ==> x.date == y.date
  }

  /** The map keeps newest-first order when entries sharing an id share a
      date: a replaced value has the same sort key as the one it replaces,
      and a new key goes after entries that are all at least as new. */
  lemma {:induction false} DedupFirstNewestFirst(s: seq<Listed>, n: nat)
    requires n <= |s|
    requires NewestFirst(s)
    requires DateFollowsId(s)
    ensures NewestFirst(DedupFirst(s, n))
  {
    if n > 0 {
      DedupFirstNewestFirst(s, n - 1);
      var acc := DedupFirst(s, n - 1);
      var e := s[n - 1];
      PutFacts(acc, e);
      EarlierEntriesAreNewer(s, n);
      if IndexOfId(acc, e.id).Some? {
        var k := IndexOfId(acc, e.id).value;
        assert acc[k] in acc;
        ReplaceKeepsOrder(acc, k, e);
      } else {
        AppendKeepsOrder(acc, e);
      }
    }
  }

  /** Every value in the map after `n - 1` insertions is at least as new as
      entry `n - 1`, and shares its date when it shares its id. */
  lemma EarlierEntriesAreNewer(s: seq<Listed>, n: nat)
    requires 0 < n <= |s|
    requires NewestFirst(s)
    requires DateFollowsId(s)
    ensures forall x :: x in DedupFirst(s, n - 1) ==>
              NewerOrSame(x, s[n - 1]) && (x.id == s[n - 1].id ==> x.date == s[n - 1].date)
  {
    DedupFirstMembers(s, n - 1);
    forall x | x in DedupFirst(s, n - 1)
      ensures NewerOrSame(x, s[n - 1]) && (x.id == s[n - 1].id ==> x.date == s[n - 1].date)
    {
      var i :| 0 <= i < n - 1 && s[i] == x;
      assert s[n - 1] in s;
    }
  }

  /** Replacing a value by one with the same id and date keeps the order. */
  lemma ReplaceKeepsOrder(acc: seq<Listed>, k: nat, e: Listed)
    requires NewestFirst(acc)
    requires k < |acc| && acc[k].id == e.id && acc[k].date == e.date
    ensures NewestFirst(acc[k := e])
  {
    var out := acc[k := e];
    forall a, b | 0 <= a < b < |out| ensures NewerOrSame(out[a], out[b]) {
      assert NewerOrSame(acc[a], acc[b]);
    }
  }

  /** Appending a value no newer than any present keeps the order. */
  lemma AppendKeepsOrder(acc: seq<Listed>, e: Listed)
    requires NewestFirst(acc)
    requires forall x :: x in acc ==> NewerOrSame(x, e)
    ensures NewestFirst(acc + [e])
  {
    var out := acc + [e];
    forall a, b | 0 <= a < b < |out| ensures NewerOrSame(out[a], out[b]) {
      assert out[a] == acc[a];
      if b == |acc| {
        assert acc[a] in acc;
      } else {
        assert out[b] == acc[b];
      }
    }
  }

  /** The map's values: one entry per id, each an entry of the input, and
      its keys exactly the ids of the input. */
  lemma DedupBasics(s: seq<Listed>)
    ensures UniqueListedIds(DedupById(s))
    ensures forall x :: x in DedupById(s) ==> x in s
    ensures IdsOf(DedupById(s)) == IdsOf(s)
  {
    DedupFirstUnique(s, |s|);
    DedupFirstMembers(s, |s|);
    DedupFirstKeys(s, |s|);
  }

  /** Each id keeps the value of its last occurrence in the input. */
  lemma DedupKeepsLastValue(s: seq<Listed>)
    ensures LastValuesKept(s, |s|, DedupById(s))
  {
    DedupFirstLastValue(s, |s|);
  }

  /** Each id keeps the position of its first occurrence in the input. */
  lemma DedupKeepsFirstPosition(s: seq<Listed>)
    ensures FirstPositionsKept(s, |s|, DedupById(s))
  {
    DedupFirstFirstPosition(s, |s|);
  }

  // ---------------------------------------------------------------------

  /** Reordering keeps the elements and their ids. */
  lemma ReorderKeepsIds(a: seq<Listed>, b: seq<Listed>)
    requires multiset(a) == multiset(b)
    ensures forall x :: x in a <==> x in b
    ensures IdsOf(a) == IdsOf(b)
  {
    forall x ensures x in a <==> x in b {
      assert x in a <==> x in multiset(a);
      assert x in b <==> x in multiset(b);
    }
    IdsOfSpec(a);
    IdsOfSpec(b);
    forall id ensures id in IdsOf(a) <==> id in IdsOf(b) {
      if id in IdsOf(a) {
        var x :| x in a && x.id == id;
      }
      if id in IdsOf(b) {
        var x :| x in b && x.id == id;
      }
    }
  }

  /** The whole handler's data: one entry per id, each drawn from a selected
      row and its joins, and every selected row's id listed. */
  function ListAssignments(rows: seq<Assignment>, t: Tables, projectFilter: Option<int>): (out: seq<Listed>)
    ensures UniqueListedIds(out)
    ensures forall x :: x in out ==> exists r :: r in rows && Selected(r, projectFilter) && DrawnFrom(x, r, t)
    ensures forall r :: r in rows && Selected(r, projectFilter) ==> r.id in IdsOf(out)
  {
    var joined := Joined(rows, t, projectFilter);
    var sorted := SortNewestFirst(joined);
    JoinedDrawnFromRows(rows, t, projectFilter);
    ReorderKeepsIds(sorted, joined);
    DedupBasics(sorted);
    DedupById(sorted)
  }

  /** With a project filter, every entry belongs to that project. */
  lemma FilterRespected(rows: seq<Assignment>, t: Tables, projectId: int)
    ensures forall x :: x in ListAssignments(rows, t, Some(projectId)) ==> x.projectId == projectId
  {
  }

  /** Over a collection whose ids are unique, joined entries sharing an id
      come from the same row and so share its date. */
  lemma JoinedDateFollowsId(rows: seq<Assignment>, t: Tables, projectFilter: Option<int>)
    requires UniqueIds(rows)
    ensures DateFollowsId(Joined(rows, t, projectFilter))
  {
    var joined := Joined(rows, t, projectFilter);
    JoinedDrawnFromRows(rows, t, projectFilter);
    forall x, y | x in joined && y in joined && x.id == y.id ensures x.date == y.date {
      var rx :| rx in rows && Selected(rx, projectFilter) && DrawnFrom(x, rx, t);
      var ry :| ry in rows && Selected(ry, projectFilter) && DrawnFrom(y, ry, t);
      var a :| 0 <= a < |rows| && rows[a] == rx;
      var b :| 0 <= b < |rows| && rows[b] == ry;
      assert a == b;
    }
  }

  /** Over a collection whose ids are unique the listing is ordered by date,
      then id, both descending. */
  lemma ListingIsNewestFirst(rows: seq<Assignment>, t: Tables, projectFilter: Option<int>)
    requires UniqueIds(rows)
    ensures NewestFirst(ListAssignments(rows, t, projectFilter))
  {
    var joined := Joined(rows, t, projectFilter);
    var sorted := SortNewestFirst(joined);
    JoinedDateFollowsId(rows, t, projectFilter);
    ReorderKeepsIds(sorted, joined);
    assert DateFollowsId(sorted);
    DedupFirstNewestFirst(sorted, |sorted|);
    assert ListAssignments(rows, t, projectFilter) == DedupFirst(sorted, |sorted|);
  }

  /** A row joined against empty tables: every looked-up field absent. */
  function Unmatched(r: Assignment): Listed {
    Shape(r, None, None, None, None)
  }

  /** Against empty tables every unwind keeps its single absent value, so a
      row yields exactly one entry. */
  lemma RowEntriesWithoutTables(r: Assignment)
    ensures RowEntries(r, Tables([], [], [])) == [Unmatched(r)]
  {
    var t := Tables([], [], []);
    assert VehicleMatches(t.vehicles, r.vehicleId) == [None];
    assert ProjectMatches(t.projects, r.projectId) == [None];
    assert EmployeeMatches(t.employees, r.supervisorId) == [None];
    assert EmployeeMatches(t.employees, r.employeeId) == [None];
    assert VehicleLayer(r, None, None, None, t) == [Unmatched(r)];
    FlatMapSingle(None, (p: Option<Project>) => VehicleLayer(r, None, None, p, t));
    FlatMapSingle(None, (s: Option<Employee>) => ProjectLayer(r, None, s, t));
    FlatMapSingle(None, (e: Option<Employee>) => SupervisorLayer(r, e, t));
  }

  /** The join of a collection with one more row in front. */
  lemma JoinedCons(r: Assignment, rows: seq<Assignment>, t: Tables, projectFilter: Option<int>)
    ensures Joined([r] + rows, t, projectFilter) ==
              (if Selected(r, projectFilter) then RowEntries(r, t) else []) + Joined(rows, t, projectFilter)
  {
    assert ([r] + rows)[1..] == rows;
    if Selected(r, projectFilter) {
      var kept := Filter(rows, (x: Assignment) => Selected(x, projectFilter));
      assert ([r] + kept)[1..] == kept;
    }
  }

  /** Without tables and without a filter, the join is one entry per row,
      in collection order. */
  lemma {:induction false} JoinedWithoutTables(rows: seq<Assignment>)
    ensures Joined(rows, Tables([], [], []), None) == MapSeq(rows, Unmatched)
  {
    var t := Tables([], [], []);
    if rows == [] {
      assert Joined(rows, t, None) == [];
    } else {
      JoinedCons(rows[0], rows[1..], t, None);
      assert [rows[0]] + rows[1..] == rows;
      JoinedWithoutTables(rows[1..]);
      RowEntriesWithoutTables(rows[0]);
      MapSeqCons(rows[0], rows[1..], Unmatched);
    }
  }

  /** Without tables and without a filter, the listing is the map built
      from the sorted per-row entries. */
  lemma ListingWithoutTables(rows: seq<Assignment>)
    ensures ListAssignments(rows, Tables([], [], []), None) ==
              DedupById(SortNewestFirst(MapSeq(rows, Unmatched)))
  {
    JoinedWithoutTables(rows);
  }

  /** Three entries already newest first stay as they are. */
  lemma SortThreeSorted(x0: Listed, x1: Listed, x2: Listed)
    requires NewerOrSame(x0, x1) && NewerOrSame(x1, x2)
    ensures SortNewestFirst([x0, x1, x2]) == [x0, x1, x2]
  {
    SortStep(x2, []);
    SortStep(x1, [x2]);
    SortStep(x0, [x1, x2]);
  }

  /** Sorting a sequence whose first entry may precede the already sorted
      rest leaves it in front. */
  lemma SortStep(x: Listed, s: seq<Listed>)
    requires SortNewestFirst(s) == s
    requires s == [] || NewerOrSame(x, s[0])
    ensures SortNewestFirst([x] + s) == [x] + s
  {
    assert ([x] + s)[1..] == s;
  }

  /** When the first and last of three entries share an id, the map keeps
      that id's position in front and the last entry's value. */
  lemma DedupThreeReused(x0: Listed, x1: Listed, x2: Listed)
    requires x0.id == x2.id && x0.id != x1.id
    ensures DedupById([x0, x1, x2]) == [x2, x1]
  {
    var s := [x0, x1, x2];
    assert DedupFirst(s, 1) == [x0];
    assert IndexOfId([x0], x1.id).None?;
    assert DedupFirst(s, 2) == [x0, x1];
    assert IndexOfId([x0, x1], x2.id) == Some(0);
  }

  /** Three entries already newest first, the first and last sharing an
      id: the listing keeps that id in front with the last entry's value. */
  lemma SortedThreeReused(x0: Listed, x1: Listed, x2: Listed)
    requires NewerOrSame(x0, x1) && NewerOrSame(x1, x2)
    requires x0.id == x2.id && x0.id != x1.id
    ensures DedupById(SortNewestFirst([x0, x1, x2])) == [x2, x1]
  {
    SortThreeSorted(x0, x1, x2);
    DedupThreeReused(x0, x1, x2);
  }

  /** Without unique ids the order can break: when the first and last of
      three rows share an id and the rows are on strictly decreasing dates,
      the listing puts that id first, with the value of the oldest row. */
  lemma ReusedIdBreaksOrder(a: Assignment, b: Assignment, c: Assignment)
    requires a.id == c.id && a.id != b.id
    requires a.date > b.date > c.date
    ensures ListAssignments([a, b, c], Tables([], [], []), None) == [Unmatched(c), Unmatched(b)]
  {
    ListingWithoutTables([a, b, c]);
    MapSeqThree(a, b, c, Unmatched);
    SortedThreeReused(Unmatched(a), Unmatched(b), Unmatched(c));
  }

  /** For instance, two rows with id 5 on days 3 and 1 around a row with
      id 4 on day 2: the listing is not newest first. */
  lemma ReusedIdCanBreakOrder()
    ensures exists a: Assignment, b: Assignment, c: Assignment ::
              !NewestFirst(ListAssignments([a, b, c], Tables([], [], []), None))
  {
    var a := Assignment(5, 1, 1, None, 1, None, 3, 1);
    var b := Assignment(4, 1, 1, None, 2, None, 2, 1);
    var c := Assignment(5, 1, 1, None, 3, None, 1, 1);
    ReusedIdBreaksOrder(a, b, c);
    var out := ListAssignments([a, b, c], Tables([], [], []), None);
    assert out[0] == Unmatched(c) && out[1] == Unmatched(b);
    assert !NewerOrSame(out[0], out[1]);
  }

}
