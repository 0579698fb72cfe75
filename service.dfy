/** The in-memory employee store: a keyed table of employee records updated in
    place, with insert-if-absent, a department-filtered snapshot, a shallow
    merge into an existing record, and removal. Failures are returned as
    values rather than thrown. */
module Service {
  import opened Employees

  /** The two failure kinds the store raises, each carrying the offending id. */
  datatype StoreError = AlreadyExists(id: string) | NotFound(id: string)

  datatype Result<T> = Ok(value: T) | Err(error: StoreError)

  /** The message each error is constructed with: a common prefix, the id,
      then a suffix naming the kind. */
  function Message(e: StoreError): (m: string)
    ensures |m| > 17 + |e.id| && m[..17] == "Employee with id "
    ensures m[17..17 + |e.id|] == e.id
    ensures m[|m| - 1] == if e.AlreadyExists? then 's' else 'd'
  {
    match e
    case AlreadyExists(id) => "Employee with id " + id + " already exists"
    case NotFound(id) => "Employee with id " + id + " not found"
  }

  /** The message alone tells which error it was and which id it carries. */
  lemma MessageDeterminesError(a: StoreError, b: StoreError)
    requires Message(a) == Message(b)
    ensures a == b
  {
  }

  /** The store. `employees` is the Map; `order` is its key-insertion order,
      which is the order in which the Map yields its values. */
  class EmployeesServiceMap {
    var employees: map<string, Employee>
    var order: seq<string>

    /** The order lists every key of the map exactly once. The second
        invariant, that every record's id is its key (`IdsMatch`), is stated
        separately because an update can break it. */
    ghost predicate Valid()
      reads this
    {
      NoDuplicates(order) && forall k :: k in employees <==> k in order
    }

    constructor ()
      ensures Valid() && IdsMatch(employees)
      ensures employees == map[] && order == []
    {
      employees := map[];
      order := [];
    }

    /** `addEmployee`: the record's own id, or `generated` when the id is null
        or undefined, must not be a key yet; the record is stored under it
        with its id set, and returned. */
    method AddEmployee(empl: Employee, generated: string) returns (r: Result<Employee>)
      requires Valid()
      requires HasStringOrNullId(empl)
      modifies this
      ensures Valid()
      ensures old(IdsMatch(employees)) ==> IdsMatch(employees)
      ensures var id := ChosenId(empl, generated);
        if id in old(employees) then
          r == Err(AlreadyExists(id)) && employees == old(employees) && order == old(order)
        else
          && r == Ok(WithId(empl, id))
          && employees == old(employees)[id := WithId(empl, id)]
          && order == old(order) + [id]
    {
      var id := ChosenId(empl, generated);
      if id in employees {
        return Err(AlreadyExists(id));
      }
      var stored := WithId(empl, id);
      employees := employees[id := stored];
      order := order + [id];
      r := Ok(stored);
    }

    /** `getAll`: every stored record in insertion order, or, for a non-empty
        department, those records whose department is exactly it. */
    function GetAll(department: Option<string>): (r: seq<Employee>)
      reads this
      requires Valid()
      ensures !FilterActive(department) ==>
        |r| == |order| && forall i :: 0 <= i < |order| ==> r[i] == employees[order[i]]
      ensures FilterActive(department) ==>
        forall x :: x in r <==> x in employees.Values && InDepartment(x, department.value)
      ensures IsSubsequence(r, Snapshot(order, employees))
      ensures IdsMatch(employees) ==> NoDuplicates(r)
    {
      var all := Snapshot(order, employees);
      SnapshotMembership(order, employees);
      SnapshotNoDuplicates(order, employees);
      if FilterActive(department) then
        FilterMembership(all, department.value);
        FilterIsSubsequence(all, department.value);
        FilterKeepsNoDuplicates(all, department.value);
        FilterByDepartment(all, department.value)
      else
        SubsequenceReflexive(all);
        all
    }

    /** `updateEmployee`: merges the patch into the record stored under `id`
        and returns the merged record; the keys and their order never change. */
    method UpdateEmployee(id: string, patch: Employee) returns (r: Result<Employee>)
      requires Valid()
      modifies this
      ensures Valid()
      ensures order == old(order)
      ensures id !in old(employees) ==> r == Err(NotFound(id)) && employees == old(employees)
      ensures id in old(employees) ==>
        && r == Ok(Merge(old(employees)[id], patch))
        && employees == old(employees)[id := Merge(old(employees)[id], patch)]
      ensures old(IdsMatch(employees)) && id in old(employees) ==> (IdsMatch(employees) <==> KeepsId(patch, id))
      ensures old(IdsMatch(employees)) && id !in old(employees) ==> IdsMatch(employees)
    {
      if id !in employees {
        return Err(NotFound(id));
      }
      var existing := employees[id];
      if IdsMatch(employees) {
        MergeKeepsId(existing, patch, id);
      }
      var merged := Merge(existing, patch);
      employees := employees[id := merged];
      r := Ok(merged);
    }

    /** `deleteEmployee`: removes the record stored under `id` and returns it;
        the remaining keys keep their order. */
    method DeleteEmployee(id: string) returns (r: Result<Employee>)
      requires Valid()
      modifies this
      ensures Valid()
      ensures id !in old(employees) ==>
        r == Err(NotFound(id)) && employees == old(employees) && order == old(order)
      ensures id in old(employees) ==>
        && r == Ok(old(employees)[id])
        && employees == old(employees) - {id}
        && order == RemoveKey(old(order), id)
      ensures old(IdsMatch(employees)) ==> IdsMatch(employees)
      ensures old(IdsMatch(employees)) && r.Ok? ==> r.value !in GetAll(None)
    {
      if id !in employees {
        return Err(NotFound(id));
      }
      var existing := employees[id];
      RemoveKeyMembership(order, id);
      RemoveKeyNoDuplicates(order, id);
      employees := employees - {id};
      order := RemoveKey(order, id);
      r := Ok(existing);
      if old(IdsMatch(employees)) {
        assert existing["id"] == Str(id);
        SnapshotMembership(order, employees);
      }
    }
  }

  /** The end-to-end scenario of the service, followed through the contracts
      above: create, list, filter, update, delete, delete again. */
  method EndToEndScenario()
  {
    var store := new EmployeesServiceMap();
    var ann: Employee := map["name" := Str("Ann"), "department" := Str("Sales")];
    var created := store.AddEmployee(ann, "3b1f");
    assert created == Ok(ann["id" := Str("3b1f")]);
    var stored := created.value;
    assert stored["department"] == Str("Sales");

    var all := store.GetAll(None);
    assert all == [stored];

    var hr := store.GetAll(Some("HR"));
    assert !InDepartment(stored, "HR");
    assert stored !in hr;

    var updated := store.UpdateEmployee("3b1f", map["department" := Str("HR")]);
    assert updated.Ok?;
    var after := updated.value;
    assert after["department"] == Str("HR") && after["name"] == Str("Ann") && after["id"] == Str("3b1f");

    var deleted := store.DeleteEmployee("3b1f");
    assert deleted == Ok(after);
    assert store.GetAll(None) == [];

    var again := store.DeleteEmployee("3b1f");
    assert again == Err(NotFound("3b1f"));
  }
}
