# Employee store model

A Dafny model of the in-memory employee store of a small CRUD service
(`EmployeesServiceMap`). The store is a JavaScript `Map` from employee id to
employee record. Four operations work on it:

- `addEmployee`: insert if absent. The record's own id is used, or a
  generated one when the id is null or undefined.
- `getAll`: a snapshot of the stored records in insertion order, which can be
  narrowed to one department.
- `updateEmployee`: a shallow `Object.assign` merge into an existing record.
- `deleteEmployee`: removes a record and returns it.

The first of the two error kinds, `AlreadyExistsError`, is raised by
`addEmployee`. The second, `NotFoundError`, is raised by update and delete.

Files:

- `employees.dfy` (module `Employees`): records as values and the pure pieces
  the store is built from. These are id selection, setting the id, the shallow
  merge, the department filter, the snapshot of values in key order, and
  removing a key from that order. The lemmas about them are here too.
- `service.dfy` (module `Service`): the error kinds and their messages, and the
  class `EmployeesServiceMap`. The class has two fields: the map `employees`
  and `order`, the key-insertion order in which a JavaScript `Map` yields its
  values. Add, update and delete are methods that modify those fields.
  `GetAll` is a function that reads them. `EndToEndScenario` is a client that
  walks through create, list, filter, update, delete and a second delete using
  only the contracts.

Modelling decisions:

- A record is a `map<string, Value>`. An attribute name that is not a key is
  undefined. `Value` is a string, an integer, a boolean or null.
- The uuid generator is an input: `AddEmployee` takes the id it would produce
  as the parameter `generated`. When the record brings its own id, that
  parameter is ignored.
- `??` falls back only on null or undefined. A caller-supplied empty-string id
  is kept. An id that is already a key is rejected, whether the caller supplied
  it or it was generated, because the check comes after the id is chosen.
- `if (department)` treats the empty string like a missing filter
  (`FilterActive`). The filter compares with strict equality against a string
  value (`InDepartment`).
- Exceptions are returned as `Result.Err(AlreadyExists(id))` or
  `Result.Err(NotFound(id))`. In every error case the store is unchanged.
- The store has two invariants. `Valid()` says the order lists each key of the
  map exactly once; every operation keeps it. `IdsMatch(employees)` says
  every record's `id` equals its key. Add and delete keep it always, and so
  does an update of an absent id, which changes nothing. An update of a
  present id keeps it exactly when the patch has no `id`, or has the key as
  its `id`. The update's contract proves both directions, because
  `Object.assign` does not protect the id.

## Model

| member | source | states |
|---|---|---|
| `Employees.ChosenId` | src/service/EmployeesServiceMap.ts:49 | the record's own string id is used, even an empty one; the generated id is used only when the id is undefined or null |
| `Employees.WithId` | src/service/EmployeesServiceMap.ts:53 | after `empl.id = id` the record has id `id`, and every other attribute keeps its presence and its value |
| `Employees.Merge` | src/service/EmployeesServiceMap.ts:84 | the merged record has the attributes of both; each attribute of the patch takes the patch's value; each attribute not in the patch keeps the old value |
| `Employees.MergeEmpty` | src/service/EmployeesServiceMap.ts:84 | merging an empty patch leaves the record as it was |
| `Employees.MergeIdempotent` | src/service/EmployeesServiceMap.ts:84 | applying the same patch twice gives the same record as applying it once |
| `Employees.MergeCompose` | src/service/EmployeesServiceMap.ts:84 | two updates in a row equal one update with the merge of the two patches |
| `Employees.MergeKeepsId` | src/service/EmployeesServiceMap.ts:84 | a record whose id is its key keeps that id after the merge exactly when the patch has no id or has the key as its id |
| `Employees.DepartmentIsExact` | src/service/EmployeesServiceMap.ts:67 | a record with a string department matches that string and no other, with no case folding or partial match; a record with a missing or non-string department matches no filter value |
| `Employees.FilterActiveTruthiness` | src/service/EmployeesServiceMap.ts:65 | an undefined department and the empty string both mean no filter; any non-empty string narrows the list |
| `Employees.FilterByDepartment` | src/service/EmployeesServiceMap.ts:66-68 | the result is no longer than the input, and each of its records comes from the input and is in department d |
| `Employees.RemoveKey` | src/service/EmployeesServiceMap.ts:98 | the order after a delete is no longer than before, no longer holds the deleted key, and holds only keys that were there before |
| `Employees.Snapshot` | src/service/EmployeesServiceMap.ts:64 | the snapshot has one record per key in insertion order, and position i holds the record stored under the i-th key |
| `Employees.SnapshotMembership` | src/service/EmployeesServiceMap.ts:64 | a record is in the snapshot exactly when it is stored under some key |
| `Employees.SnapshotNoDuplicates` | src/service/EmployeesServiceMap.ts:64 | when every record's id is its key, the snapshot never lists a record twice |
| `Employees.FilterMembership` | src/service/EmployeesServiceMap.ts:66-68 | a record is in the filtered list exactly when it is in the input and its department is the filter value |
| `Employees.FilterIsSubsequence` | src/service/EmployeesServiceMap.ts:66-68 | the filtered list is a subsequence of the input, so insertion order is kept |
| `Employees.FilterIdempotent` | src/service/EmployeesServiceMap.ts:66-68 | filtering twice by the same department is the same as filtering once |
| `Employees.FilterKeepsNoDuplicates` | src/service/EmployeesServiceMap.ts:66-68 | filtering an input with no repeated record never introduces a repeat |
| `Employees.RemoveKeyMembership` | src/service/EmployeesServiceMap.ts:98 | after deleting a key, the order holds exactly the other keys |
| `Employees.RemoveKeyIsSubsequence` | src/service/EmployeesServiceMap.ts:98 | after a delete, the remaining keys keep their relative order |
| `Employees.RemoveAbsentKey` | src/service/EmployeesServiceMap.ts:98 | removing a key that is not in the order leaves the order unchanged |
| `Employees.RemoveKeyNoDuplicates` | src/service/EmployeesServiceMap.ts:98 | an order with no repeated key keeps that property after a delete, and becomes one shorter exactly when the key was present |
| `Employees.RemoveAppended` | src/service/EmployeesServiceMap.ts:54 | appending a fresh key as add does and then removing it as delete does restores the original order |
| `Service.Message` | src/service/EmployeesServiceMap.ts:16-30 | both messages start with "Employee with id " followed by the id, and the last character tells the two kinds apart |
| `Service.MessageDeterminesError` | src/service/EmployeesServiceMap.ts:14-33 | the message of an error determines both its kind and the id it carries |
| `Service.EmployeesServiceMap.constructor` | src/service/EmployeesServiceMap.ts:41 | the store starts empty, with both invariants holding |
| `Service.EmployeesServiceMap.AddEmployee` | src/service/EmployeesServiceMap.ts:48-56 | if the chosen id is a key, the result is `AlreadyExists(id)` and the store is unchanged; otherwise the record with its id set is stored under that id and returned, every other entry is unchanged, the id goes last in the order, and both invariants are kept |
| `Service.EmployeesServiceMap.GetAll` | src/service/EmployeesServiceMap.ts:63-71 | with no filter or an empty one, the stored records in key-insertion order; with a non-empty department, a record is in the result exactly when it is stored with that department; the result is always an ordered subsequence of the snapshot, and no record appears twice while ids match keys |
| `Service.EmployeesServiceMap.UpdateEmployee` | src/service/EmployeesServiceMap.ts:79-86 | an absent id gives `NotFound(id)` and an unchanged store; otherwise the record under id becomes the merge of it with the patch and is returned, and other records, the keys and their order are unchanged; the id-equals-key invariant survives exactly when the patch keeps the id |
| `Service.EmployeesServiceMap.DeleteEmployee` | src/service/EmployeesServiceMap.ts:93-100 | an absent id gives `NotFound(id)` and an unchanged store; otherwise the record previously stored under id is returned, its key leaves the map and the order, the others keep their entries and order, both invariants are kept, and the returned record is no longer listed |

## Left out

- The Express controller, error-handling middleware, routes, server setup and
  process entry point. These are HTTP transport, status-code mapping, logging
  and configuration. src/controller/employeeController.ts,
  src/middleware/errorHandlers.ts, src/route/employeeRoutes.ts,
  src/server/app.ts and src/index.ts are not part of this model.
- The uuid v4 generator is not modelled. Its output is the `generated`
  parameter, and nothing is claimed about its randomness or global uniqueness.
- Object aliasing is not modelled. In the source, `addEmployee` stores and
  returns the caller's own object, and update and delete return references to
  stored objects. Here records are values, so a later mutation through such a
  reference is not captured.
- src/model/Employee.ts is not part of this model. Records have open
  attributes. Numbers are integers, and nested objects or arrays as attribute
  values are not modelled.
- Employees.Merge: does not model an attribute named `__proto__` in the patch.
  JSON parsing makes it an own property, and `Object.assign` then runs the
  prototype setter instead of adding the attribute. With an object value this
  changes the record's prototype, and the department test could then find
  `department` through that prototype. The model adds `__proto__` as an
  ordinary attribute. Patch values that are `undefined` are not modelled
  either, because a `map<string, Value>` cannot hold them.
- Service.EmployeesServiceMap.AddEmployee: requires the record's `id` to be
  undefined, null or a string, as the Employee type declares. A JavaScript
  caller that bypasses the type could pass another kind of value as the id,
  and the `Map` would then use that value as a key. A `map<string, _>` cannot
  represent such a key.
- Service.EmployeesServiceMap.GetAll: the filtered case is stated as
  membership plus ordered subsequence. The exact list is the definition
  `FilterByDepartment`, not a separate contract.
- Concurrency is not modelled. The source runs each operation to completion on
  one thread, and the model's methods are atomic in the same way.
