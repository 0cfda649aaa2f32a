# Employee directory: reporting structure and directory service

A Dafny model of the core of a Spring / MongoDB employee-directory service.
Employees are stored one record per `employeeId`; each record lists the ids
of its direct reports and may carry a compensation. The service creates,
reads and updates records, reads and replaces a compensation, and computes an
employee's **reporting structure**: the record itself together with the
number of distinct employees reachable from its `directReports` by following
each reached record's own `directReports`.

In the source that count is a MongoDB aggregation: a `$match` on the root's
id, a `$graphLookup` from the root's `directReports` to records whose
`employeeId` matches, with no depth limit, and a `$project` of the root and
the `$size` of the collected set. The model specifies what `$graphLookup`
collects as the set of stored ids at the end of a chain of direct-report
links that starts at an id in the root's list (`Repository.ReachableFrom`).
It proves that this set is the least set closed under "follow
`directReports` to stored records" (`ReachableIsClosed`, `LeastClosed`).
It then computes the set with a breadth-first worklist and a visited set
(`Repository.DirectReportTree`). The loop terminates because every visit
adds one more stored id to the visited set, and the result is proved equal
to the specification. Cycles and dangling ids therefore need no special
case, and the root is counted when some reached record lists it.

Files:

- `directory.dfy` (module `Directory`): the records (`Employee`,
  `Compensation`, `ReportingStructure`), the `InvalidEmployeeId` error, a
  `Result` and an `Option`, and the store, a `map` from id to record, with
  the invariant that every record is filed under its own id (`WellKeyed`).
- `repository.dfy` (module `Repository`): `findByEmployeeId`, the
  reachability specification, the worklist and
  `getReportingStructureByEmployeeId`, with the properties of the count.
- `service.dfy` (module `Service`): class `EmployeeService`, which holds the
  store and has one member per service operation. The operations that write
  the store are methods with `modifies this`; `read` and `compensation` are
  functions; `reportingStructure` is a method, because it runs the worklist.
  Two client methods restate the integration test's create / read / update
  and compensation-update assertions.
- `scenarios.dfy` (module `Scenarios`): counts for small concrete
  directories (a tree, a diamond, a cycle back to the root, dangling ids).

Two behaviours of the program are worth stating outright:

- A cycle back to the root counts the root. When Y lists A and A lists Y,
  the count for Y is 2 (`Scenarios.CycleCountsRootOnce`), because
  `$graphLookup` does not exclude the input document.
- `update` calls `save`, which inserts or replaces, so
  `EmployeeService.Update` is an upsert and never fails, also for an id
  that no record has yet.

## Model

| member | source | states |
|---|---|---|
| `Repository.FindByEmployeeId` | src/main/java/com/mindex/challenge/dao/EmployeeRepository.java:13 | the result is a stored record whose `employeeId` is `id`; any stored record with that id is the result, so it is `None` exactly when no record has the id |
| `Repository.StartReaches` | src/main/java/com/mindex/challenge/dao/EmployeeRepository.java:48 | every stored id listed in the root's `directReports` is collected (`startWith`) |
| `Repository.StepReaches` | src/main/java/com/mindex/challenge/dao/EmployeeRepository.java:49-50 | every stored id listed by a collected record is collected too (`connectFromField` to `connectToField`), the root's own id included |
| `Repository.ReachableIsClosed` | src/main/java/com/mindex/challenge/dao/EmployeeRepository.java:45-53 | the collected set contains the stored start ids and is closed under following `directReports` to stored records |
| `Repository.LeastClosed` | src/main/java/com/mindex/challenge/dao/EmployeeRepository.java:45-53 | the collected set lies inside every such closed set, so it is the least one: only what some chain of links reaches |
| `Repository.WorklistStep` | src/main/java/com/mindex/challenge/dao/EmployeeRepository.java:45-53 | one traversal step keeps the invariant: visited and pending stored ids are reachable, and every stored id listed by the start or by a visited record is visited or pending |
| `Repository.WorklistDone` | src/main/java/com/mindex/challenge/dao/EmployeeRepository.java:45-53 | when the frontier is empty the visited set is exactly the reachable set |
| `Repository.DirectReportTree` | src/main/java/com/mindex/challenge/dao/EmployeeRepository.java:45-53 | the worklist with a visited set terminates on every graph, cyclic or not, and returns exactly the reachable set, each record once |
| `Repository.GetReportingStructureByEmployeeId` | src/main/java/com/mindex/challenge/dao/EmployeeRepository.java:41-65 | no result exactly when no record has the id; otherwise the matched record unchanged, and `numberOfReports` the size of the reachable set from its `directReports` |
| `Repository.NoDirectReportsNoReports` | src/main/java/com/mindex/challenge/dao/EmployeeRepository.java:48-59 | an empty `directReports` reaches nothing, so the count is 0 |
| `Repository.ReportsBounded` | src/main/java/com/mindex/challenge/dao/EmployeeRepository.java:58-60 | the count never exceeds the number of stored records |
| `Repository.DanglingIgnored` | src/main/java/com/mindex/challenge/dao/EmployeeRepository.java:49-50 | an id naming no stored record is never collected, and adding it to the start list changes nothing |
| `Repository.DanglingReportIgnored` | src/main/java/com/mindex/challenge/dao/EmployeeRepository.java:49-50 | an id naming no stored record, added to any stored record's `directReports`, is not expanded and changes nothing collected |
| `Repository.OrderIndependent` | src/main/java/com/mindex/challenge/dao/EmployeeRepository.java:46-52 | stores that agree on the set of direct reports of each record, and start lists with the same members, give the same collected set: the order of ids and repeated ids do not matter |
| `Scenarios.TreeReaches` | src/main/java/com/mindex/challenge/dao/EmployeeRepository.java:45-53 | X lists A and B, A lists C: the collected set is exactly {A, B, C} |
| `Scenarios.TreeCountsThree` | src/main/java/com/mindex/challenge/dao/EmployeeRepository.java:58-60 | that tree gives 3 reports |
| `Scenarios.DiamondReaches` | src/main/java/com/mindex/challenge/dao/EmployeeRepository.java:45-53 | C, listed by both A and B, is collected as one member of {A, B, C} |
| `Scenarios.DiamondCountsSharedReportOnce` | src/main/java/com/mindex/challenge/dao/EmployeeRepository.java:58-60 | the employee reached by two paths is counted once: 3 reports, not 4 |
| `Scenarios.CycleReaches` | src/main/java/com/mindex/challenge/dao/EmployeeRepository.java:45-53 | Y lists A and A lists Y: the traversal collects {A, Y}, the root included |
| `Scenarios.CycleCountsRootOnce` | src/main/java/com/mindex/challenge/dao/EmployeeRepository.java:58-60 | that cycle gives 2 reports |
| `Scenarios.DanglingCountsNothing` | src/main/java/com/mindex/challenge/dao/EmployeeRepository.java:49-50 | unknown ids listed by the root and by a report add nothing: only A is collected |
| `Service.EmployeeService.Create` | src/main/java/com/mindex/challenge/service/impl/EmployeeServiceImpl.java:24-32 | the returned record is the argument with the fresh id and all other fields unchanged; it is inserted as one new record, and `Read` of the id returns it |
| `Service.EmployeeService.Read` | src/main/java/com/mindex/challenge/service/impl/EmployeeServiceImpl.java:34-45 | fails with `InvalidEmployeeId(id)` exactly when no record has the id, otherwise returns the stored record with that id |
| `Service.EmployeeService.Update` | src/main/java/com/mindex/challenge/service/impl/EmployeeServiceImpl.java:47-52 | stores the full record under its `employeeId`, replacing any previous one and changing nothing else; returns it; the key set gains at most that id, so there is no duplicate, and `Read` returns the new fields |
| `Service.EmployeeService.GetReportingStructure` | src/main/java/com/mindex/challenge/service/impl/EmployeeServiceImpl.java:54-65 | fails with `InvalidEmployeeId(id)` exactly when the root is absent; otherwise the root record and the size of its reachable set |
| `Service.EmployeeService.ReadCompensation` | src/main/java/com/mindex/challenge/service/impl/EmployeeServiceImpl.java:67-78 | fails with `InvalidEmployeeId(id)` exactly when the id is absent; otherwise the stored compensation unchanged (`None` when never set) |
| `Service.EmployeeService.UpdateCompensation` | src/main/java/com/mindex/challenge/service/impl/EmployeeServiceImpl.java:80-94 | on an absent id fails with `InvalidEmployeeId(id)` and leaves the store unchanged; otherwise replaces only that record's compensation with the given one (`None` for null, which clears it), leaves every other field and record unchanged, returns exactly the given compensation, and a later read returns it |
| `Service.CreateReadUpdate` | src/test/java/com/mindex/challenge/service/impl/EmployeeServiceImplTest.java:57-99 | a created John Doe gets the fresh id and keeps the caller's fields, reads back equal, and after a position update reads back updated under the same single id |
| `Service.CompensationRoundTrip` | src/test/java/com/mindex/challenge/service/impl/EmployeeServiceImplTest.java:141-159 | updating a compensation to salary 200000 returns exactly that value, and a later read returns it |

## Left out

- MongoDB, Spring Data's generated repository and dependency injection: the
  collection is the `store` field of `EmployeeService`, a map from id to
  record, and the repository operations take it as a parameter.
- `UUID.randomUUID()`: `Create` takes the fresh id as a parameter and
  requires that no record has it; collision freedom is not modelled.
- `Create` returns the record with the new id; the source also sets the id
  on the caller's own object. The caller's object is a value here, so that
  aliasing is not modelled.
- A Mongo `insert` that fails on a duplicate key cannot happen under
  `Create`'s precondition, and store failures in general are not modelled.
- Logging, and the commented-out `@Update` annotation and pipeline text in
  the repository file.
- Concurrent writers during one traversal: the model reads one fixed store.
- `null` values, except a null compensation: `directReports` is always a
  sequence, so a missing list is the empty one, and an `Employee` always has
  an id. `create(null)`, which throws when it sets the id, and
  `update(null)`, which `save` rejects, are not modelled, because an
  `Employee` argument here is always a record. `Update` of a record whose
  `employeeId` is null (which Mongo would insert as a new document) is not
  modelled either. A null compensation is modelled as `None`: it is what
  `ReadCompensation` returns for a record whose compensation was never set,
  and `UpdateCompensation` accepts it, storing and returning `None`.
- Employee.java and Compensation.java are not modelled. An employee is
  taken to have the fields `employeeId`, `firstName`, `lastName`,
  `position`, `department`, `directReports` (a list of ids) and an optional
  `compensation`. A compensation is taken to have a `salary`, an unbounded
  integer, and an `effectiveDate`, the instant in milliseconds that
  `java.util.Date` holds. The key `save` upserts on is taken to be
  `employeeId`.
- The exception message `"Invalid employeeId: " + id` is represented only by
  the error value `InvalidEmployeeId(id)` that carries the id.
- The integration test's expected counts 4 and 2 depend on seed data that is
  not part of this model, so they are not reproduced; `Scenarios` proves the
  counts for directories written out in full instead.
