/**
 * The employee directory service: create, read and update of employee
 * records, the reporting structure of an employee, and reading and
 * replacing an employee's compensation, over the store the repository
 * reads and writes.
 */
module Service {
  import opened Directory
  import Repository

  class EmployeeService {
    /** The employee collection behind the repository. */
    var store: Store

    ghost predicate Valid()
      reads this
    {
      WellKeyed(store)
    }

    constructor (initial: Store)
      requires WellKeyed(initial)
      ensures Valid() && store == initial
    {
      store := initial;
    }

    /**
     * `create`: give the record the fresh id (the source draws a random
     * UUID; here the caller supplies one not yet in use), insert it, and
     * return it.
     */
    method Create(employee: Employee, freshId: EmployeeId) returns (created: Employee)
      requires Valid()
      requires freshId !in store
      modifies this
      ensures Valid()
      ensures created == employee.(employeeId := freshId)
      ensures store == old(store)[freshId := created]
      ensures |store| == |old(store)| + 1
      ensures Read(freshId) == Ok(created)
    {
      created := employee.(employeeId := freshId);
      store := store[freshId := created];
    }

    /** `read`: the stored record with this id, or the invalid-id error. */
    function Read(id: EmployeeId): (r: Result<Employee>)
      requires Valid()
      reads this
      ensures r.Err? <==> id !in store
      ensures r.Err? ==> r.error == InvalidEmployeeId(id)
      ensures r.Ok? ==> r.value in store.Values && r.value.employeeId == id
    {
      match Repository.FindByEmployeeId(store, id)
      case None => Err(InvalidEmployeeId(id))
      case Some(employee) => Ok(employee)
    }

    /**
     * `update`: save the full record under its `employeeId`, replacing
     * any record stored there (or adding one), and return it.
     */
    method Update(employee: Employee) returns (updated: Employee)
      requires Valid()
      modifies this
      ensures Valid()
      ensures updated == employee
      ensures store == old(store)[employee.employeeId := employee]
      ensures store.Keys == old(store).Keys + {employee.employeeId}
      ensures Read(employee.employeeId) == Ok(employee)
    {
      store := store[employee.employeeId := employee];
      updated := employee;
    }

    /**
     * `reportingStructure`: the repository's reporting structure, or the
     * invalid-id error when the repository finds no root.
     */
    method GetReportingStructure(employeeId: EmployeeId) returns (r: Result<ReportingStructure>)
      requires Valid()
      ensures r.Err? <==> employeeId !in store
      ensures r.Err? ==> r.error == InvalidEmployeeId(employeeId)
      ensures r.Ok? ==> r.value.employee == store[employeeId]
      ensures r.Ok? ==> r.value.numberOfReports ==
                          |Repository.ReachableFrom(store, store[employeeId].directReports)|
    {
      var structure := Repository.GetReportingStructureByEmployeeId(store, employeeId);
      match structure
      case None => r := Err(InvalidEmployeeId(employeeId));
      case Some(s) => r := Ok(s);
    }

    /**
     * `compensation`: the stored employee's compensation as it is (`None`
     * when never set), or the invalid-id error.
     */
    function ReadCompensation(employeeId: EmployeeId): (r: Result<Option<Compensation>>)
      requires Valid()
      reads this
      ensures r.Err? <==> employeeId !in store
      ensures r.Err? ==> r.error == InvalidEmployeeId(employeeId)
      ensures r.Ok? ==> Read(employeeId) == Ok(store[employeeId]) && r.value == store[employeeId].compensation
    {
      match Repository.FindByEmployeeId(store, employeeId)
      case None => Err(InvalidEmployeeId(employeeId))
      case Some(employee) => Ok(employee.compensation)
    }

    /**
     * `compensationUpdate`: fail with the invalid-id error before any
     * save when the id is unknown; otherwise set the fetched record's
     * compensation (`None` for a null one, which clears it), save the
     * record, and return the saved compensation.
     */
    method UpdateCompensation(employeeId: EmployeeId, compensation: Option<Compensation>)
      returns (r: Result<Option<Compensation>>)
      requires Valid()
      modifies this
      ensures Valid()
      ensures employeeId !in old(store) ==> r == Err(InvalidEmployeeId(employeeId)) && store == old(store)
      ensures employeeId in old(store) ==>
                && r == Ok(compensation)
                && store == old(store)[employeeId := old(store)[employeeId].(compensation := compensation)]
      ensures store.Keys == old(store).Keys
      ensures forall id :: id in store && id != employeeId ==> store[id] == old(store)[id]
      ensures r.Ok? ==> ReadCompensation(employeeId) == Ok(compensation)
    {
      match Repository.FindByEmployeeId(store, employeeId)
      case None =>
        r := Err(InvalidEmployeeId(employeeId));
      case Some(employee) =>
        var changed := employee.(compensation := compensation);
        store := store[changed.employeeId := changed];
        r := Ok(changed.compensation);
    }
  }

  /**
   * The create / read / update round of the service's integration test:
   * the created record gets the fresh id and keeps the caller's fields, it
   * reads back unchanged, and after an update of its position it reads
   * back updated, still as the only record under that id.
   */
  method CreateReadUpdate(service: EmployeeService, freshId: EmployeeId)
    returns (created: Employee, readBack: Result<Employee>, readAfterUpdate: Result<Employee>)
    requires service.Valid() && freshId !in service.store
    modifies service
    ensures service.Valid()
    ensures created == Employee(freshId, "John", "Doe", "Developer", "Engineering", [], None)
    ensures readBack == Ok(created)
    ensures readAfterUpdate == Ok(created.(position := "Development Manager"))
    ensures service.store.Keys == old(service.store).Keys + {freshId}
  {
    var john := Employee("", "John", "Doe", "Developer", "Engineering", [], None);
    created := service.Create(john, freshId);
    readBack := service.Read(created.employeeId);
    var promoted := readBack.value.(position := "Development Manager");
    var updated := service.Update(promoted);
    readAfterUpdate := service.Read(created.employeeId);
  }

  /**
   * The compensation update of the service's integration test: the
   * returned compensation is exactly the one sent, and a later read sees
   * it and nothing of the earlier value.
   */
  method CompensationRoundTrip(service: EmployeeService, employeeId: EmployeeId, effectiveDate: Date)
    returns (stored: Result<Option<Compensation>>, readBack: Result<Option<Compensation>>)
    requires service.Valid() && employeeId in service.store
    modifies service
    ensures stored == Ok(Some(Compensation(200000, effectiveDate)))
    ensures readBack == Ok(Some(Compensation(200000, effectiveDate)))
  {
    var raise := Compensation(200000, effectiveDate);
    stored := service.UpdateCompensation(employeeId, Some(raise));
    readBack := service.ReadCompensation(employeeId);
  }
}
