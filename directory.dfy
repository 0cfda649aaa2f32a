/**
 * Data model of the employee directory: employee records, their embedded
 * compensation, the derived reporting structure, the error the service
 * raises for an unknown id, and the store the service and the repository
 * work on.
 */
module Directory {

  /** The opaque identifier under which a record is stored and referenced. */
  type EmployeeId = string

  datatype Option<+T> = None | Some(value: T)

  /** A `java.util.Date`: an instant, in milliseconds since the epoch. */
  datatype Date = Date(epochMillis: int)

  datatype Compensation = Compensation(salary: int, effectiveDate: Date)

  /**
   * One stored employee. `directReports` holds ids, not embedded records,
   * and an id in it need not name a stored record. `compensation` is
   * `None` until it is first set.
   */
  datatype Employee = Employee(
    employeeId: EmployeeId,
    firstName: string,
    lastName: string,
    position: string,
    department: string,
    directReports: seq<EmployeeId>,
    compensation: Option<Compensation>)

  /** Derived on demand, never stored. */
  datatype ReportingStructure = ReportingStructure(employee: Employee, numberOfReports: nat)

  /** `InvalidEmployeeIdException`, carrying the offending id. */
  datatype Error = InvalidEmployeeId(id: EmployeeId)

  datatype Result<+T> = Ok(value: T) | Err(error: Error)

  /** The employee collection, one record per `employeeId`. */
  type Store = map<EmployeeId, Employee>

  /** Every record is filed under its own `employeeId`. */
  ghost predicate WellKeyed(store: Store)
  {
    forall id :: id in store ==> store[id].employeeId == id
  }
}
