/** The persisted entities and the transient query types of the API. Nullable
    columns are `Option`s; timestamps are abstract instants (`DateTime`). */
module Models {
  import opened Wrappers
  import opened Guids

  /** A point in time, ordered as `DateTime` is. */
  type DateTime = int

  datatype Department = Department(
    departmentId: Guid,
    departmentCode: string,
    departmentName: string,
    description: Option<string>,
    createdDate: Option<DateTime>,
    createdBy: Option<string>,
    modifiedDate: Option<DateTime>,
    modifiedBy: Option<string>)

  datatype Position = Position(
    positionId: Guid,
    positionCode: string,
    positionName: string,
    description: Option<string>,
    createdDate: Option<DateTime>,
    createdBy: Option<string>,
    modifiedDate: Option<DateTime>,
    modifiedBy: Option<string>)

  datatype Employee = Employee(
    employeeId: Guid,
    employeeCode: string,
    fullName: string,
    email: string,
    phoneNumber: string,
    identityNumber: string,
    positionId: Guid,
    departmentId: Guid,
    dateOfBirth: Option<DateTime>,
    gender: Option<int>,
    telephoneNumber: Option<string>,
    address: Option<string>,
    identityDate: Option<DateTime>,
    identityPlace: Option<string>,
    bankAccount: Option<string>,
    bankName: Option<string>,
    branch: Option<string>,
    createdDate: Option<DateTime>,
    createdBy: Option<string>,
    modifiedDate: Option<DateTime>,
    modifiedBy: Option<string>)

  /** The query string of the filtered employee listing; every part optional. */
  datatype EmployeeQueryParams = EmployeeQueryParams(
    pageSize: Option<int>,
    pageNumber: Option<int>,
    employeeFilter: Option<string>,
    departmentId: Option<Guid>,
    positionId: Option<Guid>)

  /** One page of the filtered employee listing with its totals. */
  datatype EmployeeFiltered = EmployeeFiltered(
    totalRecords: int,
    totalPages: int,
    currentPageRecords: int,
    currentPageNumber: int,
    employees: seq<Employee>)
}
