/** The uniform response envelope every endpoint answers with, and the
    per-endpoint payloads it can carry. */
module Envelope {
  import opened Wrappers
  import opened Models
  import opened ValidatorUtils
  import opened Guids

  const Status200OK: int := 200
  const Status201Created: int := 201
  const Status400BadRequest: int := 400
  const Status404NotFound: int := 404
  const Status500InternalServerError: int := 500

  /** The generic message of an unhandled failure. */
  const InternalErrorMessage := "Có lỗi xảy ra từ hệ thống, vui lòng thử lại sau"

  /** The answer to a path id that does not parse as a Guid. */
  const InvalidIdMessage := "Vui lòng chọn uuid hợp lệ"

  /** The answer to a body that fails validation. */
  const InvalidFieldsMessage := "Vui lòng nhập lại các trường không hợp lệ"

  /** The guard every by-id endpoint runs first: `Guid.TryParse(id.ToString())`. */
  predicate IdParses(id: Guid) {
    TryParse(ToString(id)).Some?
  }

  /** The guard never fails: a bound `Guid` always prints as text that parses
      back, so the invalid-uuid branches cannot be taken. */
  lemma IdAlwaysParses(id: Guid)
    ensures IdParses(id)
  {
    ToStringRoundTrip(id);
  }

  /** The payload of a success response, one shape per endpoint. */
  datatype Metadata =
    | Departments(departments: seq<Department>)
    | NewDepartmentCode(departmentCode: string)
    | OneDepartment(department: Department)
    | Positions(positions: seq<Position>)
    | NewPositionCode(positionCode: string)
    | OnePosition(position: Position)
    | Employees(employees: seq<Employee>)
    | NewEmployeeCode(employeeCode: string)
    | OneEmployee(employee: Employee)
    | EmployeePage(page: EmployeeFiltered)

  /** A success response defaults to code 200, an error response to 500. */
  datatype Response =
    | SuccessResponse(message: string, code: int := Status200OK, metadata: Option<Metadata> := None)
    | ErrorResponse(message: string, code: int := Status500InternalServerError, errors: Option<ErrorMap> := None)
  {
    /** The literal status discriminator. */
    function Status(): string {
      if SuccessResponse? then "success" else "error"
    }
  }

  /** A request's effect: the storage afterwards and the response sent. */
  datatype Reply<S> = Reply(state: S, response: Response)
}
