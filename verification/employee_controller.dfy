/** `EmployeeController`: what each employee endpoint decides, as a
    function from the employee table (and the request) to the response,
    or to a `Reply` holding the table afterwards and the response. The
    validator's uniqueness lookup is answered by the same table; its e-mail
    check is the parameter `isEmail`, and `validatedAt` is the instant the
    validator was built, which its date rules compare with. */
module EmployeeController {
  import opened Wrappers
  import opened Guids
  import opened Models
  import opened ValidationRules
  import opened ValidatorUtils
  import opened CodeColumn
  import opened Envelope
  import opened Ordering
  import Repo = EmployeeRepository
  import Rules = EmployeeValidator

  type EmployeeTable = Repo.EmployeeTable

  const ListedMessage := "Lấy thông tin danh sách nhân viên thành công"
  const NewCodeMessage := "Lấy mã nhân viên mới thành công"
  const NotFoundMessage := "Không tìm thấy nhân viên hợp lệ"
  const FoundMessage := "Lấy thông tin nhân viên thành công"
  const AddedMessage := "Thêm nhân viên thành công"
  const UpdatedMessage := "Cập nhật thông tin nhân viên thành công"
  const DeletedMessage := "Xoá nhân viên thành công"

  /** The validator's `CheckEmployeeCodeExist` lookup against `t`. */
  function CodeLookup(t: EmployeeTable): (lookup: string -> bool)
    ensures forall code :: lookup(code) <==> exists id :: id in t && t[id].employeeCode == code
  {
    code => Repo.CheckEmployeeCodeExist(t, code)
  }

  /** The checks that do not ask storage: the four text fields are not
      blank, the e-mail is well formed, both references are non-empty and
      each date present is before `validatedAt`. */
  predicate FieldsValid(e: Employee, isEmail: string -> bool, validatedAt: DateTime) {
    && !IsBlank(e.fullName)
    && !IsBlank(e.email) && isEmail(e.email)
    && !IsBlank(e.phoneNumber)
    && !IsBlank(e.identityNumber)
    && e.departmentId != EmptyGuid && e.positionId != EmptyGuid
    && AbsentOrBefore(e.dateOfBirth, validatedAt) && AbsentOrBefore(e.identityDate, validatedAt)
  }

  /** What the validator accepts against `t`: a code that is "NV" and five
      digits and stored nowhere, and fields that pass every other check. */
  predicate Acceptable(t: EmployeeTable, e: Employee, isEmail: string -> bool, validatedAt: DateTime) {
    && MatchesCodePattern(Rules.CodePrefix, e.employeeCode)
    && !Repo.CheckEmployeeCodeExist(t, e.employeeCode)
    && FieldsValid(e, isEmail, validatedAt)
  }

  /** `GET /Employees`: every stored employee, with code 200. */
  ghost function GetAllEmployees(t: EmployeeTable): (r: Response)
    ensures r.SuccessResponse? && r.code == Status200OK && r.message == ListedMessage
    ensures r.metadata.Some? && r.metadata.value.Employees?
    ensures |r.metadata.value.employees| == |t|
    ensures forall id :: id in t ==> t[id] in r.metadata.value.employees
    ensures forall i :: 0 <= i < |r.metadata.value.employees| ==> r.metadata.value.employees[i] in t.Values
  {
    SuccessResponse(ListedMessage, Status200OK, Some(Employees(Repo.GetAllEmployees(t))))
  }

  /** `GET /Employees/newEmployeeCode`: the offered code, or the
      middleware's generic error when the greatest stored code cannot be
      parsed. */
  ghost function CreateNewEmployeeCode(t: EmployeeTable): (r: Response)
    ensures r.SuccessResponse? <==> Repo.CreateNewEmployeeCode(t).Some?
    ensures r.SuccessResponse? ==>
      r == SuccessResponse(NewCodeMessage, Status200OK, Some(NewEmployeeCode(Repo.CreateNewEmployeeCode(t).value)))
    ensures r.ErrorResponse? ==> r.message == InternalErrorMessage && r.code == Status500InternalServerError
  {
    match Repo.CreateNewEmployeeCode(t)
    case Some(code) => SuccessResponse(NewCodeMessage, Status200OK, Some(NewEmployeeCode(code)))
    case None => ErrorResponse(InternalErrorMessage)
  }

  const DepartmentGuardMessage := "Vui lòng chọn phòng ban hợp lệ"
  const PositionGuardMessage := "Vui lòng chọn vị trí hợp lệ"
  const PageSizeGuardMessage := "Vui lòng chọn số bản ghi/trang hợp lệ"
  const PageNumberGuardMessage := "Vui lòng chọn số trang hợp lệ"

  /** The query the listing's guards let through: no filter on the empty
      Guid, and any page size or number given is positive. */
  predicate QueryAdmitted(q: EmployeeQueryParams) {
    && q.departmentId != Some(EmptyGuid)
    && q.positionId != Some(EmptyGuid)
    && Repo.PagingInRange(q)
  }

  /** `GET /Employees/filter`: four guards in order, each answering 400
      with its own message, then the page from the repository. */
  ghost function GetFilteredEmployees(t: EmployeeTable, q: EmployeeQueryParams, like: (string, string) -> bool): (r: Response)
    ensures r.SuccessResponse? <==> QueryAdmitted(q)
    ensures r.SuccessResponse? ==>
      r == SuccessResponse(ListedMessage, Status200OK, Some(EmployeePage(Repo.GetFilteredEmployees(t, q, like))))
    ensures q.departmentId == Some(EmptyGuid) ==>
      r == ErrorResponse(DepartmentGuardMessage, Status400BadRequest)
    ensures q.departmentId != Some(EmptyGuid) && q.positionId == Some(EmptyGuid) ==>
      r == ErrorResponse(PositionGuardMessage, Status400BadRequest)
    ensures (q.departmentId != Some(EmptyGuid) && q.positionId != Some(EmptyGuid)
             && q.pageSize.Some? && q.pageSize.value <= 0) ==>
      r == ErrorResponse(PageSizeGuardMessage, Status400BadRequest)
    ensures (q.departmentId != Some(EmptyGuid) && q.positionId != Some(EmptyGuid)
             && (q.pageSize.None? || q.pageSize.value > 0)
             && q.pageNumber.Some? && q.pageNumber.value <= 0) ==>
      r == ErrorResponse(PageNumberGuardMessage, Status400BadRequest)
  {
    if q.departmentId.Some? && q.departmentId.value == EmptyGuid then
      ErrorResponse(DepartmentGuardMessage, Status400BadRequest)
    else if q.positionId.Some? && q.positionId.value == EmptyGuid then
      ErrorResponse(PositionGuardMessage, Status400BadRequest)
    else if q.pageSize.Some? && q.pageSize.value <= 0 then
      ErrorResponse(PageSizeGuardMessage, Status400BadRequest)
    else if q.pageNumber.Some? && q.pageNumber.value <= 0 then
      ErrorResponse(PageNumberGuardMessage, Status400BadRequest)
    else
      SuccessResponse(ListedMessage, Status200OK, Some(EmployeePage(Repo.GetFilteredEmployees(t, q, like))))
  }

  /** `GET /Employees/{id}`. */
  function GetEmployee(t: EmployeeTable, id: Guid): (r: Response)
    ensures !IdParses(id) ==> r == ErrorResponse(InvalidIdMessage, Status400BadRequest)
    ensures IdParses(id) ==> (r.code == Status404NotFound <==> id !in t)
    ensures IdParses(id) && id in t ==> r == SuccessResponse(FoundMessage, Status200OK, Some(OneEmployee(t[id])))
  {
    if !IdParses(id) then ErrorResponse(InvalidIdMessage, Status400BadRequest)
    else
      match Repo.GetEmployee(t, id)
      case None => ErrorResponse(NotFoundMessage, Status404NotFound)
      case Some(e) => SuccessResponse(FoundMessage, Status200OK, Some(OneEmployee(e)))
  }

  /** `POST /Employees`: stored under the fresh id with 201 when the
      validator accepts it, otherwise 400 with the grouped errors and the
      table untouched. */
  function AddEmployee(t: EmployeeTable, e: Employee, freshId: Guid, isEmail: string -> bool, validatedAt: DateTime): (r: Reply<EmployeeTable>)
    requires freshId !in t
    ensures r.response.code == Status201Created <==> Acceptable(t, e, isEmail, validatedAt)
    ensures Acceptable(t, e, isEmail, validatedAt) ==>
      && r.state == Repo.AddEmployee(t, e, freshId)
      && r.response == SuccessResponse(AddedMessage, Status201Created, Some(OneEmployee(e.(employeeId := freshId))))
    ensures !Acceptable(t, e, isEmail, validatedAt) ==>
      && r.state == t
      && r.response == ErrorResponse(InvalidFieldsMessage, Status400BadRequest,
                                     Some(ExtractErrors(Rules.Validate(e, CodeLookup(t), isEmail, validatedAt))))
  {
    var errs := Rules.Validate(e, CodeLookup(t), isEmail, validatedAt);
    if errs != [] then
      Reply(t, ErrorResponse(InvalidFieldsMessage, Status400BadRequest, Some(ExtractErrors(errs))))
    else
      var stored := e.(employeeId := freshId);
      Reply(Repo.AddEmployee(t, e, freshId), SuccessResponse(AddedMessage, Status201Created, Some(OneEmployee(stored))))
  }

  /** `PUT /Employees/{id}`: 404 for a missing row comes before
      validation; an accepted body is stored under the path id, whatever id
      it carries. */
  function UpdateEmployee(t: EmployeeTable, id: Guid, e: Employee, isEmail: string -> bool, validatedAt: DateTime, now: DateTime): (r: Reply<EmployeeTable>)
    ensures !IdParses(id) ==> r == Reply(t, ErrorResponse(InvalidIdMessage, Status400BadRequest))
    ensures IdParses(id) && id !in t ==> r == Reply(t, ErrorResponse(NotFoundMessage, Status404NotFound))
    ensures IdParses(id) && id in t ==>
      (r.response.SuccessResponse? <==> Acceptable(t, e, isEmail, validatedAt))
    ensures IdParses(id) && id in t && !Acceptable(t, e, isEmail, validatedAt) ==>
      && r.state == t
      && r.response == ErrorResponse(InvalidFieldsMessage, Status400BadRequest,
                                     Some(ExtractErrors(Rules.Validate(e, CodeLookup(t), isEmail, validatedAt))))
    ensures IdParses(id) && id in t && Acceptable(t, e, isEmail, validatedAt) ==>
      && r.response == SuccessResponse(UpdatedMessage)
      && r.state == Repo.UpdateEmployee(t, e.(employeeId := id), now)
  {
    if !IdParses(id) then Reply(t, ErrorResponse(InvalidIdMessage, Status400BadRequest))
    else if Repo.GetEmployee(t, id).None? then Reply(t, ErrorResponse(NotFoundMessage, Status404NotFound))
    else
      var errs := Rules.Validate(e, CodeLookup(t), isEmail, validatedAt);
      if errs != [] then
        Reply(t, ErrorResponse(InvalidFieldsMessage, Status400BadRequest, Some(ExtractErrors(errs))))
      else
        Reply(Repo.UpdateEmployee(t, e.(employeeId := id), now), SuccessResponse(UpdatedMessage))
  }

  /** `DELETE /Employees/{id}`. */
  function DeleteEmployee(t: EmployeeTable, id: Guid): (r: Reply<EmployeeTable>)
    ensures !IdParses(id) ==> r == Reply(t, ErrorResponse(InvalidIdMessage, Status400BadRequest))
    ensures IdParses(id) && id !in t ==> r == Reply(t, ErrorResponse(NotFoundMessage, Status404NotFound))
    ensures IdParses(id) && id in t ==> r == Reply(Repo.DeleteEmployee(t, id), SuccessResponse(DeletedMessage))
  {
    if !IdParses(id) then Reply(t, ErrorResponse(InvalidIdMessage, Status400BadRequest))
    else if Repo.GetEmployee(t, id).None? then Reply(t, ErrorResponse(NotFoundMessage, Status404NotFound))
    else Reply(Repo.DeleteEmployee(t, id), SuccessResponse(DeletedMessage))
  }

  // ---- What the endpoints guarantee ----

  /** Get answers 200 with the stored row exactly when the row exists, and
      404 otherwise; the invalid-uuid answer never happens. */
  lemma GetOutcome(t: EmployeeTable, id: Guid)
    ensures var r := GetEmployee(t, id);
      && r.code != Status400BadRequest
      && (r.code == Status404NotFound <==> id !in t)
      && (r.code == Status200OK <==> id in t)
      && (id in t ==> r.metadata == Some(OneEmployee(t[id])))
  {
    IdAlwaysParses(id);
  }

  /** An admitted query answers with every matching row counted and a page
      of matching rows in code order; a guarded one never reaches storage. */
  lemma FilterOutcome(t: EmployeeTable, q: EmployeeQueryParams, like: (string, string) -> bool)
    ensures var r := GetFilteredEmployees(t, q, like);
      && (r.code == Status400BadRequest <==> !QueryAdmitted(q))
      && (r.SuccessResponse? ==>
            && r.metadata.Some? && r.metadata.value.EmployeePage?
            && var page := r.metadata.value.page;
            && page.totalRecords == |Repo.MatchingIds(t, q, like)|
            && page.currentPageRecords == |page.employees| <= Repo.PageSize(q)
            && Repo.AllMatch(page.employees, t, q, like)
            && SortedBy(page.employees, Repo.CodeOf))
  {
    if QueryAdmitted(q) {
      Repo.PageRowsMatch(t, q, like);
    }
  }

  /** An employee the endpoint added reads back under its fresh id, with
      the client's columns. */
  lemma AddThenGet(t: EmployeeTable, e: Employee, freshId: Guid, isEmail: string -> bool, validatedAt: DateTime)
    requires freshId !in t && Acceptable(t, e, isEmail, validatedAt)
    ensures var r := AddEmployee(t, e, freshId, isEmail, validatedAt);
      && freshId in r.state && r.state.Keys == t.Keys + {freshId}
      && GetEmployee(r.state, freshId)
           == SuccessResponse(FoundMessage, Status200OK, Some(OneEmployee(e.(employeeId := freshId))))
  {
    IdAlwaysParses(freshId);
  }

  /** An employee with a stored code is turned away with the "already
      exists" message, and nothing is stored. */
  lemma AddStoredCodeRejected(t: EmployeeTable, e: Employee, freshId: Guid, isEmail: string -> bool, validatedAt: DateTime)
    requires freshId !in t && Repo.CheckEmployeeCodeExist(t, e.employeeCode)
    ensures var r := AddEmployee(t, e, freshId, isEmail, validatedAt);
      && r.state == t && r.response.code == Status400BadRequest
      && r.response.errors.Some? && Rules.CodeProperty in r.response.errors.value
      && Rules.CodeExistsMessage in r.response.errors.value[Rules.CodeProperty]
  {
    Rules.StoredCodeRejected(e, CodeLookup(t), isEmail, validatedAt);
  }

  /** While every stored code is "NV" and five digits below 99999, a
      employee carrying the offered code and passing every other check is accepted. */
  lemma OfferedCodeAccepted(t: EmployeeTable, e: Employee, freshId: Guid, isEmail: string -> bool, validatedAt: DateTime)
    requires freshId !in t
    requires forall id :: id in t ==> BelowLastCode(Repo.CodePrefix, t[id].employeeCode)
    requires CreateNewEmployeeCode(t) == SuccessResponse(NewCodeMessage, Status200OK, Some(NewEmployeeCode(e.employeeCode)))
    requires FieldsValid(e, isEmail, validatedAt)
    ensures AddEmployee(t, e, freshId, isEmail, validatedAt).response.code == Status201Created
  {
    Repo.NewCodeFresh(t);
  }

  /** Adding keeps the codes unique: an accepted code is stored nowhere. */
  lemma AddKeepsCodesUnique(t: EmployeeTable, e: Employee, freshId: Guid, isEmail: string -> bool, validatedAt: DateTime)
    requires freshId !in t && UniqueCodes(t, Repo.CodeOf)
    ensures UniqueCodes(AddEmployee(t, e, freshId, isEmail, validatedAt).state, Repo.CodeOf)
  {
    var t' := AddEmployee(t, e, freshId, isEmail, validatedAt).state;
    if Acceptable(t, e, isEmail, validatedAt) {
      forall a, b | a in t' && b in t' && a != b
        ensures Repo.CodeOf(t'[a]) != Repo.CodeOf(t'[b])
      {
        if a == freshId || b == freshId {
          var other := if a == freshId then b else a;
          assert t'[other] == t[other];
        }
      }
    }
  }

  /** Update answers 404 for a missing row whatever the body holds, and
      otherwise stores an accepted body under the path id, stamped with
      `now`, leaving every other row as it was. */
  lemma UpdateOutcome(t: EmployeeTable, id: Guid, e: Employee, isEmail: string -> bool, validatedAt: DateTime, now: DateTime)
    ensures UpdateEmployee(t, id, e, isEmail, validatedAt, now).response.code == Status400BadRequest ==> id in t && !Acceptable(t, e, isEmail, validatedAt)
    ensures var r := UpdateEmployee(t, id, e, isEmail, validatedAt, now);
      && (id !in t ==> r.state == t && r.response.code == Status404NotFound)
      && (id in t && Acceptable(t, e, isEmail, validatedAt) ==>
            && r.response.code == Status200OK
            && r.state.Keys == t.Keys
            && r.state[id] == e.(employeeId := id, modifiedDate := Some(now))
            && forall k :: k in t && k != id ==> r.state[k] == t[k])
      && (id in t && !Acceptable(t, e, isEmail, validatedAt) ==> r.state == t && r.response.code == Status400BadRequest)
  {
    IdAlwaysParses(id);
  }

  /** Delete answers 404 and changes nothing for a missing row; otherwise it
      removes exactly that row, after which a get answers 404. */
  lemma DeleteOutcome(t: EmployeeTable, id: Guid)
    ensures var r := DeleteEmployee(t, id);
      && (r.response.code == Status200OK <==> id in t)
      && (id !in t ==> r.state == t && r.response.code == Status404NotFound)
      && r.state.Keys == t.Keys - {id}
      && (forall k :: k in r.state ==> r.state[k] == t[k])
      && GetEmployee(r.state, id).code == Status404NotFound
  {
    IdAlwaysParses(id);
  }

  // ---- Updating an employee without changing its code ----

  /** As written, the update re-runs the uniqueness rule against every row,
      the row being updated included: a body that keeps the row's own code
      is always answered 400 "already exists" and nothing is stored. */
  lemma UpdateKeepingCodeRejected(t: EmployeeTable, id: Guid, e: Employee, isEmail: string -> bool, validatedAt: DateTime, now: DateTime)
    requires id in t && e.employeeCode == t[id].employeeCode
    ensures var r := UpdateEmployee(t, id, e, isEmail, validatedAt, now);
      && r.state == t && r.response.code == Status400BadRequest
      && r.response.errors.Some? && Rules.CodeProperty in r.response.errors.value
      && Rules.CodeExistsMessage in r.response.errors.value[Rules.CodeProperty]
  {
    IdAlwaysParses(id);
    Rules.StoredCodeRejected(e, CodeLookup(t), isEmail, validatedAt);
  }

  /** The uniqueness lookup the update evidently intends: the code is
      carried by some row other than `self`. */
  function CodeLookupExcept(t: EmployeeTable, self: Guid): (lookup: string -> bool)
    ensures forall code :: lookup(code) <==> Repo.CheckEmployeeCodeExist(Repo.DeleteEmployee(t, self), code)
    ensures forall code :: lookup(code) <==> exists k :: k in t && k != self && t[k].employeeCode == code
  {
    var others := Repo.DeleteEmployee(t, self);
    assert forall k :: k in others <==> k in t && k != self;
    code => exists k :: k in t && k != self && t[k].employeeCode == code
  }

  /** What the corrected update accepts: the code may be the row's own. */
  predicate AcceptableFor(t: EmployeeTable, self: Guid, e: Employee, isEmail: string -> bool, validatedAt: DateTime) {
    && MatchesCodePattern(Rules.CodePrefix, e.employeeCode)
    && !CodeLookupExcept(t, self)(e.employeeCode)
    && FieldsValid(e, isEmail, validatedAt)
  }

  /** The corrected update: as `UpdateEmployee`, but the uniqueness rule
      ignores the row being updated. */
  function UpdateEmployeeExcludingSelf(t: EmployeeTable, id: Guid, e: Employee, isEmail: string -> bool, validatedAt: DateTime, now: DateTime): (r: Reply<EmployeeTable>)
    ensures id !in t ==> r == Reply(t, ErrorResponse(NotFoundMessage, Status404NotFound))
    ensures id in t ==> (r.response.SuccessResponse? <==> AcceptableFor(t, id, e, isEmail, validatedAt))
    ensures id in t && !AcceptableFor(t, id, e, isEmail, validatedAt) ==> r.state == t && r.response.code == Status400BadRequest
    ensures id in t && AcceptableFor(t, id, e, isEmail, validatedAt) ==>
      && r.response == SuccessResponse(UpdatedMessage)
      && r.state == Repo.UpdateEmployee(t, e.(employeeId := id), now)
  {
    if Repo.GetEmployee(t, id).None? then Reply(t, ErrorResponse(NotFoundMessage, Status404NotFound))
    else
      var errs := Rules.Validate(e, CodeLookupExcept(t, id), isEmail, validatedAt);
      if errs != [] then
        Reply(t, ErrorResponse(InvalidFieldsMessage, Status400BadRequest, Some(ExtractErrors(errs))))
      else
        Reply(Repo.UpdateEmployee(t, e.(employeeId := id), now), SuccessResponse(UpdatedMessage))
  }

  /** With the correction, keeping the row's own well-formed code and
      passing every other check is accepted and stored. */
  lemma KeepingCodeAccepted(t: EmployeeTable, id: Guid, e: Employee, isEmail: string -> bool, validatedAt: DateTime, now: DateTime)
    requires id in t && UniqueCodes(t, Repo.CodeOf)
    requires e.employeeCode == t[id].employeeCode
    requires MatchesCodePattern(Rules.CodePrefix, e.employeeCode) && FieldsValid(e, isEmail, validatedAt)
    ensures var r := UpdateEmployeeExcludingSelf(t, id, e, isEmail, validatedAt, now);
      && r.response == SuccessResponse(UpdatedMessage)
      && r.state[id] == e.(employeeId := id, modifiedDate := Some(now))
  {
    forall k | k in t && k != id
      ensures t[k].employeeCode != e.employeeCode
    {
      assert Repo.CodeOf(t[k]) != Repo.CodeOf(t[id]);
    }
  }

  /** The corrected update keeps the codes unique: an accepted code is
      carried by no other row. */
  lemma CorrectedUpdateKeepsCodesUnique(t: EmployeeTable, id: Guid, e: Employee, isEmail: string -> bool, validatedAt: DateTime, now: DateTime)
    requires UniqueCodes(t, Repo.CodeOf)
    ensures UniqueCodes(UpdateEmployeeExcludingSelf(t, id, e, isEmail, validatedAt, now).state, Repo.CodeOf)
  {
    var t' := UpdateEmployeeExcludingSelf(t, id, e, isEmail, validatedAt, now).state;
    if id in t && AcceptableFor(t, id, e, isEmail, validatedAt) {
      forall a, b | a in t' && b in t' && a != b
        ensures Repo.CodeOf(t'[a]) != Repo.CodeOf(t'[b])
      {
        if a == id || b == id {
          var other := if a == id then b else a;
          assert t'[other] == t[other];
        }
      }
    }
  }
}
