/** `DepartmentController`: what each department endpoint decides, as a
    function from the department table (and the request) to the response,
    or to a `Reply` holding the table afterwards and the response. The
    validator's uniqueness lookup is answered by the same table. */
module DepartmentController {
  import opened Wrappers
  import opened Guids
  import opened Models
  import opened ValidationRules
  import opened ValidatorUtils
  import opened CodeColumn
  import opened Envelope
  import Repo = DepartmentRepository
  import Rules = DepartmentValidator

  type DepartmentTable = Repo.DepartmentTable

  const ListedMessage := "Lấy thông tin danh sách phòng ban thành công"
  const NewCodeMessage := "Lấy mã phòng ban mới thành công"
  const NotFoundMessage := "Không tìm thấy phòng ban hợp lệ"
  const FoundMessage := "Lấy thông tin phòng ban thành công"
  const AddedMessage := "Thêm phòng ban thành công"
  const UpdatedMessage := "Cập nhật thông tin phòng ban thành công"
  const DeletedMessage := "Xoá phòng ban thành công"

  /** The validator's `CheckDepartmentCodeExist` lookup against `t`. */
  function CodeLookup(t: DepartmentTable): (lookup: string -> bool)
    ensures forall code :: lookup(code) <==> exists id :: id in t && t[id].departmentCode == code
  {
    code => Repo.CheckDepartmentCodeExist(t, code)
  }

  /** What the validator accepts against `t`: a code that is "PB" and five
      digits and stored nowhere, and a name that is not blank. */
  predicate Acceptable(t: DepartmentTable, d: Department) {
    && MatchesCodePattern(Rules.CodePrefix, d.departmentCode)
    && !Repo.CheckDepartmentCodeExist(t, d.departmentCode)
    && !IsBlank(d.departmentName)
  }

  /** `GET /Departments`: every stored department, with code 200. */
  ghost function GetAllDepartments(t: DepartmentTable): (r: Response)
    ensures r.SuccessResponse? && r.code == Status200OK && r.message == ListedMessage
    ensures r.metadata.Some? && r.metadata.value.Departments?
    ensures |r.metadata.value.departments| == |t|
    ensures forall id :: id in t ==> t[id] in r.metadata.value.departments
    ensures forall i :: 0 <= i < |r.metadata.value.departments| ==> r.metadata.value.departments[i] in t.Values
  {
    SuccessResponse(ListedMessage, Status200OK, Some(Departments(Repo.GetAllDepartments(t))))
  }

  /** `GET /Departments/newDepartmentCode`: the offered code, or the
      middleware's generic error when the greatest stored code cannot be
      parsed. */
  ghost function CreateNewDepartmentCode(t: DepartmentTable): (r: Response)
    ensures r.SuccessResponse? <==> Repo.CreateNewDepartmentCode(t).Some?
    ensures r.SuccessResponse? ==>
      r == SuccessResponse(NewCodeMessage, Status200OK, Some(NewDepartmentCode(Repo.CreateNewDepartmentCode(t).value)))
    ensures r.ErrorResponse? ==> r.message == InternalErrorMessage && r.code == Status500InternalServerError
  {
    match Repo.CreateNewDepartmentCode(t)
    case Some(code) => SuccessResponse(NewCodeMessage, Status200OK, Some(NewDepartmentCode(code)))
    case None => ErrorResponse(InternalErrorMessage)
  }

  /** `GET /Departments/{id}`. */
  function GetDepartment(t: DepartmentTable, id: Guid): (r: Response)
    ensures !IdParses(id) ==> r == ErrorResponse(InvalidIdMessage, Status400BadRequest)
    ensures IdParses(id) ==> (r.code == Status404NotFound <==> id !in t)
    ensures IdParses(id) && id in t ==> r == SuccessResponse(FoundMessage, Status200OK, Some(OneDepartment(t[id])))
  {
    if !IdParses(id) then ErrorResponse(InvalidIdMessage, Status400BadRequest)
    else
      match Repo.GetDepartment(t, id)
      case None => ErrorResponse(NotFoundMessage, Status404NotFound)
      case Some(d) => SuccessResponse(FoundMessage, Status200OK, Some(OneDepartment(d)))
  }

  /** `POST /Departments`: stored under the fresh id with 201 when the
      validator accepts it, otherwise 400 with the grouped errors and the
      table untouched. */
  function AddDepartment(t: DepartmentTable, d: Department, freshId: Guid): (r: Reply<DepartmentTable>)
    requires freshId !in t
    ensures r.response.code == Status201Created <==> Acceptable(t, d)
    ensures Acceptable(t, d) ==>
      && r.state == Repo.AddDepartment(t, d, freshId)
      && r.response == SuccessResponse(AddedMessage, Status201Created, Some(OneDepartment(d.(departmentId := freshId))))
    ensures !Acceptable(t, d) ==>
      && r.state == t
      && r.response == ErrorResponse(InvalidFieldsMessage, Status400BadRequest,
                                     Some(ExtractErrors(Rules.Validate(d, CodeLookup(t)))))
  {
    var errs := Rules.Validate(d, CodeLookup(t));
    if errs != [] then
      Reply(t, ErrorResponse(InvalidFieldsMessage, Status400BadRequest, Some(ExtractErrors(errs))))
    else
      var stored := d.(departmentId := freshId);
      Reply(Repo.AddDepartment(t, d, freshId), SuccessResponse(AddedMessage, Status201Created, Some(OneDepartment(stored))))
  }

  /** `PUT /Departments/{id}`: 404 for a missing row comes before
      validation; an accepted body is stored under the path id, whatever id
      it carries. */
  function UpdateDepartment(t: DepartmentTable, id: Guid, d: Department, now: DateTime): (r: Reply<DepartmentTable>)
    ensures !IdParses(id) ==> r == Reply(t, ErrorResponse(InvalidIdMessage, Status400BadRequest))
    ensures IdParses(id) && id !in t ==> r == Reply(t, ErrorResponse(NotFoundMessage, Status404NotFound))
    ensures IdParses(id) && id in t ==>
      (r.response.SuccessResponse? <==> Acceptable(t, d))
    ensures IdParses(id) && id in t && !Acceptable(t, d) ==>
      && r.state == t
      && r.response == ErrorResponse(InvalidFieldsMessage, Status400BadRequest,
                                     Some(ExtractErrors(Rules.Validate(d, CodeLookup(t)))))
    ensures IdParses(id) && id in t && Acceptable(t, d) ==>
      && r.response == SuccessResponse(UpdatedMessage)
      && r.state == Repo.UpdateDepartment(t, d.(departmentId := id), now)
  {
    if !IdParses(id) then Reply(t, ErrorResponse(InvalidIdMessage, Status400BadRequest))
    else if Repo.GetDepartment(t, id).None? then Reply(t, ErrorResponse(NotFoundMessage, Status404NotFound))
    else
      var errs := Rules.Validate(d, CodeLookup(t));
      if errs != [] then
        Reply(t, ErrorResponse(InvalidFieldsMessage, Status400BadRequest, Some(ExtractErrors(errs))))
      else
        Reply(Repo.UpdateDepartment(t, d.(departmentId := id), now), SuccessResponse(UpdatedMessage))
  }

  /** `DELETE /Departments/{id}`. */
  function DeleteDepartment(t: DepartmentTable, id: Guid): (r: Reply<DepartmentTable>)
    ensures !IdParses(id) ==> r == Reply(t, ErrorResponse(InvalidIdMessage, Status400BadRequest))
    ensures IdParses(id) && id !in t ==> r == Reply(t, ErrorResponse(NotFoundMessage, Status404NotFound))
    ensures IdParses(id) && id in t ==> r == Reply(Repo.DeleteDepartment(t, id), SuccessResponse(DeletedMessage))
  {
    if !IdParses(id) then Reply(t, ErrorResponse(InvalidIdMessage, Status400BadRequest))
    else if Repo.GetDepartment(t, id).None? then Reply(t, ErrorResponse(NotFoundMessage, Status404NotFound))
    else Reply(Repo.DeleteDepartment(t, id), SuccessResponse(DeletedMessage))
  }

  // ---- What the endpoints guarantee ----

  /** Get answers 200 with the stored row exactly when the row exists, and
      404 otherwise; the invalid-uuid answer never happens. */
  lemma GetOutcome(t: DepartmentTable, id: Guid)
    ensures var r := GetDepartment(t, id);
      && r.code != Status400BadRequest
      && (r.code == Status404NotFound <==> id !in t)
      && (r.code == Status200OK <==> id in t)
      && (id in t ==> r.metadata == Some(OneDepartment(t[id])))
  {
    IdAlwaysParses(id);
  }

  /** A department the endpoint added reads back under its fresh id, with
      the client's columns. */
  lemma AddThenGet(t: DepartmentTable, d: Department, freshId: Guid)
    requires freshId !in t && Acceptable(t, d)
    ensures var r := AddDepartment(t, d, freshId);
      && freshId in r.state && r.state.Keys == t.Keys + {freshId}
      && GetDepartment(r.state, freshId)
           == SuccessResponse(FoundMessage, Status200OK, Some(OneDepartment(d.(departmentId := freshId))))
  {
    IdAlwaysParses(freshId);
  }

  /** A department with a stored code is turned away with the "already
      exists" message, and nothing is stored. */
  lemma AddStoredCodeRejected(t: DepartmentTable, d: Department, freshId: Guid)
    requires freshId !in t && Repo.CheckDepartmentCodeExist(t, d.departmentCode)
    ensures var r := AddDepartment(t, d, freshId);
      && r.state == t && r.response.code == Status400BadRequest
      && r.response.errors.Some? && Rules.CodeProperty in r.response.errors.value
      && Rules.CodeExistsMessage in r.response.errors.value[Rules.CodeProperty]
  {
    Rules.StoredCodeRejected(d, CodeLookup(t));
  }

  /** While every stored code is "PB" and five digits below 99999, a
      department carrying the offered code and a name is accepted. */
  lemma OfferedCodeAccepted(t: DepartmentTable, d: Department, freshId: Guid)
    requires freshId !in t
    requires forall id :: id in t ==> BelowLastCode(Repo.CodePrefix, t[id].departmentCode)
    requires CreateNewDepartmentCode(t) == SuccessResponse(NewCodeMessage, Status200OK, Some(NewDepartmentCode(d.departmentCode)))
    requires !IsBlank(d.departmentName)
    ensures AddDepartment(t, d, freshId).response.code == Status201Created
  {
    Repo.NewCodeFresh(t);
  }

  /** Adding keeps the codes unique: an accepted code is stored nowhere. */
  lemma AddKeepsCodesUnique(t: DepartmentTable, d: Department, freshId: Guid)
    requires freshId !in t && UniqueCodes(t, Repo.CodeOf)
    ensures UniqueCodes(AddDepartment(t, d, freshId).state, Repo.CodeOf)
  {
    var t' := AddDepartment(t, d, freshId).state;
    if Acceptable(t, d) {
      forall a, b | a in t' && b in t' && a != b
        ensures Repo.CodeOf(t'[a]) != Repo.CodeOf(t'[b])
      {
        if a == freshId || b == freshId {
          var other := if a == freshId then b else a;
          assert t'[other] == t[other];
        }
      }
    }
  }

  /** Update answers 404 for a missing row whatever the body holds, and
      otherwise stores an accepted body under the path id, stamped with
      `now`, leaving every other row as it was. */
  lemma UpdateOutcome(t: DepartmentTable, id: Guid, d: Department, now: DateTime)
    ensures UpdateDepartment(t, id, d, now).response.code == Status400BadRequest ==> id in t && !Acceptable(t, d)
    ensures var r := UpdateDepartment(t, id, d, now);
      && (id !in t ==> r.state == t && r.response.code == Status404NotFound)
      && (id in t && Acceptable(t, d) ==>
            && r.response.code == Status200OK
            && r.state.Keys == t.Keys
            && r.state[id] == d.(departmentId := id, modifiedDate := Some(now))
            && forall k :: k in t && k != id ==> r.state[k] == t[k])
      && (id in t && !Acceptable(t, d) ==> r.state == t && r.response.code == Status400BadRequest)
  {
    IdAlwaysParses(id);
  }

  /** Delete answers 404 and changes nothing for a missing row; otherwise it
      removes exactly that row, after which a get answers 404. */
  lemma DeleteOutcome(t: DepartmentTable, id: Guid)
    ensures var r := DeleteDepartment(t, id);
      && (r.response.code == Status200OK <==> id in t)
      && (id !in t ==> r.state == t && r.response.code == Status404NotFound)
      && r.state.Keys == t.Keys - {id}
      && (forall k :: k in r.state ==> r.state[k] == t[k])
      && GetDepartment(r.state, id).code == Status404NotFound
  {
    IdAlwaysParses(id);
  }

  // ---- Updating a department without changing its code ----

  /** As written, the update re-runs the uniqueness rule against every row,
      the row being updated included: a body that keeps the row's own code
      is always answered 400 "already exists" and nothing is stored. */
  lemma UpdateKeepingCodeRejected(t: DepartmentTable, id: Guid, d: Department, now: DateTime)
    requires id in t && d.departmentCode == t[id].departmentCode
    ensures var r := UpdateDepartment(t, id, d, now);
      && r.state == t && r.response.code == Status400BadRequest
      && r.response.errors.Some? && Rules.CodeProperty in r.response.errors.value
      && Rules.CodeExistsMessage in r.response.errors.value[Rules.CodeProperty]
  {
    IdAlwaysParses(id);
    Rules.StoredCodeRejected(d, CodeLookup(t));
  }

  /** The uniqueness lookup the update evidently intends: the code is
      carried by some row other than `self`. */
  function CodeLookupExcept(t: DepartmentTable, self: Guid): (lookup: string -> bool)
    ensures forall code :: lookup(code) <==> Repo.CheckDepartmentCodeExist(Repo.DeleteDepartment(t, self), code)
    ensures forall code :: lookup(code) <==> exists k :: k in t && k != self && t[k].departmentCode == code
  {
    var others := Repo.DeleteDepartment(t, self);
    assert forall k :: k in others <==> k in t && k != self;
    code => exists k :: k in t && k != self && t[k].departmentCode == code
  }

  /** What the corrected update accepts: the code may be the row's own. */
  predicate AcceptableFor(t: DepartmentTable, self: Guid, d: Department) {
    && MatchesCodePattern(Rules.CodePrefix, d.departmentCode)
    && !CodeLookupExcept(t, self)(d.departmentCode)
    && !IsBlank(d.departmentName)
  }

  /** The corrected update: as `UpdateDepartment`, but the uniqueness rule
      ignores the row being updated. */
  function UpdateDepartmentExcludingSelf(t: DepartmentTable, id: Guid, d: Department, now: DateTime): (r: Reply<DepartmentTable>)
    ensures id !in t ==> r == Reply(t, ErrorResponse(NotFoundMessage, Status404NotFound))
    ensures id in t ==> (r.response.SuccessResponse? <==> AcceptableFor(t, id, d))
    ensures id in t && !AcceptableFor(t, id, d) ==> r.state == t && r.response.code == Status400BadRequest
    ensures id in t && AcceptableFor(t, id, d) ==>
      && r.response == SuccessResponse(UpdatedMessage)
      && r.state == Repo.UpdateDepartment(t, d.(departmentId := id), now)
  {
    if Repo.GetDepartment(t, id).None? then Reply(t, ErrorResponse(NotFoundMessage, Status404NotFound))
    else
      var errs := Rules.Validate(d, CodeLookupExcept(t, id));
      if errs != [] then
        Reply(t, ErrorResponse(InvalidFieldsMessage, Status400BadRequest, Some(ExtractErrors(errs))))
      else
        Reply(Repo.UpdateDepartment(t, d.(departmentId := id), now), SuccessResponse(UpdatedMessage))
  }

  /** With the correction, keeping the row's own well-formed code and
      giving a name is accepted and stored. */
  lemma KeepingCodeAccepted(t: DepartmentTable, id: Guid, d: Department, now: DateTime)
    requires id in t && UniqueCodes(t, Repo.CodeOf)
    requires d.departmentCode == t[id].departmentCode
    requires MatchesCodePattern(Rules.CodePrefix, d.departmentCode) && !IsBlank(d.departmentName)
    ensures var r := UpdateDepartmentExcludingSelf(t, id, d, now);
      && r.response == SuccessResponse(UpdatedMessage)
      && r.state[id] == d.(departmentId := id, modifiedDate := Some(now))
  {
    forall k | k in t && k != id
      ensures t[k].departmentCode != d.departmentCode
    {
      assert Repo.CodeOf(t[k]) != Repo.CodeOf(t[id]);
    }
  }

  /** The corrected update keeps the codes unique: an accepted code is
      carried by no other row. */
  lemma CorrectedUpdateKeepsCodesUnique(t: DepartmentTable, id: Guid, d: Department, now: DateTime)
    requires UniqueCodes(t, Repo.CodeOf)
    ensures UniqueCodes(UpdateDepartmentExcludingSelf(t, id, d, now).state, Repo.CodeOf)
  {
    var t' := UpdateDepartmentExcludingSelf(t, id, d, now).state;
    if id in t && AcceptableFor(t, id, d) {
      forall a, b | a in t' && b in t' && a != b
        ensures Repo.CodeOf(t'[a]) != Repo.CodeOf(t'[b])
      {
        if a == id || b == id {
          var other := if a == id then b else a;
          assert t'[other] == t[other];
        }
      }
    }
  }
}
