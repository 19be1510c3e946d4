/** `PositionController`: what each position endpoint decides, as a
    function from the position table (and the request) to the response,
    or to a `Reply` holding the table afterwards and the response. The
    validator's uniqueness lookup is answered by the same table. */
module PositionController {
  import opened Wrappers
  import opened Guids
  import opened Models
  import opened ValidationRules
  import opened ValidatorUtils
  import opened CodeColumn
  import opened Envelope
  import Repo = PositionRepository
  import Rules = PositionValidator

  type PositionTable = Repo.PositionTable

  const ListedMessage := "Lấy thông tin danh sách vị trí thành công"
  const NewCodeMessage := "Lấy mã vị trí mới thành công"
  const NotFoundMessage := "Không tìm thấy vị trí hợp lệ"
  const FoundMessage := "Lấy thông tin vị trí thành công"
  const AddedMessage := "Thêm vị trí thành công"
  const UpdatedMessage := "Cập nhật thông tin vị trí thành công"
  const DeletedMessage := "Xoá vị trí thành công"

  /** The validator's `CheckPositionCodeExist` lookup against `t`. */
  function CodeLookup(t: PositionTable): (lookup: string -> bool)
    ensures forall code :: lookup(code) <==> exists id :: id in t && t[id].positionCode == code
  {
    code => Repo.CheckPositionCodeExist(t, code)
  }

  /** What the validator accepts against `t`: a code that is "VT" and five
      digits and stored nowhere, and a name that is not blank. */
  predicate Acceptable(t: PositionTable, p: Position) {
    && MatchesCodePattern(Rules.CodePrefix, p.positionCode)
    && !Repo.CheckPositionCodeExist(t, p.positionCode)
    && !IsBlank(p.positionName)
  }

  /** `GET /Positions`: every stored position, with code 200. */
  ghost function GetAllPositions(t: PositionTable): (r: Response)
    ensures r.SuccessResponse? && r.code == Status200OK && r.message == ListedMessage
    ensures r.metadata.Some? && r.metadata.value.Positions?
    ensures |r.metadata.value.positions| == |t|
    ensures forall id :: id in t ==> t[id] in r.metadata.value.positions
    ensures forall i :: 0 <= i < |r.metadata.value.positions| ==> r.metadata.value.positions[i] in t.Values
  {
    SuccessResponse(ListedMessage, Status200OK, Some(Positions(Repo.GetAllPositions(t))))
  }

  /** `GET /Positions/newPositionCode`: the offered code, or the
      middleware's generic error when the greatest stored code cannot be
      parsed. */
  ghost function CreateNewPositionCode(t: PositionTable): (r: Response)
    ensures r.SuccessResponse? <==> Repo.CreateNewPositionCode(t).Some?
    ensures r.SuccessResponse? ==>
      r == SuccessResponse(NewCodeMessage, Status200OK, Some(NewPositionCode(Repo.CreateNewPositionCode(t).value)))
    ensures r.ErrorResponse? ==> r.message == InternalErrorMessage && r.code == Status500InternalServerError
  {
    match Repo.CreateNewPositionCode(t)
    case Some(code) => SuccessResponse(NewCodeMessage, Status200OK, Some(NewPositionCode(code)))
    case None => ErrorResponse(InternalErrorMessage)
  }

  /** `GET /Positions/{id}`. */
  function GetPosition(t: PositionTable, id: Guid): (r: Response)
    ensures !IdParses(id) ==> r == ErrorResponse(InvalidIdMessage, Status400BadRequest)
    ensures IdParses(id) ==> (r.code == Status404NotFound <==> id !in t)
    ensures IdParses(id) && id in t ==> r == SuccessResponse(FoundMessage, Status200OK, Some(OnePosition(t[id])))
  {
    if !IdParses(id) then ErrorResponse(InvalidIdMessage, Status400BadRequest)
    else
      match Repo.GetPosition(t, id)
      case None => ErrorResponse(NotFoundMessage, Status404NotFound)
      case Some(p) => SuccessResponse(FoundMessage, Status200OK, Some(OnePosition(p)))
  }

  /** `POST /Positions`: stored under the fresh id with 201 when the
      validator accepts it, otherwise 400 with the grouped errors and the
      table untouched. */
  function AddPosition(t: PositionTable, p: Position, freshId: Guid): (r: Reply<PositionTable>)
    requires freshId !in t
    ensures r.response.code == Status201Created <==> Acceptable(t, p)
    ensures Acceptable(t, p) ==>
      && r.state == Repo.AddPosition(t, p, freshId)
      && r.response == SuccessResponse(AddedMessage, Status201Created, Some(OnePosition(p.(positionId := freshId))))
    ensures !Acceptable(t, p) ==>
      && r.state == t
      && r.response == ErrorResponse(InvalidFieldsMessage, Status400BadRequest,
                                     Some(ExtractErrors(Rules.Validate(p, CodeLookup(t)))))
  {
    var errs := Rules.Validate(p, CodeLookup(t));
    if errs != [] then
      Reply(t, ErrorResponse(InvalidFieldsMessage, Status400BadRequest, Some(ExtractErrors(errs))))
    else
      var stored := p.(positionId := freshId);
      Reply(Repo.AddPosition(t, p, freshId), SuccessResponse(AddedMessage, Status201Created, Some(OnePosition(stored))))
  }

  /** `PUT /Positions/{id}`: 404 for a missing row comes before
      validation; an accepted body is stored under the path id, whatever id
      it carries. */
  function UpdatePosition(t: PositionTable, id: Guid, p: Position, now: DateTime): (r: Reply<PositionTable>)
    ensures !IdParses(id) ==> r == Reply(t, ErrorResponse(InvalidIdMessage, Status400BadRequest))
    ensures IdParses(id) && id !in t ==> r == Reply(t, ErrorResponse(NotFoundMessage, Status404NotFound))
    ensures IdParses(id) && id in t ==>
      (r.response.SuccessResponse? <==> Acceptable(t, p))
    ensures IdParses(id) && id in t && !Acceptable(t, p) ==>
      && r.state == t
      && r.response == ErrorResponse(InvalidFieldsMessage, Status400BadRequest,
                                     Some(ExtractErrors(Rules.Validate(p, CodeLookup(t)))))
    ensures IdParses(id) && id in t && Acceptable(t, p) ==>
      && r.response == SuccessResponse(UpdatedMessage)
      && r.state == Repo.UpdatePosition(t, p.(positionId := id), now)
  {
    if !IdParses(id) then Reply(t, ErrorResponse(InvalidIdMessage, Status400BadRequest))
    else if Repo.GetPosition(t, id).None? then Reply(t, ErrorResponse(NotFoundMessage, Status404NotFound))
    else
      var errs := Rules.Validate(p, CodeLookup(t));
      if errs != [] then
        Reply(t, ErrorResponse(InvalidFieldsMessage, Status400BadRequest, Some(ExtractErrors(errs))))
      else
        Reply(Repo.UpdatePosition(t, p.(positionId := id), now), SuccessResponse(UpdatedMessage))
  }

  /** `DELETE /Positions/{id}`. */
  function DeletePosition(t: PositionTable, id: Guid): (r: Reply<PositionTable>)
    ensures !IdParses(id) ==> r == Reply(t, ErrorResponse(InvalidIdMessage, Status400BadRequest))
    ensures IdParses(id) && id !in t ==> r == Reply(t, ErrorResponse(NotFoundMessage, Status404NotFound))
    ensures IdParses(id) && id in t ==> r == Reply(Repo.DeletePosition(t, id), SuccessResponse(DeletedMessage))
  {
    if !IdParses(id) then Reply(t, ErrorResponse(InvalidIdMessage, Status400BadRequest))
    else if Repo.GetPosition(t, id).None? then Reply(t, ErrorResponse(NotFoundMessage, Status404NotFound))
    else Reply(Repo.DeletePosition(t, id), SuccessResponse(DeletedMessage))
  }

  // ---- What the endpoints guarantee ----

  /** Get answers 200 with the stored row exactly when the row exists, and
      404 otherwise; the invalid-uuid answer never happens. */
  lemma GetOutcome(t: PositionTable, id: Guid)
    ensures var r := GetPosition(t, id);
      && r.code != Status400BadRequest
      && (r.code == Status404NotFound <==> id !in t)
      && (r.code == Status200OK <==> id in t)
      && (id in t ==> r.metadata == Some(OnePosition(t[id])))
  {
    IdAlwaysParses(id);
  }

  /** A position the endpoint added reads back under its fresh id, with
      the client's columns. */
  lemma AddThenGet(t: PositionTable, p: Position, freshId: Guid)
    requires freshId !in t && Acceptable(t, p)
    ensures var r := AddPosition(t, p, freshId);
      && freshId in r.state && r.state.Keys == t.Keys + {freshId}
      && GetPosition(r.state, freshId)
           == SuccessResponse(FoundMessage, Status200OK, Some(OnePosition(p.(positionId := freshId))))
  {
    IdAlwaysParses(freshId);
  }

  /** A position with a stored code is turned away with the "already
      exists" message, and nothing is stored. */
  lemma AddStoredCodeRejected(t: PositionTable, p: Position, freshId: Guid)
    requires freshId !in t && Repo.CheckPositionCodeExist(t, p.positionCode)
    ensures var r := AddPosition(t, p, freshId);
      && r.state == t && r.response.code == Status400BadRequest
      && r.response.errors.Some? && Rules.CodeProperty in r.response.errors.value
      && Rules.CodeExistsMessage in r.response.errors.value[Rules.CodeProperty]
  {
    Rules.StoredCodeRejected(p, CodeLookup(t));
  }

  /** While every stored code is "VT" and five digits below 99999, a
      position carrying the offered code and a name is accepted. */
  lemma OfferedCodeAccepted(t: PositionTable, p: Position, freshId: Guid)
    requires freshId !in t
    requires forall id :: id in t ==> BelowLastCode(Repo.CodePrefix, t[id].positionCode)
    requires CreateNewPositionCode(t) == SuccessResponse(NewCodeMessage, Status200OK, Some(NewPositionCode(p.positionCode)))
    requires !IsBlank(p.positionName)
    ensures AddPosition(t, p, freshId).response.code == Status201Created
  {
    Repo.NewCodeFresh(t);
  }

  /** Adding keeps the codes unique: an accepted code is stored nowhere. */
  lemma AddKeepsCodesUnique(t: PositionTable, p: Position, freshId: Guid)
    requires freshId !in t && UniqueCodes(t, Repo.CodeOf)
    ensures UniqueCodes(AddPosition(t, p, freshId).state, Repo.CodeOf)
  {
    var t' := AddPosition(t, p, freshId).state;
    if Acceptable(t, p) {
      forall a, b | a in t' && b in t' && a != b
        ensures Repo.CodeOf(t'[a]) != Repo.CodeOf(t'[b])
      {
        if a == freshId || b == freshId {
          var other := if a == freshId then b else a;
          assert t'[other] == t[other];
        }
      }
    }
  }

  /** Update answers 404 for a missing row whatever the body holds, and
      otherwise stores an accepted body under the path id, stamped with
      `now`, leaving every other row as it was. */
  lemma UpdateOutcome(t: PositionTable, id: Guid, p: Position, now: DateTime)
    ensures UpdatePosition(t, id, p, now).response.code == Status400BadRequest ==> id in t && !Acceptable(t, p)
    ensures var r := UpdatePosition(t, id, p, now);
      && (id !in t ==> r.state == t && r.response.code == Status404NotFound)
      && (id in t && Acceptable(t, p) ==>
            && r.response.code == Status200OK
            && r.state.Keys == t.Keys
            && r.state[id] == p.(positionId := id, modifiedDate := Some(now))
            && forall k :: k in t && k != id ==> r.state[k] == t[k])
      && (id in t && !Acceptable(t, p) ==> r.state == t && r.response.code == Status400BadRequest)
  {
    IdAlwaysParses(id);
  }

  /** Delete answers 404 and changes nothing for a missing row; otherwise it
      removes exactly that row, after which a get answers 404. */
  lemma DeleteOutcome(t: PositionTable, id: Guid)
    ensures var r := DeletePosition(t, id);
      && (r.response.code == Status200OK <==> id in t)
      && (id !in t ==> r.state == t && r.response.code == Status404NotFound)
      && r.state.Keys == t.Keys - {id}
      && (forall k :: k in r.state ==> r.state[k] == t[k])
      && GetPosition(r.state, id).code == Status404NotFound
  {
    IdAlwaysParses(id);
  }

  // ---- Updating a position without changing its code ----

  /** As written, the update re-runs the uniqueness rule against every row,
      the row being updated included: a body that keeps the row's own code
      is always answered 400 "already exists" and nothing is stored. */
  lemma UpdateKeepingCodeRejected(t: PositionTable, id: Guid, p: Position, now: DateTime)
    requires id in t && p.positionCode == t[id].positionCode
    ensures var r := UpdatePosition(t, id, p, now);
      && r.state == t && r.response.code == Status400BadRequest
      && r.response.errors.Some? && Rules.CodeProperty in r.response.errors.value
      && Rules.CodeExistsMessage in r.response.errors.value[Rules.CodeProperty]
  {
    IdAlwaysParses(id);
    Rules.StoredCodeRejected(p, CodeLookup(t));
  }

  /** The uniqueness lookup the update evidently intends: the code is
      carried by some row other than `self`. */
  function CodeLookupExcept(t: PositionTable, self: Guid): (lookup: string -> bool)
    ensures forall code :: lookup(code) <==> Repo.CheckPositionCodeExist(Repo.DeletePosition(t, self), code)
    ensures forall code :: lookup(code) <==> exists k :: k in t && k != self && t[k].positionCode == code
  {
    var others := Repo.DeletePosition(t, self);
    assert forall k :: k in others <==> k in t && k != self;
    code => exists k :: k in t && k != self && t[k].positionCode == code
  }

  /** What the corrected update accepts: the code may be the row's own. */
  predicate AcceptableFor(t: PositionTable, self: Guid, p: Position) {
    && MatchesCodePattern(Rules.CodePrefix, p.positionCode)
    && !CodeLookupExcept(t, self)(p.positionCode)
    && !IsBlank(p.positionName)
  }

  /** The corrected update: as `UpdatePosition`, but the uniqueness rule
      ignores the row being updated. */
  function UpdatePositionExcludingSelf(t: PositionTable, id: Guid, p: Position, now: DateTime): (r: Reply<PositionTable>)
    ensures id !in t ==> r == Reply(t, ErrorResponse(NotFoundMessage, Status404NotFound))
    ensures id in t ==> (r.response.SuccessResponse? <==> AcceptableFor(t, id, p))
    ensures id in t && !AcceptableFor(t, id, p) ==> r.state == t && r.response.code == Status400BadRequest
    ensures id in t && AcceptableFor(t, id, p) ==>
      && r.response == SuccessResponse(UpdatedMessage)
      && r.state == Repo.UpdatePosition(t, p.(positionId := id), now)
  {
    if Repo.GetPosition(t, id).None? then Reply(t, ErrorResponse(NotFoundMessage, Status404NotFound))
    else
      var errs := Rules.Validate(p, CodeLookupExcept(t, id));
      if errs != [] then
        Reply(t, ErrorResponse(InvalidFieldsMessage, Status400BadRequest, Some(ExtractErrors(errs))))
      else
        Reply(Repo.UpdatePosition(t, p.(positionId := id), now), SuccessResponse(UpdatedMessage))
  }

  /** With the correction, keeping the row's own well-formed code and
      giving a name is accepted and stored. */
  lemma KeepingCodeAccepted(t: PositionTable, id: Guid, p: Position, now: DateTime)
    requires id in t && UniqueCodes(t, Repo.CodeOf)
    requires p.positionCode == t[id].positionCode
    requires MatchesCodePattern(Rules.CodePrefix, p.positionCode) && !IsBlank(p.positionName)
    ensures var r := UpdatePositionExcludingSelf(t, id, p, now);
      && r.response == SuccessResponse(UpdatedMessage)
      && r.state[id] == p.(positionId := id, modifiedDate := Some(now))
  {
    forall k | k in t && k != id
      ensures t[k].positionCode != p.positionCode
    {
      assert Repo.CodeOf(t[k]) != Repo.CodeOf(t[id]);
    }
  }

  /** The corrected update keeps the codes unique: an accepted code is
      carried by no other row. */
  lemma CorrectedUpdateKeepsCodesUnique(t: PositionTable, id: Guid, p: Position, now: DateTime)
    requires UniqueCodes(t, Repo.CodeOf)
    ensures UniqueCodes(UpdatePositionExcludingSelf(t, id, p, now).state, Repo.CodeOf)
  {
    var t' := UpdatePositionExcludingSelf(t, id, p, now).state;
    if id in t && AcceptableFor(t, id, p) {
      forall a, b | a in t' && b in t' && a != b
        ensures Repo.CodeOf(t'[a]) != Repo.CodeOf(t'[b])
      {
        if a == id || b == id {
          var other := if a == id then b else a;
          assert t'[other] == t[other];
        }
      }
    }
  }
}
