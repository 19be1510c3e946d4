/** `PositionRepository`: the position table and the statements the
    controller issues against it. `DateTime.Now` and `Guid.NewGuid()` are
    parameters (`now`, `freshId`). */
module PositionRepository {
  import opened Wrappers
  import opened Guids
  import opened Models
  import opened Tables
  import opened ValidationRules
  import opened CommonUtils
  import opened CodeColumn

  type PositionTable = Table<Position>

  /** The seed when the table is empty: five zeros. */
  const DefaultCode := "VT00000"
  const CodePrefix := "VT"

  function CodeOf(p: Position): string {
    p.positionCode
  }

  /** Every row is stored under its own identifier. */
  predicate WellKeyed(t: PositionTable) {
    forall id :: id in t ==> t[id].positionId == id
  }

  /** `CheckPositionCodeExist`: some stored row carries `code`. */
  function CheckPositionCodeExist(t: PositionTable, code: string): (b: bool)
    ensures b <==> exists id :: id in t && t[id].positionCode == code
  {
    CodeExists(t, CodeOf, code)
  }

  /** `CreateNewPositionCode`: `AutoGenerateCode` of the greatest stored
      code, or of "VT00000" on an empty table; `None` when that code cannot
      be parsed (the call throws). */
  ghost function CreateNewPositionCode(t: PositionTable): (r: Option<string>)
    ensures t == map[] ==> r == Some("VT00001")
    ensures t != map[] ==>
      exists id :: (IsLatest(t, CodeOf, id)
        && (r.Some? <==> ParsableCode(t[id].positionCode))
        && (r.Some? ==> r.value == AutoGenerateCode(t[id].positionCode)))
  {
    if t == map[] then
      FirstSeed();
      NextCode(t, CodeOf, DefaultCode)
    else
      NextCode(t, CodeOf, DefaultCode)
  }

  /** The default parses, and its successor is "VT00001". */
  lemma FirstSeed()
    ensures ParsableCode(DefaultCode) && AutoGenerateCode(DefaultCode) == "VT00001"
  {
    FirstCode(CodePrefix, "00000", DefaultCode, "VT00001");
  }

  /** `GetAllPositions`: every row once, in no specified order. */
  ghost function GetAllPositions(t: PositionTable): (rows: seq<Position>)
    ensures |rows| == |t|
    ensures forall id :: id in t ==> t[id] in rows
    ensures forall i :: 0 <= i < |rows| ==> rows[i] in t.Values
  {
    AllRows(t)
  }

  /** `GetPosition`: the row stored under `id`, or nothing. */
  function GetPosition(t: PositionTable, id: Guid): (r: Option<Position>)
    ensures r.Some? <==> id in t
    ensures r.Some? ==> r.value == t[id]
  {
    Find(t, id)
  }

  /** `AddPosition`: the row is stored under the fresh identifier, which
      replaces whatever identifier the client sent; every other column is
      stored as given. */
  function AddPosition(t: PositionTable, p: Position, freshId: Guid): (t': PositionTable)
    requires freshId !in t
    ensures t'.Keys == t.Keys + {freshId}
    ensures t'[freshId] == p.(positionId := freshId)
    ensures forall id :: id in t ==> t'[id] == t[id]
  {
    Insert(t, freshId, p.(positionId := freshId))
  }

  /** `UpdatePosition`: stamps `ModifiedDate` with `now` and overwrites
      every column, creation fields included, of the row whose identifier
      the body carries; no row matches, nothing changes. */
  function UpdatePosition(t: PositionTable, p: Position, now: DateTime): (t': PositionTable)
    ensures t'.Keys == t.Keys
    ensures p.positionId in t ==> t'[p.positionId] == p.(modifiedDate := Some(now))
    ensures forall id :: id in t && id != p.positionId ==> t'[id] == t[id]
  {
    Overwrite(t, p.positionId, p.(modifiedDate := Some(now)))
  }

  /** `DeletePosition`: removes the row, if any. */
  function DeletePosition(t: PositionTable, id: Guid): (t': PositionTable)
    ensures t'.Keys == t.Keys - {id}
    ensures forall k :: k in t' ==> t'[k] == t[k]
  {
    Remove(t, id)
  }

  /** Reading back an added row gives the row under its fresh identifier,
      and the table stays well keyed. */
  lemma AddThenGet(t: PositionTable, p: Position, freshId: Guid)
    requires freshId !in t
    ensures GetPosition(AddPosition(t, p, freshId), freshId) == Some(p.(positionId := freshId))
    ensures WellKeyed(t) ==> WellKeyed(AddPosition(t, p, freshId))
    ensures |AddPosition(t, p, freshId)| == |t| + 1
  {
  }

  /** Reading back an updated row gives the body stamped with `now`; an
      update never renames a row, so the table stays well keyed. */
  lemma UpdateThenGet(t: PositionTable, p: Position, now: DateTime)
    ensures p.positionId in t ==>
      GetPosition(UpdatePosition(t, p, now), p.positionId) == Some(p.(modifiedDate := Some(now)))
    ensures p.positionId !in t ==> UpdatePosition(t, p, now) == t
    ensures WellKeyed(t) ==> WellKeyed(UpdatePosition(t, p, now))
  {
  }

  /** Deleting is unconditional and idempotent: the row is gone afterwards,
      a second delete changes nothing, a missing row changes nothing. */
  lemma DeleteIdempotent(t: PositionTable, id: Guid)
    ensures GetPosition(DeletePosition(t, id), id).None?
    ensures DeletePosition(DeletePosition(t, id), id) == DeletePosition(t, id)
    ensures id !in t ==> DeletePosition(t, id) == t
    ensures WellKeyed(t) ==> WellKeyed(DeletePosition(t, id))
  {
    RemoveIdempotent(t, id);
  }

  /** While every stored code is "VT" and five digits below 99999, the
      offered code is "VT" and five digits again, greater than every stored
      one, and so not yet stored. */
  lemma NewCodeFresh(t: PositionTable)
    requires forall id :: id in t ==>
      MatchesCodePattern(CodePrefix, t[id].positionCode) && CodeValue(CodePrefix, t[id].positionCode) < 99999
    ensures var r := CreateNewPositionCode(t);
      && r.Some? && MatchesCodePattern(CodePrefix, r.value)
      && !CheckPositionCodeExist(t, r.value)
  {
    if t == map[] {
      assert MatchesCodePattern(CodePrefix, "VT00001") by {
        assert "VT00001"[..2] == CodePrefix && "VT00001"[2..] == "00001";
      }
    } else {
      NextCodeFresh(t, CodeOf, DefaultCode, CodePrefix);
    }
  }
}
