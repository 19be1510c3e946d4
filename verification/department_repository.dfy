/** `DepartmentRepository`: the department table and the statements the
    controller issues against it. `DateTime.Now` and `Guid.NewGuid()` are
    parameters (`now`, `freshId`). */
module DepartmentRepository {
  import opened Wrappers
  import opened Guids
  import opened Models
  import opened Tables
  import opened ValidationRules
  import opened CommonUtils
  import opened CodeColumn

  type DepartmentTable = Table<Department>

  /** The seed when the table is empty: only four digits. */
  const DefaultCode := "PB0000"
  const CodePrefix := "PB"

  function CodeOf(d: Department): string {
    d.departmentCode
  }

  /** Every row is stored under its own identifier. */
  predicate WellKeyed(t: DepartmentTable) {
    forall id :: id in t ==> t[id].departmentId == id
  }

  /** `CheckDepartmentCodeExist`: some stored row carries `code`. */
  function CheckDepartmentCodeExist(t: DepartmentTable, code: string): (b: bool)
    ensures b <==> exists id :: id in t && t[id].departmentCode == code
  {
    CodeExists(t, CodeOf, code)
  }

  /** `CreateNewDepartmentCode`: `AutoGenerateCode` of the greatest stored
      code, or of "PB0000" on an empty table; `None` when that code cannot
      be parsed (the call throws). */
  ghost function CreateNewDepartmentCode(t: DepartmentTable): (r: Option<string>)
    ensures t == map[] ==> r == Some("PB00001")
    ensures t != map[] ==>
      exists id :: (IsLatest(t, CodeOf, id)
        && (r.Some? <==> ParsableCode(t[id].departmentCode))
        && (r.Some? ==> r.value == AutoGenerateCode(t[id].departmentCode)))
  {
    if t == map[] then
      FirstSeed();
      NextCode(t, CodeOf, DefaultCode)
    else
      NextCode(t, CodeOf, DefaultCode)
  }

  /** The four-digit default still parses, and its successor is "PB00001". */
  lemma FirstSeed()
    ensures ParsableCode(DefaultCode) && AutoGenerateCode(DefaultCode) == "PB00001"
  {
    FirstCode(CodePrefix, "0000", DefaultCode, "PB00001");
  }

  /** `GetAllDepartments`: every row once, in no specified order. */
  ghost function GetAllDepartments(t: DepartmentTable): (rows: seq<Department>)
    ensures |rows| == |t|
    ensures forall id :: id in t ==> t[id] in rows
    ensures forall i :: 0 <= i < |rows| ==> rows[i] in t.Values
  {
    AllRows(t)
  }

  /** `GetDepartment`: the row stored under `id`, or nothing. */
  function GetDepartment(t: DepartmentTable, id: Guid): (r: Option<Department>)
    ensures r.Some? <==> id in t
    ensures r.Some? ==> r.value == t[id]
  {
    Find(t, id)
  }

  /** `AddDepartment`: the row is stored under the fresh identifier, which
      replaces whatever identifier the client sent; every other column is
      stored as given. */
  function AddDepartment(t: DepartmentTable, d: Department, freshId: Guid): (t': DepartmentTable)
    requires freshId !in t
    ensures t'.Keys == t.Keys + {freshId}
    ensures t'[freshId] == d.(departmentId := freshId)
    ensures forall id :: id in t ==> t'[id] == t[id]
  {
    Insert(t, freshId, d.(departmentId := freshId))
  }

  /** `UpdateDepartment`: stamps `ModifiedDate` with `now` and overwrites
      every column, creation fields included, of the row whose identifier
      the body carries; no row matches, nothing changes. */
  function UpdateDepartment(t: DepartmentTable, d: Department, now: DateTime): (t': DepartmentTable)
    ensures t'.Keys == t.Keys
    ensures d.departmentId in t ==> t'[d.departmentId] == d.(modifiedDate := Some(now))
    ensures forall id :: id in t && id != d.departmentId ==> t'[id] == t[id]
  {
    Overwrite(t, d.departmentId, d.(modifiedDate := Some(now)))
  }

  /** `DeleteDepartment`: removes the row, if any. */
  function DeleteDepartment(t: DepartmentTable, id: Guid): (t': DepartmentTable)
    ensures t'.Keys == t.Keys - {id}
    ensures forall k :: k in t' ==> t'[k] == t[k]
  {
    Remove(t, id)
  }

  /** Reading back an added row gives the row under its fresh identifier,
      and the table stays well keyed. */
  lemma AddThenGet(t: DepartmentTable, d: Department, freshId: Guid)
    requires freshId !in t
    ensures GetDepartment(AddDepartment(t, d, freshId), freshId) == Some(d.(departmentId := freshId))
    ensures WellKeyed(t) ==> WellKeyed(AddDepartment(t, d, freshId))
    ensures |AddDepartment(t, d, freshId)| == |t| + 1
  {
  }

  /** Reading back an updated row gives the body stamped with `now`; an
      update never renames a row, so the table stays well keyed. */
  lemma UpdateThenGet(t: DepartmentTable, d: Department, now: DateTime)
    ensures d.departmentId in t ==>
      GetDepartment(UpdateDepartment(t, d, now), d.departmentId) == Some(d.(modifiedDate := Some(now)))
    ensures d.departmentId !in t ==> UpdateDepartment(t, d, now) == t
    ensures WellKeyed(t) ==> WellKeyed(UpdateDepartment(t, d, now))
  {
  }

  /** Deleting is unconditional and idempotent: the row is gone afterwards,
      a second delete changes nothing, a missing row changes nothing. */
  lemma DeleteIdempotent(t: DepartmentTable, id: Guid)
    ensures GetDepartment(DeleteDepartment(t, id), id).None?
    ensures DeleteDepartment(DeleteDepartment(t, id), id) == DeleteDepartment(t, id)
    ensures id !in t ==> DeleteDepartment(t, id) == t
    ensures WellKeyed(t) ==> WellKeyed(DeleteDepartment(t, id))
  {
    RemoveIdempotent(t, id);
  }

  /** While every stored code is "PB" and five digits below 99999, the
      offered code is "PB" and five digits again, greater than every stored
      one, and so not yet stored. */
  lemma NewCodeFresh(t: DepartmentTable)
    requires forall id :: id in t ==>
      MatchesCodePattern(CodePrefix, t[id].departmentCode) && CodeValue(CodePrefix, t[id].departmentCode) < 99999
    ensures var r := CreateNewDepartmentCode(t);
      && r.Some? && MatchesCodePattern(CodePrefix, r.value)
      && !CheckDepartmentCodeExist(t, r.value)
  {
    if t == map[] {
      assert MatchesCodePattern(CodePrefix, "PB00001") by {
        assert "PB00001"[..2] == CodePrefix && "PB00001"[2..] == "00001";
      }
    } else {
      NextCodeFresh(t, CodeOf, DefaultCode, CodePrefix);
    }
  }
}
