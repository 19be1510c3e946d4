/** `EmployeeRepository`: the employee table and the statements the
    controller issues against it. `DateTime.Now` and `Guid.NewGuid()` are
    parameters (`now`, `freshId`). */
module EmployeeRepository {
  import opened Wrappers
  import opened Guids
  import opened Models
  import opened Tables
  import opened ValidationRules
  import opened CommonUtils
  import opened CodeColumn
  import opened Ordering
  import opened Paging

  type EmployeeTable = Table<Employee>

  /** The seed when the table is empty: five zeros. */
  const DefaultCode := "NV00000"
  const CodePrefix := "NV"
  const DefaultPageNumber := 1
  const DefaultPageSize := 20

  function CodeOf(e: Employee): string {
    e.employeeCode
  }

  /** Every row is stored under its own identifier. */
  predicate WellKeyed(t: EmployeeTable) {
    forall id :: id in t ==> t[id].employeeId == id
  }

  /** `CheckEmployeeCodeExist`: some stored row carries `code`. */
  function CheckEmployeeCodeExist(t: EmployeeTable, code: string): (b: bool)
    ensures b <==> exists id :: id in t && t[id].employeeCode == code
  {
    CodeExists(t, CodeOf, code)
  }

  /** `CreateNewEmployeeCode`: `AutoGenerateCode` of the greatest stored
      code, or of "NV00000" on an empty table; `None` when that code cannot
      be parsed (the call throws). */
  ghost function CreateNewEmployeeCode(t: EmployeeTable): (r: Option<string>)
    ensures t == map[] ==> r == Some("NV00001")
    ensures t != map[] ==>
      exists id :: (IsLatest(t, CodeOf, id)
        && (r.Some? <==> ParsableCode(t[id].employeeCode))
        && (r.Some? ==> r.value == AutoGenerateCode(t[id].employeeCode)))
  {
    if t == map[] then
      FirstSeed();
      NextCode(t, CodeOf, DefaultCode)
    else
      NextCode(t, CodeOf, DefaultCode)
  }

  /** The default parses, and its successor is "NV00001". */
  lemma FirstSeed()
    ensures ParsableCode(DefaultCode) && AutoGenerateCode(DefaultCode) == "NV00001"
  {
    FirstCode(CodePrefix, "00000", DefaultCode, "NV00001");
  }

  /** `GetAllEmployees`: every row once, in no specified order. */
  ghost function GetAllEmployees(t: EmployeeTable): (rows: seq<Employee>)
    ensures |rows| == |t|
    ensures forall id :: id in t ==> t[id] in rows
    ensures forall i :: 0 <= i < |rows| ==> rows[i] in t.Values
  {
    AllRows(t)
  }

  /** `GetEmployee`: the row stored under `id`, or nothing. */
  function GetEmployee(t: EmployeeTable, id: Guid): (r: Option<Employee>)
    ensures r.Some? <==> id in t
    ensures r.Some? ==> r.value == t[id]
  {
    Find(t, id)
  }

  /** `AddEmployee`: the row is stored under the fresh identifier, which
      replaces whatever identifier the client sent; every other column is
      stored as given. */
  function AddEmployee(t: EmployeeTable, e: Employee, freshId: Guid): (t': EmployeeTable)
    requires freshId !in t
    ensures t'.Keys == t.Keys + {freshId}
    ensures t'[freshId] == e.(employeeId := freshId)
    ensures forall id :: id in t ==> t'[id] == t[id]
  {
    Insert(t, freshId, e.(employeeId := freshId))
  }

  /** `UpdateEmployee`: stamps `ModifiedDate` with `now` and overwrites
      every column, creation fields included, of the row whose identifier
      the body carries; no row matches, nothing changes. */
  function UpdateEmployee(t: EmployeeTable, e: Employee, now: DateTime): (t': EmployeeTable)
    ensures t'.Keys == t.Keys
    ensures e.employeeId in t ==> t'[e.employeeId] == e.(modifiedDate := Some(now))
    ensures forall id :: id in t && id != e.employeeId ==> t'[id] == t[id]
  {
    Overwrite(t, e.employeeId, e.(modifiedDate := Some(now)))
  }

  /** `DeleteEmployee`: removes the row, if any. */
  function DeleteEmployee(t: EmployeeTable, id: Guid): (t': EmployeeTable)
    ensures t'.Keys == t.Keys - {id}
    ensures forall k :: k in t' ==> t'[k] == t[k]
  {
    Remove(t, id)
  }

  /** Reading back an added row gives the row under its fresh identifier,
      and the table stays well keyed. */
  lemma AddThenGet(t: EmployeeTable, e: Employee, freshId: Guid)
    requires freshId !in t
    ensures GetEmployee(AddEmployee(t, e, freshId), freshId) == Some(e.(employeeId := freshId))
    ensures WellKeyed(t) ==> WellKeyed(AddEmployee(t, e, freshId))
    ensures |AddEmployee(t, e, freshId)| == |t| + 1
  {
  }

  /** Reading back an updated row gives the body stamped with `now`; an
      update never renames a row, so the table stays well keyed. */
  lemma UpdateThenGet(t: EmployeeTable, e: Employee, now: DateTime)
    ensures e.employeeId in t ==>
      GetEmployee(UpdateEmployee(t, e, now), e.employeeId) == Some(e.(modifiedDate := Some(now)))
    ensures e.employeeId !in t ==> UpdateEmployee(t, e, now) == t
    ensures WellKeyed(t) ==> WellKeyed(UpdateEmployee(t, e, now))
  {
  }

  /** Deleting is unconditional and idempotent: the row is gone afterwards,
      a second delete changes nothing, a missing row changes nothing. */
  lemma DeleteIdempotent(t: EmployeeTable, id: Guid)
    ensures GetEmployee(DeleteEmployee(t, id), id).None?
    ensures DeleteEmployee(DeleteEmployee(t, id), id) == DeleteEmployee(t, id)
    ensures id !in t ==> DeleteEmployee(t, id) == t
    ensures WellKeyed(t) ==> WellKeyed(DeleteEmployee(t, id))
  {
    RemoveIdempotent(t, id);
  }

  /** While every stored code is "NV" and five digits below 99999, the
      offered code is "NV" and five digits again, greater than every stored
      one, and so not yet stored. */
  lemma NewCodeFresh(t: EmployeeTable)
    requires forall id :: id in t ==>
      MatchesCodePattern(CodePrefix, t[id].employeeCode) && CodeValue(CodePrefix, t[id].employeeCode) < 99999
    ensures var r := CreateNewEmployeeCode(t);
      && r.Some? && MatchesCodePattern(CodePrefix, r.value)
      && !CheckEmployeeCodeExist(t, r.value)
  {
    if t == map[] {
      assert MatchesCodePattern(CodePrefix, "NV00001") by {
        assert "NV00001"[..2] == CodePrefix && "NV00001"[2..] == "00001";
      }
    } else {
      NextCodeFresh(t, CodeOf, DefaultCode, CodePrefix);
    }
  }

  // ---- The filtered listing ----

  /** The text filter: absent or empty, it admits every row; otherwise the
      full name or the code must be `LIKE '%<filter>%'`, where `like(value,
      pattern)` stands for the collation-dependent `LIKE`. */
  predicate TextMatches(e: Employee, filter: Option<string>, like: (string, string) -> bool) {
    filter.None? || filter.value == [] ||
    like(e.fullName, "%" + filter.value + "%") || like(e.employeeCode, "%" + filter.value + "%")
  }

  /** The `WHERE` clause: the conjunction of the filters present. */
  predicate MatchesQuery(e: Employee, q: EmployeeQueryParams, like: (string, string) -> bool) {
    && TextMatches(e, q.employeeFilter, like)
    && (q.departmentId.None? || e.departmentId == q.departmentId.value)
    && (q.positionId.None? || e.positionId == q.positionId.value)
  }

  /** The rows the `WHERE` clause selects. */
  function MatchingIds(t: EmployeeTable, q: EmployeeQueryParams, like: (string, string) -> bool): set<Guid> {
    set id | id in t && MatchesQuery(t[id], q, like)
  }

  /** Every row listed is stored and passes the `WHERE` clause. */
  predicate AllMatch(rows: seq<Employee>, t: EmployeeTable, q: EmployeeQueryParams, like: (string, string) -> bool) {
    forall i :: 0 <= i < |rows| ==> rows[i] in t.Values && MatchesQuery(rows[i], q, like)
  }

  /** The code of the row stored under `id`, if any. */
  function CodeAt(t: EmployeeTable, id: Guid): string {
    if id in t then t[id].employeeCode else ""
  }

  /** The rows stored under `ids`, in that order. */
  function RowsOf(t: EmployeeTable, ids: seq<Guid>): (rows: seq<Employee>)
    requires forall i :: 0 <= i < |ids| ==> ids[i] in t
    ensures |rows| == |ids|
    ensures forall i :: 0 <= i < |ids| ==> rows[i] == t[ids[i]]
  {
    seq(|ids|, i requires 0 <= i < |ids| => t[ids[i]])
  }

  /** The rows stored under `ids`. */
  function RowsUnder(t: EmployeeTable, ids: set<Guid>): set<Employee>
    requires ids <= t.Keys
  {
    set id | id in ids :: t[id]
  }

  /** The sort key of an identifier: the code stored under it. */
  function KeyOf(t: EmployeeTable): (key: Guid -> string)
    ensures forall id :: key(id) == CodeAt(t, id)
  {
    (id: Guid) => CodeAt(t, id)
  }

  /** `ORDER BY EmployeeCode` over the rows stored under `ids`: each of
      them once, by non-decreasing code. */
  ghost function OrderedRows(t: EmployeeTable, ids: set<Guid>): (rows: seq<Employee>)
    requires ids <= t.Keys
    ensures |rows| == |ids|
    ensures forall i :: 0 <= i < |rows| ==> rows[i] in RowsUnder(t, ids)
    ensures forall id :: id in ids ==> t[id] in rows
    ensures SortedBy(rows, CodeOf)
  {
    RowsInOrder(t, ids);
    RowsOf(t, SortBy(ids, KeyOf(t)))
  }

  /** Reading the rows of `ids` sorted by their codes keeps the order by
      code and lists each row of `ids` once. */
  lemma RowsInOrder(t: EmployeeTable, ids: set<Guid>)
    requires ids <= t.Keys
    ensures var order := SortBy(ids, KeyOf(t));
      && (forall i :: 0 <= i < |order| ==> order[i] in t)
      && var rows := RowsOf(t, order);
      && |rows| == |ids|
      && (forall i :: 0 <= i < |rows| ==> rows[i] in RowsUnder(t, ids))
      && (forall id :: id in ids ==> t[id] in rows)
      && SortedBy(rows, CodeOf)
  {
    var order := SortBy(ids, KeyOf(t));
    assert forall i :: 0 <= i < |order| ==> order[i] in ids;
    RowsSorted(t, order);
    RowsDrawn(t, ids, order);
    RowsListed(t, ids, order);
  }

  /** Rows read in an order sorted by their codes are sorted by code. */
  lemma RowsSorted(t: EmployeeTable, order: seq<Guid>)
    requires forall i :: 0 <= i < |order| ==> order[i] in t
    requires SortedBy(order, KeyOf(t))
    ensures SortedBy(RowsOf(t, order), CodeOf)
  {
    var rows := RowsOf(t, order);
    forall i, j | 0 <= i < j < |rows|
      ensures LexLe(CodeOf(rows[i]), CodeOf(rows[j]))
    {
      assert LexLe(KeyOf(t)(order[i]), KeyOf(t)(order[j]));
      assert CodeOf(rows[i]) == CodeAt(t, order[i]) && CodeOf(rows[j]) == CodeAt(t, order[j]);
    }
  }

  /** Each row read is stored under one of the identifiers. */
  lemma RowsDrawn(t: EmployeeTable, ids: set<Guid>, order: seq<Guid>)
    requires ids <= t.Keys
    requires forall i :: 0 <= i < |order| ==> order[i] in ids && order[i] in t
    ensures forall i :: 0 <= i < |order| ==> RowsOf(t, order)[i] in RowsUnder(t, ids)
  {
    forall i | 0 <= i < |order|
      ensures RowsOf(t, order)[i] in RowsUnder(t, ids)
    {
      assert order[i] in ids && RowsOf(t, order)[i] == t[order[i]];
    }
  }

  /** The row of every identifier in the order is read. */
  lemma RowsListed(t: EmployeeTable, ids: set<Guid>, order: seq<Guid>)
    requires forall i :: 0 <= i < |order| ==> order[i] in t
    requires forall x :: x in ids ==> x in order
    ensures forall id :: id in ids ==> t[id] in RowsOf(t, order)
  {
    var rows := RowsOf(t, order);
    forall id | id in ids
      ensures t[id] in rows
    {
      var i :| 0 <= i < |order| && order[i] == id;
      assert rows[i] == t[id];
    }
  }

  /** The matching rows ordered by code: the result before paging. */
  ghost function OrderedMatches(t: EmployeeTable, q: EmployeeQueryParams, like: (string, string) -> bool): (rows: seq<Employee>)
    ensures |rows| == |MatchingIds(t, q, like)|
    ensures AllMatch(rows, t, q, like)
    ensures forall id :: id in MatchingIds(t, q, like) ==> t[id] in rows
    ensures SortedBy(rows, CodeOf)
  {
    var rows := OrderedRows(t, MatchingIds(t, q, like));
    RowsMatch(t, q, like, rows);
    rows
  }

  /** Rows drawn from the matching identifiers all match. */
  lemma RowsMatch(t: EmployeeTable, q: EmployeeQueryParams, like: (string, string) -> bool, rows: seq<Employee>)
    requires forall i :: 0 <= i < |rows| ==> rows[i] in RowsUnder(t, MatchingIds(t, q, like))
    ensures AllMatch(rows, t, q, like)
  {
    forall i | 0 <= i < |rows|
      ensures rows[i] in t.Values && MatchesQuery(rows[i], q, like)
    {
      var row := rows[i];
      var id :| id in MatchingIds(t, q, like) && row == t[id];
    }
  }

  /** With unique codes no row is listed twice. */
  lemma OrderedMatchesDistinct(t: EmployeeTable, q: EmployeeQueryParams, like: (string, string) -> bool)
    requires UniqueCodes(t, CodeOf)
    ensures Distinct(OrderedMatches(t, q, like))
  {
    var ids := MatchingIds(t, q, like);
    var order := SortBy(ids, KeyOf(t));
    assert forall i :: 0 <= i < |order| ==> order[i] in ids;
    var rows := RowsOf(t, order);
    forall i, j | 0 <= i < j < |rows|
      ensures rows[i] != rows[j]
    {
      assert order[i] != order[j];
      assert CodeOf(t[order[i]]) != CodeOf(t[order[j]]);
    }
  }

  /** With unique codes, any listing the database can return for the query
      — every matching row once, by non-decreasing code — is the model's:
      the ordered matches do not depend on how ties would be broken. */
  lemma DatabaseOrderIsModelOrder(t: EmployeeTable, q: EmployeeQueryParams, like: (string, string) -> bool, s: seq<Employee>)
    requires UniqueCodes(t, CodeOf)
    requires Distinct(s) && SortedBy(s, CodeOf)
    requires forall i :: 0 <= i < |s| ==> s[i] in RowsUnder(t, MatchingIds(t, q, like))
    requires forall id :: id in MatchingIds(t, q, like) ==> t[id] in s
    ensures s == OrderedMatches(t, q, like)
  {
    var ids := MatchingIds(t, q, like);
    var m := OrderedMatches(t, q, like);
    assert m == OrderedRows(t, ids);
    OrderedMatchesDistinct(t, q, like);
    SameRows(t, ids, s, m);
    CodesTellRowsApart(t, ids, s);
    SortedUnique(s, m, CodeOf);
  }

  /** Two listings of the rows under `ids`, each listing every one of them,
      hold the same rows. */
  lemma SameRows(t: EmployeeTable, ids: set<Guid>, s: seq<Employee>, m: seq<Employee>)
    requires ids <= t.Keys
    requires forall i :: 0 <= i < |s| ==> s[i] in RowsUnder(t, ids)
    requires forall i :: 0 <= i < |m| ==> m[i] in RowsUnder(t, ids)
    requires forall id :: id in ids ==> t[id] in s && t[id] in m
    ensures forall x :: x in s <==> x in m
  {
    forall x
      ensures x in s <==> x in m
    {
      if x in s {
        var i :| 0 <= i < |s| && s[i] == x;
        var id :| id in ids && x == t[id];
      }
      if x in m {
        var i :| 0 <= i < |m| && m[i] == x;
        var id :| id in ids && x == t[id];
      }
    }
  }

  /** With unique codes, rows drawn from the table are told apart by code. */
  lemma CodesTellRowsApart(t: EmployeeTable, ids: set<Guid>, s: seq<Employee>)
    requires UniqueCodes(t, CodeOf) && ids <= t.Keys
    requires forall i :: 0 <= i < |s| ==> s[i] in RowsUnder(t, ids)
    ensures KeyInjective(s, CodeOf)
  {
    forall i, j | 0 <= i < |s| && 0 <= j < |s| && CodeOf(s[i]) == CodeOf(s[j])
      ensures s[i] == s[j]
    {
      var a :| a in ids && s[i] == t[a];
      var b :| b in ids && s[j] == t[b];
    }
  }

  /** Page sizes and numbers the listing can run with: absent, or positive.
      The controller's guards reject the others before the call. */
  predicate PagingInRange(q: EmployeeQueryParams) {
    (q.pageSize.None? || q.pageSize.value > 0) && (q.pageNumber.None? || q.pageNumber.value > 0)
  }

  function PageSize(q: EmployeeQueryParams): int {
    q.pageSize.GetOr(DefaultPageSize)
  }

  function PageNumber(q: EmployeeQueryParams): int {
    q.pageNumber.GetOr(DefaultPageNumber)
  }

  /** `GetFilteredEmployees`: all matches are counted, page `pageNumber` of
      `pageSize` rows (defaults 1 and 20) of the matches in code order is
      returned, and the page number is echoed even past the last page. */
  ghost function GetFilteredEmployees(t: EmployeeTable, q: EmployeeQueryParams, like: (string, string) -> bool): (r: EmployeeFiltered)
    requires PagingInRange(q)
    ensures r.totalRecords == |MatchingIds(t, q, like)|
    ensures IsPageCount(r.totalPages, r.totalRecords, PageSize(q))
    ensures r.currentPageNumber == PageNumber(q)
    ensures r.currentPageRecords == |r.employees| <= PageSize(q)
    ensures r.employees == Page(OrderedMatches(t, q, like), PageSize(q), PageNumber(q))
  {
    var all := OrderedMatches(t, q, like);
    var page := Page(all, PageSize(q), PageNumber(q));
    EmployeeFiltered(|all|, CeilDiv(|all|, PageSize(q)), |page|, PageNumber(q), page)
  }

  /** Every row on a page is stored and passes every filter present, and
      the page is in code order. */
  lemma PageRowsMatch(t: EmployeeTable, q: EmployeeQueryParams, like: (string, string) -> bool)
    requires PagingInRange(q)
    ensures var page := GetFilteredEmployees(t, q, like).employees;
      AllMatch(page, t, q, like) && SortedBy(page, CodeOf)
  {
    var all := OrderedMatches(t, q, like);
    var page := GetFilteredEmployees(t, q, like).employees;
    PageSorted(all, PageSize(q), PageNumber(q), CodeOf);
    assert AllMatch(page, t, q, like) by {
      forall i | 0 <= i < |page|
        ensures page[i] in t.Values && MatchesQuery(page[i], q, like)
      {
        assert page[i] == all[Offset(PageSize(q), PageNumber(q)) + i];
      }
    }
  }

  /** Every matching row is on some page within the page count: the page
      that the row's position in code order falls into. */
  lemma EveryMatchPaged(t: EmployeeTable, q: EmployeeQueryParams, like: (string, string) -> bool, id: Guid)
    requires PagingInRange(q)
    requires id in MatchingIds(t, q, like)
    ensures exists number :: (1 <= number <= GetFilteredEmployees(t, q, like).totalPages
      && t[id] in GetFilteredEmployees(t, q.(pageNumber := Some(number)), like).employees)
  {
    var size := PageSize(q);
    var all := OrderedMatches(t, q, like);
    EveryRowPaged(all, size, t[id]);
    var number :| 1 <= number <= CeilDiv(|all|, size) && t[id] in Page(all, size, number);
    PageOfQuery(t, q, like, number);
  }

  /** Page `number` of a query is that page of the query's ordered matches. */
  lemma PageOfQuery(t: EmployeeTable, q: EmployeeQueryParams, like: (string, string) -> bool, number: int)
    requires PagingInRange(q) && number > 0
    ensures GetFilteredEmployees(t, q.(pageNumber := Some(number)), like).employees
      == Page(OrderedMatches(t, q, like), PageSize(q), number)
  {
    var q' := q.(pageNumber := Some(number));
    assert PageSize(q') == PageSize(q) && PageNumber(q') == number;
    PagingKeepsOrder(t, q, like, number);
  }

  /** Asking for another page does not change the ordered matches. */
  lemma PagingKeepsOrder(t: EmployeeTable, q: EmployeeQueryParams, like: (string, string) -> bool, number: int)
    ensures OrderedMatches(t, q.(pageNumber := Some(number)), like) == OrderedMatches(t, q, like)
  {
    var q' := q.(pageNumber := Some(number));
    assert q'.employeeFilter == q.employeeFilter && q'.departmentId == q.departmentId && q'.positionId == q.positionId;
    assert MatchingIds(t, q', like) == MatchingIds(t, q, like);
    SameMatchesSameOrder(t, q, q', like);
  }

  /** The ordered matches depend on which rows match and nothing else. */
  lemma SameMatchesSameOrder(t: EmployeeTable, q: EmployeeQueryParams, q': EmployeeQueryParams, like: (string, string) -> bool)
    requires MatchingIds(t, q, like) == MatchingIds(t, q', like)
    ensures OrderedMatches(t, q, like) == OrderedMatches(t, q', like)
  {
  }

  /** A page past the last is empty but still reports the totals and the
      requested page number. */
  lemma BeyondLastPage(t: EmployeeTable, q: EmployeeQueryParams, like: (string, string) -> bool)
    requires PagingInRange(q)
    requires PageNumber(q) > GetFilteredEmployees(t, q, like).totalPages
    ensures var r := GetFilteredEmployees(t, q, like);
      && r.employees == [] && r.currentPageRecords == 0
      && r.currentPageNumber == PageNumber(q)
      && r.totalRecords == |MatchingIds(t, q, like)|
  {
    PageBeyondLast(OrderedMatches(t, q, like), PageSize(q), PageNumber(q));
  }

  /** An empty text filter is no filter at all. */
  lemma EmptyFilterIsNoFilter(t: EmployeeTable, q: EmployeeQueryParams, like: (string, string) -> bool)
    requires PagingInRange(q) && q.employeeFilter == Some("")
    ensures GetFilteredEmployees(t, q, like) == GetFilteredEmployees(t, q.(employeeFilter := None), like)
  {
    var q' := q.(employeeFilter := None);
    assert MatchingIds(t, q, like) == MatchingIds(t, q', like) by {
      assert forall e :: MatchesQuery(e, q', like) == MatchesQuery(e, q, like);
    }
    SameMatchesSameOrder(t, q, q', like);
  }
}
