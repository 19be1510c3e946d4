/** A database table as a map from primary key to row, and the four
    statements the repositories issue against it: a point `SELECT`, an
    `INSERT`, an `UPDATE ... WHERE id` and a `DELETE ... WHERE id`. */
module Tables {
  import opened Wrappers
  import opened Guids
  import opened Ordering

  type Table<E> = map<Guid, E>

  /** `SELECT * ... WHERE id = @Id`, `QueryFirstOrDefault`: the row or null. */
  function Find<E>(t: Table<E>, id: Guid): (r: Option<E>)
    ensures r.Some? <==> id in t
    ensures r.Some? ==> r.value == t[id]
  {
    if id in t then Some(t[id]) else None
  }

  /** `INSERT` under a key not yet in the table. */
  function Insert<E>(t: Table<E>, id: Guid, row: E): (t': Table<E>)
    requires id !in t
    ensures t'.Keys == t.Keys + {id} && |t'| == |t| + 1
    ensures t'[id] == row
    ensures forall k :: k in t ==> t'[k] == t[k]
  {
    t[id := row]
  }

  /** `UPDATE ... WHERE id = @Id`: replaces the matching row, if there is one. */
  function Overwrite<E>(t: Table<E>, id: Guid, row: E): (t': Table<E>)
    ensures t'.Keys == t.Keys
    ensures id in t ==> t'[id] == row
    ensures forall k :: k in t && k != id ==> t'[k] == t[k]
  {
    if id in t then t[id := row] else t
  }

  /** `DELETE ... WHERE id = @Id`: no error when nothing matches. */
  function Remove<E>(t: Table<E>, id: Guid): (t': Table<E>)
    ensures t'.Keys == t.Keys - {id}
    ensures forall k :: k in t' ==> t'[k] == t[k]
  {
    t - {id}
  }

  /** Deleting twice is deleting once, and deleting a missing key changes
      nothing. */
  lemma RemoveIdempotent<E>(t: Table<E>, id: Guid)
    ensures Remove(Remove(t, id), id) == Remove(t, id)
    ensures id !in t ==> Remove(t, id) == t
  {
  }

  /** The keys of a set in some order, each exactly once: the order of a
      `SELECT` without `ORDER BY` is not specified. */
  ghost function Enumerate(ids: set<Guid>): (r: seq<Guid>)
    ensures |r| == |ids| && Distinct(r)
    ensures forall id :: id in r <==> id in ids
    decreases |ids|
  {
    if ids == {} then []
    else
      var id :| id in ids;
      [id] + Enumerate(ids - {id})
  }

  /** The rows of the table, one per stored key, in an unspecified order. */
  ghost function AllRows<E>(t: Table<E>): (rows: seq<E>)
    ensures |rows| == |t|
    ensures forall k :: k in t ==> t[k] in rows
    ensures forall i :: 0 <= i < |rows| ==> rows[i] in t.Values
  {
    var ids := Enumerate(t.Keys);
    assert |t.Keys| == |t|;
    var rows := seq(|ids|, i requires 0 <= i < |ids| => t[ids[i]]);
    assert forall k :: k in t ==> t[k] in rows by {
      forall k | k in t
        ensures t[k] in rows
      {
        var i :| 0 <= i < |ids| && ids[i] == k;
        assert rows[i] == t[k];
      }
    }
    rows
  }
}
