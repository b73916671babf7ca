/** One database table as the repositories use it: rows in listing order,
    each carrying the autoincrement primary key the store assigned. The
    repositories' create / findMany / findFirst / update / delete calls are
    the functions below; the table read as a map from key to record is
    `View`. */
module Tables {
  import opened Results
  import opened Arrays

  datatype Row<T> = Row(id: int, data: T)

  /** The table as a map from primary key to record. */
  ghost function View<T>(rows: seq<Row<T>>): map<int, T>
  {
    if rows == [] then map[] else View(rows[1..])[rows[0].id := rows[0].data]
  }

  /** No primary key occurs twice. */
  ghost predicate Distinct<T>(rows: seq<Row<T>>)
  {
    rows == [] || (rows[0].id !in View(rows[1..]) && Distinct(rows[1..]))
  }

  /** The table invariant: keys are unique and below the next key to hand out. */
  ghost predicate WellFormed<T>(rows: seq<Row<T>>, nextId: int)
  {
    Distinct(rows) && forall k :: k in View(rows) ==> k < nextId
  }

  /** Every row's key is a key of the view. */
  lemma {:induction false} RowInView<T>(rows: seq<Row<T>>, i: int)
    requires 0 <= i < |rows|
    ensures rows[i].id in View(rows)
  {
    if i > 0 {
      RowInView(rows[1..], i - 1);
    }
  }

  /** Distinct rows carry pairwise different keys. */
  lemma {:induction false} DistinctIds<T>(rows: seq<Row<T>>, i: int, j: int)
    requires Distinct(rows) && 0 <= i < j < |rows|
    ensures rows[i].id != rows[j].id
  {
    if i == 0 {
      RowInView(rows[1..], j - 1);
    } else {
      DistinctIds(rows[1..], i - 1, j - 1);
    }
  }

  /** `findFirst({where: {id}})`: the row with that key, or null. */
  function Lookup<T>(rows: seq<Row<T>>, id: int): (r: Option<Row<T>>)
    ensures r.Some? <==> id in View(rows)
    ensures r.Some? ==> r.value == Row(id, View(rows)[id])
  {
    if rows == [] then None
    else if rows[0].id == id then Some(rows[0])
    else Lookup(rows[1..], id)
  }

  /** Appending a row with a fresh key adds exactly that key to the view. */
  lemma {:induction false} ViewAppend<T>(rows: seq<Row<T>>, row: Row<T>)
    requires row.id !in View(rows)
    ensures View(rows + [row]) == View(rows)[row.id := row.data]
    ensures Distinct(rows) ==> Distinct(rows + [row])
  {
    if rows == [] {
      assert [] + [row] == [row];
    } else {
      assert (rows + [row])[1..] == rows[1..] + [row];
      ViewAppend(rows[1..], row);
    }
  }

  /** `create({data})`: the record is stored under the next autoincrement key,
      at the end of the listing. */
  function Insert<T>(rows: seq<Row<T>>, nextId: int, d: T): (r: seq<Row<T>>)
    requires WellFormed(rows, nextId)
    ensures WellFormed(r, nextId + 1)
    ensures View(r) == View(rows)[nextId := d]
    ensures |r| == |rows| + 1 && r[..|rows|] == rows && r[|rows|] == Row(nextId, d)
  {
    ViewAppend(rows, Row(nextId, d));
    rows + [Row(nextId, d)]
  }

  /** `update({where: {id}, data})`: the record under `id` becomes d, in place. */
  function Replace<T>(rows: seq<Row<T>>, id: int, d: T): (r: seq<Row<T>>)
    ensures |r| == |rows|
    ensures forall i :: 0 <= i < |rows| ==> r[i] == (if rows[i].id == id then Row(id, d) else rows[i])
    ensures View(r) == if id in View(rows) then View(rows)[id := d] else View(rows)
    ensures Distinct(rows) ==> Distinct(r)
  {
    if rows == [] then []
    else
      var rest := Replace(rows[1..], id, d);
      [if rows[0].id == id then Row(id, d) else rows[0]] + rest
  }

  /** `delete({where: {id}})`: the row under `id` goes, the others keep their order. */
  function Delete<T>(rows: seq<Row<T>>, id: int): (r: seq<Row<T>>)
    ensures IsSubsequence(r, rows)
    ensures forall i :: 0 <= i < |r| ==> r[i] in rows && r[i].id != id
    ensures View(r) == View(rows) - {id}
    ensures Distinct(rows) ==> Distinct(r)
  {
    if rows == [] then []
    else if rows[0].id == id then Delete(rows[1..], id)
    else [rows[0]] + Delete(rows[1..], id)
  }
}
