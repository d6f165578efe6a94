/**
  The `addresses` table and the effect of the four SQL statements the handlers
  issue on it: INSERT, UPDATE ... WHERE id=?, DELETE ... WHERE id=? and
  SELECT * (a full scan).

  The table is a map from id to the stored fields plus the AUTOINCREMENT
  high-water mark: the largest id ever assigned. An id is assigned as one more
  than that mark, so an id is never handed out twice, even after a delete.
 */
module AddressStore {
  import opened Addresses

  /** The largest rowid SQLite can assign, 2^63 - 1. */
  const MaxRowId: int := 0x7FFF_FFFF_FFFF_FFFF

  /** The smallest value an SQLite INTEGER parameter can take, -2^63. */
  const MinInteger: int := -0x8000_0000_0000_0000

  /** One row as the full scan returns it: the id and the four stored fields. */
  datatype Row = Row(id: int, addr: Address)

  /** rows: the stored records by id; issued: the largest id ever assigned, 0 before the first insert. */
  datatype Table = Table(rows: map<int, Address>, issued: int)

  /** What SQLite guarantees of an AUTOINCREMENT table: every id is positive and no
      larger than the high-water mark, which itself fits in 64 bits. */
  predicate Wf(t: Table) {
    && 0 <= t.issued <= MaxRowId
    && forall id :: id in t.rows ==> 1 <= id <= t.issued
  }

  /** The table a fresh database starts with. */
  function Empty(): (t: Table)
    ensures Wf(t) && |t.rows| == 0
  {
    Table(map[], 0)
  }

  /** Failures of a statement: the id space is exhausted (SQLITE_FULL), or an id
      parameter does not fit an SQLite INTEGER (OverflowError while binding). */
  datatype StorageError = TableFull | IdOutOfRange

  datatype Result<+T> = Ok(value: T) | Err(error: StorageError)

  /** An integer that can be bound as a statement parameter. */
  predicate Bindable(id: int) {
    MinInteger <= id <= MaxRowId
  }

  /** The row with this id holds exactly these fields. */
  predicate Holds(rows: map<int, Address>, row: Row) {
    row.id in rows && rows[row.id] == row.addr
  }

  datatype Inserted = Inserted(table: Table, id: int)

  /** INSERT INTO addresses: stores the record under a fresh id. */
  function Insert(t: Table, a: Address): (r: Result<Inserted>)
    requires Wf(t)
    ensures r.Err? <==> t.issued == MaxRowId
    ensures r.Err? ==> r.error == TableFull
    ensures r.Ok? ==>
      var Inserted(t', id) := r.value;
      && Wf(t')
      && id !in t.rows
      && id > t.issued
      && t'.issued == id
      && t'.rows.Keys == t.rows.Keys + {id}
      && |t'.rows| == |t.rows| + 1
      && t'.rows[id] == a
      && forall k :: k in t.rows ==> t'.rows[k] == t.rows[k]
  {
    if t.issued == MaxRowId then
      Err(TableFull)
    else
      var id := t.issued + 1;
      Ok(Inserted(Table(t.rows[id := a], id), id))
  }

  /** UPDATE addresses SET ... WHERE id=?: overwrites every field but the id of the
      matching row; no matching row is not an error. */
  function Update(t: Table, id: int, a: Address): (r: Result<Table>)
    requires Wf(t)
    ensures r.Err? <==> !Bindable(id)
    ensures r.Err? ==> r.error == IdOutOfRange
    ensures r.Ok? ==>
      && Wf(r.value)
      && r.value.issued == t.issued
      && r.value.rows.Keys == t.rows.Keys
      && (id in t.rows ==> r.value.rows[id] == a)
      && forall k :: k in t.rows && k != id ==> r.value.rows[k] == t.rows[k]
    ensures r.Ok? && id !in t.rows ==> r.value == t
  {
    if !Bindable(id) then
      Err(IdOutOfRange)
    else if id in t.rows then
      Ok(Table(t.rows[id := a], t.issued))
    else
      Ok(t)
  }

  /** DELETE FROM addresses WHERE id=?: removes the matching row, if any. */
  function Delete(t: Table, id: int): (r: Result<Table>)
    requires Wf(t)
    ensures r.Err? <==> !Bindable(id)
    ensures r.Err? ==> r.error == IdOutOfRange
    ensures r.Ok? ==>
      && Wf(r.value)
      && r.value.issued == t.issued
      && r.value.rows.Keys == t.rows.Keys - {id}
      && forall k :: k in r.value.rows ==> r.value.rows[k] == t.rows[k]
    ensures r.Ok? && id !in t.rows ==> r.value == t
  {
    if !Bindable(id) then
      Err(IdOutOfRange)
    else
      Ok(Table(t.rows - {id}, t.issued))
  }

  /** Ids strictly increase along the sequence (so no id repeats). */
  predicate IdsIncreasing(rs: seq<Row>) {
    forall i, j :: 0 <= i < j < |rs| ==> rs[i].id < rs[j].id
  }

  /** The rows whose ids lie in [lo, hi], in ascending id order. */
  function ScanRange(rows: map<int, Address>, lo: int, hi: int): (r: seq<Row>)
    ensures forall row :: row in r <==> lo <= row.id <= hi && Holds(rows, row)
    ensures IdsIncreasing(r)
    decreases hi - lo
  {
    if lo > hi then []
    else
      var rest := ScanRange(rows, lo + 1, hi);
      var r := (if lo in rows then [Row(lo, rows[lo])] else []) + rest;
      assert forall k :: 0 <= k < |rest| ==> lo < rest[k].id by {
        forall k | 0 <= k < |rest|
          ensures lo < rest[k].id
        {
          assert rest[k] in rest;
        }
      }
      r
  }

  /** SELECT * FROM addresses: every stored row exactly once, in rowid order, which for
      an AUTOINCREMENT table is insertion order. */
  function Scan(t: Table): (r: seq<Row>)
    requires Wf(t)
    ensures forall row :: row in r <==> Holds(t.rows, row)
    ensures IdsIncreasing(r)
  {
    ScanRange(t.rows, 1, t.issued)
  }
}
