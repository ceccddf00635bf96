/**
 * The `characteristic_metadata` table and its data-access object
 * (app/src/main/java/com/calica/stupidble/data/database/CharacteristicMetadataDao.kt).
 *
 * The table is its rows in rowid order, which is the order an unordered
 * SELECT scans them in, together with the AUTOINCREMENT counter (the largest
 * id the table has ever held). `id` is the INTEGER PRIMARY KEY, so it is the
 * rowid; Room generates it (`autoGenerate = true`) when a record carries 0.
 * A `Flow` query is modelled by the rows it would emit for the current table.
 */
module MetadataDao {
  import opened Wrappers
  import opened Metadata

  datatype Table = Table(rows: seq<CharacteristicMetadata>, lastRowId: int)

  const EMPTY_TABLE: Table := Table([], 0)

  predicate IdsAscending(rows: seq<CharacteristicMetadata>) {
    forall i, j :: 0 <= i < j < |rows| ==> rows[i].id < rows[j].id
  }

  /** Rows in strictly ascending id order, no row with the "unassigned" id 0, no id above the counter. */
  predicate ValidTable(t: Table) {
    && t.lastRowId >= 0
    && IdsAscending(t.rows)
    && forall i :: 0 <= i < |t.rows| ==> t.rows[i].id != 0 && t.rows[i].id <= t.lastRowId
  }

  /** No two rows describe the same characteristic of the same device. */
  predicate KeysUnique(rows: seq<CharacteristicMetadata>) {
    forall i, j :: 0 <= i < j < |rows| ==> KeyOf(rows[i]) != KeyOf(rows[j])
  }

  lemma EmptyTableIsValid()
    ensures ValidTable(EMPTY_TABLE) && KeysUnique(EMPTY_TABLE.rows)
  {
  }

  // ---------------------------------------------------------------------------
  // Queries
  // ---------------------------------------------------------------------------

  /** `WHERE deviceAddress = :deviceAddress`, in scan order. */
  function ForDevice(rows: seq<CharacteristicMetadata>, deviceAddress: string): (r: seq<CharacteristicMetadata>)
    ensures forall m :: m in r <==> m in rows && m.deviceAddress == deviceAddress
    ensures IdsAscending(rows) ==> IdsAscending(r)
  {
    if rows == [] then []
    else if rows[0].deviceAddress == deviceAddress then [rows[0]] + ForDevice(rows[1..], deviceAddress)
    else ForDevice(rows[1..], deviceAddress)
  }

  /** The position of the first row with the given key, `|rows|` when there is none. */
  function IndexOfKey(rows: seq<CharacteristicMetadata>, key: MetadataKey): (k: nat)
    ensures k <= |rows|
    ensures k < |rows| ==> KeyOf(rows[k]) == key
    ensures forall j :: 0 <= j < k ==> KeyOf(rows[j]) != key
  {
    if rows == [] then 0
    else if KeyOf(rows[0]) == key then 0
    else 1 + IndexOfKey(rows[1..], key)
  }

  /** The key-triple query with `LIMIT 1`: the first matching row in scan order, if any. */
  function FirstWithKey(rows: seq<CharacteristicMetadata>, key: MetadataKey): Option<CharacteristicMetadata> {
    var k := IndexOfKey(rows, key);
    if k < |rows| then Some(rows[k]) else None
  }

  /** The lookup finds a row exactly when one has the key, and what it finds has the key. */
  lemma FirstWithKeySpec(rows: seq<CharacteristicMetadata>, key: MetadataKey)
    ensures var r := FirstWithKey(rows, key);
            && (r.None? <==> forall m :: m in rows ==> KeyOf(m) != key)
            && (r.Some? ==> r.value in rows && KeyOf(r.value) == key)
  {
    var k := IndexOfKey(rows, key);
    if k == |rows| {
      forall m | m in rows
        ensures KeyOf(m) != key
      {
        var i :| 0 <= i < |rows| && rows[i] == m;
      }
    }
  }

  /** With unique keys, the row found is the only row with the key. */
  lemma FirstWithKeyIsTheRow(rows: seq<CharacteristicMetadata>, i: nat)
    requires i < |rows| && KeysUnique(rows)
    ensures FirstWithKey(rows, KeyOf(rows[i])) == Some(rows[i])
  {
  }

  /** Strict "newer first" order on `updatedAt`, ties in any order. */
  predicate UpdatedDescending(rows: seq<CharacteristicMetadata>) {
    forall i, j :: 0 <= i < j < |rows| ==> rows[i].updatedAt >= rows[j].updatedAt
  }

  /** Place a row before the first row it is not older than. */
  function InsertByUpdated(m: CharacteristicMetadata, sorted: seq<CharacteristicMetadata>): seq<CharacteristicMetadata> {
    if sorted == [] || sorted[0].updatedAt <= m.updatedAt then [m] + sorted
    else [sorted[0]] + InsertByUpdated(m, sorted[1..])
  }

  /** Inserting adds exactly the one row. */
  lemma {:induction false} InsertByUpdatedPermutes(m: CharacteristicMetadata, sorted: seq<CharacteristicMetadata>)
    ensures multiset(InsertByUpdated(m, sorted)) == multiset(sorted) + multiset{m}
  {
    if sorted != [] && sorted[0].updatedAt > m.updatedAt {
      InsertByUpdatedPermutes(m, sorted[1..]);
      assert sorted == [sorted[0]] + sorted[1..];
    }
  }

  predicate NoneNewerThan(rows: seq<CharacteristicMetadata>, bound: int) {
    forall k :: 0 <= k < |rows| ==> rows[k].updatedAt <= bound
  }

  lemma {:induction false} InsertByUpdatedBounded(m: CharacteristicMetadata, sorted: seq<CharacteristicMetadata>, bound: int)
    requires m.updatedAt <= bound && NoneNewerThan(sorted, bound)
    ensures NoneNewerThan(InsertByUpdated(m, sorted), bound)
  {
    if sorted != [] && sorted[0].updatedAt > m.updatedAt {
      InsertByUpdatedBounded(m, sorted[1..], bound);
    }
  }

  /** Inserting into a newest-first list keeps it newest-first. */
  lemma {:induction false} InsertByUpdatedSorted(m: CharacteristicMetadata, sorted: seq<CharacteristicMetadata>)
    requires UpdatedDescending(sorted)
    ensures UpdatedDescending(InsertByUpdated(m, sorted))
  {
    if sorted != [] && sorted[0].updatedAt > m.updatedAt {
      var rest := InsertByUpdated(m, sorted[1..]);
      InsertByUpdatedSorted(m, sorted[1..]);
      InsertByUpdatedBounded(m, sorted[1..], sorted[0].updatedAt);
      var r := [sorted[0]] + rest;
      forall i, j | 0 <= i < j < |r|
        ensures r[i].updatedAt >= r[j].updatedAt
      {
        assert r[j] == rest[j - 1];
        if i > 0 {
          assert r[i] == rest[i - 1];
        }
      }
    }
  }

  /** `ORDER BY updatedAt DESC`. */
  function SortedByUpdated(rows: seq<CharacteristicMetadata>): seq<CharacteristicMetadata>
    decreases |rows|
  {
    if rows == [] then [] else InsertByUpdated(rows[0], SortedByUpdated(rows[1..]))
  }

  /** The all-rows query returns every row exactly once, most recently updated first. */
  lemma {:induction false} SortedByUpdatedSpec(rows: seq<CharacteristicMetadata>)
    ensures UpdatedDescending(SortedByUpdated(rows))
    ensures multiset(SortedByUpdated(rows)) == multiset(rows)
    decreases |rows|
  {
    if rows != [] {
      SortedByUpdatedSpec(rows[1..]);
      InsertByUpdatedSorted(rows[0], SortedByUpdated(rows[1..]));
      InsertByUpdatedPermutes(rows[0], SortedByUpdated(rows[1..]));
      assert rows == [rows[0]] + rows[1..];
    }
  }

  // ---------------------------------------------------------------------------
  // Writes
  // ---------------------------------------------------------------------------

  /**
   * The rows with `row` stored under its id: a row with the same id is
   * replaced where it stands, otherwise `row` goes in at its place in id order.
   */
  function Placed(rows: seq<CharacteristicMetadata>, row: CharacteristicMetadata): seq<CharacteristicMetadata> {
    if rows == [] then [row]
    else if rows[0].id == row.id then [row] + rows[1..]
    else if rows[0].id > row.id then [row] + rows
    else [rows[0]] + Placed(rows[1..], row)
  }

  /** Placing keeps the table's rows and the new row above any bound they are all above. */
  lemma {:induction false} PlacedAbove(rows: seq<CharacteristicMetadata>, row: CharacteristicMetadata, bound: int)
    requires row.id > bound && forall k :: 0 <= k < |rows| ==> rows[k].id > bound
    ensures forall k :: 0 <= k < |Placed(rows, row)| ==> Placed(rows, row)[k].id > bound
  {
    if rows != [] && rows[0].id < row.id {
      PlacedAbove(rows[1..], row, bound);
    }
  }

  /** Placing keeps the rows in id order. */
  lemma {:induction false} PlacedAscending(rows: seq<CharacteristicMetadata>, row: CharacteristicMetadata)
    requires IdsAscending(rows)
    ensures IdsAscending(Placed(rows, row))
  {
    if rows != [] && rows[0].id < row.id {
      var rest := Placed(rows[1..], row);
      PlacedAscending(rows[1..], row);
      PlacedAbove(rows[1..], row, rows[0].id);
      var r := [rows[0]] + rest;
      forall i, j | 0 <= i < j < |r|
        ensures r[i].id < r[j].id
      {
        assert r[j] == rest[j - 1];
        if i > 0 {
          assert r[i] == rest[i - 1];
        }
      }
    }
  }

  /** After placing, the table holds `row` and every row with another id, and nothing else. */
  lemma {:induction false} PlacedMembers(rows: seq<CharacteristicMetadata>, row: CharacteristicMetadata)
    requires IdsAscending(rows)
    ensures forall m :: m in Placed(rows, row) <==> m == row || (m in rows && m.id != row.id)
  {
    if rows != [] && rows[0].id < row.id {
      PlacedMembers(rows[1..], row);
    } else if rows != [] && rows[0].id > row.id {
      assert forall k :: 0 <= k < |rows| ==> rows[k].id > row.id;
    } else if rows != [] {
      assert forall k :: 1 <= k < |rows| ==> rows[k].id > row.id;
    }
  }

  /** Placing a row whose id is in the table overwrites that row in place. */
  lemma {:induction false} PlacedReplaces(rows: seq<CharacteristicMetadata>, row: CharacteristicMetadata, i: nat)
    requires IdsAscending(rows) && i < |rows| && rows[i].id == row.id
    ensures Placed(rows, row) == rows[i := row]
  {
    if i > 0 {
      PlacedReplaces(rows[1..], row, i - 1);
      assert [rows[0]] + rows[1..][i - 1 := row] == rows[i := row];
    }
  }

  /** Placing a row with an id above every id in the table appends it. */
  lemma {:induction false} PlacedAppends(rows: seq<CharacteristicMetadata>, row: CharacteristicMetadata)
    requires forall i :: 0 <= i < |rows| ==> rows[i].id < row.id
    ensures Placed(rows, row) == rows + [row]
  {
    if rows != [] {
      PlacedAppends(rows[1..], row);
      assert [rows[0]] + (rows[1..] + [row]) == rows + [row];
    }
  }

  function Max(a: int, b: int): int {
    if a < b then b else a
  }

  datatype InsertResult = InsertResult(table: Table, rowId: int)

  /**
   * `@Insert(onConflict = REPLACE)`: a record with id 0 gets the next id after
   * the counter; the row is stored under its id, replacing any row with that
   * id; the counter becomes the largest id seen; the id is returned.
   */
  function Inserted(t: Table, m: CharacteristicMetadata): InsertResult {
    var id := if m.id == 0 then t.lastRowId + 1 else m.id;
    InsertResult(Table(Placed(t.rows, m.(id := id)), Max(t.lastRowId, id)), id)
  }

  /**
   * Insert keeps the table valid and returns a non-zero id: the record's own,
   * or one above every id the table holds. Afterwards exactly the record (under
   * that id) and the rows with other ids are in the table.
   */
  lemma InsertedSpec(t: Table, m: CharacteristicMetadata)
    requires ValidTable(t)
    ensures var r := Inserted(t, m);
            && ValidTable(r.table)
            && r.rowId != 0
            && (m.id != 0 ==> r.rowId == m.id)
            && (m.id == 0 ==> forall x :: x in t.rows ==> x.id < r.rowId)
            && forall x :: x in r.table.rows <==> x == m.(id := r.rowId) || (x in t.rows && x.id != r.rowId)
  {
    var r := Inserted(t, m);
    PlacedAscending(t.rows, m.(id := r.rowId));
    PlacedMembers(t.rows, m.(id := r.rowId));
    forall i | 0 <= i < |r.table.rows|
      ensures r.table.rows[i].id != 0 && r.table.rows[i].id <= r.table.lastRowId
    {
      assert r.table.rows[i] in r.table.rows;
    }
    if m.id == 0 {
      forall x | x in t.rows
        ensures x.id < r.rowId
      {
        var i :| 0 <= i < |t.rows| && t.rows[i] == x;
      }
    }
  }

  /** `@Update`: the row with the record's id becomes the record; with no such row nothing changes. */
  function Updated(t: Table, m: CharacteristicMetadata): Table {
    Table(seq(|t.rows|, i requires 0 <= i < |t.rows| => if t.rows[i].id == m.id then m else t.rows[i]), t.lastRowId)
  }

  /** Some row has this id. */
  predicate HasId(rows: seq<CharacteristicMetadata>, id: int) {
    exists x :: x in rows && x.id == id
  }

  /** Update keeps the table valid, its size and its counter. */
  lemma UpdatedIsValid(t: Table, m: CharacteristicMetadata)
    requires ValidTable(t)
    ensures var r := Updated(t, m);
            ValidTable(r) && r.lastRowId == t.lastRowId && |r.rows| == |t.rows|
  {
    var r := Updated(t, m);
    forall i, j | 0 <= i < j < |r.rows|
      ensures r.rows[i].id < r.rows[j].id
    {
      assert r.rows[i].id == t.rows[i].id && r.rows[j].id == t.rows[j].id;
    }
  }

  /**
   * After an update the rows are the record (when some row had its id) and the
   * rows with other ids; with no row of that id nothing changes.
   */
  lemma UpdatedSpec(t: Table, m: CharacteristicMetadata)
    ensures var r := Updated(t, m);
            && (forall x :: x in r.rows <==> (x == m && HasId(t.rows, m.id)) || (x in t.rows && x.id != m.id))
            && (!HasId(t.rows, m.id) ==> r == t)
  {
    var r := Updated(t, m);
    forall x | x in r.rows
      ensures (x == m && HasId(t.rows, m.id)) || (x in t.rows && x.id != m.id)
    {
      var i :| 0 <= i < |r.rows| && r.rows[i] == x;
      if t.rows[i].id == m.id {
        assert t.rows[i] in t.rows;
      } else {
        assert t.rows[i] == x;
      }
    }
    forall x | (x == m && HasId(t.rows, m.id)) || (x in t.rows && x.id != m.id)
      ensures x in r.rows
    {
      if x == m && HasId(t.rows, m.id) {
        var y :| y in t.rows && y.id == m.id;
        var i :| 0 <= i < |t.rows| && t.rows[i] == y;
        assert r.rows[i] == m;
      } else {
        var i :| 0 <= i < |t.rows| && t.rows[i] == x;
        assert r.rows[i] == x;
      }
    }
    if !HasId(t.rows, m.id) {
      assert forall i :: 0 <= i < |t.rows| ==> t.rows[i] in t.rows;
      assert r.rows == t.rows;
    }
  }

  /** The rows whose id is not `id`, in order. */
  function WithoutId(rows: seq<CharacteristicMetadata>, id: int): (r: seq<CharacteristicMetadata>)
    ensures forall x :: x in r <==> x in rows && x.id != id
    ensures IdsAscending(rows) ==> IdsAscending(r)
  {
    if rows == [] then []
    else if rows[0].id == id then WithoutId(rows[1..], id)
    else [rows[0]] + WithoutId(rows[1..], id)
  }

  /** `@Delete`: delete by primary key; the other fields of the record are not compared. */
  function Deleted(t: Table, m: CharacteristicMetadata): Table {
    Table(WithoutId(t.rows, m.id), t.lastRowId)
  }

  /** The rows of other devices, in order. */
  function WithoutDevice(rows: seq<CharacteristicMetadata>, deviceAddress: string): (r: seq<CharacteristicMetadata>)
    ensures forall x :: x in r <==> x in rows && x.deviceAddress != deviceAddress
    ensures IdsAscending(rows) ==> IdsAscending(r)
  {
    if rows == [] then []
    else if rows[0].deviceAddress == deviceAddress then WithoutDevice(rows[1..], deviceAddress)
    else [rows[0]] + WithoutDevice(rows[1..], deviceAddress)
  }

  /** `DELETE ... WHERE deviceAddress = :deviceAddress`. */
  function DeletedForDevice(t: Table, deviceAddress: string): Table {
    Table(WithoutDevice(t.rows, deviceAddress), t.lastRowId)
  }

  /** Both deletes keep the table valid and keep the counter, so ids are never reused. */
  lemma DeletesKeepTableValid(t: Table, m: CharacteristicMetadata, deviceAddress: string)
    requires ValidTable(t)
    ensures ValidTable(Deleted(t, m)) && Deleted(t, m).lastRowId == t.lastRowId
    ensures ValidTable(DeletedForDevice(t, deviceAddress)) && DeletedForDevice(t, deviceAddress).lastRowId == t.lastRowId
  {
    var d := Deleted(t, m).rows;
    forall i | 0 <= i < |d|
      ensures d[i].id != 0 && d[i].id <= t.lastRowId
    {
      assert d[i] in d;
    }
    var e := DeletedForDevice(t, deviceAddress).rows;
    forall i | 0 <= i < |e|
      ensures e[i].id != 0 && e[i].id <= t.lastRowId
    {
      assert e[i] in e;
    }
  }

  /** Removing a device's rows leaves none for it and leaves every other device's rows as they were. */
  lemma {:induction false} DeletedForDeviceSpec(rows: seq<CharacteristicMetadata>, deviceAddress: string, other: string)
    ensures ForDevice(WithoutDevice(rows, deviceAddress), deviceAddress) == []
    ensures other != deviceAddress ==> ForDevice(WithoutDevice(rows, deviceAddress), other) == ForDevice(rows, other)
  {
    if rows != [] {
      DeletedForDeviceSpec(rows[1..], deviceAddress, other);
      if rows[0].deviceAddress != deviceAddress {
        assert WithoutDevice(rows, deviceAddress) == [rows[0]] + WithoutDevice(rows[1..], deviceAddress);
      }
    }
  }

  // ---------------------------------------------------------------------------
  // The data-access object
  // ---------------------------------------------------------------------------

  class CharacteristicMetadataDao {
    var rows: seq<CharacteristicMetadata>
    var lastRowId: int

    function State(): Table
      reads this
    {
      Table(rows, lastRowId)
    }

    constructor()
      ensures State() == EMPTY_TABLE
    {
      rows := [];
      lastRowId := 0;
    }

    /** `getMetadataForDevice`: the device's rows, in scan order. */
    function GetMetadataForDevice(deviceAddress: string): (r: seq<CharacteristicMetadata>)
      reads this
      ensures forall m :: m in r <==> m in rows && m.deviceAddress == deviceAddress
    {
      ForDevice(rows, deviceAddress)
    }

    /** `getMetadata` / `getMetadataSync`: the row for the key triple, or none. */
    function GetMetadata(deviceAddress: string, serviceUuid: string, characteristicUuid: string)
      : (r: Option<CharacteristicMetadata>)
      reads this
      ensures r.None? <==> forall m :: m in rows ==> KeyOf(m) != MetadataKey(deviceAddress, serviceUuid, characteristicUuid)
      ensures r.Some? ==> r.value in rows && KeyOf(r.value) == MetadataKey(deviceAddress, serviceUuid, characteristicUuid)
    {
      FirstWithKeySpec(rows, MetadataKey(deviceAddress, serviceUuid, characteristicUuid));
      FirstWithKey(rows, MetadataKey(deviceAddress, serviceUuid, characteristicUuid))
    }

    /** `getAllMetadata`: every row once, most recently updated first. */
    function GetAllMetadata(): (r: seq<CharacteristicMetadata>)
      reads this
      ensures UpdatedDescending(r) && multiset(r) == multiset(rows)
    {
      SortedByUpdatedSpec(rows);
      SortedByUpdated(rows)
    }

    method Insert(metadata: CharacteristicMetadata) returns (rowId: int)
      modifies this
      ensures Inserted(old(State()), metadata) == InsertResult(State(), rowId)
    {
      var r := Inserted(State(), metadata);
      rows, lastRowId := r.table.rows, r.table.lastRowId;
      rowId := r.rowId;
    }

    method Update(metadata: CharacteristicMetadata)
      modifies this
      ensures State() == Updated(old(State()), metadata)
    {
      var r := Updated(State(), metadata);
      rows := r.rows;
    }

    method Delete(metadata: CharacteristicMetadata)
      modifies this
      ensures State() == Deleted(old(State()), metadata)
    {
      rows := WithoutId(rows, metadata.id);
    }

    method DeleteAllForDevice(deviceAddress: string)
      modifies this
      ensures State() == DeletedForDevice(old(State()), deviceAddress)
    {
      rows := WithoutDevice(rows, deviceAddress);
    }
  }
}
