/**
 * The repository over the metadata table: an upsert keyed by
 * (device, service, characteristic), plus delegating reads and deletes
 * (app/src/main/java/com/calica/stupidble/data/repository/MetadataRepository.kt).
 *
 * The clock `System.currentTimeMillis()` is the parameter `now`; one reading
 * serves both timestamps of a new record.
 */
module MetadataRepository {
  import opened Wrappers
  import opened Metadata
  import opened MetadataDao

  /** The fields `saveMetadata` overwrites, with its parameter defaults. */
  datatype MetadataFields = MetadataFields(
    name: Option<string> := None,
    description: Option<string> := None,
    dataType: CharacteristicDataType := HEX_RAW,
    endianness: Endianness := LITTLE_ENDIAN,
    unit: Option<string> := None,
    minValue: Option<real> := None,
    maxValue: Option<real> := None)

  /**
   * The record `saveMetadata` hands to insert: the existing row with the seven
   * fields replaced and `updatedAt` set, or a fresh record with id 0 and both
   * timestamps set.
   */
  function SavedRecord(existing: Option<CharacteristicMetadata>, key: MetadataKey, fields: MetadataFields, now: int)
    : CharacteristicMetadata
  {
    if existing.Some? then
      existing.value.(name := fields.name, description := fields.description, dataType := fields.dataType,
                      endianness := fields.endianness, unit := fields.unit, minValue := fields.minValue,
                      maxValue := fields.maxValue, updatedAt := now)
    else
      CharacteristicMetadata(deviceAddress := key.deviceAddress, serviceUuid := key.serviceUuid,
                             characteristicUuid := key.characteristicUuid, name := fields.name,
                             description := fields.description, dataType := fields.dataType,
                             endianness := fields.endianness, unit := fields.unit, minValue := fields.minValue,
                             maxValue := fields.maxValue, createdAt := now, updatedAt := now)
  }

  /** `saveMetadata` on the table: look the key up, then insert with REPLACE. */
  function Saved(t: Table, key: MetadataKey, fields: MetadataFields, now: int): InsertResult {
    Inserted(t, SavedRecord(FirstWithKey(t.rows, key), key, fields, now))
  }

  /** The record carries the key, the requested fields and the save time. */
  predicate HoldsSave(m: CharacteristicMetadata, key: MetadataKey, fields: MetadataFields, now: int) {
    && KeyOf(m) == key
    && m.name == fields.name && m.description == fields.description
    && m.dataType == fields.dataType && m.endianness == fields.endianness
    && m.unit == fields.unit && m.minValue == fields.minValue && m.maxValue == fields.maxValue
    && m.updatedAt == now
  }

  /** With unique keys, a lookup finds a row exactly when it is in the table with that key. */
  lemma LookupIsMembership(rows: seq<CharacteristicMetadata>, key: MetadataKey, m: CharacteristicMetadata)
    requires KeysUnique(rows)
    ensures FirstWithKey(rows, key) == Some(m) <==> m in rows && KeyOf(m) == key
  {
    FirstWithKeySpec(rows, key);
    if m in rows && KeyOf(m) == key {
      var i :| 0 <= i < |rows| && rows[i] == m;
      FirstWithKeyIsTheRow(rows, i);
    }
  }

  /**
   * Saving a key that has a row overwrites that row in place: same id, same
   * position, same `createdAt`, the requested fields, and the key stays unique.
   */
  lemma SaveOverwritesExisting(t: Table, key: MetadataKey, fields: MetadataFields, now: int)
    requires ValidTable(t) && KeysUnique(t.rows)
    requires FirstWithKey(t.rows, key).Some?
    ensures var existing := FirstWithKey(t.rows, key).value;
            var r := Saved(t, key, fields, now);
            var i := IndexOfKey(t.rows, key);
            && r.rowId == existing.id
            && r.table.lastRowId == t.lastRowId
            && i < |t.rows| == |r.table.rows|
            && r.table.rows == t.rows[i := r.table.rows[i]]
            && r.table.rows[i].id == existing.id && r.table.rows[i].createdAt == existing.createdAt
            && HoldsSave(r.table.rows[i], key, fields, now)
            && ValidTable(r.table) && KeysUnique(r.table.rows)
  {
    var i := IndexOfKey(t.rows, key);
    var record := SavedRecord(FirstWithKey(t.rows, key), key, fields, now);
    PlacedReplaces(t.rows, record, i);
    InsertedSpec(t, record);
    var after := t.rows[i := record];
    forall a, b | 0 <= a < b < |after|
      ensures KeyOf(after[a]) != KeyOf(after[b])
    {
      assert KeyOf(after[a]) == KeyOf(t.rows[a]) && KeyOf(after[b]) == KeyOf(t.rows[b]);
    }
  }

  /**
   * Saving a key that has no row appends a new record under a fresh id, above
   * every id in the table, with both timestamps at the save time, and the key
   * stays unique.
   */
  lemma SaveAppendsNew(t: Table, key: MetadataKey, fields: MetadataFields, now: int)
    requires ValidTable(t) && KeysUnique(t.rows)
    requires FirstWithKey(t.rows, key).None?
    ensures var r := Saved(t, key, fields, now);
            && r.rowId == t.lastRowId + 1
            && r.table.lastRowId == r.rowId
            && |r.table.rows| == |t.rows| + 1
            && r.table.rows[..|t.rows|] == t.rows
            && (var added := r.table.rows[|t.rows|];
                added.id == r.rowId && added.createdAt == now && HoldsSave(added, key, fields, now))
            && ValidTable(r.table) && KeysUnique(r.table.rows)
  {
    var record := SavedRecord(None, key, fields, now);
    var row := record.(id := t.lastRowId + 1);
    PlacedAppends(t.rows, row);
    InsertedSpec(t, record);
    FirstWithKeySpec(t.rows, key);
    var after := t.rows + [row];
    assert after[..|t.rows|] == t.rows;
    forall a, b | 0 <= a < b < |after|
      ensures KeyOf(after[a]) != KeyOf(after[b])
    {
      if b == |t.rows| {
        assert after[a] in t.rows;
      }
    }
  }

  /** After a save, looking the key up returns the saved record under the returned id. */
  lemma SaveThenGet(t: Table, key: MetadataKey, fields: MetadataFields, now: int)
    requires ValidTable(t) && KeysUnique(t.rows)
    ensures var r := Saved(t, key, fields, now);
            var found := FirstWithKey(r.table.rows, key);
            && found.Some? && found.value.id == r.rowId && HoldsSave(found.value, key, fields, now)
            && found.value.createdAt == (if FirstWithKey(t.rows, key).Some? then FirstWithKey(t.rows, key).value.createdAt else now)
  {
    var r := Saved(t, key, fields, now);
    if FirstWithKey(t.rows, key).Some? {
      SaveOverwritesExisting(t, key, fields, now);
      var i := IndexOfKey(t.rows, key);
      LookupIsMembership(r.table.rows, key, r.table.rows[i]);
    } else {
      SaveAppendsNew(t, key, fields, now);
      LookupIsMembership(r.table.rows, key, r.table.rows[|t.rows|]);
    }
  }

  /** A save leaves the lookup of every other key as it was. */
  lemma SaveKeepsOtherKeys(t: Table, key: MetadataKey, fields: MetadataFields, now: int, other: MetadataKey)
    requires ValidTable(t) && KeysUnique(t.rows) && other != key
    ensures FirstWithKey(Saved(t, key, fields, now).table.rows, other) == FirstWithKey(t.rows, other)
  {
    var before := t.rows;
    var after := Saved(t, key, fields, now).table.rows;
    if FirstWithKey(before, key).Some? {
      SaveOverwritesExisting(t, key, fields, now);
    } else {
      SaveAppendsNew(t, key, fields, now);
    }
    var i := IndexOfKey(before, key);
    forall m
      ensures m in after && KeyOf(m) == other <==> m in before && KeyOf(m) == other
    {
      if m in after && KeyOf(m) == other {
        var k :| 0 <= k < |after| && after[k] == m;
        assert k != i && k < |before|;
        assert before[k] == m;
      }
      if m in before && KeyOf(m) == other {
        var k :| 0 <= k < |before| && before[k] == m;
        assert k != i;
        assert after[k] == m;
      }
    }
    FirstWithKeySpec(before, other);
    FirstWithKeySpec(after, other);
    if FirstWithKey(before, other).Some? {
      LookupIsMembership(after, other, FirstWithKey(before, other).value);
    }
  }

  /** Both deletes keep keys unique, so later saves still find at most one row. */
  lemma DeletesKeepKeysUnique(t: Table, m: CharacteristicMetadata, deviceAddress: string)
    requires KeysUnique(t.rows)
    ensures KeysUnique(Deleted(t, m).rows) && KeysUnique(DeletedForDevice(t, deviceAddress).rows)
  {
    WithoutIdKeepsKeysUnique(t.rows, m.id);
    WithoutDeviceKeepsKeysUnique(t.rows, deviceAddress);
  }

  /** A row in front of rows that all have other keys keeps keys unique. */
  lemma ConsKeepsKeysUnique(head: CharacteristicMetadata, rest: seq<CharacteristicMetadata>)
    requires KeysUnique(rest) && forall x :: x in rest ==> KeyOf(x) != KeyOf(head)
    ensures KeysUnique([head] + rest)
  {
    var r := [head] + rest;
    forall i, j | 0 <= i < j < |r|
      ensures KeyOf(r[i]) != KeyOf(r[j])
    {
      assert r[j] == rest[j - 1] && r[j] in rest;
      if i > 0 {
        assert r[i] == rest[i - 1];
      }
    }
  }

  lemma {:induction false} WithoutIdKeepsKeysUnique(rows: seq<CharacteristicMetadata>, id: int)
    requires KeysUnique(rows)
    ensures KeysUnique(WithoutId(rows, id))
  {
    if rows != [] {
      WithoutIdKeepsKeysUnique(rows[1..], id);
      if rows[0].id != id {
        assert forall x :: x in rows[1..] ==> KeyOf(x) != KeyOf(rows[0]);
        ConsKeepsKeysUnique(rows[0], WithoutId(rows[1..], id));
      }
    }
  }

  lemma {:induction false} WithoutDeviceKeepsKeysUnique(rows: seq<CharacteristicMetadata>, deviceAddress: string)
    requires KeysUnique(rows)
    ensures KeysUnique(WithoutDevice(rows, deviceAddress))
  {
    if rows != [] {
      WithoutDeviceKeepsKeysUnique(rows[1..], deviceAddress);
      if rows[0].deviceAddress != deviceAddress {
        assert forall x :: x in rows[1..] ==> KeyOf(x) != KeyOf(rows[0]);
        ConsKeepsKeysUnique(rows[0], WithoutDevice(rows[1..], deviceAddress));
      }
    }
  }

  class MetadataRepository {
    const dao: CharacteristicMetadataDao

    constructor(dao: CharacteristicMetadataDao)
      ensures this.dao == dao
    {
      this.dao := dao;
    }

    /** `getMetadataForDevice`: the device's rows and no others. */
    function GetMetadataForDevice(deviceAddress: string): (r: seq<CharacteristicMetadata>)
      reads dao
      ensures forall m :: m in r <==> m in dao.rows && m.deviceAddress == deviceAddress
    {
      dao.GetMetadataForDevice(deviceAddress)
    }

    /**
     * `getMetadata` and `getMetadataSync`: with unique keys, the answer is the
     * row with the key triple exactly when there is one.
     */
    function GetMetadata(deviceAddress: string, serviceUuid: string, characteristicUuid: string)
      : (r: Option<CharacteristicMetadata>)
      reads dao
      ensures r.None? <==> forall m :: m in dao.rows ==> KeyOf(m) != MetadataKey(deviceAddress, serviceUuid, characteristicUuid)
      ensures KeysUnique(dao.rows) ==>
                forall m :: r == Some(m) <==> m in dao.rows && KeyOf(m) == MetadataKey(deviceAddress, serviceUuid, characteristicUuid)
    {
      var key := MetadataKey(deviceAddress, serviceUuid, characteristicUuid);
      assert KeysUnique(dao.rows) ==> forall m :: FirstWithKey(dao.rows, key) == Some(m) <==> m in dao.rows && KeyOf(m) == key by {
        if KeysUnique(dao.rows) {
          forall m
            ensures FirstWithKey(dao.rows, key) == Some(m) <==> m in dao.rows && KeyOf(m) == key
          {
            LookupIsMembership(dao.rows, key, m);
          }
        }
      }
      dao.GetMetadata(deviceAddress, serviceUuid, characteristicUuid)
    }

    /** `getAllMetadata`: every row once, most recently updated first. */
    function GetAllMetadata(): (r: seq<CharacteristicMetadata>)
      reads dao
      ensures UpdatedDescending(r) && multiset(r) == multiset(dao.rows)
    {
      dao.GetAllMetadata()
    }

    method SaveMetadata(deviceAddress: string, serviceUuid: string, characteristicUuid: string, now: int,
                        fields: MetadataFields := MetadataFields())
      returns (rowId: int)
      modifies dao
      ensures InsertResult(dao.State(), rowId)
           == Saved(old(dao.State()), MetadataKey(deviceAddress, serviceUuid, characteristicUuid), fields, now)
    {
      var existing := dao.GetMetadata(deviceAddress, serviceUuid, characteristicUuid);
      var metadata;
      if existing.Some? {
        metadata := existing.value.(name := fields.name, description := fields.description,
                                    dataType := fields.dataType, endianness := fields.endianness,
                                    unit := fields.unit, minValue := fields.minValue, maxValue := fields.maxValue,
                                    updatedAt := now);
      } else {
        metadata := CharacteristicMetadata(deviceAddress := deviceAddress, serviceUuid := serviceUuid,
                                           characteristicUuid := characteristicUuid, name := fields.name,
                                           description := fields.description, dataType := fields.dataType,
                                           endianness := fields.endianness, unit := fields.unit,
                                           minValue := fields.minValue, maxValue := fields.maxValue,
                                           createdAt := now, updatedAt := now);
      }
      rowId := dao.Insert(metadata);
    }

    method DeleteMetadata(metadata: CharacteristicMetadata)
      modifies dao
      ensures dao.State() == Deleted(old(dao.State()), metadata)
    {
      dao.Delete(metadata);
    }

    method DeleteAllForDevice(deviceAddress: string)
      modifies dao
      ensures dao.State() == DeletedForDevice(old(dao.State()), deviceAddress)
    {
      dao.DeleteAllForDevice(deviceAddress);
    }
  }
}
