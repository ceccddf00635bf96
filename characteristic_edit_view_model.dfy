/**
 * The edit screen's state holder
 * (app/src/main/java/com/calica/stupidble/ui/characteristicedit/CharacteristicEditViewModel.kt).
 *
 * The screen edits the data type and the byte order of one characteristic
 * and saves them through the repository. Whether the store throws is the
 * parameter `storeFails`, the clock is `now`, and the sequence of values
 * written to the "saving" flag is kept as ghost history, since an observer
 * sees it raised for the duration of the save.
 */
module CharacteristicEdit {
  import opened Wrappers
  import opened Metadata
  import opened MetadataDao
  import opened MetadataRepository

  class CharacteristicEditViewModel {
    const repository: MetadataRepository
    var dataType: CharacteristicDataType
    var endianness: Endianness
    var isSaving: bool
    var saveSuccess: bool
    ghost var savingWrites: seq<bool>

    constructor(repository: MetadataRepository)
      ensures this.repository == repository
      ensures dataType == HEX_RAW && endianness == LITTLE_ENDIAN && !isSaving && !saveSuccess && savingWrites == []
    {
      this.repository := repository;
      dataType := HEX_RAW;
      endianness := LITTLE_ENDIAN;
      isSaving := false;
      saveSuccess := false;
      savingWrites := [];
    }

    /** `loadMetadata`: take the stored format when the key has a row, otherwise keep the current one. */
    method LoadMetadata(deviceAddress: string, serviceUuid: string, characteristicUuid: string)
      modifies this`dataType, this`endianness
      ensures var stored := repository.GetMetadata(deviceAddress, serviceUuid, characteristicUuid);
              && (stored.Some? ==> dataType == stored.value.dataType && endianness == stored.value.endianness)
              && (stored.None? ==> dataType == old(dataType) && endianness == old(endianness))
    {
      var metadata := repository.GetMetadata(deviceAddress, serviceUuid, characteristicUuid);
      if metadata.Some? {
        dataType := metadata.value.dataType;
        endianness := metadata.value.endianness;
      }
    }

    method SetDataType(t: CharacteristicDataType)
      modifies this`dataType
      ensures dataType == t
    {
      dataType := t;
    }

    method SetEndianness(e: Endianness)
      modifies this`endianness
      ensures endianness == e
    {
      endianness := e;
    }

    /**
     * `saveMetadata`: raise the saving flag, clear the success flag, save the
     * edited format (every other field at its default), report success unless
     * the store failed, and lower the saving flag whatever happened.
     */
    method SaveMetadata(deviceAddress: string, serviceUuid: string, characteristicUuid: string, now: int,
                        storeFails: bool)
      modifies this`isSaving, this`saveSuccess, this`savingWrites, repository.dao
      ensures savingWrites == old(savingWrites) + [true, false] && !isSaving
      ensures saveSuccess == !storeFails
      ensures storeFails ==> repository.dao.State() == old(repository.dao.State())
      ensures !storeFails ==>
                repository.dao.State()
                == Saved(old(repository.dao.State()), MetadataKey(deviceAddress, serviceUuid, characteristicUuid),
                         MetadataFields(dataType := dataType, endianness := endianness), now).table
    {
      isSaving := true;
      savingWrites := savingWrites + [true];
      saveSuccess := false;
      if !storeFails {
        var _ := repository.SaveMetadata(deviceAddress, serviceUuid, characteristicUuid, now,
                                         MetadataFields(dataType := dataType, endianness := endianness));
        saveSuccess := true;
      }
      isSaving := false;
      savingWrites := savingWrites + [false];
    }
  }

  /**
   * Saving from the edit screen and loading again shows the format that was
   * saved. Because the screen passes no other field, the stored row has no
   * name, description, unit or bounds, whatever it held before; the table
   * stays valid with one row per key.
   */
  lemma SaveFromEditScreen(t: Table, key: MetadataKey, dataType: CharacteristicDataType,
                           endianness: Endianness, now: int)
    requires ValidTable(t) && KeysUnique(t.rows)
    ensures var after := Saved(t, key, MetadataFields(dataType := dataType, endianness := endianness), now).table;
            var stored := FirstWithKey(after.rows, key);
            && stored.Some? && stored.value.dataType == dataType && stored.value.endianness == endianness
            && stored.value.name.None? && stored.value.description.None? && stored.value.unit.None?
            && stored.value.minValue.None? && stored.value.maxValue.None?
            && ValidTable(after) && KeysUnique(after.rows)
  {
    var fields := MetadataFields(dataType := dataType, endianness := endianness);
    SaveThenGet(t, key, fields, now);
    if FirstWithKey(t.rows, key).Some? {
      SaveOverwritesExisting(t, key, fields, now);
    } else {
      SaveAppendsNew(t, key, fields, now);
    }
  }
}
