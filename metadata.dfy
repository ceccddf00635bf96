/**
 * The persisted per-characteristic metadata: the data type and byte order a user
 * assigns to a characteristic, with the free-text fields beside them
 * (app/src/main/java/com/calica/stupidble/data/database/CharacteristicMetadata.kt).
 */
module Metadata {
  import opened Wrappers

  /** How a characteristic's bytes are rendered. */
  datatype CharacteristicDataType = STRING | INTEGER | FLOAT | HEX_RAW

  /** The byte order used for multi-byte numbers. */
  datatype Endianness = LITTLE_ENDIAN | BIG_ENDIAN

  /** The constants in declaration order (Kotlin's `entries`). */
  const DATA_TYPES: seq<CharacteristicDataType> := [STRING, INTEGER, FLOAT, HEX_RAW]
  const BYTE_ORDERS: seq<Endianness> := [LITTLE_ENDIAN, BIG_ENDIAN]

  /**
   * One row of the `characteristic_metadata` table. `id == 0` means "not yet
   * assigned" (Room generates it on insert). Timestamps are plain integers
   * supplied by the caller's clock; `minValue`/`maxValue` are carried, never
   * computed with, so they are kept as reals.
   */
  datatype CharacteristicMetadata = CharacteristicMetadata(
    id: int := 0,
    deviceAddress: string,
    serviceUuid: string,
    characteristicUuid: string,
    name: Option<string> := None,
    description: Option<string> := None,
    dataType: CharacteristicDataType := HEX_RAW,
    endianness: Endianness := LITTLE_ENDIAN,
    unit: Option<string> := None,
    minValue: Option<real> := None,
    maxValue: Option<real> := None,
    createdAt: int,
    updatedAt: int)

  /** The triple a record is looked up by. */
  datatype MetadataKey = MetadataKey(deviceAddress: string, serviceUuid: string, characteristicUuid: string)

  function KeyOf(m: CharacteristicMetadata): MetadataKey {
    MetadataKey(m.deviceAddress, m.serviceUuid, m.characteristicUuid)
  }

  /**
   * The record built when only the key triple is given: every other field takes
   * its declared default, and both timestamps read the clock.
   */
  function NewMetadata(key: MetadataKey, now: int): (m: CharacteristicMetadata)
    ensures KeyOf(m) == key
    ensures m.id == 0
    ensures m.dataType == HEX_RAW && m.endianness == LITTLE_ENDIAN
    ensures m.name.None? && m.description.None? && m.unit.None?
    ensures m.minValue.None? && m.maxValue.None?
    ensures m.createdAt == now && m.updatedAt == now
  {
    CharacteristicMetadata(
      deviceAddress := key.deviceAddress,
      serviceUuid := key.serviceUuid,
      characteristicUuid := key.characteristicUuid,
      createdAt := now,
      updatedAt := now)
  }

  /** There are exactly four data types and two byte orders, each listed once. */
  lemma EnumerationsAreComplete()
    ensures |DATA_TYPES| == 4 && forall t: CharacteristicDataType :: t in DATA_TYPES
    ensures forall i, j :: 0 <= i < j < |DATA_TYPES| ==> DATA_TYPES[i] != DATA_TYPES[j]
    ensures |BYTE_ORDERS| == 2 && forall e: Endianness :: e in BYTE_ORDERS
    ensures BYTE_ORDERS[0] != BYTE_ORDERS[1]
  {
    forall t: CharacteristicDataType ensures t in DATA_TYPES {
      match t
      case STRING => assert DATA_TYPES[0] == t;
      case INTEGER => assert DATA_TYPES[1] == t;
      case FLOAT => assert DATA_TYPES[2] == t;
      case HEX_RAW => assert DATA_TYPES[3] == t;
    }
    forall e: Endianness ensures e in BYTE_ORDERS {
      if e == LITTLE_ENDIAN { assert BYTE_ORDERS[0] == e; } else { assert BYTE_ORDERS[1] == e; }
    }
  }
}
