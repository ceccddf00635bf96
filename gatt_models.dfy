/**
 * The topology published to consumers: services and their characteristics, with
 * each characteristic's last read value and its rendering
 * (app/src/main/java/com/calica/stupidble/data/model/GattModels.kt).
 */
module GattModels {
  import opened Wrappers
  import opened Formatter

  /** A 128-bit UUID as the number it spells. */
  const UUID_LIMIT: nat := 0x1_0000_0000_0000_0000_0000_0000_0000_0000
  type Uuid = u: nat | u < UUID_LIMIT

  /**
   * The Bluetooth Base UUID 00000000-0000-1000-8000-00805F9B34FB; a 16-bit UUID
   * xxxx stands for 0000xxxx-0000-1000-8000-00805F9B34FB (Bluetooth Core
   * Specification, Vol 3, Part B, Section 2.5.1).
   */
  const BLUETOOTH_BASE_UUID: nat := 0x0000_0000_0000_1000_8000_0080_5F9B_34FB

  function FromShortUuid(alias: nat): (u: Uuid)
    requires alias < 0x1_0000
  {
    alias * 0x1_0000_0000_0000_0000_0000_0000 + BLUETOOTH_BASE_UUID
  }

  /** Distinct 16-bit aliases expand to distinct UUIDs. */
  lemma FromShortUuidInjective(a: nat, b: nat)
    requires a < 0x1_0000 && b < 0x1_0000
    ensures FromShortUuid(a) == FromShortUuid(b) ==> a == b
  {
  }

  /** `BleServiceInfo`: a service UUID and its characteristics in discovery order. */
  datatype BleServiceInfo = BleServiceInfo(uuid: Uuid, characteristics: seq<BleCharacteristicInfo>)

  /**
   * `BleCharacteristicInfo`. `value == None` is Kotlin's null array, distinct
   * from an empty one; `valueSize` and `formattedValue` are null until a read
   * completes.
   */
  datatype BleCharacteristicInfo = BleCharacteristicInfo(
    uuid: Uuid,
    properties: seq<string>,
    value: Option<seq<Byte>> := None,
    valueSize: Option<int> := None,
    formattedValue: Option<string> := None)

  /**
   * The overridden `equals` on two `BleCharacteristicInfo`s: the comparison chain
   * field by field, with `contentEquals` on the byte arrays and null equal only
   * to null. (The leading identity test `this === other` only short-cuts to the
   * answer the chain gives anyway; `EqualsIsReflexive` below.)
   */
  predicate CharacteristicEquals(a: BleCharacteristicInfo, b: BleCharacteristicInfo) {
    if a.uuid != b.uuid then false
    else if a.properties != b.properties then false
    else if a.value.Some? && (b.value.None? || a.value.value != b.value.value) then false
    else if a.value.None? && b.value.Some? then false
    else if a.valueSize != b.valueSize then false
    else if a.formattedValue != b.formattedValue then false
    else true
  }

  /** The override is exactly value equality: byte arrays compare by content. */
  lemma EqualsIsValueEquality(a: BleCharacteristicInfo, b: BleCharacteristicInfo)
    ensures CharacteristicEquals(a, b) <==> a == b
  {
  }

  lemma EqualsIsReflexive(a: BleCharacteristicInfo)
    ensures CharacteristicEquals(a, a)
  {
  }

  /** A null value never equals a present one, not even an empty array. */
  lemma NullValueIsNotEmptyValue(a: BleCharacteristicInfo)
    ensures !CharacteristicEquals(a.(value := None), a.(value := Some([])))
  {
  }

  /** Wraps an integer to Kotlin's 32-bit `Int`. */
  function ToInt32(x: int): (r: int)
    ensures -0x8000_0000 <= r < 0x8000_0000
    ensures (r - x) % 0x1_0000_0000 == 0
  {
    var m := x % 0x1_0000_0000;
    if m >= 0x8000_0000 then m - 0x1_0000_0000 else m
  }

  /**
   * The hash codes `hashCode` combines. Their concrete values are the
   * platform's; only the combination is modelled.
   */
  datatype HashFunctions = HashFunctions(
    uuidHash: Uuid -> int,
    listHash: seq<string> -> int,
    contentHash: seq<Byte> -> int,
    stringHash: string -> int)

  /** `hashCode`: the 31-multiplier fold in `Int` arithmetic, 0 for each null field. */
  function HashCode(h: HashFunctions, a: BleCharacteristicInfo): (r: int)
    ensures -0x8000_0000 <= r < 0x8000_0000
  {
    var r0 := ToInt32(h.uuidHash(a.uuid));
    var r1 := ToInt32(31 * r0 + h.listHash(a.properties));
    var r2 := ToInt32(31 * r1 + (if a.value.Some? then h.contentHash(a.value.value) else 0));
    var r3 := ToInt32(31 * r2 + a.valueSize.GetOr(0));
    ToInt32(31 * r3 + (if a.formattedValue.Some? then h.stringHash(a.formattedValue.value) else 0))
  }

  /** Characteristics that are `equals` have equal hash codes. */
  lemma EqualCharacteristicsHashEqually(h: HashFunctions, a: BleCharacteristicInfo, b: BleCharacteristicInfo)
    requires CharacteristicEquals(a, b)
    ensures HashCode(h, a) == HashCode(h, b)
  {
    EqualsIsValueEquality(a, b);
  }

  /** A freshly discovered characteristic: value, size and rendering default to null. */
  function NewCharacteristicInfo(uuid: Uuid, properties: seq<string>): (info: BleCharacteristicInfo)
    ensures info.uuid == uuid && info.properties == properties
    ensures info.value.None? && info.valueSize.None? && info.formattedValue.None?
  {
    BleCharacteristicInfo(uuid, properties)
  }
}
