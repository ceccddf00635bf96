/**
 * Room's type converters between the metadata enums and the strings stored in
 * the database (app/src/main/java/com/calica/stupidble/data/database/BleDatabase.kt).
 * `valueOf` throws for an unknown name; that exception is the `None` result.
 */
module Converters {
  import opened Wrappers
  import opened Metadata

  /** `fromDataType`: the constant's name. */
  function FromDataType(value: CharacteristicDataType): (name: string)
    ensures name != []
  {
    match value
    case STRING => "STRING"
    case INTEGER => "INTEGER"
    case FLOAT => "FLOAT"
    case HEX_RAW => "HEX_RAW"
  }

  /** `toDataType`: `CharacteristicDataType.valueOf`, defined only on exact constant names. */
  function ToDataType(value: string): (r: Option<CharacteristicDataType>)
    ensures r.Some? ==> FromDataType(r.value) == value
  {
    if value == "STRING" then Some(STRING)
    else if value == "INTEGER" then Some(INTEGER)
    else if value == "FLOAT" then Some(FLOAT)
    else if value == "HEX_RAW" then Some(HEX_RAW)
    else None
  }

  /** `fromEndianness`: the constant's name. */
  function FromEndianness(value: Endianness): (name: string)
    ensures name != []
  {
    match value
    case LITTLE_ENDIAN => "LITTLE_ENDIAN"
    case BIG_ENDIAN => "BIG_ENDIAN"
  }

  /** `toEndianness`: `Endianness.valueOf`, defined only on exact constant names. */
  function ToEndianness(value: string): (r: Option<Endianness>)
    ensures r.Some? ==> FromEndianness(r.value) == value
  {
    if value == "LITTLE_ENDIAN" then Some(LITTLE_ENDIAN)
    else if value == "BIG_ENDIAN" then Some(BIG_ENDIAN)
    else None
  }

  /** Storing a data type and reading it back gives the same constant. */
  lemma DataTypeRoundTrip(t: CharacteristicDataType)
    ensures ToDataType(FromDataType(t)) == Some(t)
  {
  }

  /** Storing a byte order and reading it back gives the same constant. */
  lemma EndiannessRoundTrip(e: Endianness)
    ensures ToEndianness(FromEndianness(e)) == Some(e)
  {
  }

  /** Distinct constants are stored as distinct strings. */
  lemma FromDataTypeInjective(a: CharacteristicDataType, b: CharacteristicDataType)
    ensures FromDataType(a) == FromDataType(b) ==> a == b
  {
  }

  lemma FromEndiannessInjective(a: Endianness, b: Endianness)
    ensures FromEndianness(a) == FromEndianness(b) ==> a == b
  {
  }

  /** A string is accepted exactly when it is the name of some constant. */
  lemma ToDataTypeAcceptsOnlyNames(s: string)
    ensures ToDataType(s).Some? <==> exists t :: FromDataType(t) == s
  {
    if exists t :: FromDataType(t) == s {
      var t :| FromDataType(t) == s;
      DataTypeRoundTrip(t);
    }
  }

  lemma ToEndiannessAcceptsOnlyNames(s: string)
    ensures ToEndianness(s).Some? <==> exists e :: FromEndianness(e) == s
  {
    if exists e :: FromEndianness(e) == s {
      var e :| FromEndianness(e) == s;
      EndiannessRoundTrip(e);
    }
  }
}
