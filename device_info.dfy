/**
 * A device seen by the scanner
 * (app/src/main/java/com/calica/stupidble/data/model/BluetoothDeviceInfo.kt).
 * Equality is the data class's structural equality over the three fields.
 */
module DeviceInfo {
  import opened Wrappers

  const UNKNOWN_DEVICE: string := "Unknown Device"

  datatype BluetoothDeviceInfo = BluetoothDeviceInfo(address: string, name: Option<string>, rssi: int) {

    /** `displayName`: the advertised name, or "Unknown Device" when there is none. */
    function DisplayName(): (r: string)
      ensures name.Some? ==> r == name.value
      ensures name.None? ==> r == UNKNOWN_DEVICE
    {
      name.GetOr(UNKNOWN_DEVICE)
    }
  }

  /** The display name depends on the name only, not on the address or the signal strength. */
  lemma DisplayNameDependsOnNameOnly(a: BluetoothDeviceInfo, b: BluetoothDeviceInfo)
    requires a.name == b.name
    ensures a.DisplayName() == b.DisplayName()
  {
  }
}
