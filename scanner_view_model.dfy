/**
 * The scanner screen's state holder
 * (app/src/main/java/com/calica/stupidble/ui/scanner/ScannerViewModel.kt).
 *
 * Each coroutine job is modelled by whether it is still running: `stopScan`
 * cancels both, and the scan job ends once its flow has failed. The scan
 * flow's deliveries, its failure and the timeout's expiry are events the class
 * receives; a job that is not running delivers nothing, so each event acts
 * only while its job runs. Whether Bluetooth is on is a parameter.
 */
module Scanner {
  import opened Wrappers
  import opened DeviceInfo

  /** With this switch on, a device seen again replaces its entry instead of being listed twice. */
  const UPDATE_DUPLICATE_DEVICES: bool := true

  const BLUETOOTH_OFF_ERROR: string := "Bluetooth is not enabled"
  const SCAN_FAILED_ERROR: string := "Scan failed"

  datatype ScannerUiState = ScannerUiState(
    devices: seq<BluetoothDeviceInfo> := [],
    isScanning: bool := false,
    error: Option<string> := None)

  // ---------------------------------------------------------------------------
  // The device list
  // ---------------------------------------------------------------------------

  /** `indexOfFirst { it.address == address }`, with `|devices|` for -1. */
  function IndexOfAddress(devices: seq<BluetoothDeviceInfo>, address: string): (k: nat)
    ensures k <= |devices|
    ensures k < |devices| ==> devices[k].address == address
    ensures forall j :: 0 <= j < k ==> devices[j].address != address
  {
    if devices == [] then 0
    else if devices[0].address == address then 0
    else 1 + IndexOfAddress(devices[1..], address)
  }

  /** The list after a device is delivered: replace the entry with its address, or append. */
  function UpdatedDevices(devices: seq<BluetoothDeviceInfo>, device: BluetoothDeviceInfo): seq<BluetoothDeviceInfo> {
    if UPDATE_DUPLICATE_DEVICES then
      var i := IndexOfAddress(devices, device.address);
      if i < |devices| then devices[i := device] else devices + [device]
    else devices + [device]
  }

  predicate AddressesDistinct(devices: seq<BluetoothDeviceInfo>) {
    forall i, j :: 0 <= i < j < |devices| ==> devices[i].address != devices[j].address
  }

  /** A device already listed replaces the first entry with its address; nothing else moves. */
  lemma KnownAddressIsReplaced(devices: seq<BluetoothDeviceInfo>, device: BluetoothDeviceInfo, i: nat)
    requires i < |devices| && devices[i].address == device.address
    requires forall j :: 0 <= j < i ==> devices[j].address != device.address
    ensures var r := UpdatedDevices(devices, device);
            && |r| == |devices| && r[i] == device
            && forall j :: 0 <= j < |devices| && j != i ==> r[j] == devices[j]
  {
  }

  /** A device with a new address is appended. */
  lemma NewAddressIsAppended(devices: seq<BluetoothDeviceInfo>, device: BluetoothDeviceInfo)
    requires forall j :: 0 <= j < |devices| ==> devices[j].address != device.address
    ensures UpdatedDevices(devices, device) == devices + [device]
  {
  }

  /** Some entry of the list has this address. */
  predicate Lists(devices: seq<BluetoothDeviceInfo>, address: string) {
    exists j :: 0 <= j < |devices| && devices[j].address == address
  }

  /** Distinct addresses stay distinct, the device is listed, and the addresses are the old ones plus its own. */
  lemma UpdateKeepsAddressesDistinct(devices: seq<BluetoothDeviceInfo>, device: BluetoothDeviceInfo)
    requires AddressesDistinct(devices)
    ensures var r := UpdatedDevices(devices, device);
            && AddressesDistinct(r)
            && device in r
            && forall a :: Lists(r, a) <==> a == device.address || Lists(devices, a)
  {
    var r := UpdatedDevices(devices, device);
    var i := IndexOfAddress(devices, device.address);
    if i < |devices| {
      forall a, b | 0 <= a < b < |r|
        ensures r[a].address != r[b].address
      {
        assert r[a].address == devices[a].address && r[b].address == devices[b].address;
      }
      assert r[i] == device;
    } else {
      assert r[|devices|] == device;
    }
    forall a | a == device.address || Lists(devices, a)
      ensures Lists(r, a)
    {
      if a == device.address {
        assert device in r;
      } else {
        var j :| 0 <= j < |devices| && devices[j].address == a;
        assert r[j].address == a;
      }
    }
    forall a | Lists(r, a)
      ensures a == device.address || Lists(devices, a)
    {
      var j :| 0 <= j < |r| && r[j].address == a;
      if j < |devices| && r[j] == devices[j] {
        assert devices[j].address == a;
      }
    }
  }

  // ---------------------------------------------------------------------------
  // The view model's state and the effect of each operation on it
  // ---------------------------------------------------------------------------

  /** The published UI state and whether the scan job and the timeout job are running. */
  datatype ScannerState = ScannerState(uiState: ScannerUiState, scanJob: bool, timeoutJob: bool)

  const INITIAL_SCANNER: ScannerState := ScannerState(ScannerUiState(), false, false)

  /** `stopScan`: cancel and forget both jobs, stop scanning; devices and error stay. */
  function AfterStopScan(s: ScannerState): ScannerState {
    ScannerState(s.uiState.(isScanning := false), false, false)
  }

  /** `startScan`: with Bluetooth off only the error is set; otherwise stop, then scan afresh with no error. */
  function AfterStartScan(s: ScannerState, bluetoothEnabled: bool): ScannerState {
    if !bluetoothEnabled then s.(uiState := s.uiState.(error := Some(BLUETOOTH_OFF_ERROR)))
    else
      var stopped := AfterStopScan(s);
      ScannerState(stopped.uiState.(isScanning := true, error := None), true, true)
  }

  /** The scan flow delivers a device. */
  function AfterDeviceFound(s: ScannerState, device: BluetoothDeviceInfo): ScannerState {
    if !s.scanJob then s
    else s.(uiState := s.uiState.(devices := UpdatedDevices(s.uiState.devices, device)))
  }

  /**
   * The scan flow fails: not scanning, and the exception's message or "Scan failed".
   * The flow has ended, so its job delivers nothing more.
   */
  function AfterScanError(s: ScannerState, message: Option<string>): ScannerState {
    if !s.scanJob then s
    else ScannerState(s.uiState.(isScanning := false, error := Some(message.GetOr(SCAN_FAILED_ERROR))), false, s.timeoutJob)
  }

  /** The timeout job's delay ends: it stops the scan. */
  function AfterTimeout(s: ScannerState): ScannerState {
    if !s.timeoutJob then s else AfterStopScan(s)
  }

  // ---------------------------------------------------------------------------
  // Properties
  // ---------------------------------------------------------------------------

  /** With Bluetooth off, `startScan` touches the error message only. */
  lemma StartScanWhenOffSetsOnlyError(s: ScannerState)
    ensures var t := AfterStartScan(s, false);
            && t.uiState.error == Some(BLUETOOTH_OFF_ERROR)
            && t.uiState.devices == s.uiState.devices && t.uiState.isScanning == s.uiState.isScanning
            && t.scanJob == s.scanJob && t.timeoutJob == s.timeoutJob
  {
  }

  /** With Bluetooth on, `startScan` scans with no error, both jobs running, and keeps the device list. */
  lemma StartScanKeepsDevices(s: ScannerState)
    ensures var t := AfterStartScan(s, true);
            && t.uiState.isScanning && t.uiState.error.None? && t.scanJob && t.timeoutJob
            && t.uiState.devices == s.uiState.devices
  {
  }

  /** `stopScan` keeps devices and error, leaves no job running, and a second call changes nothing. */
  lemma StopScanIsIdempotent(s: ScannerState)
    ensures var t := AfterStopScan(s);
            && !t.uiState.isScanning && !t.scanJob && !t.timeoutJob
            && t.uiState.devices == s.uiState.devices && t.uiState.error == s.uiState.error
            && AfterStopScan(t) == t
  {
  }

  /** A scan failure reports the message, or "Scan failed" when there is none. */
  lemma ScanErrorMessage(s: ScannerState, message: Option<string>)
    requires s.scanJob
    ensures var t := AfterScanError(s, message);
            && !t.uiState.isScanning && !t.scanJob
            && (message.Some? ==> t.uiState.error == message)
            && (message.None? ==> t.uiState.error == Some(SCAN_FAILED_ERROR))
            && t.uiState.devices == s.uiState.devices
  {
  }

  /** The device list never lists an address twice, whatever events arrive. */
  predicate ScannerInvariant(s: ScannerState) {
    AddressesDistinct(s.uiState.devices)
  }

  lemma EveryEventKeepsInvariant(s: ScannerState, bluetoothEnabled: bool, device: BluetoothDeviceInfo,
                                 message: Option<string>)
    requires ScannerInvariant(s)
    ensures ScannerInvariant(AfterStartScan(s, bluetoothEnabled))
    ensures ScannerInvariant(AfterStopScan(s))
    ensures ScannerInvariant(AfterDeviceFound(s, device))
    ensures ScannerInvariant(AfterScanError(s, message))
    ensures ScannerInvariant(AfterTimeout(s))
  {
    UpdateKeepsAddressesDistinct(s.uiState.devices, device);
  }

  // ---------------------------------------------------------------------------
  // The view model
  // ---------------------------------------------------------------------------

  class ScannerViewModel {
    var uiState: ScannerUiState
    var scanJob: bool
    var timeoutJob: bool

    function State(): ScannerState
      reads this
    {
      ScannerState(uiState, scanJob, timeoutJob)
    }

    constructor()
      ensures State() == INITIAL_SCANNER
    {
      uiState := ScannerUiState();
      scanJob := false;
      timeoutJob := false;
    }

    method StartScan(bluetoothEnabled: bool)
      modifies this
      ensures State() == AfterStartScan(old(State()), bluetoothEnabled)
    {
      if !bluetoothEnabled {
        uiState := uiState.(error := Some(BLUETOOTH_OFF_ERROR));
        return;
      }
      StopScan();
      uiState := uiState.(isScanning := true, error := None);
      scanJob := true;
      timeoutJob := true;
    }

    method StopScan()
      modifies this
      ensures State() == AfterStopScan(old(State()))
    {
      scanJob := false;
      timeoutJob := false;
      uiState := uiState.(isScanning := false);
    }

    /** The `collect` block. */
    method OnDeviceFound(device: BluetoothDeviceInfo)
      modifies this
      ensures State() == AfterDeviceFound(old(State()), device)
    {
      if !scanJob {
        return;
      }
      var currentDevices := uiState.devices;
      var updatedDevices;
      if UPDATE_DUPLICATE_DEVICES {
        var existingIndex := IndexOfAddress(currentDevices, device.address);
        if existingIndex < |currentDevices| {
          updatedDevices := currentDevices[existingIndex := device];
        } else {
          updatedDevices := currentDevices + [device];
        }
      } else {
        updatedDevices := currentDevices + [device];
      }
      uiState := uiState.(devices := updatedDevices);
    }

    /** The `catch` block. */
    method OnScanError(message: Option<string>)
      modifies this
      ensures State() == AfterScanError(old(State()), message)
    {
      if !scanJob {
        return;
      }
      uiState := uiState.(isScanning := false, error := Some(message.GetOr(SCAN_FAILED_ERROR)));
      scanJob := false;
    }

    /** The timeout job after its delay. */
    method OnScanTimeout()
      modifies this
      ensures State() == AfterTimeout(old(State()))
    {
      if timeoutJob {
        StopScan();
      }
    }

    method OnCleared()
      modifies this
      ensures State() == AfterStopScan(old(State()))
    {
      StopScan();
    }
  }
}
