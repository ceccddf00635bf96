/**
 * The device screen's state holder
 * (app/src/main/java/com/calica/stupidble/ui/devicedetail/DeviceDetailViewModel.kt).
 *
 * Selecting a device connects the manager and starts a collector of the
 * device's metadata rows. Each collector keeps running, so the model records
 * the address of every collector started and receives each emission as an
 * event naming its collector; an emission is the device's rows at that moment.
 */
module DeviceDetail {
  import opened Wrappers
  import opened Metadata
  import opened MetadataDao
  import opened MetadataRepository
  import opened DeviceInfo
  import opened Connection

  /** The row describes this characteristic of this service (the device is not compared). */
  predicate DescribesCharacteristic(m: CharacteristicMetadata, serviceUuid: string, characteristicUuid: string) {
    m.serviceUuid == serviceUuid && m.characteristicUuid == characteristicUuid
  }

  /** Position k holds the first row describing the characteristic. */
  predicate FirstMatchAt(list: seq<CharacteristicMetadata>, serviceUuid: string, characteristicUuid: string, k: nat) {
    && k < |list|
    && DescribesCharacteristic(list[k], serviceUuid, characteristicUuid)
    && forall j :: 0 <= j < k ==> !DescribesCharacteristic(list[j], serviceUuid, characteristicUuid)
  }

  /** `find`: the first row describing the characteristic, or none. */
  function FindMetadata(list: seq<CharacteristicMetadata>, serviceUuid: string, characteristicUuid: string)
    : (r: Option<CharacteristicMetadata>)
    ensures r.None? <==> forall m :: m in list ==> !DescribesCharacteristic(m, serviceUuid, characteristicUuid)
    ensures r.Some? ==> exists k: nat :: FirstMatchAt(list, serviceUuid, characteristicUuid, k) && list[k] == r.value
  {
    if list == [] then None
    else if DescribesCharacteristic(list[0], serviceUuid, characteristicUuid) then
      assert FirstMatchAt(list, serviceUuid, characteristicUuid, 0);
      Some(list[0])
    else
      var rest := FindMetadata(list[1..], serviceUuid, characteristicUuid);
      if rest.Some? then
        assert exists k: nat :: FirstMatchAt(list, serviceUuid, characteristicUuid, k) && list[k] == rest.value by {
          var k: nat :| FirstMatchAt(list[1..], serviceUuid, characteristicUuid, k) && list[1..][k] == rest.value;
          assert FirstMatchAt(list, serviceUuid, characteristicUuid, k + 1);
        }
        rest
      else
        assert forall m :: m in list ==> m == list[0] || m in list[1..];
        rest
  }

  /**
   * Looking a characteristic up among one device's rows gives the row the
   * repository keeps for the full key: leaving the device out of the match is
   * safe because the list holds that device's rows only.
   */
  lemma FindAmongDeviceRowsIsLookup(rows: seq<CharacteristicMetadata>, deviceAddress: string,
                                    serviceUuid: string, characteristicUuid: string)
    requires KeysUnique(rows)
    ensures FindMetadata(ForDevice(rows, deviceAddress), serviceUuid, characteristicUuid)
         == FirstWithKey(rows, MetadataKey(deviceAddress, serviceUuid, characteristicUuid))
  {
    var key := MetadataKey(deviceAddress, serviceUuid, characteristicUuid);
    var found := FindMetadata(ForDevice(rows, deviceAddress), serviceUuid, characteristicUuid);
    FirstWithKeySpec(rows, key);
    if found.Some? {
      LookupIsMembership(rows, key, found.value);
    }
  }

  class DeviceDetailViewModel {
    const manager: BleConnectionManager
    const repository: MetadataRepository
    var device: Option<BluetoothDeviceInfo>
    var metadata: seq<CharacteristicMetadata>
    /** The device address of every metadata collector started, oldest first. */
    var collectors: seq<string>

    constructor(manager: BleConnectionManager, repository: MetadataRepository)
      ensures this.manager == manager && this.repository == repository
      ensures device.None? && metadata == [] && collectors == []
    {
      this.manager := manager;
      this.repository := repository;
      device := None;
      metadata := [];
      collectors := [];
    }

    /** `setDevice`: remember the device, connect to it and start collecting its metadata. */
    method SetDevice(d: BluetoothDeviceInfo, adapter: Adapter)
      modifies this, manager
      ensures device == Some(d) && metadata == old(metadata) && collectors == old(collectors) + [d.address]
      ensures manager.Snapshot() == AfterConnect(old(manager.Snapshot()), d.address, adapter)
    {
      device := Some(d);
      manager.Connect(d.address, adapter);
      collectors := collectors + [d.address];
    }

    /** A collector delivers the current rows of its device. */
    method OnMetadataEmitted(collector: nat)
      requires collector < |collectors|
      modifies this`metadata
      ensures metadata == repository.GetMetadataForDevice(collectors[collector])
    {
      metadata := repository.GetMetadataForDevice(collectors[collector]);
    }

    /** `getMetadataForCharacteristic`: the first collected row for the characteristic. */
    function GetMetadataForCharacteristic(serviceUuid: string, characteristicUuid: string)
      : (r: Option<CharacteristicMetadata>)
      reads this
      ensures r.None? <==> forall m :: m in metadata ==> !DescribesCharacteristic(m, serviceUuid, characteristicUuid)
      ensures r.Some? ==> exists k: nat :: FirstMatchAt(metadata, serviceUuid, characteristicUuid, k) && metadata[k] == r.value
    {
      FindMetadata(metadata, serviceUuid, characteristicUuid)
    }

    method Disconnect()
      modifies manager
      ensures manager.Snapshot() == AfterDisconnect(old(manager.Snapshot()))
    {
      manager.Disconnect();
    }

    method OnCleared()
      modifies manager
      ensures manager.Snapshot() == AfterDisconnect(old(manager.Snapshot()))
    {
      manager.Disconnect();
    }
  }

  /**
   * Once the collector of the selected device has delivered, the screen's
   * lookup of a characteristic agrees with the repository's lookup by key.
   */
  lemma LookupAfterEmission(vm: DeviceDetailViewModel, serviceUuid: string, characteristicUuid: string)
    requires vm.device.Some? && KeysUnique(vm.repository.dao.rows)
    requires vm.metadata == vm.repository.GetMetadataForDevice(vm.device.value.address)
    ensures vm.GetMetadataForCharacteristic(serviceUuid, characteristicUuid)
         == vm.repository.GetMetadata(vm.device.value.address, serviceUuid, characteristicUuid)
  {
    FindAmongDeviceRowsIsLookup(vm.repository.dao.rows, vm.device.value.address, serviceUuid, characteristicUuid);
  }
}
