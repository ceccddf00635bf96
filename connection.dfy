/**
 * The connection manager: the connection-state machine, the FIFO read pipeline
 * and the published service list
 * (app/src/main/java/com/calica/stupidble/data/BleConnectionManager.kt).
 *
 * The platform stack is abstract. Its callbacks are the event methods of
 * `BleConnectionManager`; the answers `readCharacteristic` gives are an oracle
 * `accepts`, where `accepts(k)` is the answer to the k-th read request of one
 * drain. Requests the manager makes of the stack are recorded in a ghost log,
 * as is every value written to the connection-state stream.
 *
 * The pure functions `After...` give each operation's effect on a
 * `ManagerState`; the class's methods are proved to have exactly that effect,
 * and the lemmas state what the source promises about them.
 */
module Connection {
  import opened Wrappers
  import opened Metadata
  import opened Formatter
  import opened GattModels

  datatype ConnectionState = DISCONNECTED | CONNECTING | CONNECTED | DISCOVERING_SERVICES | READY

  /** The link states the platform reports to `onConnectionStateChange`. */
  datatype ProfileState = STATE_DISCONNECTED | STATE_CONNECTING | STATE_CONNECTED | STATE_DISCONNECTING

  /** A platform characteristic as discovery delivers it: its UUID and its properties bit field. */
  datatype GattCharacteristic = GattCharacteristic(uuid: Uuid, properties: bv32)

  /** A platform service as discovery delivers it. */
  datatype GattService = GattService(uuid: Uuid, characteristics: seq<GattCharacteristic>)

  /** The local Bluetooth adapter: absent, or present and enabled or not. */
  datatype Adapter = NoAdapter | Adapter(isEnabled: bool)

  /** The open GATT client connection (`BluetoothGatt`), named by the address it was opened to. */
  datatype GattHandle = GattHandle(address: string)

  /** A request the manager makes of the platform stack. */
  datatype TransportCall =
    | ConnectGatt(address: string)
    | DiscoverServices
    | ReadCharacteristic(characteristic: GattCharacteristic)
    | GattDisconnect
    | GattClose

  /** The Generic Access and Generic Attribute services, hidden from the published list. */
  const GAP_SERVICE_UUID: Uuid := 0x0000_1800_0000_1000_8000_0080_5F9B_34FB
  const GATT_SERVICE_UUID: Uuid := 0x0000_1801_0000_1000_8000_0080_5F9B_34FB

  lemma ReservedServicesAreShortUuids()
    ensures GAP_SERVICE_UUID == FromShortUuid(0x1800)
    ensures GATT_SERVICE_UUID == FromShortUuid(0x1801)
  {
  }

  // ---------------------------------------------------------------------------
  // Characteristic properties (Bluetooth Core Specification, Vol 3, Part G,
  // Section 3.3.1.1)
  // ---------------------------------------------------------------------------

  const PROPERTY_READ: bv32 := 0x02
  const PROPERTY_WRITE_NO_RESPONSE: bv32 := 0x04
  const PROPERTY_WRITE: bv32 := 0x08
  const PROPERTY_NOTIFY: bv32 := 0x10
  const PROPERTY_INDICATE: bv32 := 0x20

  /** `(properties and mask) > 0`; every mask is a single positive bit. */
  predicate HasProperty(properties: bv32, mask: bv32) {
    properties & mask != 0
  }

  /** The names `getPropertiesList` may report, in the order it reports them, with their bits. */
  const PROPERTY_NAMES: seq<string> := ["READ", "WRITE", "WRITE_NO_RESP", "NOTIFY", "INDICATE"]
  const PROPERTY_MASKS: seq<bv32> := [PROPERTY_READ, PROPERTY_WRITE, PROPERTY_WRITE_NO_RESPONSE, PROPERTY_NOTIFY, PROPERTY_INDICATE]

  /** `getPropertiesList`. */
  function GetPropertiesList(properties: bv32): seq<string> {
    (if HasProperty(properties, PROPERTY_READ) then ["READ"] else [])
    + (if HasProperty(properties, PROPERTY_WRITE) then ["WRITE"] else [])
    + (if HasProperty(properties, PROPERTY_WRITE_NO_RESPONSE) then ["WRITE_NO_RESP"] else [])
    + (if HasProperty(properties, PROPERTY_NOTIFY) then ["NOTIFY"] else [])
    + (if HasProperty(properties, PROPERTY_INDICATE) then ["INDICATE"] else [])
  }

  /** The position of a property name in the fixed order, 5 for any other string. */
  function PropertyRank(name: string): nat {
    if name == "READ" then 0
    else if name == "WRITE" then 1
    else if name == "WRITE_NO_RESP" then 2
    else if name == "NOTIFY" then 3
    else if name == "INDICATE" then 4
    else 5
  }

  /** The list holds a name exactly when its bit is set. */
  lemma PropertiesListMembership(properties: bv32, k: nat)
    requires k < |PROPERTY_NAMES|
    ensures PROPERTY_NAMES[k] in GetPropertiesList(properties) <==> HasProperty(properties, PROPERTY_MASKS[k])
  {
  }

  /**
   * The list names only known properties, in the fixed order READ, WRITE,
   * WRITE_NO_RESP, NOTIFY, INDICATE, each at most once.
   */
  lemma PropertiesListOrder(properties: bv32)
    ensures var names := GetPropertiesList(properties);
            && (forall i, j :: 0 <= i < j < |names| ==> PropertyRank(names[i]) < PropertyRank(names[j]))
            && (forall i :: 0 <= i < |names| ==> names[i] in PROPERTY_NAMES)
  {
  }

  // ---------------------------------------------------------------------------
  // Discovery: the published list and the seeded read queue
  // ---------------------------------------------------------------------------

  predicate IsReservedService(uuid: Uuid) {
    uuid == GAP_SERVICE_UUID || uuid == GATT_SERVICE_UUID
  }

  predicate IsReadable(c: GattCharacteristic) {
    HasProperty(c.properties, PROPERTY_READ)
  }

  /** The discovered services minus GAP and GATT, in discovery order. */
  function KeptServices(discovered: seq<GattService>): (kept: seq<GattService>)
    ensures |kept| <= |discovered|
    ensures forall s :: s in kept <==> s in discovered && !IsReservedService(s.uuid)
  {
    if discovered == [] then []
    else (if IsReservedService(discovered[0].uuid) then [] else [discovered[0]]) + KeptServices(discovered[1..])
  }

  /** Filtering keeps the relative order of the services it keeps. */
  lemma {:induction false} KeptServicesOfConcat(a: seq<GattService>, b: seq<GattService>)
    ensures KeptServices(a + b) == KeptServices(a) + KeptServices(b)
  {
    if a != [] {
      assert (a + b)[0] == a[0];
      assert (a + b)[1..] == a[1..] + b;
      KeptServicesOfConcat(a[1..], b);
    } else {
      assert a + b == b;
    }
  }

  /** The readable characteristics of one service, in order. */
  function ReadableCharacteristics(chars: seq<GattCharacteristic>): (r: seq<GattCharacteristic>)
    ensures |r| <= |chars|
    ensures forall c :: c in r <==> c in chars && IsReadable(c)
  {
    if chars == [] then []
    else
      var last := chars[|chars| - 1];
      ReadableCharacteristics(chars[..|chars| - 1]) + (if IsReadable(last) then [last] else [])
  }

  /** The queue discovery seeds: the readable characteristics, service after service. */
  function QueueOfServices(services: seq<GattService>): seq<GattCharacteristic> {
    if services == [] then []
    else
      var last := services[|services| - 1];
      QueueOfServices(services[..|services| - 1]) + ReadableCharacteristics(last.characteristics)
  }

  /** The characteristic belongs to one of the services. */
  predicate InSomeService(services: seq<GattService>, c: GattCharacteristic) {
    exists i :: 0 <= i < |services| && c in services[i].characteristics
  }

  lemma InSomeServiceOfSnoc(services: seq<GattService>, c: GattCharacteristic)
    requires services != []
    ensures var n := |services| - 1;
            InSomeService(services, c) <==> InSomeService(services[..n], c) || c in services[n].characteristics
  {
    var n := |services| - 1;
    if InSomeService(services[..n], c) {
      var i :| 0 <= i < n && c in services[..n][i].characteristics;
      assert services[i] == services[..n][i];
    }
    if InSomeService(services, c) {
      var i :| 0 <= i < |services| && c in services[i].characteristics;
      if i < n {
        assert services[..n][i] == services[i];
      }
    }
  }

  /** A characteristic is queued exactly when it is readable and belongs to one of the services. */
  lemma {:induction false} QueueOfServicesMembership(services: seq<GattService>, c: GattCharacteristic)
    ensures c in QueueOfServices(services) <==> IsReadable(c) && InSomeService(services, c)
  {
    if services != [] {
      var n := |services| - 1;
      QueueOfServicesMembership(services[..n], c);
      InSomeServiceOfSnoc(services, c);
      assert QueueOfServices(services)
          == QueueOfServices(services[..n]) + ReadableCharacteristics(services[n].characteristics);
    }
  }

  /** The published form of a kept service: each characteristic with its property names and no value. */
  function ServiceInfoOf(service: GattService): BleServiceInfo {
    var chars := service.characteristics;
    BleServiceInfo(service.uuid,
      seq(|chars|, j requires 0 <= j < |chars| =>
        NewCharacteristicInfo(chars[j].uuid, GetPropertiesList(chars[j].properties))))
  }

  /** `kept.map { ... }`. */
  function PublishedOf(kept: seq<GattService>): (r: seq<BleServiceInfo>)
    ensures |r| == |kept|
    ensures forall i :: 0 <= i < |kept| ==> r[i] == ServiceInfoOf(kept[i])
  {
    if kept == [] then []
    else PublishedOf(kept[..|kept| - 1]) + [ServiceInfoOf(kept[|kept| - 1])]
  }

  /** The list discovery publishes. */
  function PublishedServices(discovered: seq<GattService>): seq<BleServiceInfo> {
    PublishedOf(KeptServices(discovered))
  }

  /** One more kept service extends the queue by its readable characteristics and the list by its published form. */
  lemma QueueAndPublishedOfPrefix(kept: seq<GattService>, i: nat)
    requires i < |kept|
    ensures QueueOfServices(kept[..i + 1]) == QueueOfServices(kept[..i]) + ReadableCharacteristics(kept[i].characteristics)
    ensures PublishedOf(kept[..i + 1]) == PublishedOf(kept[..i]) + [ServiceInfoOf(kept[i])]
  {
    assert kept[..i + 1][..i] == kept[..i];
  }

  /**
   * What discovery publishes: the kept services in order, none of them GAP or
   * GATT, each characteristic with its UUID, no value yet, and READ among its
   * property names exactly when it is readable, which is exactly when it is
   * queued.
   */
  lemma PublishedServicesSpec(discovered: seq<GattService>)
    ensures var kept := KeptServices(discovered);
            var published := PublishedServices(discovered);
            && |published| == |kept|
            && forall i :: 0 <= i < |kept| ==>
                 && published[i].uuid == kept[i].uuid
                 && !IsReservedService(published[i].uuid)
                 && |published[i].characteristics| == |kept[i].characteristics|
                 && forall j :: 0 <= j < |kept[i].characteristics| ==>
                      var info := published[i].characteristics[j];
                      var c := kept[i].characteristics[j];
                      && info.uuid == c.uuid
                      && info.value.None? && info.valueSize.None? && info.formattedValue.None?
                      && ("READ" in info.properties <==> IsReadable(c))
                      && (IsReadable(c) <==> c in QueueOfServices(kept))
  {
    var kept := KeptServices(discovered);
    forall i, j | 0 <= i < |kept| && 0 <= j < |kept[i].characteristics|
      ensures var c := kept[i].characteristics[j];
              && ("READ" in GetPropertiesList(c.properties) <==> IsReadable(c))
              && (IsReadable(c) <==> c in QueueOfServices(kept))
    {
      var c := kept[i].characteristics[j];
      PropertiesListMembership(c.properties, 0);
      QueueOfServicesMembership(kept, c);
    }
  }

  // ---------------------------------------------------------------------------
  // Read completion: the functional update of the published list
  // ---------------------------------------------------------------------------

  /** `formatBytes`: the HEX_RAW rendering, "N/A" for a null or empty array. */
  function FormatBytes(bytes: Option<seq<Byte>>): string {
    if bytes.None? || bytes.value == [] then NOT_AVAILABLE else FormatAsHexAndAscii(bytes.value)
  }

  /** `formatBytes` renders exactly as the codec's HEX_RAW branch, whatever byte order is asked for. */
  lemma FormatBytesIsHexRaw(lib: TextLibrary, bytes: Option<seq<Byte>>, order: Endianness)
    ensures FormatBytes(bytes) == FormatValue(lib, bytes, HEX_RAW, order)
  {
  }

  /** The per-characteristic step of `handleCharacteristicRead`'s map. */
  function WithReadValue(info: BleCharacteristicInfo, uuid: Uuid, value: Option<seq<Byte>>): BleCharacteristicInfo {
    if info.uuid == uuid then
      info.(value := value,
            valueSize := Some(if value.Some? then |value.value| else 0),
            formattedValue := Some(FormatBytes(value)))
    else info
  }

  /** `characteristics.map { ... }`. */
  function UpdatedCharacteristics(chars: seq<BleCharacteristicInfo>, uuid: Uuid, value: Option<seq<Byte>>)
    : (r: seq<BleCharacteristicInfo>)
    ensures |r| == |chars|
    ensures forall j :: 0 <= j < |chars| ==> r[j] == WithReadValue(chars[j], uuid, value)
  {
    if chars == [] then []
    else [WithReadValue(chars[0], uuid, value)] + UpdatedCharacteristics(chars[1..], uuid, value)
  }

  /** `services.map { service.copy(characteristics = ...) }`: every service, matched by characteristic UUID only. */
  function ApplyRead(services: seq<BleServiceInfo>, uuid: Uuid, value: Option<seq<Byte>>): (r: seq<BleServiceInfo>)
    ensures |r| == |services|
    ensures forall i :: 0 <= i < |services| ==>
              r[i] == services[i].(characteristics := UpdatedCharacteristics(services[i].characteristics, uuid, value))
  {
    if services == [] then []
    else
      [services[0].(characteristics := UpdatedCharacteristics(services[0].characteristics, uuid, value))]
      + ApplyRead(services[1..], uuid, value)
  }

  /**
   * A successful read replaces value, size (0 for a null array) and rendering of
   * every characteristic with the read UUID, in every service, and leaves the
   * service order, the UUIDs, the properties and all other characteristics as
   * they were.
   */
  lemma ApplyReadSpec(services: seq<BleServiceInfo>, uuid: Uuid, value: Option<seq<Byte>>)
    ensures var r := ApplyRead(services, uuid, value);
            && |r| == |services|
            && forall i :: 0 <= i < |services| ==>
                 && r[i].uuid == services[i].uuid
                 && |r[i].characteristics| == |services[i].characteristics|
                 && forall j :: 0 <= j < |services[i].characteristics| ==>
                      var before := services[i].characteristics[j];
                      var after := r[i].characteristics[j];
                      && after.uuid == before.uuid && after.properties == before.properties
                      && (before.uuid == uuid ==>
                            && after.value == value
                            && after.valueSize == Some(if value.Some? then |value.value| else 0)
                            && after.formattedValue == Some(FormatBytes(value)))
                      && (before.uuid != uuid ==> after == before)
  {
  }

  /** Applying the same completed read twice is the same as applying it once. */
  lemma ApplyReadIdempotent(services: seq<BleServiceInfo>, uuid: Uuid, value: Option<seq<Byte>>)
    ensures ApplyRead(ApplyRead(services, uuid, value), uuid, value) == ApplyRead(services, uuid, value)
  {
    var once := ApplyRead(services, uuid, value);
    var twice := ApplyRead(once, uuid, value);
    forall i | 0 <= i < |services|
      ensures twice[i] == once[i]
    {
      var c1 := once[i].characteristics;
      assert UpdatedCharacteristics(c1, uuid, value) == c1;
    }
  }

  // ---------------------------------------------------------------------------
  // The read pipeline
  // ---------------------------------------------------------------------------

  /** What one drain leaves behind: the queue, the flag, and the reads it requested in order. */
  datatype DrainOutcome = DrainOutcome(queue: seq<GattCharacteristic>, reading: bool, requests: seq<GattCharacteristic>)

  /**
   * `processReadQueue`: on an empty queue clear the flag; otherwise pop the head
   * and request its read. Without a handle `null == false` is false, so the drain
   * stops after the pop; with one it goes on to the next item only when the
   * request was refused.
   */
  function Drain(queue: seq<GattCharacteristic>, reading: bool, hasHandle: bool,
                 accepts: nat -> bool, attempt: nat): DrainOutcome
    decreases |queue|
  {
    if queue == [] then DrainOutcome([], false, [])
    else if !hasHandle then DrainOutcome(queue[1..], reading, [])
    else if accepts(attempt) then DrainOutcome(queue[1..], reading, [queue[0]])
    else
      var rest := Drain(queue[1..], reading, hasHandle, accepts, attempt + 1);
      DrainOutcome(rest.queue, rest.reading, [queue[0]] + rest.requests)
  }

  /** The transport refused the i-th request of a drain whose first request was attempt `base`. */
  predicate Refused(accepts: nat -> bool, base: nat, i: nat) {
    !accepts(base + i)
  }

  /**
   * With a handle, a drain requests reads of a prefix of the queue, in FIFO
   * order, and leaves exactly the rest: nothing is requested twice, nothing is
   * lost. Every request but the last was refused; the last was accepted unless
   * the queue ran out. The flag is cleared exactly when the queue ran out.
   */
  lemma {:induction false} DrainIsFifo(queue: seq<GattCharacteristic>, reading: bool,
                                       accepts: nat -> bool, attempt: nat)
    ensures var d := Drain(queue, reading, true, accepts, attempt);
            && d.requests + d.queue == queue
            && (forall i: nat :: i < |d.requests| - 1 ==> Refused(accepts, attempt, i))
            && (d.queue != [] ==> d.requests != [] && accepts(attempt + |d.requests| - 1))
            && (d.reading == (reading && (d.queue != [] || (d.requests != [] && accepts(attempt + |d.requests| - 1)))))
    decreases |queue|
  {
    if queue != [] && !accepts(attempt) {
      DrainIsFifo(queue[1..], reading, accepts, attempt + 1);
      var rest := Drain(queue[1..], reading, true, accepts, attempt + 1);
      assert [queue[0]] + rest.requests + rest.queue == queue;
      forall i: nat | i < |rest.requests|
        ensures Refused(accepts, attempt, i)
      {
        if i > 0 {
          assert Refused(accepts, attempt + 1, i - 1);
        }
      }
    }
  }

  /** Without a handle a drain of a non-empty queue drops the head, requests nothing and keeps the flag. */
  lemma DrainWithoutHandle(queue: seq<GattCharacteristic>, reading: bool, accepts: nat -> bool, attempt: nat)
    requires queue != []
    ensures Drain(queue, reading, false, accepts, attempt) == DrainOutcome(queue[1..], reading, [])
  {
  }

  /** A drain of a non-empty queue always removes at least its head. */
  lemma DrainMakesProgress(queue: seq<GattCharacteristic>, reading: bool, hasHandle: bool,
                           accepts: nat -> bool, attempt: nat)
    requires queue != []
    ensures |Drain(queue, reading, hasHandle, accepts, attempt).queue| < |queue|
  {
    if hasHandle {
      DrainIsFifo(queue, reading, accepts, attempt);
    }
  }

  /**
   * The pipeline over a connection that stays up: the first drain and one more
   * after each completed read, the i-th with transport answers `rounds[i]`.
   */
  function DrainRounds(queue: seq<GattCharacteristic>, reading: bool, rounds: seq<nat -> bool>): DrainOutcome
    decreases |rounds|
  {
    if rounds == [] then DrainOutcome(queue, reading, [])
    else
      var d := Drain(queue, reading, true, rounds[0], 0);
      var rest := DrainRounds(d.queue, d.reading, rounds[1..]);
      DrainOutcome(rest.queue, rest.reading, d.requests + rest.requests)
  }

  /** Across any number of rounds the requested reads are a prefix of the queue, in order, each once. */
  lemma {:induction false} DrainRoundsIsFifo(queue: seq<GattCharacteristic>, reading: bool, rounds: seq<nat -> bool>)
    ensures var d := DrainRounds(queue, reading, rounds); d.requests + d.queue == queue
    decreases |rounds|
  {
    if rounds != [] {
      var d := Drain(queue, reading, true, rounds[0], 0);
      DrainIsFifo(queue, reading, rounds[0], 0);
      DrainRoundsIsFifo(d.queue, d.reading, rounds[1..]);
      var rest := DrainRounds(d.queue, d.reading, rounds[1..]);
      assert d.requests + rest.requests + rest.queue == d.requests + (rest.requests + rest.queue);
    }
  }

  /**
   * Given as many rounds as queued characteristics, every queued characteristic
   * is requested exactly once, in queue order, whatever the transport answers.
   */
  lemma {:induction false} DrainRoundsRequestsEveryRead(queue: seq<GattCharacteristic>, reading: bool,
                                                       rounds: seq<nat -> bool>)
    requires |rounds| >= |queue|
    ensures var d := DrainRounds(queue, reading, rounds); d.requests == queue && d.queue == []
    decreases |rounds|
  {
    if rounds != [] {
      var d := Drain(queue, reading, true, rounds[0], 0);
      DrainIsFifo(queue, reading, rounds[0], 0);
      if queue != [] {
        DrainMakesProgress(queue, reading, true, rounds[0], 0);
      }
      DrainRoundsRequestsEveryRead(d.queue, d.reading, rounds[1..]);
    }
  }

  // ---------------------------------------------------------------------------
  // The manager's state and the effect of each operation on it
  // ---------------------------------------------------------------------------

  /**
   * Everything the manager holds: the handle, the queue and its flag, the two
   * published streams, and the ghost logs of state writes and platform requests.
   */
  datatype ManagerState = ManagerState(
    bluetoothGatt: Option<GattHandle>,
    readQueue: seq<GattCharacteristic>,
    isReadingCharacteristics: bool,
    connectionState: ConnectionState,
    services: seq<BleServiceInfo>,
    stateWrites: seq<ConnectionState>,
    transportCalls: seq<TransportCall>)

  const INITIAL_STATE: ManagerState := ManagerState(None, [], false, DISCONNECTED, [], [], [])

  /** The read requests for the given characteristics, in order. */
  function ReadCalls(chars: seq<GattCharacteristic>): (calls: seq<TransportCall>)
    ensures |calls| == |chars|
    ensures forall i :: 0 <= i < |chars| ==> calls[i] == ReadCharacteristic(chars[i])
  {
    if chars == [] then [] else [ReadCharacteristic(chars[0])] + ReadCalls(chars[1..])
  }

  lemma ReadCallsOfCons(c: GattCharacteristic, chars: seq<GattCharacteristic>)
    ensures ReadCalls([c] + chars) == [ReadCharacteristic(c)] + ReadCalls(chars)
  {
    assert ([c] + chars)[1..] == chars;
  }

  /** `processReadQueue` on a whole state. */
  function Drained(s: ManagerState, accepts: nat -> bool, attempt: nat): ManagerState {
    var d := Drain(s.readQueue, s.isReadingCharacteristics, s.bluetoothGatt.Some?, accepts, attempt);
    s.(readQueue := d.queue, isReadingCharacteristics := d.reading,
       transportCalls := s.transportCalls + ReadCalls(d.requests))
  }

  /** A refused request: the drain goes on from the next item with the request logged. */
  lemma DrainedAfterRefusal(s: ManagerState, accepts: nat -> bool, attempt: nat)
    requires s.readQueue != [] && s.bluetoothGatt.Some? && !accepts(attempt)
    ensures Drained(s, accepts, attempt)
         == Drained(s.(readQueue := s.readQueue[1..],
                       transportCalls := s.transportCalls + [ReadCharacteristic(s.readQueue[0])]),
                    accepts, attempt + 1)
  {
    var rest := Drain(s.readQueue[1..], s.isReadingCharacteristics, true, accepts, attempt + 1);
    ReadCallsOfCons(s.readQueue[0], rest.requests);
  }

  /** An accepted request ends the drain with that one request logged. */
  lemma DrainedAfterAcceptance(s: ManagerState, accepts: nat -> bool, attempt: nat)
    requires s.readQueue != [] && s.bluetoothGatt.Some? && accepts(attempt)
    ensures Drained(s, accepts, attempt)
         == s.(readQueue := s.readQueue[1..],
               transportCalls := s.transportCalls + [ReadCharacteristic(s.readQueue[0])])
  {
    assert ReadCalls([s.readQueue[0]]) == [ReadCharacteristic(s.readQueue[0])];
  }

  /** Without a handle the drain only drops the head. */
  lemma DrainedWithoutHandle(s: ManagerState, accepts: nat -> bool, attempt: nat)
    requires s.readQueue != [] && s.bluetoothGatt.None?
    ensures Drained(s, accepts, attempt) == s.(readQueue := s.readQueue[1..])
  {
    assert ReadCalls([]) == [];
  }

  /** `connect`: nothing without an enabled adapter; otherwise CONNECTING and a new handle. */
  function AfterConnect(s: ManagerState, address: string, adapter: Adapter): ManagerState {
    if adapter.NoAdapter? || !adapter.isEnabled then s
    else
      s.(connectionState := CONNECTING, stateWrites := s.stateWrites + [CONNECTING],
         bluetoothGatt := Some(GattHandle(address)),
         transportCalls := s.transportCalls + [ConnectGatt(address)])
  }

  /**
   * `onConnectionStateChange`: link-up writes CONNECTED then DISCOVERING_SERVICES
   * and requests discovery; link-down writes DISCONNECTED, closes and drops the
   * handle and empties the service list; other link states change nothing.
   */
  function AfterConnectionStateChange(s: ManagerState, newState: ProfileState): ManagerState {
    match newState
    case STATE_CONNECTED =>
      s.(connectionState := DISCOVERING_SERVICES,
         stateWrites := s.stateWrites + [CONNECTED, DISCOVERING_SERVICES],
         transportCalls := s.transportCalls + [DiscoverServices])
    case STATE_DISCONNECTED =>
      s.(connectionState := DISCONNECTED, stateWrites := s.stateWrites + [DISCONNECTED],
         transportCalls := s.transportCalls + [GattClose],
         bluetoothGatt := None, services := [])
    case _ => s
  }

  /**
   * `onServicesDiscovered`: on success the queue is replaced by the readable
   * characteristics of the kept services, the list is published, a drain starts
   * when the queue is not empty, and the state becomes READY; on failure nothing
   * changes.
   */
  function AfterServicesDiscovered(s: ManagerState, success: bool, discovered: seq<GattService>,
                                   accepts: nat -> bool): ManagerState {
    if !success then s
    else
      var seeded := s.(readQueue := QueueOfServices(KeptServices(discovered)),
                       services := PublishedServices(discovered));
      var drained := if seeded.readQueue != [] then Drained(seeded.(isReadingCharacteristics := true), accepts, 0)
                     else seeded;
      drained.(connectionState := READY, stateWrites := drained.stateWrites + [READY])
  }

  /** `handleCharacteristicRead`: a successful read updates the list; either way the queue advances. */
  function AfterCharacteristicRead(s: ManagerState, characteristic: GattCharacteristic, value: Option<seq<Byte>>,
                                   success: bool, accepts: nat -> bool): ManagerState {
    var updated := if success then s.(services := ApplyRead(s.services, characteristic.uuid, value)) else s;
    Drained(updated, accepts, 0)
  }

  /** `disconnect`: clear the queue and flag, tear down and drop the handle, DISCONNECTED, no services. */
  function AfterDisconnect(s: ManagerState): ManagerState {
    s.(readQueue := [], isReadingCharacteristics := false,
       transportCalls := s.transportCalls + (if s.bluetoothGatt.Some? then [GattDisconnect, GattClose] else []),
       bluetoothGatt := None,
       connectionState := DISCONNECTED, stateWrites := s.stateWrites + [DISCONNECTED],
       services := [])
  }

  // ---------------------------------------------------------------------------
  // Properties of the state machine
  // ---------------------------------------------------------------------------

  /** `connect` does something exactly when the adapter is present and enabled. */
  lemma ConnectNeedsEnabledAdapter(s: ManagerState, address: string, adapter: Adapter)
    ensures var t := AfterConnect(s, address, adapter);
            (adapter.NoAdapter? || !adapter.isEnabled <==> t == s)
            && (adapter.Adapter? && adapter.isEnabled ==>
                  t.connectionState == CONNECTING && t.bluetoothGatt == Some(GattHandle(address))
                  && t.readQueue == s.readQueue && t.services == s.services)
  {
  }

  /** Link-up passes through CONNECTED to DISCOVERING_SERVICES and requests discovery, touching nothing else. */
  lemma LinkUpRequestsDiscovery(s: ManagerState)
    ensures var t := AfterConnectionStateChange(s, STATE_CONNECTED);
            && t.connectionState == DISCOVERING_SERVICES
            && t.stateWrites[|s.stateWrites|..] == [CONNECTED, DISCOVERING_SERVICES]
            && t.transportCalls[|s.transportCalls|..] == [DiscoverServices]
            && t.readQueue == s.readQueue && t.services == s.services && t.bluetoothGatt == s.bluetoothGatt
  {
    var t := AfterConnectionStateChange(s, STATE_CONNECTED);
    assert t.stateWrites == s.stateWrites + [CONNECTED, DISCOVERING_SERVICES];
    assert t.transportCalls == s.transportCalls + [DiscoverServices];
  }

  /** Link-down resets state, handle and services, but leaves the read queue and its flag alone. */
  lemma LinkDownKeepsQueue(s: ManagerState)
    ensures var t := AfterConnectionStateChange(s, STATE_DISCONNECTED);
            && t.connectionState == DISCONNECTED && t.bluetoothGatt.None? && t.services == []
            && t.readQueue == s.readQueue && t.isReadingCharacteristics == s.isReadingCharacteristics
  {
  }

  /**
   * A read completion arriving after link-down finds no handle: it publishes
   * nothing, requests nothing, and drops one stale queue entry.
   */
  lemma CompletionAfterLinkDown(s: ManagerState, characteristic: GattCharacteristic, value: Option<seq<Byte>>,
                                success: bool, accepts: nat -> bool)
    ensures var down := AfterConnectionStateChange(s, STATE_DISCONNECTED);
            var late := AfterCharacteristicRead(down, characteristic, value, success, accepts);
            && late.services == []
            && late.transportCalls == down.transportCalls
            && (down.readQueue != [] ==> late.readQueue == down.readQueue[1..])
  {
  }

  /** A failed discovery changes nothing: the state stays where it was (DISCOVERING_SERVICES after link-up). */
  lemma FailedDiscoveryChangesNothing(s: ManagerState, discovered: seq<GattService>, accepts: nat -> bool)
    ensures AfterServicesDiscovered(s, false, discovered, accepts) == s
  {
  }

  /**
   * Successful discovery with a handle: the list is published, the state is
   * READY, and the queue's first drain has requested a prefix of the readable
   * characteristics of the kept services and holds the rest, in order.
   */
  lemma DiscoverySeedsQueue(s: ManagerState, discovered: seq<GattService>, accepts: nat -> bool)
    requires s.bluetoothGatt.Some?
    ensures var t := AfterServicesDiscovered(s, true, discovered, accepts);
            var queue := QueueOfServices(KeptServices(discovered));
            var n := |t.transportCalls| - |s.transportCalls|;
            && t.connectionState == READY
            && t.services == PublishedServices(discovered)
            && t.transportCalls[..|s.transportCalls|] == s.transportCalls
            && 0 <= n <= |queue|
            && t.transportCalls[|s.transportCalls|..] == ReadCalls(queue[..n])
            && t.readQueue == queue[n..]
  {
    var queue := QueueOfServices(KeptServices(discovered));
    var t := AfterServicesDiscovered(s, true, discovered, accepts);
    if queue != [] {
      DrainIsFifo(queue, true, accepts, 0);
      var d := Drain(queue, true, true, accepts, 0);
      assert queue[..|d.requests|] == d.requests;
      assert t.transportCalls == s.transportCalls + ReadCalls(d.requests);
    } else {
      assert t.transportCalls == s.transportCalls;
    }
  }

  /** A failed read leaves the list as it was; the queue still advances. */
  lemma FailedReadOnlyAdvances(s: ManagerState, characteristic: GattCharacteristic, value: Option<seq<Byte>>,
                               accepts: nat -> bool)
    ensures AfterCharacteristicRead(s, characteristic, value, false, accepts) == Drained(s, accepts, 0)
    ensures AfterCharacteristicRead(s, characteristic, value, false, accepts).services == s.services
  {
  }

  /** Disconnecting twice is disconnecting once, except for one more DISCONNECTED written; the second call makes no platform request. */
  lemma DisconnectIsIdempotent(s: ManagerState)
    ensures var once := AfterDisconnect(s);
            var twice := AfterDisconnect(once);
            twice == once.(stateWrites := once.stateWrites + [DISCONNECTED])
  {
  }

  /** Discovery of one ordinary service holding one readable, notifying characteristic. */
  lemma SingleServiceDiscovery(service: GattService)
    requires !IsReservedService(service.uuid)
    requires |service.characteristics| == 1
    requires service.characteristics[0].properties == PROPERTY_READ | PROPERTY_NOTIFY
    ensures var c := service.characteristics[0];
            && QueueOfServices(KeptServices([service])) == [c]
            && PublishedServices([service])
               == [BleServiceInfo(service.uuid, [NewCharacteristicInfo(c.uuid, ["READ", "NOTIFY"])])]
  {
    var c := service.characteristics[0];
    assert KeptServices([service]) == [service];
    assert [service][..0] == [] && service.characteristics[..0] == [];
    assert IsReadable(c);
    assert GetPropertiesList(c.properties) == ["READ", "NOTIFY"];
    assert ServiceInfoOf(service).characteristics == [NewCharacteristicInfo(c.uuid, ["READ", "NOTIFY"])];
  }

  /** A drain of a one-item queue with a handle requests that item, whatever the transport answers. */
  lemma SingleItemDrain(c: GattCharacteristic, reading: bool, accepts: nat -> bool)
    ensures Drain([c], reading, true, accepts, 0).requests == [c]
    ensures Drain([c], reading, true, accepts, 0).queue == []
  {
    assert [c][1..] == [];
  }

  /** The battery level byte 0x64 as the service list shows it. */
  lemma BatteryLevelRendering()
    ensures FormatBytes(Some([0x64])) == "64\n\"d\""
  {
    var lib := TextLibrary(_ => "", _ => "", _ => "");
    BatteryLevelAsHex(lib);
    FormatBytesIsHexRaw(lib, Some([0x64]), LITTLE_ENDIAN);
  }

  /** A successful read of the only published characteristic, with nothing left queued. */
  lemma OnlyCharacteristicRead(s: ManagerState, c: GattCharacteristic, info: BleCharacteristicInfo,
                               serviceUuid: Uuid, value: seq<Byte>, accepts: nat -> bool)
    requires s.services == [BleServiceInfo(serviceUuid, [info])] && info.uuid == c.uuid
    requires s.readQueue == []
    ensures var t := AfterCharacteristicRead(s, c, Some(value), true, accepts);
            && t.services == [BleServiceInfo(serviceUuid,
                 [info.(value := Some(value), valueSize := Some(|value|), formattedValue := Some(FormatBytes(Some(value))))])]
            && t.readQueue == [] && !t.isReadingCharacteristics
            && t.transportCalls == s.transportCalls && t.stateWrites == s.stateWrites
            && t.connectionState == s.connectionState
  {
    var t := AfterCharacteristicRead(s, c, Some(value), true, accepts);
    var updated := info.(value := Some(value), valueSize := Some(|value|),
                         formattedValue := Some(FormatBytes(Some(value))));
    assert t.services[0].characteristics[0] == WithReadValue(info, c.uuid, Some(value)) == updated;
    assert t.services[0].characteristics == [updated];
    assert ReadCalls([]) == [];
  }

  /**
   * An end-to-end session: connect, link-up, discovery of a service with one
   * readable characteristic (the battery level 0x2A19 in the battery service
   * 0x180F, say), and the completion of its read with byte 0x64. Whatever the
   * transport answers, exactly one read is requested, the queue ends empty and
   * idle, and the published characteristic carries the value and its HEX_RAW
   * rendering.
   */
  lemma SingleServiceSession(address: string, service: GattService, value: seq<Byte>,
                             first: nat -> bool, second: nat -> bool)
    requires !IsReservedService(service.uuid)
    requires |service.characteristics| == 1
    requires service.characteristics[0].properties == PROPERTY_READ | PROPERTY_NOTIFY
    requires value == [0x64]
    ensures var c := service.characteristics[0];
            var s1 := AfterConnect(INITIAL_STATE, address, Adapter(true));
            var s2 := AfterConnectionStateChange(s1, STATE_CONNECTED);
            var s3 := AfterServicesDiscovered(s2, true, [service], first);
            var s4 := AfterCharacteristicRead(s3, c, Some(value), true, second);
            && s4.transportCalls == [ConnectGatt(address), DiscoverServices, ReadCharacteristic(c)]
            && s4.stateWrites == [CONNECTING, CONNECTED, DISCOVERING_SERVICES, READY]
            && s4.connectionState == READY && s4.readQueue == [] && !s4.isReadingCharacteristics
            && s4.services == [BleServiceInfo(service.uuid,
                 [BleCharacteristicInfo(c.uuid, ["READ", "NOTIFY"], Some(value), Some(1), Some("64\n\"d\""))])]
  {
    var c := service.characteristics[0];
    var s1 := AfterConnect(INITIAL_STATE, address, Adapter(true));
    var s2 := AfterConnectionStateChange(s1, STATE_CONNECTED);
    assert s2.transportCalls == [ConnectGatt(address), DiscoverServices];
    assert s2.stateWrites == [CONNECTING, CONNECTED, DISCOVERING_SERVICES];
    SingleServiceDiscovery(service);
    SingleItemDrain(c, true, first);
    assert ReadCalls([c]) == [ReadCharacteristic(c)];
    var s3 := AfterServicesDiscovered(s2, true, [service], first);
    assert s3.transportCalls == [ConnectGatt(address), DiscoverServices, ReadCharacteristic(c)];
    assert s3.readQueue == [];
    assert s3.stateWrites == [CONNECTING, CONNECTED, DISCOVERING_SERVICES, READY];
    BatteryLevelRendering();
    OnlyCharacteristicRead(s3, c, NewCharacteristicInfo(c.uuid, ["READ", "NOTIFY"]), service.uuid, value, second);
  }

  // ---------------------------------------------------------------------------
  // The manager
  // ---------------------------------------------------------------------------

  class BleConnectionManager {
    var bluetoothGatt: Option<GattHandle>
    var readQueue: seq<GattCharacteristic>
    /** Written by discovery, the drain and `disconnect`, read nowhere. */
    var isReadingCharacteristics: bool
    var connectionState: ConnectionState
    var services: seq<BleServiceInfo>
    ghost var stateWrites: seq<ConnectionState>
    ghost var transportCalls: seq<TransportCall>

    ghost function Snapshot(): ManagerState
      reads this
    {
      ManagerState(bluetoothGatt, readQueue, isReadingCharacteristics, connectionState, services,
                   stateWrites, transportCalls)
    }

    constructor()
      ensures Snapshot() == INITIAL_STATE
    {
      bluetoothGatt := None;
      readQueue := [];
      isReadingCharacteristics := false;
      connectionState := DISCONNECTED;
      services := [];
      stateWrites := [];
      transportCalls := [];
    }

    method Connect(address: string, adapter: Adapter)
      modifies this
      ensures Snapshot() == AfterConnect(old(Snapshot()), address, adapter)
    {
      if adapter.NoAdapter? || !adapter.isEnabled {
        return;
      }
      connectionState := CONNECTING;
      stateWrites := stateWrites + [CONNECTING];
      bluetoothGatt := Some(GattHandle(address));
      transportCalls := transportCalls + [ConnectGatt(address)];
    }

    method OnConnectionStateChange(newState: ProfileState)
      modifies this
      ensures Snapshot() == AfterConnectionStateChange(old(Snapshot()), newState)
    {
      if newState == STATE_CONNECTED {
        connectionState := CONNECTED;
        stateWrites := stateWrites + [CONNECTED];
        connectionState := DISCOVERING_SERVICES;
        stateWrites := stateWrites + [DISCOVERING_SERVICES];
        transportCalls := transportCalls + [DiscoverServices];
      } else if newState == STATE_DISCONNECTED {
        connectionState := DISCONNECTED;
        stateWrites := stateWrites + [DISCONNECTED];
        transportCalls := transportCalls + [GattClose];
        bluetoothGatt := None;
        services := [];
      }
    }

    method OnServicesDiscovered(success: bool, discovered: seq<GattService>, accepts: nat -> bool)
      modifies this
      ensures Snapshot() == AfterServicesDiscovered(old(Snapshot()), success, discovered, accepts)
    {
      if !success {
        return;
      }
      readQueue := [];
      var kept := KeptServices(discovered);
      var serviceList: seq<BleServiceInfo> := [];
      var i := 0;
      while i < |kept|
        modifies this`readQueue
        invariant 0 <= i <= |kept|
        invariant readQueue == QueueOfServices(kept[..i])
        invariant serviceList == PublishedOf(kept[..i])
      {
        EnqueueReadable(kept[i].characteristics);
        serviceList := serviceList + [ServiceInfoOf(kept[i])];
        QueueAndPublishedOfPrefix(kept, i);
        i := i + 1;
      }
      assert kept[..i] == kept;
      services := serviceList;
      if readQueue != [] {
        isReadingCharacteristics := true;
        ProcessReadQueue(accepts, 0);
      }
      connectionState := READY;
      stateWrites := stateWrites + [READY];
    }

    /** The `forEach` of discovery's map: append the service's readable characteristics to the queue. */
    method EnqueueReadable(chars: seq<GattCharacteristic>)
      modifies this`readQueue
      ensures readQueue == old(readQueue) + ReadableCharacteristics(chars)
    {
      var j := 0;
      while j < |chars|
        invariant 0 <= j <= |chars|
        invariant readQueue == old(readQueue) + ReadableCharacteristics(chars[..j])
      {
        if HasProperty(chars[j].properties, PROPERTY_READ) {
          readQueue := readQueue + [chars[j]];
        }
        assert chars[..j + 1][..j] == chars[..j];
        j := j + 1;
      }
      assert chars[..j] == chars;
    }

    method OnCharacteristicRead(characteristic: GattCharacteristic, value: Option<seq<Byte>>, success: bool,
                                accepts: nat -> bool)
      modifies this
      ensures Snapshot() == AfterCharacteristicRead(old(Snapshot()), characteristic, value, success, accepts)
    {
      if success {
        services := ApplyRead(services, characteristic.uuid, value);
      }
      ProcessReadQueue(accepts, 0);
    }

    method ProcessReadQueue(accepts: nat -> bool, attempt: nat)
      modifies this
      ensures Snapshot() == Drained(old(Snapshot()), accepts, attempt)
      decreases |readQueue|
    {
      if readQueue == [] {
        isReadingCharacteristics := false;
        return;
      }
      ghost var before := Snapshot();
      var characteristic := readQueue[0];
      readQueue := readQueue[1..];
      if bluetoothGatt.Some? {
        transportCalls := transportCalls + [ReadCharacteristic(characteristic)];
        if !accepts(attempt) {
          DrainedAfterRefusal(before, accepts, attempt);
          ProcessReadQueue(accepts, attempt + 1);
        } else {
          DrainedAfterAcceptance(before, accepts, attempt);
        }
      } else {
        DrainedWithoutHandle(before, accepts, attempt);
      }
    }

    method Disconnect()
      modifies this
      ensures Snapshot() == AfterDisconnect(old(Snapshot()))
    {
      readQueue := [];
      isReadingCharacteristics := false;
      if bluetoothGatt.Some? {
        transportCalls := transportCalls + [GattDisconnect, GattClose];
      }
      bluetoothGatt := None;
      connectionState := DISCONNECTED;
      stateWrites := stateWrites + [DISCONNECTED];
      services := [];
    }
  }
}
