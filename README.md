# stupid-ble: a verified model of the connection core, value codec and metadata store

This project models the core of stupid-ble, an Android app that connects to one
Bluetooth Low Energy peripheral, discovers its services, reads every readable
characteristic once, and shows each value decoded by the data type and byte
order the user assigned to it. The model is written in Dafny. It covers these
parts of the app:

- **Value codec** (`formatter.dfy`, module `Formatter`). `formatValue` turns
  bytes into text. The rules:
  - a missing or empty buffer gives `"N/A"`;
  - HEX_RAW gives uppercase hex pairs followed by a quoted ASCII line;
  - INTEGER gives the signed and unsigned readings at widths 1, 2 and 4, in
    either byte order;
  - any other width gives a size sentinel.

  UTF-8 decoding and `"%.6f"` rendering of IEEE 754 values are library calls.
  The model takes them as opaque functions in a `TextLibrary`. The codec's own
  work is modelled exactly: assembling the raw bits in the requested order, and
  the size dispatch.
- **Connection manager** (`connection.dfy`, module `Connection`). This is the
  five-state connection machine, the FIFO read queue that discovery seeds, and
  the published service list.
  - The platform GATT stack is abstract. Its callbacks (link-up, link-down,
    discovery, read completion) are event methods.
  - The answers `readCharacteristic` gives come from an oracle
    `accepts: nat -> bool`.
  - Each method of the `BleConnectionManager` class is proved to have the effect
    of a pure function on a `ManagerState`. The lemmas state the properties
    about those functions.
- **Data model** (`gatt_models.dfy`, `device_info.dfy`, `metadata.dfy`,
  `converters.dfy`). These are the service and characteristic records, with the
  content equality and hash of the characteristic record; the scanned-device
  record; the metadata enums and record with their defaults; and the Room type
  converters.
- **Metadata store** (`metadata_dao.dfy`, `metadata_repository.dfy`).
  - The Room table is the sequence of its rows in rowid order, plus the
    AUTOINCREMENT counter.
  - The DAO is a class over that table.
  - The repository's `saveMetadata` is an upsert: it reads by key, then inserts
    with REPLACE. It never gives one (device, service, characteristic) triple a
    second row.
- **View models** (`scanner_view_model.dfy`, `device_detail_view_model.dfy`,
  `characteristic_edit_view_model.dfy`). These are the scanner's device list and
  flags, the detail screen's connect-and-lookup, and the edit screen's format
  fields and saving flags.

Inputs the model receives as parameters:
- the clock (`System.currentTimeMillis()`) is `now`;
- whether Bluetooth is enabled, and the local adapter, are parameters;
- whether the database throws during a save is the parameter `storeFails`.

### Where the code and its written specification differ

The model follows the code in each of these cases:
- A link-down event does not clear the read queue or its flag. See
  `Connection.LinkDownKeepsQueue`. `disconnect` clears both. A fresh discovery
  clears only the queue, and a drain that runs out of entries clears only the
  flag. After a discovery that finds nothing readable, the flag keeps its old
  value.
- The `isReadingCharacteristics` flag is written but never read, so a drain
  started while another is in progress is not a no-op.
- After link-down the handle is null. A late read completion then finds
  `null == false` false, so the drain drops one queued entry and requests
  nothing. See `Connection.CompletionAfterLinkDown`.
- A failed discovery leaves everything as it was, including the
  DISCOVERING_SERVICES state.
- Kotlin's `ByteArray.toString(Charsets.UTF_8)` substitutes for malformed input
  and does not throw. The model's decode function is therefore total, and the
  "Invalid UTF-8" branch is unreachable.
- The SQL queries without `ORDER BY` return rows in rowid (id) order.
  `ORDER BY updatedAt DESC` leaves ties unspecified, so the model proves the
  result sorted and a permutation, and fixes no order among ties.

## Model

| member | source | states |
|---|---|---|
| Metadata.NewMetadata | app/src/main/java/com/calica/stupidble/data/database/CharacteristicMetadata.kt:18-42 | a new record has id 0 (to be generated), the given key and timestamps, no name, description, unit or bounds, HEX_RAW and LITTLE_ENDIAN |
| Metadata.EnumerationsAreComplete | app/src/main/java/com/calica/stupidble/data/database/CharacteristicMetadata.kt:6-16 | there are exactly four data types and exactly two byte orders |
| Converters.ToDataType | app/src/main/java/com/calica/stupidble/data/database/BleDatabase.kt:15-17 | what `valueOf` accepts is the data type whose name is exactly the string |
| Converters.ToEndianness | app/src/main/java/com/calica/stupidble/data/database/BleDatabase.kt:25-27 | what `valueOf` accepts is the byte order whose name is exactly the string |
| Converters.DataTypeRoundTrip | app/src/main/java/com/calica/stupidble/data/database/BleDatabase.kt:10-17 | converting a data type to its name and back gives the type |
| Converters.EndiannessRoundTrip | app/src/main/java/com/calica/stupidble/data/database/BleDatabase.kt:20-27 | converting a byte order to its name and back gives the order |
| Converters.FromDataTypeInjective | app/src/main/java/com/calica/stupidble/data/database/BleDatabase.kt:10-12 | distinct data types are stored as distinct strings |
| Converters.FromEndiannessInjective | app/src/main/java/com/calica/stupidble/data/database/BleDatabase.kt:20-22 | distinct byte orders are stored as distinct strings |
| Converters.ToDataTypeAcceptsOnlyNames | app/src/main/java/com/calica/stupidble/data/database/BleDatabase.kt:15-17 | any string other than the four names is an error |
| Converters.ToEndiannessAcceptsOnlyNames | app/src/main/java/com/calica/stupidble/data/database/BleDatabase.kt:25-27 | any string other than the two names is an error |
| DeviceInfo.BluetoothDeviceInfo.DisplayName | app/src/main/java/com/calica/stupidble/data/model/BluetoothDeviceInfo.kt:8-9 | the name when there is one, "Unknown Device" otherwise |
| DeviceInfo.DisplayNameDependsOnNameOnly | app/src/main/java/com/calica/stupidble/data/model/BluetoothDeviceInfo.kt:3-9 | two devices with the same name show the same text, whatever their address and signal strength |
| GattModels.FromShortUuidInjective | app/src/main/java/com/calica/stupidble/data/BleConnectionManager.kt:39-40 | expanding 16-bit UUIDs with the Bluetooth Base UUID (Bluetooth Core Specification, Vol 3, Part B, Section 2.5.1) keeps distinct aliases distinct |
| GattModels.NewCharacteristicInfo | app/src/main/java/com/calica/stupidble/data/model/GattModels.kt:10-16 | a new characteristic info has no value, no size and no rendering |
| GattModels.EqualsIsValueEquality | app/src/main/java/com/calica/stupidble/data/model/GattModels.kt:19-35 | `equals` holds exactly when UUID, properties, size and rendering are equal and the values are both null or have equal contents |
| GattModels.EqualsIsReflexive | app/src/main/java/com/calica/stupidble/data/model/GattModels.kt:20 | every characteristic info equals itself |
| GattModels.NullValueIsNotEmptyValue | app/src/main/java/com/calica/stupidble/data/model/GattModels.kt:27-30 | a null value never equals a present value, even an empty array |
| GattModels.HashCode | app/src/main/java/com/calica/stupidble/data/model/GattModels.kt:37-44 | the 31-multiplier fold of the field hashes, with the content hash of the value and 0 for a null field, is always a 32-bit `Int` |
| GattModels.EqualCharacteristicsHashEqually | app/src/main/java/com/calica/stupidble/data/model/GattModels.kt:19-44 | equal characteristic infos have equal hash codes |
| Formatter.LittleEndianValue | app/src/main/java/com/calica/stupidble/util/CharacteristicFormatter.kt:48-52 | the little-endian reading of n bytes lies below 256^n |
| Formatter.BigEndianIsReversedLittleEndian | app/src/main/java/com/calica/stupidble/util/CharacteristicFormatter.kt:48-52 | reading bytes big-endian is reading them reversed little-endian |
| Formatter.TwosComplementWord | app/src/main/java/com/calica/stupidble/util/CharacteristicFormatter.kt:60-66 | `getShort()` lies in [-2^15, 2^15), and masking it with 0xFFFF gives back the raw 16 bits |
| Formatter.TwosComplementDoubleWord | app/src/main/java/com/calica/stupidble/util/CharacteristicFormatter.kt:67-73 | `getInt()` lies in [-2^31, 2^31), and `toLong() and 0xFFFFFFFF` gives back the raw 32 bits |
| Formatter.IntToDecimalRoundTrip | app/src/main/java/com/calica/stupidble/util/CharacteristicFormatter.kt:55-73 | the decimal text of any integer parses back to that integer |
| Formatter.IntegerReportRoundTrip | app/src/main/java/com/calica/stupidble/util/CharacteristicFormatter.kt:55-73 | the "Signed: …\nUnsigned: …" text determines both numbers it was built from |
| Formatter.SentinelIsNotReport | app/src/main/java/com/calica/stupidble/util/CharacteristicFormatter.kt:74-75 | the INTEGER size sentinel never reads as a report |
| Formatter.HexJoin | app/src/main/java/com/calica/stupidble/util/CharacteristicFormatter.kt:112 | n bytes give 3n-1 characters of hex, and none for no bytes |
| Formatter.HexJoinRoundTrip | app/src/main/java/com/calica/stupidble/util/CharacteristicFormatter.kt:112 | the space-joined uppercase hex text determines the bytes |
| Formatter.HexJoinHasNoNewline | app/src/main/java/com/calica/stupidble/util/CharacteristicFormatter.kt:112-114 | the hex line has no newline, so the first newline of a HEX_RAW text ends it |
| Formatter.AsciiProjection | app/src/main/java/com/calica/stupidble/util/CharacteristicFormatter.kt:113 | the ASCII line has one character per byte: the byte itself when it is in 32..126, and '.' for every other byte, 0x80 and above included |
| Formatter.FormatValue | app/src/main/java/com/calica/stupidble/util/CharacteristicFormatter.kt:11-36 | a null or empty buffer gives "N/A" for every data type and byte order |
| Formatter.NotAvailableExactlyForEmpty | app/src/main/java/com/calica/stupidble/util/CharacteristicFormatter.kt:16 | under INTEGER and HEX_RAW the text is "N/A" exactly when the buffer is null or empty |
| Formatter.IntegerIsTwosComplement | app/src/main/java/com/calica/stupidble/util/CharacteristicFormatter.kt:46-73 | on 1, 2 or 4 bytes, INTEGER reports as unsigned the raw value in the requested order, and as signed the value in [-2^(8n-1), 2^(8n-1)) congruent to it modulo 2^(8n) |
| Formatter.IntegerWidthDispatch | app/src/main/java/com/calica/stupidble/util/CharacteristicFormatter.kt:54-75 | INTEGER gives a report exactly at widths 1, 2 and 4, and "Size N bytes - use Int8/16/32" at every other non-zero width |
| Formatter.FloatWidthDispatch | app/src/main/java/com/calica/stupidble/util/CharacteristicFormatter.kt:101-103 | FLOAT at a width other than 4 or 8 gives "Size N bytes - use Float(4) or Double(8)" |
| Formatter.SingleByteIgnoresOrder | app/src/main/java/com/calica/stupidble/util/CharacteristicFormatter.kt:55-58 | on one byte every data type renders the same in both byte orders |
| Formatter.BigEndianIsReversedBytes | app/src/main/java/com/calica/stupidble/util/CharacteristicFormatter.kt:48-73 | INTEGER and FLOAT big-endian on some bytes give the same text as little-endian on the reversed bytes |
| Formatter.HexRawRoundTrip | app/src/main/java/com/calica/stupidble/util/CharacteristicFormatter.kt:111-115 | the HEX_RAW text of a non-empty buffer determines the buffer |
| Formatter.HexRawLayout | app/src/main/java/com/calica/stupidble/util/CharacteristicFormatter.kt:111-115 | HEX_RAW is the hex line, a newline, then the ASCII line in quotes, in which each printable byte (32..126) is itself and every other byte, 0x80 and above included, is '.' |
| Formatter.BatteryLevelAsHex | app/src/main/java/com/calica/stupidble/util/CharacteristicFormatter.kt:111-115 | the byte 0x64 shows as `64` and `"d"` under HEX_RAW |
| Formatter.BatteryLevelAsInteger | app/src/main/java/com/calica/stupidble/util/CharacteristicFormatter.kt:55-58 | the byte 0x64 shows as "Signed: 100\nUnsigned: 100" under INTEGER |
| Connection.ReservedServicesAreShortUuids | app/src/main/java/com/calica/stupidble/data/BleConnectionManager.kt:39-40 | the hidden services are GAP 0x1800 and GATT 0x1801 expanded with the Bluetooth Base UUID |
| Connection.PropertiesListMembership | app/src/main/java/com/calica/stupidble/data/BleConnectionManager.kt:175-183 | each of READ, WRITE, WRITE_NO_RESP, NOTIFY and INDICATE is listed exactly when its bit (Bluetooth Core Specification, Vol 3, Part G, Section 3.3.1.1) is set |
| Connection.PropertiesListOrder | app/src/main/java/com/calica/stupidble/data/BleConnectionManager.kt:175-183 | the names come in that fixed order, each at most once, and no other name appears |
| Connection.KeptServices | app/src/main/java/com/calica/stupidble/data/BleConnectionManager.kt:62 | the kept services are exactly the discovered ones other than GAP and GATT, no more of them than were discovered |
| Connection.KeptServicesOfConcat | app/src/main/java/com/calica/stupidble/data/BleConnectionManager.kt:62 | filtering keeps the discovery order |
| Connection.ReadableCharacteristics | app/src/main/java/com/calica/stupidble/data/BleConnectionManager.kt:64-68 | a service contributes exactly its characteristics with the READ bit |
| Connection.PublishedOf | app/src/main/java/com/calica/stupidble/data/BleConnectionManager.kt:69-77 | one published entry per kept service, in order, each the service with its characteristics in published form |
| Connection.QueueOfServicesMembership | app/src/main/java/com/calica/stupidble/data/BleConnectionManager.kt:64-68 | a characteristic is queued exactly when it is readable and belongs to a kept service |
| Connection.PublishedServicesSpec | app/src/main/java/com/calica/stupidble/data/BleConnectionManager.kt:62-79 | the published list is the kept services in order, each characteristic with its UUID and no value, listing READ exactly when it is queued |
| Connection.FormatBytesIsHexRaw | app/src/main/java/com/calica/stupidble/data/BleConnectionManager.kt:185-190 | `formatBytes` is the codec's HEX_RAW rendering, "N/A" included, in either byte order |
| Connection.UpdatedCharacteristics | app/src/main/java/com/calica/stupidble/data/BleConnectionManager.kt:133-145 | the map keeps the length and updates each characteristic on its own |
| Connection.ApplyRead | app/src/main/java/com/calica/stupidble/data/BleConnectionManager.kt:131-146 | the map keeps the services in order and updates each one's characteristics |
| Connection.ApplyReadSpec | app/src/main/java/com/calica/stupidble/data/BleConnectionManager.kt:131-146 | a successful read sets value, size (0 for null) and rendering of every characteristic with that UUID in every service, and leaves order, UUIDs, properties and other entries alone |
| Connection.ApplyReadIdempotent | app/src/main/java/com/calica/stupidble/data/BleConnectionManager.kt:131-146 | applying the same read twice is applying it once |
| Connection.DrainIsFifo | app/src/main/java/com/calica/stupidble/data/BleConnectionManager.kt:113-123 | with a handle, one drain requests a prefix of the queue in order and leaves the rest; all requests but the last were refused, the last was accepted unless the queue ran out, and the flag is cleared exactly when it ran out |
| Connection.DrainWithoutHandle | app/src/main/java/com/calica/stupidble/data/BleConnectionManager.kt:119 | without a handle, a drain pops the head, requests nothing and stops |
| Connection.DrainMakesProgress | app/src/main/java/com/calica/stupidble/data/BleConnectionManager.kt:113-123 | every drain of a non-empty queue removes at least the head |
| Connection.DrainRoundsIsFifo | app/src/main/java/com/calica/stupidble/data/BleConnectionManager.kt:113-150 | over any number of drains the requested reads are a prefix of the queue, in order, each at most once |
| Connection.DrainRoundsRequestsEveryRead | app/src/main/java/com/calica/stupidble/data/BleConnectionManager.kt:113-150 | given one drain per queued item, every queued characteristic is requested exactly once, in queue order, whatever the transport answers |
| Connection.ConnectNeedsEnabledAdapter | app/src/main/java/com/calica/stupidble/data/BleConnectionManager.kt:154-162 | `connect` changes nothing without an enabled adapter; otherwise it writes CONNECTING, opens a connection and stores the handle |
| Connection.LinkUpRequestsDiscovery | app/src/main/java/com/calica/stupidble/data/BleConnectionManager.kt:46-49 | link-up writes CONNECTED then DISCOVERING_SERVICES and requests discovery, touching nothing else |
| Connection.LinkDownKeepsQueue | app/src/main/java/com/calica/stupidble/data/BleConnectionManager.kt:50-55 | link-down writes DISCONNECTED, drops the handle and empties the list, but keeps the queue and its flag |
| Connection.CompletionAfterLinkDown | app/src/main/java/com/calica/stupidble/data/BleConnectionManager.kt:125-151 | a read completing after link-down publishes nothing, requests nothing and drops one stale queue entry |
| Connection.FailedDiscoveryChangesNothing | app/src/main/java/com/calica/stupidble/data/BleConnectionManager.kt:86-88 | a failed discovery leaves the whole state unchanged |
| Connection.DiscoverySeedsQueue | app/src/main/java/com/calica/stupidble/data/BleConnectionManager.kt:58-88 | successful discovery publishes the list, ends in READY, requests reads of a prefix of the readable characteristics of the kept services, and queues the rest in order |
| Connection.FailedReadOnlyAdvances | app/src/main/java/com/calica/stupidble/data/BleConnectionManager.kt:147-150 | a failed read leaves the list unchanged and still advances the queue |
| Connection.DisconnectIsIdempotent | app/src/main/java/com/calica/stupidble/data/BleConnectionManager.kt:165-173 | disconnecting twice is disconnecting once plus one more DISCONNECTED written; the second call makes no platform request |
| Connection.ReadCalls | app/src/main/java/com/calica/stupidble/data/BleConnectionManager.kt:119-121 | one read request per drained characteristic, in order |
| Connection.DrainedAfterRefusal | app/src/main/java/com/calica/stupidble/data/BleConnectionManager.kt:119-122 | a refused request is logged and the drain goes on from the next item |
| Connection.DrainedAfterAcceptance | app/src/main/java/com/calica/stupidble/data/BleConnectionManager.kt:119-122 | an accepted request is logged and ends the drain |
| Connection.DrainedWithoutHandle | app/src/main/java/com/calica/stupidble/data/BleConnectionManager.kt:119 | with no handle the drain only drops the head |
| Connection.SingleServiceDiscovery | app/src/main/java/com/calica/stupidble/data/BleConnectionManager.kt:58-89 | one ordinary service with one READ and NOTIFY characteristic is queued alone and published with the names READ, NOTIFY |
| Connection.SingleItemDrain | app/src/main/java/com/calica/stupidble/data/BleConnectionManager.kt:113-123 | a one-item queue is requested and emptied whatever the transport answers |
| Connection.BatteryLevelRendering | app/src/main/java/com/calica/stupidble/data/BleConnectionManager.kt:185-190 | the byte 0x64 is listed as `64` and `"d"` |
| Connection.OnlyCharacteristicRead | app/src/main/java/com/calica/stupidble/data/BleConnectionManager.kt:125-151 | a successful read of the only characteristic with an empty queue publishes value, size and rendering, clears the flag and makes no request |
| Connection.SingleServiceSession | app/src/main/java/com/calica/stupidble/data/BleConnectionManager.kt:45-190 | connect, link-up, discovery of one ordinary service with one readable characteristic, and a read of 0x64 make exactly three platform requests, write CONNECTING, CONNECTED, DISCOVERING_SERVICES, READY, and publish the value with size 1 and text `64` / `"d"` |
| Connection.BleConnectionManager.constructor | app/src/main/java/com/calica/stupidble/data/BleConnectionManager.kt:28-32 | a new manager is DISCONNECTED, with no handle, no queue and no services |
| Connection.BleConnectionManager.Connect | app/src/main/java/com/calica/stupidble/data/BleConnectionManager.kt:154-162 | the new state is `AfterConnect` of the old one |
| Connection.BleConnectionManager.OnConnectionStateChange | app/src/main/java/com/calica/stupidble/data/BleConnectionManager.kt:45-56 | the new state is `AfterConnectionStateChange` of the old one |
| Connection.BleConnectionManager.OnServicesDiscovered | app/src/main/java/com/calica/stupidble/data/BleConnectionManager.kt:58-89 | the loop builds the queue and the list of the specification functions, and the new state is `AfterServicesDiscovered` of the old one |
| Connection.BleConnectionManager.EnqueueReadable | app/src/main/java/com/calica/stupidble/data/BleConnectionManager.kt:64-68 | the queue grows by the service's readable characteristics, in order |
| Connection.BleConnectionManager.OnCharacteristicRead | app/src/main/java/com/calica/stupidble/data/BleConnectionManager.kt:92-151 | the new state is `AfterCharacteristicRead` of the old one |
| Connection.BleConnectionManager.ProcessReadQueue | app/src/main/java/com/calica/stupidble/data/BleConnectionManager.kt:113-123 | the recursive drain has the effect of `Drained`, the function whose FIFO properties are proved above |
| Connection.BleConnectionManager.Disconnect | app/src/main/java/com/calica/stupidble/data/BleConnectionManager.kt:165-173 | the new state is `AfterDisconnect` of the old one |
| MetadataDao.EmptyTableIsValid | app/src/main/java/com/calica/stupidble/data/database/CharacteristicMetadataDao.kt:7 | the empty table satisfies the table invariant and has unique keys |
| MetadataDao.ForDevice | app/src/main/java/com/calica/stupidble/data/database/CharacteristicMetadataDao.kt:9-10 | the result holds exactly the rows with the given device address, and keeps rowid order |
| MetadataDao.FirstWithKeySpec | app/src/main/java/com/calica/stupidble/data/database/CharacteristicMetadataDao.kt:12-36 | the key lookup finds a row exactly when some row has the key triple, and what it finds has the key and is in the table |
| MetadataDao.FirstWithKeyIsTheRow | app/src/main/java/com/calica/stupidble/data/database/CharacteristicMetadataDao.kt:12-36 | with unique keys, the lookup returns the one row with the key |
| MetadataDao.InsertByUpdatedPermutes | app/src/main/java/com/calica/stupidble/data/database/CharacteristicMetadataDao.kt:50-51 | inserting a row into the sorted list adds exactly that row |
| MetadataDao.InsertByUpdatedSorted | app/src/main/java/com/calica/stupidble/data/database/CharacteristicMetadataDao.kt:50-51 | inserting a row keeps the list in descending `updatedAt` order |
| MetadataDao.SortedByUpdatedSpec | app/src/main/java/com/calica/stupidble/data/database/CharacteristicMetadataDao.kt:50-51 | `ORDER BY updatedAt DESC` returns every row once, newest first |
| MetadataDao.PlacedReplaces | app/src/main/java/com/calica/stupidble/data/database/CharacteristicMetadataDao.kt:38-39 | REPLACE of a row whose id is present overwrites it in place |
| MetadataDao.PlacedAppends | app/src/main/java/com/calica/stupidble/data/database/CharacteristicMetadataDao.kt:38-39 | a row with an id above all others goes at the end |
| MetadataDao.InsertedSpec | app/src/main/java/com/calica/stupidble/data/database/CharacteristicMetadataDao.kt:38-39 | insert keeps the table valid and returns a non-zero id, the record's own or, for id 0, one above every id in the table; afterwards the table holds exactly the record under that id and the rows with other ids |
| MetadataDao.UpdatedIsValid | app/src/main/java/com/calica/stupidble/data/database/CharacteristicMetadataDao.kt:41-42 | update keeps the table valid, its size and its counter |
| MetadataDao.UpdatedSpec | app/src/main/java/com/calica/stupidble/data/database/CharacteristicMetadataDao.kt:41-42 | after an update the rows are the record, when some row had its id, plus the rows with other ids; with no such row nothing changes |
| MetadataDao.WithoutId | app/src/main/java/com/calica/stupidble/data/database/CharacteristicMetadataDao.kt:44-45 | delete removes exactly the rows with the record's id |
| MetadataDao.WithoutDevice | app/src/main/java/com/calica/stupidble/data/database/CharacteristicMetadataDao.kt:47-48 | `deleteAllForDevice` removes exactly the device's rows |
| MetadataDao.DeletesKeepTableValid | app/src/main/java/com/calica/stupidble/data/database/CharacteristicMetadataDao.kt:44-48 | both deletes keep the table valid |
| MetadataDao.DeletedForDeviceSpec | app/src/main/java/com/calica/stupidble/data/database/CharacteristicMetadataDao.kt:47-48 | afterwards the device has no rows and every other device keeps exactly its rows |
| MetadataDao.CharacteristicMetadataDao.constructor | app/src/main/java/com/calica/stupidble/data/database/CharacteristicMetadataDao.kt:6-7 | a new table is empty, with counter 0 |
| MetadataDao.CharacteristicMetadataDao.GetMetadataForDevice | app/src/main/java/com/calica/stupidble/data/database/CharacteristicMetadataDao.kt:9-10 | the result holds exactly the device's rows |
| MetadataDao.CharacteristicMetadataDao.GetMetadata | app/src/main/java/com/calica/stupidble/data/database/CharacteristicMetadataDao.kt:12-36 | the result is null exactly when no row has the key triple; otherwise it is a row of the table with that key |
| MetadataDao.CharacteristicMetadataDao.GetAllMetadata | app/src/main/java/com/calica/stupidble/data/database/CharacteristicMetadataDao.kt:50-51 | every row once, newest `updatedAt` first |
| MetadataDao.CharacteristicMetadataDao.Insert | app/src/main/java/com/calica/stupidble/data/database/CharacteristicMetadataDao.kt:38-39 | the new table and the returned id are those of `Inserted` |
| MetadataDao.CharacteristicMetadataDao.Update | app/src/main/java/com/calica/stupidble/data/database/CharacteristicMetadataDao.kt:41-42 | the new table is that of `Updated` |
| MetadataDao.CharacteristicMetadataDao.Delete | app/src/main/java/com/calica/stupidble/data/database/CharacteristicMetadataDao.kt:44-45 | the new table is that of `Deleted` |
| MetadataDao.CharacteristicMetadataDao.DeleteAllForDevice | app/src/main/java/com/calica/stupidble/data/database/CharacteristicMetadataDao.kt:47-48 | the new table is that of `DeletedForDevice` |
| MetadataRepository.LookupIsMembership | app/src/main/java/com/calica/stupidble/data/repository/MetadataRepository.kt:43 | with unique keys, the lookup returns a row exactly when it is in the table with that key |
| MetadataRepository.SaveOverwritesExisting | app/src/main/java/com/calica/stupidble/data/repository/MetadataRepository.kt:43-71 | saving a key that has a row overwrites that row in place: same id, same position, same `createdAt`, the given fields and time; the keys stay unique |
| MetadataRepository.SaveAppendsNew | app/src/main/java/com/calica/stupidble/data/repository/MetadataRepository.kt:56-71 | saving a new key appends one row under the next id, with both timestamps at the save time; the keys stay unique |
| MetadataRepository.SaveThenGet | app/src/main/java/com/calica/stupidble/data/repository/MetadataRepository.kt:31-72 | after a save, the lookup of the key returns the saved fields under the returned id |
| MetadataRepository.SaveKeepsOtherKeys | app/src/main/java/com/calica/stupidble/data/repository/MetadataRepository.kt:31-72 | a save leaves the lookup of every other key unchanged |
| MetadataRepository.DeletesKeepKeysUnique | app/src/main/java/com/calica/stupidble/data/repository/MetadataRepository.kt:74-80 | both deletes keep the keys unique |
| MetadataRepository.MetadataRepository.GetMetadataForDevice | app/src/main/java/com/calica/stupidble/data/repository/MetadataRepository.kt:11-13 | the device's rows and no others |
| MetadataRepository.MetadataRepository.GetMetadata | app/src/main/java/com/calica/stupidble/data/repository/MetadataRepository.kt:15-29 | null exactly when no row has the key; with unique keys, a row is returned exactly when it has the key |
| MetadataRepository.MetadataRepository.GetAllMetadata | app/src/main/java/com/calica/stupidble/data/repository/MetadataRepository.kt:82-84 | every row once, newest first |
| MetadataRepository.MetadataRepository.SaveMetadata | app/src/main/java/com/calica/stupidble/data/repository/MetadataRepository.kt:31-72 | the read-then-insert leaves the table and returns the id given by `Saved` |
| MetadataRepository.MetadataRepository.DeleteMetadata | app/src/main/java/com/calica/stupidble/data/repository/MetadataRepository.kt:74-76 | the new table is that of the store's delete |
| MetadataRepository.MetadataRepository.DeleteAllForDevice | app/src/main/java/com/calica/stupidble/data/repository/MetadataRepository.kt:78-80 | the new table is that of the store's `deleteAllForDevice` |
| Scanner.IndexOfAddress | app/src/main/java/com/calica/stupidble/ui/scanner/ScannerViewModel.kt:50 | `indexOfFirst`: the first entry with the address, or none |
| Scanner.KnownAddressIsReplaced | app/src/main/java/com/calica/stupidble/ui/scanner/ScannerViewModel.kt:49-52 | a device whose address is listed replaces that entry; the length and the other entries are unchanged |
| Scanner.NewAddressIsAppended | app/src/main/java/com/calica/stupidble/ui/scanner/ScannerViewModel.kt:53-55 | a device with a new address is appended |
| Scanner.UpdateKeepsAddressesDistinct | app/src/main/java/com/calica/stupidble/ui/scanner/ScannerViewModel.kt:48-59 | distinct addresses stay distinct, the device is listed, and the listed addresses are the old ones plus its own |
| Scanner.StartScanWhenOffSetsOnlyError | app/src/main/java/com/calica/stupidble/ui/scanner/ScannerViewModel.kt:30-33 | with Bluetooth off, only the error changes, to "Bluetooth is not enabled" |
| Scanner.StartScanKeepsDevices | app/src/main/java/com/calica/stupidble/ui/scanner/ScannerViewModel.kt:35-66 | otherwise scanning starts with no error and both jobs running, and the device list is kept |
| Scanner.StopScanIsIdempotent | app/src/main/java/com/calica/stupidble/ui/scanner/ScannerViewModel.kt:69-75 | `stopScan` ends scanning and both jobs, keeps devices and error, and a second call changes nothing |
| Scanner.ScanErrorMessage | app/src/main/java/com/calica/stupidble/ui/scanner/ScannerViewModel.kt:41-46 | a scan failure ends scanning with the exception's message, or "Scan failed" when it has none |
| Scanner.EveryEventKeepsInvariant | app/src/main/java/com/calica/stupidble/ui/scanner/ScannerViewModel.kt:29-80 | no operation or event ever lists an address twice |
| Scanner.ScannerViewModel.constructor | app/src/main/java/com/calica/stupidble/ui/scanner/ScannerViewModel.kt:16-27 | the initial state has no devices, is not scanning, has no error and runs no job |
| Scanner.ScannerViewModel.StartScan | app/src/main/java/com/calica/stupidble/ui/scanner/ScannerViewModel.kt:29-67 | the new state is `AfterStartScan` of the old one |
| Scanner.ScannerViewModel.StopScan | app/src/main/java/com/calica/stupidble/ui/scanner/ScannerViewModel.kt:69-75 | the new state is `AfterStopScan` of the old one |
| Scanner.ScannerViewModel.OnDeviceFound | app/src/main/java/com/calica/stupidble/ui/scanner/ScannerViewModel.kt:47-60 | the new state is `AfterDeviceFound` of the old one |
| Scanner.ScannerViewModel.OnScanError | app/src/main/java/com/calica/stupidble/ui/scanner/ScannerViewModel.kt:41-46 | the new state is `AfterScanError` of the old one |
| Scanner.ScannerViewModel.OnScanTimeout | app/src/main/java/com/calica/stupidble/ui/scanner/ScannerViewModel.kt:63-66 | the new state is `AfterTimeout` of the old one |
| Scanner.ScannerViewModel.OnCleared | app/src/main/java/com/calica/stupidble/ui/scanner/ScannerViewModel.kt:77-80 | clearing the view model stops the scan |
| DeviceDetail.FindMetadata | app/src/main/java/com/calica/stupidble/ui/devicedetail/DeviceDetailViewModel.kt:44-48 | `find` returns null exactly when no entry describes the characteristic, and otherwise the entry at the first position that does |
| DeviceDetail.FindAmongDeviceRowsIsLookup | app/src/main/java/com/calica/stupidble/ui/devicedetail/DeviceDetailViewModel.kt:36-48 | among one device's rows, matching service and characteristic alone finds the row the store keeps for the full key |
| DeviceDetail.LookupAfterEmission | app/src/main/java/com/calica/stupidble/ui/devicedetail/DeviceDetailViewModel.kt:30-48 | once the selected device's rows have been delivered, the screen's lookup agrees with the repository's lookup by key |
| DeviceDetail.DeviceDetailViewModel.constructor | app/src/main/java/com/calica/stupidble/ui/devicedetail/DeviceDetailViewModel.kt:21-25 | no device and no metadata at first |
| DeviceDetail.DeviceDetailViewModel.SetDevice | app/src/main/java/com/calica/stupidble/ui/devicedetail/DeviceDetailViewModel.kt:30-34 | the device is stored, the manager connects to its address, and a collector for its metadata starts |
| DeviceDetail.DeviceDetailViewModel.OnMetadataEmitted | app/src/main/java/com/calica/stupidble/ui/devicedetail/DeviceDetailViewModel.kt:36-42 | an emission sets the list to the collector's device's rows in the store |
| DeviceDetail.DeviceDetailViewModel.GetMetadataForCharacteristic | app/src/main/java/com/calica/stupidble/ui/devicedetail/DeviceDetailViewModel.kt:44-48 | the first collected entry describing the characteristic, or null exactly when none does |
| DeviceDetail.DeviceDetailViewModel.Disconnect | app/src/main/java/com/calica/stupidble/ui/devicedetail/DeviceDetailViewModel.kt:50-52 | the manager's new state is `AfterDisconnect` of its old one |
| DeviceDetail.DeviceDetailViewModel.OnCleared | app/src/main/java/com/calica/stupidble/ui/devicedetail/DeviceDetailViewModel.kt:54-57 | the manager's new state is `AfterDisconnect` of its old one |
| CharacteristicEdit.CharacteristicEditViewModel.constructor | app/src/main/java/com/calica/stupidble/ui/characteristicedit/CharacteristicEditViewModel.kt:18-28 | HEX_RAW, LITTLE_ENDIAN, not saving, not succeeded |
| CharacteristicEdit.CharacteristicEditViewModel.LoadMetadata | app/src/main/java/com/calica/stupidble/ui/characteristicedit/CharacteristicEditViewModel.kt:30-38 | both format fields take the stored values when the key has a row, and both stay otherwise |
| CharacteristicEdit.CharacteristicEditViewModel.SetDataType | app/src/main/java/com/calica/stupidble/ui/characteristicedit/CharacteristicEditViewModel.kt:40-42 | only the data type changes, to the given one |
| CharacteristicEdit.CharacteristicEditViewModel.SetEndianness | app/src/main/java/com/calica/stupidble/ui/characteristicedit/CharacteristicEditViewModel.kt:44-46 | only the byte order changes, to the given one |
| CharacteristicEdit.CharacteristicEditViewModel.SaveMetadata | app/src/main/java/com/calica/stupidble/ui/characteristicedit/CharacteristicEditViewModel.kt:48-67 | the saving flag is raised, then lowered; success is reported exactly when the store did not fail; on failure the table is unchanged, otherwise it is the repository's save of the current format |
| CharacteristicEdit.SaveFromEditScreen | app/src/main/java/com/calica/stupidble/ui/characteristicedit/CharacteristicEditViewModel.kt:53-59 | after a save from the edit screen the key's row has the edited format and no name, description, unit or bounds; the table stays valid with one row per key |

## Left out

- Connection.AfterConnect: `getRemoteDevice` rejects a string that is not a valid Bluetooth address, and the exception escapes `connect` and `setDevice` before CONNECTING is written. The model assumes every address is valid, because the app only connects to addresses taken from scan results. It does not model this failure path.
- The Android platform stack is not modelled: `BluetoothManager`, `connectGatt`, `discoverServices`, `readCharacteristic` and `close`. Its callbacks are event methods, and its answers to read requests are the oracle `accepts`.
- The SDK-version split between the two `onCharacteristicRead` overloads is not modelled. Both deliver the same completion, so the model has one event.
- The `status` of a state change other than the new state is not modelled, and neither are logging calls.
- `formatAsString` and `formatAsFloat` keep only what the codec does itself, the byte order and the width dispatch. UTF-8 decoding and `"%.6f"` rendering of IEEE 754 floats and doubles are opaque library functions, because floating point is outside the model.
- The `try`/`catch` in `formatAsInteger` and `formatAsFloat` is unreachable, because the widths are checked exactly. UTF-8 decoding in Kotlin does not throw. None of these paths is modelled.
- GattModels.HashCode: the Java hash values of strings, lists and array contents are abstract functions, so the model proves only that equal values hash equally.
- Coroutines, `StateFlow` emission timing and `viewModelScope` are not modelled. A Flow is the current snapshot, and asynchronous work is an event method.
- The 30-second scan delay is not modelled; the timeout job's expiry is the event `OnScanTimeout`.
- `DeviceDetailViewModel`'s `connectionState` and `services` are the manager's own fields, read directly from the manager.
- `MetadataRepository.MetadataRepository.GetMetadata` models both `getMetadata`, a Flow, and `getMetadataSync`, because a Flow is a snapshot here.
- The ViewModel factories, Compose screens, navigation, permissions, `BleRepository`'s scan `callbackFlow`, the `@Database` wiring and `DatabaseProvider` are not modelled. They are UI, reflection or platform plumbing.
- The record's timestamps are the parameter `now`; the wall clock is not modelled.
- Room's behaviour beyond one table is not modelled: schema migration, SQL text and concurrent writers are left out. A query without `ORDER BY` returns rows in rowid order.
