# CustomBLEServices in Dafny

This project models the core of CustomBLEServices, a set of C++ wrappers over
the NimBLE GATT server of ESP-IDF. The wrappers let application code declare
services and characteristics as objects with read and write callbacks. They
then project that object graph into the flat, end-marker-terminated
`ble_gatt_svc_def` / `ble_gatt_chr_def` / `ble_gatt_dsc_def` arrays that
NimBLE registers.

The model covers these parts, one Dafny module per source file:

- Characteristics answer reads and writes in `handle_access`.
  - `src/CustomBLE/Characteristic.cpp` is modelled by `CallbackCharacteristic`.
  - `src/Characteristic.cpp` is modelled by `ValueCharacteristic`.
  - `src/CustomBLECharacteristic.cpp` is modelled by `LegacyCharacteristic`.
- Their capability flags follow one rule, in `CapabilityFlags`.
- The callback factories live in `Callbacks`.
- Four characteristics managers rebuild the characteristic array:
  - `DescribedCharacteristics` adds the 0x2901 user description descriptor.
  - `SharedCharacteristics` models `src/CharacteristicsManager.cpp`.
  - `OwnedCharacteristics` models `src/CustomBLECharacteristicsManager.cpp`.
  - `LegacyCharacteristics` models `src/CustomBLEServiceCharacteristicsManager.cpp`.
- Two service classes:
  - `SharedService` (`get_svc_def`).
  - `OwnedService` (`get_svc_defs` returns a two-element array).
- Three service managers:
  - `SharedServiceManager` has one definition per service, registration, and the advertising data built in `AdvData`.
  - `OwnedServiceManager` and `LegacyServiceManager` each concatenate the services' arrays up to each type-0 element.
- `UuidText` models the text built by the `overview()` functions.

Shared NimBLE structures live in `Gatt`:

- The structs are datatypes.
- A null uuid pointer is `None`.
- A characteristic's `arg` is `Some(the characteristic object)`.
- Flags are a set of `Read`, `Write` and `Notify`.

Each class keeps the fields the C++ class updates. The arrays are `seq` fields that the rebuild loops reassign. Each rebuild method is proved against a specification function of the entries: `Rebuilt`, `ConcatUntilEnd` or `Payload`.

A write in `handle_access` is specified by `AccessSpec`:

- The packet bytes are copied into a buffer that is NUL-terminated.
- That buffer is read back as a C string, so the received value stops at the first 0 byte (`ReceivedValue`).

The transport is abstract:

- `appendOk` is whether `os_mbuf_append` succeeded.
- `flattenOk` is whether `ble_hs_mbuf_to_flat` succeeded.
- `payload` is the packet.
- The return codes of `ble_gatts_count_cfg` and `ble_gatts_add_svcs` are parameters.

The source files do not agree on every point, and the model follows each file as written:

- `src/CustomBLE/ServiceManager.cpp:26` constructs `Service(name, uuid)`. No `Service` constructor takes a name: `src/Service.cpp:5` and `src/CustomBLEService.cpp:6` both take the UUID alone, so the model drops the name.
- `src/CustomBLE/CharacteristicsManager.cpp:83` constructs a characteristic with a name. The constructor at `src/CustomBLE/Characteristic.cpp:32` takes none. `CallbackCharacteristic` therefore has a `name` constant, set by its constructor.
- `set_handle` (`src/CustomBLE/Characteristic.cpp:101`) may be called any number of times, so `SetHandle` has no precondition.
- `src/CharacteristicsManager.cpp:39` and `src/CustomBLE/CharacteristicsManager.cpp:66` store a null handle pointer (`valHandle == None`). `src/CustomBLECharacteristicsManager.cpp:16` and `src/CustomBLEServiceCharacteristicsManager.cpp:13` point it at the characteristic.

## Model

| member | source | states |
|---|---|---|
| Gatt.Terminated | src/CharacteristicsManager.cpp:64-73 | the rebuilt characteristic array is the stored definitions followed by exactly one null-uuid end marker; it has size()+1 elements, and only the last has a null uuid when the stored uuids are non-null |
| Gatt.UntilEnd | src/ServiceManager.cpp:59-61 | what the copy loop takes from one service array: a prefix of the array, none of whose elements has type 0, followed in the array by a type-0 element whenever it stops short of the end |
| Gatt.UntilEndAt | src/ServiceManager.cpp:59-61 | a copy that stops at index j, the first type-0 element, has copied exactly the first j elements |
| Gatt.ConcatUntilEnd | src/ServiceManager.cpp:56-62 | no element of the concatenated prefixes has type 0 |
| Gatt.ConcatOfPairs | src/ServiceManager.cpp:56-62 | when every array is [definition, end marker], the concatenation holds one definition per array, in array order |
| CapabilityFlags.InitialFlags | src/CustomBLE/Characteristic.cpp:38-48 | READ iff a read callback is given, WRITE iff a write callback is given, NOTIFY iff READ, and no other bit |
| CapabilityFlags.WidenForRead | src/CustomBLE/Characteristic.cpp:109-114 | binding a read callback sets READ, and NOTIFY if READ was unset; no bit is cleared; an unbound callback leaves the flags alone; well-formedness is kept |
| CapabilityFlags.WidenForWrite | src/CustomBLE/Characteristic.cpp:116-121 | binding a write callback sets WRITE; no bit is cleared and no other bit changes |
| CapabilityFlags.ReadBindingAdvertisesNotify | src/CustomBLE/Characteristic.cpp:109-114 | after a read callback is bound on well-formed flags, both READ and NOTIFY are set |
| CapabilityFlags.WideningLaw | src/CustomBLE/Characteristic.cpp:38-48 | widening a read-only characteristic for writing, or a write-only one for reading, yields the flags of one constructed with both callbacks |
| Callbacks.CallWrite | include/GenericBLECallbacks.hpp:14-33 | a pointer write copies the data into the object only when it has exactly sizeof(T) bytes; a string write assigns the data |
| Callbacks.MakePointerReadCallback | include/GenericBLECallbacks.hpp:7-12 | the callback depends on the pointed-to object and on nothing else |
| Callbacks.MakePointerWriteCallback | include/GenericBLECallbacks.hpp:14-23 | the callback changes the pointed-to object and nothing else |
| Callbacks.MakeFixedReadCallback | include/GenericBLECallbacks.hpp:26-28 | the callback captures the value by copy, touches no state, and returns that value |
| Callbacks.MakeFixedWriteCallback | include/GenericBLECallbacks.hpp:31-33 | the callback changes the referenced string and nothing else |
| Callbacks.PointerReadMirrorsObject | include/CustomBLE/Characteristic.hpp:44-49 | a pointer read returns sizeof(T) bytes, the object's current bytes |
| Callbacks.PointerWriteOnlyWholeObject | include/CustomBLE/Characteristic.hpp:51-58 | a pointer write of exactly sizeof(T) bytes stores them; any other size leaves the object unchanged; the object keeps its size |
| Callbacks.PointerRoundTrip | include/GenericBLECallbacks.hpp:7-23 | a sizeof(T)-byte write followed by a read of the same object returns the written bytes |
| Callbacks.FixedCallbacks | include/GenericBLECallbacks.hpp:26-33 | the fixed read callback keeps returning its captured copy after the source string changes; the fixed write callback sets the string to the data |
| UuidText.Hex2 | src/Characteristic.cpp:7-13 | "%02X" gives two characters per byte |
| UuidText.HexDigitRoundTrip | src/Characteristic.cpp:7-13 | each hex digit reads back as its value |
| UuidText.Hex2RoundTrip | src/Characteristic.cpp:7-13 | the two hex digits of a byte read back as that byte |
| UuidText.OrdersAreSelfInverse | src/CustomBLE/Characteristic.cpp:10-21 | the straight byte order and the field-swapped order of the UUID text are their own inverses |
| UuidText.FormatUuid | src/Characteristic.cpp:7-13 | the UUID text has 36 characters |
| UuidText.FormatHyphens | src/Characteristic.cpp:8 | the UUID text has hyphens at 8, 13, 18 and 23, and hex digits elsewhere |
| UuidText.FormatPair | src/Characteristic.cpp:8-13 | the k-th printed pair of digits is byte order[k] of the UUID |
| UuidText.UuidTextRoundTrip | src/CustomBLE/Characteristic.cpp:6-21 | parsing the UUID text with the order used to print it gives back the UUID, so the text identifies the UUID |
| UuidText.Chars | src/Characteristic.cpp:17 | appending a std::string adds one character per byte, each with that byte's code |
| UuidText.NatToString | src/CharacteristicsManager.cpp:18 | std::to_string of an index is a non-empty string of decimal digits |
| UuidText.NatToStringRoundTrip | src/CharacteristicsManager.cpp:18 | the decimal text reads back as the index, so distinct indices print differently |
| AccessSpec.ReceivedValue | src/CustomBLE/Characteristic.cpp:67-73 | the received string is the longest prefix of the packet without a 0 byte, and is followed in the packet by a 0 byte whenever it is shorter |
| AccessSpec.ReceivedWhole | src/CustomBLE/Characteristic.cpp:67-73 | a packet without 0 bytes is received whole |
| AccessSpec.ReceivedUpToFirstNul | src/CustomBLE/Characteristic.cpp:67-73 | a packet whose first 0 byte is at k is received as its first k bytes |
| AccessSpec.CallbackAccess | src/CustomBLE/Characteristic.cpp:51-85 | read: rc 0 iff the append succeeds, else BLE_ATT_ERR_INSUFFICIENT_RES; sends the read callback's result, or nothing without one. Write: rc 0; forwards the received string iff the packet is non-empty, flattened and a write callback is bound. Any other op: BLE_ATT_ERR_UNLIKELY |
| AccessSpec.DefaultValueAccess | src/Characteristic.cpp:49-85 | as above, but a read without a read callback sends the default value; the default value changes only on a received write without a write callback, and then becomes the received string |
| AccessSpec.DefaultValueRoundTrip | src/Characteristic.cpp:52-79 | without callbacks, a successful write of a text value followed by a read sends that value with rc 0 |
| AccessSpec.FamiliesAgree | src/Characteristic.cpp:49-85 | the default-value and callback variants return the same outcome wherever no default value is involved |
| AccessSpec.BinaryValueWithZeroByteIsCut | src/CustomBLE/Characteristic.cpp:69-75 | the packet 01 00 00 00 reaches the write callback as the single byte 01 |
| AccessSpec.WholeValueAccess | src/Characteristic.cpp:63-81 | corrected write path: a received packet is forwarded or stored whole; everything else is as written |
| AccessSpec.WholeValueAgreesOnText | src/Characteristic.cpp:67-76 | the corrected access equals the written one on every packet without 0 bytes |
| AccessSpec.WholeValueForwardsEveryObject | include/CustomBLE/Characteristic.hpp:51-58 | with the corrected access, every non-empty sizeof(T)-byte packet reaches the write callback with all sizeof(T) bytes |
| CallbackCharacteristic.Characteristic.constructor | src/CustomBLE/Characteristic.cpp:32-49 | handle 0, the callbacks given, flags InitialFlags |
| CallbackCharacteristic.Characteristic.HandleAccess | src/CustomBLE/Characteristic.cpp:51-85 | the outcome is CallbackAccess of the state before the call; a forwarded string is applied by the write callback; otherwise nothing changes; handle, flags and callbacks never change |
| CallbackCharacteristic.Characteristic.SetHandle | src/CustomBLE/Characteristic.cpp:101-103 | the handle becomes the argument; nothing else changes |
| CallbackCharacteristic.Characteristic.GetHandle | src/CustomBLE/Characteristic.cpp:105-107 | returns the handle last set, 0 before any set |
| CallbackCharacteristic.Characteristic.SetReadCallback | src/CustomBLE/Characteristic.cpp:109-114 | the read callback is replaced; the flags become WidenForRead of the old flags; the invariant is kept |
| CallbackCharacteristic.Characteristic.SetWriteCallback | src/CustomBLE/Characteristic.cpp:116-121 | the write callback is replaced; the flags become WidenForWrite of the old flags |
| CallbackCharacteristic.Characteristic.OverviewNamesUuid | src/CustomBLE/Characteristic.cpp:6-26 | the overview is 58 characters: the prefix, a 36-character UUID text that parses back to the UUID in the field-swapped order, and a newline |
| ValueCharacteristic.Characteristic.constructor | src/Characteristic.cpp:29-47 | handle 0, the default value is the initial value, the callbacks given, flags InitialFlags |
| ValueCharacteristic.Characteristic.Moved | src/Service.cpp:18-20 | a moved-into characteristic has the source's uuid, handle, callbacks, default value and flags |
| ValueCharacteristic.Characteristic.HandleAccess | src/Characteristic.cpp:49-85 | the outcome and the new default value are DefaultValueAccess of the old state; handle, flags and callbacks never change; a forwarded string is applied by the write callback |
| ValueCharacteristic.Characteristic.SetHandle | src/Characteristic.cpp:101-103 | the handle becomes the argument; nothing else changes |
| ValueCharacteristic.Characteristic.GetHandle | src/Characteristic.cpp:105-107 | returns the handle |
| ValueCharacteristic.Characteristic.SetReadCallback | src/Characteristic.cpp:109-114 | the read callback is replaced and the flags widened by WidenForRead |
| ValueCharacteristic.Characteristic.SetWriteCallback | src/Characteristic.cpp:116-121 | the write callback is replaced and the flags widened by WidenForWrite |
| ValueCharacteristic.Characteristic.OverviewShowsUuidAndValue | src/Characteristic.cpp:5-20 | the overview is 66+len(value) characters: the prefix, a UUID text that parses back to the UUID in byte order, "\nValue: ", the default value and a newline |
| ValueCharacteristic.FromPointerReadOnly | include/CustomBLE/Characteristic.hpp:61-65 | a pointer read callback, no write callback, an empty default value, flags READ and NOTIFY |
| ValueCharacteristic.FromPointerReadWrite | include/CustomBLE/Characteristic.hpp:67-72 | pointer read and write callbacks over the same object, flags READ, WRITE and NOTIFY |
| ValueCharacteristic.FromPointerWriteOnly | include/CustomBLE/Characteristic.hpp:74-78 | a pointer write callback only, flags WRITE |
| ValueCharacteristic.FromFixedValue | include/CustomBLE/Characteristic.hpp:80-84 | reads return the value, which is also the default value; flags READ and NOTIFY |
| ValueCharacteristic.WriteThenRead | src/Characteristic.cpp:55-76 | without callbacks, a written text value becomes the default value, and the next read returns it |
| ValueCharacteristic.PointerWriteThroughAccess | src/Characteristic.cpp:63-81 | through handle_access, a pointer-backed object changes only when the packet's bytes before the first 0 byte number exactly sizeof(T) |
| ValueCharacteristic.Uint32OneIsDropped | src/Characteristic.cpp:67-73 | the uint32 value 1, written as 01 00 00 00, leaves a zero uint32 unchanged |
| LegacyCharacteristic.CustomBLECharacteristic.constructor | src/CustomBLECharacteristic.cpp:5-23 | handle 0, default value, callbacks, flags InitialFlags |
| LegacyCharacteristic.CustomBLECharacteristic.HandleAccess | src/CustomBLECharacteristic.cpp:25-61 | the outcome and the new default value are DefaultValueAccess of the old state |
| LegacyCharacteristic.CustomBLECharacteristic.SetHandle | src/CustomBLECharacteristic.cpp:77-79 | the handle becomes the argument |
| LegacyCharacteristic.CustomBLECharacteristic.GetHandle | src/CustomBLECharacteristic.cpp:81-83 | returns the handle |
| LegacyCharacteristic.CustomBLECharacteristic.SetReadCallback | src/CustomBLECharacteristic.cpp:85-90 | the read callback is replaced and the flags widened by WidenForRead |
| LegacyCharacteristic.CustomBLECharacteristic.SetWriteCallback | src/CustomBLECharacteristic.cpp:92-97 | the write callback is replaced and the flags widened by WidenForWrite |
| LegacyCharacteristic.WriteThenRead | src/CustomBLECharacteristic.cpp:28-57 | without callbacks, a written text value is read back |
| DescribedCharacteristics.UserDescriptionAccess | src/CustomBLE/CharacteristicsManager.cpp:47-51 | the descriptor sends the whole name, with rc 0 iff the append succeeds |
| DescribedCharacteristics.Rebuilt | src/CustomBLE/CharacteristicsManager.cpp:97-111 | size()+1 elements: each entry's definition with its descriptor pointer refreshed, in insertion order, then the end marker |
| DescribedCharacteristics.LineTexts | src/CustomBLE/CharacteristicsManager.cpp:8-28 | one overview line per entry, the k-th numbered first+k |
| DescribedCharacteristics.RebuiltHoldsCapturedDefs | src/CustomBLE/CharacteristicsManager.cpp:97-111 | refreshing changes no well-formed definition, and the array is end-terminated |
| DescribedCharacteristics.LinesSplit | src/CustomBLE/CharacteristicsManager.cpp:5-30 | the overview lines of a + b are those of a, then those of b numbered on from size(a) |
| DescribedCharacteristics.LinesStep | src/CustomBLE/CharacteristicsManager.cpp:8-28 | appending one entry's line extends the overview by one entry |
| DescribedCharacteristics.CharacteristicsManager.constructor | include/CustomBLE/CharacteristicsManager.hpp:17-18 | no entries, no array |
| DescribedCharacteristics.CharacteristicsManager.AddCharacteristic | src/CustomBLE/CharacteristicsManager.cpp:36-71 | appends one entry for the characteristic, with [user description, end marker] when it has a non-empty name and no descriptors otherwise; captures its flags; the array becomes Rebuilt(entries) |
| DescribedCharacteristics.CharacteristicsManager.EmplaceCharacteristic | src/CustomBLE/CharacteristicsManager.cpp:73-86 | constructs a characteristic with the name, uuid and callbacks, and returns the object that became the last entry |
| DescribedCharacteristics.CharacteristicsManager.GetChrDefs | src/CustomBLE/CharacteristicsManager.cpp:88-91 | rebuilds, then returns Rebuilt(entries) |
| DescribedCharacteristics.CharacteristicsManager.Size | src/CustomBLE/CharacteristicsManager.cpp:93-95 | the number of entries, one less than the array length |
| DescribedCharacteristics.CharacteristicsManager.UpdateChrDefs | src/CustomBLE/CharacteristicsManager.cpp:97-111 | the loop leaves the array equal to Rebuilt(entries) |
| DescribedCharacteristics.CharacteristicsManager.Overview | src/CustomBLE/CharacteristicsManager.cpp:5-30 | the header, then one line per entry in order, showing the index, the quoted name if any, and the UUID text |
| DescribedCharacteristics.FlagsAreCapturedAtAdd | src/CustomBLE/CharacteristicsManager.cpp:59-68 | flags widened after add_characteristic do not reach the array, which keeps the flags captured at add time |
| SharedCharacteristics.StoredDefs | src/CharacteristicsManager.cpp:66-68 | the stored definitions in insertion order |
| SharedCharacteristics.Rebuilt | src/CharacteristicsManager.cpp:64-73 | size()+1 elements: the definitions in insertion order, then the end marker; end-terminated for well-formed entries |
| SharedCharacteristics.LineTexts | src/CharacteristicsManager.cpp:8-21 | one overview line per entry, the k-th numbered first+k |
| SharedCharacteristics.LinesSplit | src/CharacteristicsManager.cpp:5-23 | the overview lines split over any prefix, numbered consecutively |
| SharedCharacteristics.LinesStep | src/CharacteristicsManager.cpp:8-21 | appending one entry's line extends the overview by one entry |
| SharedCharacteristics.CharacteristicsManager.constructor | include/CustomBLE/CharacteristicsManager.hpp:17-18 | no entries, no array |
| SharedCharacteristics.CharacteristicsManager.AddCharacteristic | src/CharacteristicsManager.cpp:29-44 | appends one well-formed entry: the uuid, the dispatcher, arg the characteristic, no descriptors, the captured flags, min_key_size 0, a null handle pointer; the array is rebuilt |
| SharedCharacteristics.CharacteristicsManager.EmplaceCharacteristic | src/CharacteristicsManager.cpp:46-53 | constructs a characteristic and returns the object that became the last entry |
| SharedCharacteristics.CharacteristicsManager.GetChrDefs | src/CharacteristicsManager.cpp:55-58 | rebuilds, then returns Rebuilt(entries) |
| SharedCharacteristics.CharacteristicsManager.Size | src/CharacteristicsManager.cpp:60-62 | the number of entries |
| SharedCharacteristics.CharacteristicsManager.UpdateChrDefs | src/CharacteristicsManager.cpp:64-73 | the loop leaves the array equal to Rebuilt(entries) |
| SharedCharacteristics.CharacteristicsManager.Overview | src/CharacteristicsManager.cpp:5-23 | the header, then one line per entry in order, with index and UUID text |
| OwnedCharacteristics.StoredDefs | src/CustomBLECharacteristicsManager.cpp:43-46 | the stored definitions in insertion order |
| OwnedCharacteristics.Rebuilt | src/CustomBLECharacteristicsManager.cpp:42-51 | size()+1 elements, ending in the end marker; end-terminated for well-formed entries |
| OwnedCharacteristics.CharacteristicsManager.constructor | include/CustomBLECharacteristicsManager.hpp:18-19 | no entries, no array |
| OwnedCharacteristics.CharacteristicsManager.AddCharacteristic | src/CustomBLECharacteristicsManager.cpp:6-21 | appends one entry whose handle pointer refers to the characteristic; the array is rebuilt |
| OwnedCharacteristics.CharacteristicsManager.EmplaceCharacteristic | src/CustomBLECharacteristicsManager.cpp:23-31 | constructs a characteristic and returns the object that became the last entry |
| OwnedCharacteristics.CharacteristicsManager.GetChrDefs | src/CustomBLECharacteristicsManager.cpp:33-36 | rebuilds, then returns Rebuilt(entries) |
| OwnedCharacteristics.CharacteristicsManager.Size | src/CustomBLECharacteristicsManager.cpp:38-40 | the number of entries |
| OwnedCharacteristics.CharacteristicsManager.UpdateChrDefs | src/CustomBLECharacteristicsManager.cpp:42-51 | the loop leaves the array equal to Rebuilt(entries) |
| LegacyCharacteristics.StoredDefs | src/CustomBLEServiceCharacteristicsManager.cpp:31-33 | the stored definitions in insertion order |
| LegacyCharacteristics.Rebuilt | src/CustomBLEServiceCharacteristicsManager.cpp:29-38 | size()+1 elements, ending in the end marker; end-terminated for well-formed entries |
| LegacyCharacteristics.CustomBLECharacteristicsManager.constructor | include/CustomBLEServiceCharacteristicsManager.hpp:18-19 | no entries, no array |
| LegacyCharacteristics.CustomBLECharacteristicsManager.AddCharacteristic | src/CustomBLEServiceCharacteristicsManager.cpp:3-18 | appends one entry with null descriptors, min_key_size 0, and the handle pointer at the characteristic; the array is rebuilt |
| LegacyCharacteristics.CustomBLECharacteristicsManager.GetChrDefs | src/CustomBLEServiceCharacteristicsManager.cpp:20-23 | rebuilds, then returns Rebuilt(entries) |
| LegacyCharacteristics.CustomBLECharacteristicsManager.Size | src/CustomBLEServiceCharacteristicsManager.cpp:25-27 | the number of entries |
| LegacyCharacteristics.CustomBLECharacteristicsManager.UpdateChrDefs | src/CustomBLEServiceCharacteristicsManager.cpp:29-38 | the loop leaves the array equal to Rebuilt(entries) |
| SharedService.Service.constructor | src/Service.cpp:5-12 | a primary service definition with the service's UUID, no includes and no characteristics |
| SharedService.Service.AddCharacteristic | src/Service.cpp:14-16 | the manager gains exactly one entry, the characteristic |
| SharedService.Service.AddMovedCharacteristic | src/Service.cpp:18-20 | the manager gains one entry, a fresh characteristic with the moved one's state; it keeps the invariant, and its handle is the moved one's |
| SharedService.Service.EmplaceCharacteristic | src/Service.cpp:65-70 | the manager gains one entry, the constructed characteristic; it keeps the invariant, has handle 0 and carries the given UUID, initial value and callbacks |
| SharedService.Service.GetSvcDef | src/Service.cpp:22-25 | the definition's characteristics become the manager's rebuilt array; the result is Published() |
| SharedService.Service.Overview | src/Service.cpp:31-59 | the service UUID text, "Characteristics:", then one line per characteristic in order |
| SharedService.PublishedListsCharacteristics | src/Service.cpp:22-25 | the published definition is primary, carries the service UUID and an end-terminated array holding each characteristic in order |
| OwnedService.Service.constructor | src/CustomBLEService.cpp:6-14 | a primary definition with the service UUID, null includes and null characteristics; an empty array |
| OwnedService.Service.AddCharacteristic | src/CustomBLEService.cpp:16-18 | the manager gains exactly one entry, the characteristic |
| OwnedService.Service.EmplaceCharacteristic | src/CustomBLEService.cpp:35-40 | the manager gains one entry, the constructed characteristic; it keeps the invariant, has handle 0 and carries the given UUID, initial value and callbacks |
| OwnedService.Service.GetSvcDefs | src/CustomBLEService.cpp:20-29 | the array is exactly [Published(), end marker], whatever was there before, so repeated calls do not accumulate |
| OwnedService.PublishedPairShape | src/CustomBLEService.cpp:20-29 | the pair's pre-end-marker prefix is the definition alone |
| OwnedServiceManager.AppendUntilEnd | src/ServiceManager.cpp:59-61 | the inner loop appends exactly the elements before the first type-0 element; the array must contain one |
| OwnedServiceManager.Handed | src/ServiceManager.cpp:56-57 | each service hands out [its definition, end marker], in service order |
| OwnedServiceManager.PairsConcatenated | src/ServiceManager.cpp:54-67 | one definition per service plus an end marker is the concatenation of the services' prefixes plus an end marker, and is correctly terminated |
| OwnedServiceManager.PrefixStep | src/ServiceManager.cpp:56-61 | one pass of the outer loop over a [definition, end marker] array appends exactly that definition after the ones already copied |
| OwnedServiceManager.ServiceManager.constructor | include/CustomBLEServiceManager.hpp:12-13 | no services, no array; the footprint is empty |
| OwnedServiceManager.ServiceManager.AddService | src/ServiceManager.cpp:40-43 | the service is appended, and the array is rebuilt over all services; the footprint grows by the service and its characteristics manager |
| OwnedServiceManager.ServiceManager.EmplaceService | src/ServiceManager.cpp:1-6 | a fresh service with the UUID is appended and returned; the earlier services' characteristics are unchanged; the service and its characteristics manager are fresh and join the footprint |
| OwnedServiceManager.ServiceManager.GetSvcDefs | src/ServiceManager.cpp:45-48 | rebuilds before returning, so the array reflects every service added; the footprint (`Repr`, the services and their characteristics managers) is unchanged |
| OwnedServiceManager.ServiceManager.Size | src/ServiceManager.cpp:50-52 | the number of services |
| OwnedServiceManager.ServiceManager.UpdateSvcDefs | src/ServiceManager.cpp:54-67 | the array is the concatenation of the services' pre-end-marker prefixes followed by one end marker: one definition per service, in order; only the last element has type 0; the footprint (`Repr`, the services and their characteristics managers) is unchanged |
| OwnedServiceManager.ServiceManager.CollectDefinitions | src/ServiceManager.cpp:56-62 | the outer loop copies one definition per service, each the one the service publishes, in service order, and changes no characteristics |
| OwnedServiceManager.ServiceManager.FetchArray | src/ServiceManager.cpp:57 | a service hands out [its definition, end marker] and changes no characteristics |
| OwnedServiceManager.ServiceManager.AddServicesToNimble | src/ServiceManager.cpp:11-24 | returns the count rc if non-zero, without calling add; otherwise returns the add rc; 0 only if both are 0; registers the rebuilt array; no service's characteristics change; the footprint (`Repr`, the services and their characteristics managers) is unchanged |
| LegacyServiceManager.CustomBLEServiceManager.constructor | include/CustomBLEServiceManager.hpp:12-13 | no services, no array; the footprint is empty |
| LegacyServiceManager.CustomBLEServiceManager.AddService | src/CustomBLEServiceManager.cpp:3-6 | the service is appended, and the array is rebuilt; the footprint grows by the service and its characteristics manager |
| LegacyServiceManager.CustomBLEServiceManager.GetSvcDefs | src/CustomBLEServiceManager.cpp:8-11 | rebuilds before returning; the footprint (`Repr`, the services and their characteristics managers) is unchanged |
| LegacyServiceManager.CustomBLEServiceManager.Size | src/CustomBLEServiceManager.cpp:13-15 | the number of services |
| LegacyServiceManager.CustomBLEServiceManager.UpdateSvcDefs | src/CustomBLEServiceManager.cpp:17-30 | the concatenation of the prefixes plus one end marker; only the last element has type 0; the footprint (`Repr`, the services and their characteristics managers) is unchanged |
| LegacyServiceManager.CustomBLEServiceManager.CollectDefinitions | src/CustomBLEServiceManager.cpp:19-25 | the outer loop copies one definition per service, in service order, and changes no characteristics |
| LegacyServiceManager.CustomBLEServiceManager.FetchArray | src/CustomBLEServiceManager.cpp:20 | a service hands out [its definition, end marker] |
| SharedServiceManager.RegistrationRc | src/CustomBLE/ServiceManager.cpp:6-19 | 0 iff both calls return 0; the count rc when it is non-zero, otherwise the add rc |
| SharedServiceManager.UuidsOf | src/CustomBLE/ServiceManager.cpp:76-82 | one UUID per service, in service order |
| SharedServiceManager.Definitions | src/CustomBLE/ServiceManager.cpp:63-65 | one get_svc_def() result per service, in service order |
| SharedServiceManager.BuildUuidList | src/CustomBLE/ServiceManager.cpp:89-104 | the pushed bytes are exactly Payload(UUIDs): the clamped length byte, 0x07, then each UUID's 16 bytes in order |
| SharedServiceManager.ConnConfig.constructor | src/CustomBLE/ServiceManager.cpp:108-111 | null data pointers and zero lengths |
| SharedServiceManager.ServiceManager.constructor | include/CustomBLE/ServiceManager.hpp:13-14 | no services, no array, no advertising data; the footprint is empty |
| SharedServiceManager.ServiceManager.AddService | src/CustomBLE/ServiceManager.cpp:46-49 | the service is appended, and the array holds each service's definition, then the end marker; the advertising data is unchanged; the footprint grows by the service and its characteristics manager |
| SharedServiceManager.ServiceManager.EmplaceService | src/CustomBLE/ServiceManager.cpp:21-29 | a fresh service is appended and returned; the earlier services' characteristics and the advertising data are unchanged; the service and its characteristics manager are fresh and join the footprint |
| SharedServiceManager.ServiceManager.GetSvcDefs | src/CustomBLE/ServiceManager.cpp:51-54 | size()+1 elements: each service's get_svc_def() in order, then a type-0 end marker; the advertising data is unchanged; the footprint (`Repr`, the services and their characteristics managers) is unchanged |
| SharedServiceManager.ServiceManager.Size | src/CustomBLE/ServiceManager.cpp:56-58 | the number of services |
| SharedServiceManager.ServiceManager.UpdateSvcDefs | src/CustomBLE/ServiceManager.cpp:60-70 | the loop leaves the array as each service's definition in order, then the end marker, with the characteristics unchanged; the footprint (`Repr`, the services and their characteristics managers) is unchanged |
| SharedServiceManager.ServiceManager.AddServicesToNimble | src/CustomBLE/ServiceManager.cpp:6-19 | the rc is RegistrationRc; add is called iff counting succeeded; the registered array is the rebuilt one; no service's characteristics change, nor does the advertising data; the footprint (`Repr`, the services and their characteristics managers) is unchanged |
| SharedServiceManager.ServiceManager.PopulateAdvData | src/CustomBLE/ServiceManager.cpp:72-112 | with no services, the advertising data is empty and the periodic fields are null and 0, with the extended fields untouched; otherwise the data is Payload(UUIDs), and both field pairs point at it with its length; the services, their footprint and the manager's invariant are kept, so services can still be added afterwards |
| AdvData.Flatten | src/CustomBLE/ServiceManager.cpp:99-104 | 16 bytes per UUID |
| AdvData.FlattenAt | src/CustomBLE/ServiceManager.cpp:99-104 | byte j of the k-th UUID is at offset 16k+j |
| AdvData.Payload | src/CustomBLE/ServiceManager.cpp:89-104 | 2+16n bytes: the length byte 1+16n, clamped to 0xFF; then 0x07; then the UUID bytes in service order |
| AdvData.PayloadRoundTrip | src/CustomBLE/ServiceManager.cpp:89-104 | for 1 to 15 services, a receiver decodes exactly the services' UUIDs |
| AdvData.SaturatedPayloadIsMalformed | src/CustomBLE/ServiceManager.cpp:90-94 | from 16 services on, the length byte is 0xFF while the structure is longer, and the list no longer decodes |
| AdvData.BoundedPayload | src/CustomBLE/ServiceManager.cpp:89-104 | corrected payload: the same as Payload for up to 15 UUIDs, and never longer than one AD structure |
| AdvData.BoundedPayloadRoundTrip | src/CustomBLE/ServiceManager.cpp:89-104 | the corrected payload always decodes, to the UUIDs it kept |

## Left out

- The NimBLE transport is abstract.
  - `os_mbuf_append`, `ble_hs_mbuf_to_flat` and `OS_MBUF_PKTLEN` are an append flag, a flatten flag and the packet bytes.
  - The `uint16_t` width of `om_len` is not modelled: a packet is any byte sequence.
- `ble_gatts_count_cfg` and `ble_gatts_add_svcs` are the return codes they give. What the host does with the array is not modelled.
- Logging (`ESP_LOGI`, `ESP_LOGE`) and every `print()` are output only.
- `conn_handle` and `attr_handle` only feed logging, so `HandleAccess` does not take them.
- Raw pointers are object references or `Option` values.
  - A characteristic's `arg` is the characteristic.
  - The handle pointer is `Some(c)`.
  - The descriptor name pointer is the name's bytes.
  - `std::vector` storage moves and pointer lifetimes are not modelled.
  - `get_uuid`, `get_flags`, `get_entries` and `get_characteristics_manager` are reads of the modelled fields.
- `gatt_access_callback` is the `GattAccessCallback` tag in a definition. Its cast of `arg` back to the characteristic is the `HandleAccess` method of that object.
- Callbacks are limited to the closures the library builds: the pointer and fixed-value factories. An arbitrary application `std::function` is not modelled.
- Capability flags are a set of `Read`, `Write` and `Notify`, not a `uint16_t` bit mask. Only these three bits are ever set.
- The `cpfd` field is always null, and is not part of the definitions.
- Two overviews are not modelled because they only concatenate overviews that are: `ServiceManager::overview` in `src/CustomBLE/ServiceManager.cpp` and `src/ServiceManager.cpp`.
- `emplace_service(name, uuid)` in `src/CustomBLE/ServiceManager.cpp` drops the name. The `Service` constructor takes none.
- `ToBinaryString` in `include/CustomBLE/DataConversion.hpp` is not part of this model. It reinterprets the raw memory of an arbitrary type.
- `generate_bluetooth_uuid.py` is not part of this model. It prints random UUIDs.
- The characteristic classes keep the NUL-truncating write path as written. `AccessSpec.WholeValueAccess` is the corrected specification, proved beside it rather than wired into the classes.
- The service managers keep the clamped length byte as written. `AdvData.BoundedPayload` is the corrected specification, proved beside it.
- `LegacyServiceManager.CustomBLEServiceManager` repeats the methods of `OwnedServiceManager.ServiceManager`, because `src/CustomBLEServiceManager.cpp` repeats the code of `src/ServiceManager.cpp`. It shares that module's specification functions.
- `LegacyServiceManager.CustomBLEServiceManager` holds `OwnedService.Service` values, not the `CustomBLEService` of `include/CustomBLEService.hpp:10-15`. That class is only declared: no source file implements it, so there is no code for how it fills its definition from its `CustomBLECharacteristicsManager`. As a consequence, `LegacyCharacteristics` is modelled on its own and no service of the model reaches it.

## Findings

| source | as written | input that shows it | evidently intended | confidence | as-written member | corrected member |
|---|---|---|---|---|---|---|
| src/Characteristic.cpp:67-73 | a written packet is copied into a NUL-terminated buffer and read back as a C string, so it stops at its first 0 byte | the pointer write callback of a `uint32_t` receives 01 00 00 00, the value 1 | the pointer factories of include/CustomBLE/Characteristic.hpp:51-58 store binary objects, so the write should pass all `om_len` bytes | not executed | ValueCharacteristic.Uint32OneIsDropped | AccessSpec.WholeValueForwardsEveryObject |
| src/CustomBLE/ServiceManager.cpp:90-94 | the length byte is clamped to 0xFF, but all 16n UUID bytes are still appended | 16 services: the length byte is 0xFF, but the structure holds 1+256 bytes | one AD structure must hold no more than its length byte covers, so the list should be cut to 15 UUIDs | not executed | AdvData.SaturatedPayloadIsMalformed | AdvData.BoundedPayloadRoundTrip |
