# USB device emulation layer of shadPS4 (`Libraries::Usbd`), modelled in Dafny

shadPS4 gives PlayStation 4 programs the `sceUsbd*` API, a thin layer over
libusb. Behind it sit:

- a **descriptor tree** (`UsbDescriptorNode`): one USB descriptor plus its
  ordered children. It has a recursive size and a bounded pre-order
  serialiser, `write_data`. Its wire form is the descriptor chain of
  section 9.5 of the USB 2.0 specification.
- **devices** (`UsbDevice`): a *passthrough* device backed by real
  hardware, or an *emulated* one.
  - An emulated device answers the standard requests of section 9.4 of
    USB 2.0 from its tree and a string table: GET_STATUS, GET_DESCRIPTOR,
    GET_CONFIGURATION, SET_CONFIGURATION and SET_INTERFACE.
  - A passthrough device parses the configuration descriptors its hardware
    returns into flat children of one configuration node.
- the **USB manager** (`UsbHandler`):
  - a pool of 0x44 transfer slots with busy flags and a cyclic allocator;
  - a queue of emulated ("fake") transfers, which `operate` completes once
    they are due;
  - the completion of transfers that come back from libusb;
  - the virtual bus: the connected and opened device lists, and the
    enumeration records handed to the guest.
- the **guest entry points**: translation of libusb error codes into SCE
  codes, null guards, and post-processing of return values.

The project has six modules, one per file:

| file | module | models |
|---|---|---|
| `bytes.dfy` | `Bytes` | fixed-width integers, little-endian helpers, `Option` |
| `descriptor_tree.dfy` | `DescriptorTree` | `UsbDescriptorNode`, its wire form and `write_data` into an `array` |
| `utf16.dfy` | `Utf16` | the UTF-16LE encoding of string descriptors |
| `usb_device.dfy` | `UsbDevices` | `UsbTransfer`, the configuration parser and `class UsbDevice` |
| `usbd_impl.dfy` | `UsbdImpl` | `class UsbHandler` over an `array<Transfer>`, plus the value-level specifications of its queue, allocator and device lists |
| `usbd.dfy` | `Usbd` | `LibusbErrToOrbis` and the `sceUsbd*` wrappers |

Imperative code stays imperative:
- `write_data`, `get_size`, the parse loop, the allocator's do-while, the
  fake-transfer sweep, `transfer_complete`, device (dis)connection and
  enumeration are methods with loops.
- Each method is proved against a function on values: `Serialize`, `Size`,
  `ParsedConfiguration`, `Pending`/`SweptAll`, `FirstFreeAt`, `RemoveFirst`,
  `RemoveEach` and `Enumerated`.
- Lemmas state the properties of those functions: prefix, round trip,
  membership, order, multiset and uniqueness.

The host library becomes input records:
- the `libusb_transfer` a completion reports;
- the bytes and size a configuration fetch returns;
- what opening real hardware returns;
- what `libusb_kernel_driver_active` answers.

Guest results are 32-bit words. SCE error codes have the top bit set, so
`sceUsbd*` results are given as unsigned 32-bit patterns.

## Model

| member | source | states |
|---|---|---|
| `DescriptorTree.EmptyNode` | src/core/libraries/usbd/usb_device.h:110-124 | a default-constructed node (length 0, zero payload, no children) serialises to nothing and has size 0 |
| `DescriptorTree.SizeIsSerializedLength` | src/core/libraries/usbd/usb_device.h:140-146 | `get_size` of a tree is exactly the length of its full pre-order wire form |
| `DescriptorTree.GetSize` | src/core/libraries/usbd/usb_device.h:140-146 | the loop returns `bLength` plus the children's sizes in order, i.e. `Size(n)` |
| `DescriptorTree.WrittenIsPrefix` | src/core/libraries/usbd/usb_device.h:149-156 | after visiting any number of children, the bytes written are a prefix of the wire form, followed by the remaining children's wire forms |
| `DescriptorTree.WriteData` | src/core/libraries/usbd/usb_device.h:148-158 | `write_data` returns `min(max_size, get_size())`; it writes exactly that prefix of the pre-order wire form at the offset and leaves every other byte of the buffer unchanged, so nothing lands at or past `max_size` |
| `DescriptorTree.WriteChild` | src/core/libraries/usbd/usb_device.h:151-156 | one loop turn while budget remains: the child's truncated wire form extends the written prefix by `min(remaining, child size)` bytes |
| `DescriptorTree.FinishWrite` | src/core/libraries/usbd/usb_device.h:152-157 | once all children are visited, or the budget is exhausted (the `break`), the total equals `min(max_size, get_size())` and the bytes are the prefix of the wire form |
| `DescriptorTree.Typed` | src/core/libraries/usbd/usb_device.h:125-129 | the typed constructor sets `bLength = sizeof(T) + 2`, stores the struct bytes as payload, and serialises to `[bLength, type] + bytes` with no children |
| `DescriptorTree.FromRaw` | src/core/libraries/usbd/usb_device.h:130-133 | the raw constructor keeps the given `bLength` and type and copies exactly `bLength - 2` payload bytes; it needs `bLength >= 2` |
| `DescriptorTree.FromRawSerialize` | src/core/libraries/usbd/usb_device.h:130-133 | a raw node's own bytes, and its whole wire form, are its header followed by the `bLength - 2` copied bytes |
| `DescriptorTree.AddNode` | src/core/libraries/usbd/usb_device.h:135-138 | `add_node` appends exactly one child at the end, keeps the header, payload and earlier children, and the returned child is the new last one |
| `DescriptorTree.AddNodeSerialize` | src/core/libraries/usbd/usb_device.h:135-146 | after `add_node` the wire form is the old one followed by the child's, and the size grows by the child's size |
| `DescriptorTree.EncodeDevice` | src/core/libraries/usbd/usb_device.h:22-35 | the 16-byte little-endian layout of `UsbDeviceDescriptor` decodes back to the same fields |
| `DescriptorTree.DeviceNode` | src/core/libraries/usbd/usb_device.h:125-129 | a device node built by the typed constructor has `bLength` 18 and type DEVICE, and its wire form is `[18, 1]` plus the 16 descriptor bytes, readable back |
| `UsbDevices.NewTransfer` | src/core/libraries/usbd/usb_device.h:86-106 | a fresh `UsbTransfer` is idle: not busy, not fake, no control destination, result and count 0 |
| `UsbDevices.UsbDevice.EmulatedAt` | src/core/libraries/usbd/usb_device.cpp:176 | the location-only emulated device keeps a default node (length 0), no strings, configuration 1, interface 0 |
| `UsbDevices.UsbDevice.EmulatedFrom` | src/core/libraries/usbd/usb_device.cpp:178-182 | an emulated device built from a descriptor has the 18-byte device node, configuration 1, interface 0 |
| `UsbDevices.UsbDevice.PassthroughFrom` | src/core/libraries/usbd/usb_device.cpp:48-57 | a passthrough device's node is the device node of the hardware's descriptor |
| `UsbDevices.UsbDevice.OpenResult` | src/core/libraries/usbd/usb_device.cpp:184-186 | an emulated device always opens; a passthrough device reports what opening the hardware returned |
| `UsbDevices.UsbDevice.GetConfiguration` | src/core/libraries/usbd/usb_device.cpp:29-32 | writes the current configuration into `buf[0]`, touches no other byte, returns 1 |
| `UsbDevices.UsbDevice.SetConfiguration` | src/core/libraries/usbd/usb_device.cpp:34-37 | stores the configuration number and reports success |
| `UsbDevices.UsbDevice.SetInterface` | src/core/libraries/usbd/usb_device.cpp:39-42 | stores the interface number and reports success |
| `UsbDevices.UsbDevice.AddString` | src/core/libraries/usbd/usb_device.cpp:317-319 | the string is appended, becoming string descriptor `|strings|` |
| `UsbDevices.DescriptorAnswer` | src/core/libraries/usbd/usb_device.cpp:188-244 | the answer never exceeds the buffer; under 2 bytes it is the prefix of `[2, type]`; otherwise it is 2 to 255 bytes with the requested type in byte 1 |
| `UsbDevices.DeviceDescriptorAnswer` | src/core/libraries/usbd/usb_device.cpp:203-207 | DEVICE answers `min(bLength, buf_size)` bytes of `[bLength, 1, payload…]`, a prefix of the tree's wire form |
| `UsbDevices.DeviceDescriptorScenario` | src/core/libraries/usbd/usb_device.cpp:203-207 | an 18-byte request to a typed device node yields all 18 bytes, starting `[18, 1]` |
| `UsbDevices.ConfigDescriptorAnswer` | src/core/libraries/usbd/usb_device.cpp:209-217 | CONFIG with an existing index answers `min(child.bLength, buf_size)` bytes of that child's own header and payload, never its children; a missing index answers `[2, 2]` |
| `UsbDevices.StringDescriptorAnswer` | src/core/libraries/usbd/usb_device.cpp:218-237 | STRING index 0 answers a prefix of `[4, 3, 0x09, 0x04]`; index k ≤ `|strings|` answers length byte `min(2·units + 2, 255)`, type 3, then UTF-16LE units of string k-1, truncated; a larger index answers `[2, 3]` |
| `UsbDevices.UnknownDescriptorAnswer` | src/core/libraries/usbd/usb_device.cpp:238-241 | an unhandled descriptor type answers the bare header `[2, type]` |
| `UsbDevices.UsbDevice.GetDescriptor` | src/core/libraries/usbd/usb_device.cpp:188-244 | a null buffer returns 0; otherwise the returned count is the answer's length, the answer sits at the start of the buffer and the rest is untouched |
| `UsbDevices.UsbDevice.ChooseDescriptor` | src/core/libraries/usbd/usb_device.cpp:202-241 | the switch yields the length byte and the payload bytes that make up the answer |
| `UsbDevices.UsbDevice.StringDescriptor` | src/core/libraries/usbd/usb_device.cpp:226-234 | the length byte is `min(2·units + 2, 255)` and the body is the UTF-16LE bytes cut to `min(len, min(255, buf_size)) - 2` |
| `UsbDevices.StatusWord` | src/core/libraries/usbd/usb_device.cpp:248 | the GET_STATUS word has self-powered in bit 0 and remote wakeup in bit 1 (section 9.4.5 of USB 2.0), so `(false, false)` gives 0 |
| `UsbDevices.UsbDevice.GetStatus` | src/core/libraries/usbd/usb_device.cpp:246-251 | returns `min(2, buf_size)`, or 0 for a null buffer, and writes that many bytes of the little-endian status word, nothing else |
| `UsbDevices.UsbDevice.ControlTransfer` | src/core/libraries/usbd/usb_device.cpp:253-305 | the transfer becomes fake with result SUCCESS, due `EMULATED_LATENCY` after the timestamp; `busy` and the destination are untouched. SET_CONFIGURATION stores `(u8)wValue`, SET_INTERFACE `(u8)wIndex`, nothing else changes device state. The count stays `buf_size` unless an IN GET_STATUS/GET_DESCRIPTOR/GET_CONFIGURATION replaces it with the length of the reply written to the buffer |
| `UsbDevices.SplitIsFlat` | src/core/libraries/usbd/usb_device.cpp:116-119 | every descriptor after the configuration header becomes a childless node |
| `UsbDevices.SplitHead` | src/core/libraries/usbd/usb_device.cpp:117 | the descriptor at offset i serialises back to the `buf[i]` bytes it was taken from |
| `UsbDevices.SplitSerializes` | src/core/libraries/usbd/usb_device.cpp:116-119 | when the lengths tile `buf[i..ssize]`, the split descriptors serialise back to exactly those bytes, in order |
| `UsbDevices.ParseConfiguration` | src/core/libraries/usbd/usb_device.cpp:114-119 | the loop builds the configuration node from `buf[0..buf[0]]`, then adds each later descriptor as a flat child in order, the offset advancing by its length until it reaches `ssize` |
| `UsbDevices.ConfigurationRoundTrip` | src/core/libraries/usbd/usb_device.cpp:114-119 | a parsed configuration whose descriptors tile the returned bytes serialises back to exactly `buf[..ssize]` |
| `UsbDevices.UsbDevice.ReadDescriptors` | src/core/libraries/usbd/usb_device.cpp:98-121 | an emulated device is unchanged; a passthrough device keeps its descriptor and appends one parsed configuration per successful fetch, skipping failed ones, in index order |
| `UsbDevices.ReadTwiceDuplicates` | src/core/libraries/usbd/usb_device.cpp:98-121 | the children are never cleared, so reading a passthrough device's descriptors twice appends its configurations twice |
| `Utf16.Encode` | src/core/libraries/usbd/usb_device.cpp:227-228 | the UTF-16 conversion yields at least one code unit per character |
| `Utf16.DecodeEncode` | src/core/libraries/usbd/usb_device.cpp:227-228 | the conversion loses nothing: decoding the code units gives the string back |
| `Utf16.EncodeBmpLength` | src/core/libraries/usbd/usb_device.cpp:227-229 | a string without characters above U+FFFF has one code unit per character |
| `Utf16.LeBytesAt` | src/core/libraries/usbd/usb_device.cpp:233 | the copied bytes hold each code unit low byte first |
| `UsbdImpl.PackIso` | src/core/libraries/usbd/usbd_impl.cpp:221-225 | an isochronous entry holds `status & 0xF` in its top 4 bits and `actual_length & 0xFFF` in its low 12, so it fits 16 bits |
| `UsbdImpl.PackIsoPackets` | src/core/libraries/usbd/usbd_impl.cpp:221-225 | the loop packs entry i for every reported packet i and keeps the later entries |
| `UsbdImpl.FakeCompleted` | src/core/libraries/usbd/usbd_impl.cpp:180-183 | a due fake transfer gets its expected result and count, is freed and no longer fake; nothing else in the slot changes |
| `UsbdImpl.SweptAll` | src/core/libraries/usbd/usbd_impl.cpp:170-187 | the slot table after a sweep: queued due slots completed, every other slot as it was |
| `UsbdImpl.PendingMembership` | src/core/libraries/usbd/usbd_impl.cpp:170-187 | a slot stays queued after a sweep exactly when it was queued and is not yet due |
| `UsbdImpl.PendingAppend` | src/core/libraries/usbd/usbd_impl.cpp:170-187 | the sweep filters each part of the queue independently, so the entries that remain keep their relative order |
| `UsbdImpl.PendingDistinct` | src/core/libraries/usbd/usbd_impl.cpp:170-187 | a queue without duplicates stays without duplicates |
| `UsbdImpl.SweepKeepsQueueValid` | src/core/libraries/usbd/usbd_impl.cpp:173 | after a sweep every queued slot is still busy and fake, so the assertion keeps holding |
| `UsbdImpl.UnqueuedUpdateKeepsQueue` | src/core/libraries/usbd/usbd_impl.cpp:199-236 | completing a slot that is not queued keeps the queue well formed |
| `UsbdImpl.SweepDrains` | src/core/libraries/usbd/usbd_impl.cpp:170-187 | once every queued transfer is due, a sweep empties the queue |
| `UsbdImpl.EmulatedTransferNeverDue` | src/core/libraries/usbd/usbd_impl.cpp:168-178 | as written, a transfer due at timestamp + 100 (timestamp 0) is never completed by a sweep at time 0 and stays queued |
| `UsbdImpl.EmulatedTransferCompletes` | src/core/libraries/usbd/usbd_impl.cpp:170-187 | with a real clock, a sweep at or after start + 100 completes the transfer and drops it from the queue |
| `UsbdImpl.Cyclic` | src/core/libraries/usbd/usbd_impl.cpp:242-246 | stepping the counter wraps inside the pool |
| `UsbdImpl.Distance` | src/core/libraries/usbd/usbd_impl.cpp:240-251 | every slot is reached within 0x44 steps of the counter, the starting slot itself last |
| `UsbdImpl.RemoveFirstMultiset` | src/core/libraries/usbd/usbd_impl.cpp:311-313 | erasing the first match takes exactly one occurrence out of the list, and none when the device is absent |
| `UsbdImpl.RemoveFirstAbsent` | src/core/libraries/usbd/usbd_impl.cpp:309-324 | disconnecting a device that is not listed changes nothing, so a second disconnect is a no-op |
| `UsbdImpl.Find` | src/core/libraries/usbd/usbd_impl.cpp:311 | `find` returns the first index holding the device, or the end; erasing there is `RemoveFirst` |
| `UsbdImpl.RemoveEachMultiset` | src/core/libraries/usbd/usbd_impl.cpp:210-217 | disconnecting each device of a list once takes exactly that multiset of devices out of the opened list |
| `UsbdImpl.RangeForEraseOverruns` | src/core/libraries/usbd/usbd_impl.cpp:211-216 | as written, with two or more devices the loop never visits the second device and reads past the live end of the list |
| `UsbdImpl.InferSpeed` | src/core/libraries/usbd/usbd_impl.cpp:374-384 | SuperSpeed (4 or 5) exactly when `bMaxPacketSize0 == 9`, SUPER_PLUS exactly when also `bcdUSB >= 0x0310`; HIGH exactly when not 9 and `bcdUSB >= 0x0200`; LOW exactly when `bMaxPacketSize0 <= 8` and `bcdUSB < 0x0200`; otherwise FULL |
| `UsbdImpl.InferSpeedMonotone` | src/core/libraries/usbd/usbd_impl.cpp:374-384 | a later USB release number never lowers the inferred speed |
| `UsbdImpl.FindByBus` | src/core/libraries/usbd/usbd_impl.cpp:466-471 | the bus number is used directly as a list index: found exactly when it is in range |
| `UsbdImpl.BusNumberLookupIsShifted` | src/core/libraries/usbd/usbd_impl.cpp:347 | the bus number given to device i (i + 1) looks up device i + 1, and the last device is never found |
| `UsbdImpl.EnumeratedAddresses` | src/core/libraries/usbd/usbd_impl.cpp:348-350 | address and port are the session id truncated to 8 bits: distinct within one enumeration of up to 256 devices, reused 256 sessions later |
| `UsbdImpl.FindDeviceFromIds` | src/core/libraries/usbd/usbd_impl.cpp:449-464 | returns the first record with both ids, and none exactly when no record has them |
| `UsbdImpl.UsbHandler.constructor` | src/core/libraries/usbd/usbd_impl.cpp:78-81 | after initialization every slot is idle and numbered by its index; the found devices are connected; with no context, nothing is |
| `UsbdImpl.UsbHandler.GetFreeTransferId` | src/core/libraries/usbd/usbd_impl.cpp:238-254 | returns a non-busy slot below 0x44: the first free one in cyclic order after the old counter, the old slot checked last; it becomes the counter |
| `UsbdImpl.UsbHandler.GetFreeTransfer` | src/core/libraries/usbd/usbd_impl.cpp:260-268 | the allocated slot was free and is now busy, otherwise unchanged; every other slot is unchanged |
| `UsbdImpl.UsbHandler.AllocateTwo` | src/core/libraries/usbd/usbd_impl.cpp:260-268 | two allocations with no completion in between return different slots, both busy |
| `UsbdImpl.UsbHandler.TransferStatus` | src/core/libraries/usbd/usbd_impl.cpp:270-276 | the slot's result as its 32-bit pattern (two's complement for negatives) and its count |
| `UsbdImpl.UsbHandler.IsochronousTransferStatus` | src/core/libraries/usbd/usbd_impl.cpp:278-285 | the same result pattern and the slot's packet table |
| `UsbdImpl.UsbHandler.PushFakeTransfer` | src/core/libraries/usbd/usbd_impl.cpp:287-290 | the slot is appended to the queue and the queue stays well formed |
| `UsbdImpl.UsbHandler.SweepFakeTransfers` | src/core/libraries/usbd/usbd_impl.cpp:166-188 | the queue becomes its not-yet-due entries in order, and every slot becomes its swept value |
| `UsbdImpl.UsbHandler.SweepLoop` | src/core/libraries/usbd/usbd_impl.cpp:170-187 | the erase-while-iterating loop visits every original entry once |
| `UsbdImpl.UsbHandler.SweepEntry` | src/core/libraries/usbd/usbd_impl.cpp:171-186 | one visit: a due entry is completed and erased (the iterator stays), a pending one is stepped over |
| `UsbdImpl.UsbHandler.OperateAt` | src/core/libraries/usbd/usbd_impl.cpp:158-197 | `operate` at time `now` sweeps when a context exists, otherwise changes nothing; it always returns 0 |
| `UsbdImpl.UsbHandler.Operate` | src/core/libraries/usbd/usbd_impl.cpp:158-197 | `operate` as written: the sweep at the fixed timestamp 0. The queue becomes `Pending` and every slot its `Swept` value at time 0, so an emulated transfer due at 100 stays queued and busy; with no context nothing changes |
| `UsbdImpl.UsbHandler.DisconnectUsbDevice` | src/core/libraries/usbd/usbd_impl.cpp:309-324 | removes the first occurrence from the opened list, and from the bus only when the flag is set |
| `UsbdImpl.UsbHandler.DisconnectAll` | src/core/libraries/usbd/usbd_impl.cpp:210-217 | walking a copy of the bus, every device is disconnected: the bus ends empty and each device loses one occurrence in the opened list |
| `UsbdImpl.UsbHandler.TransferComplete` | src/core/libraries/usbd/usbd_impl.cpp:199-236 | the slot takes result, count and packed packets and is freed; a control transfer copies `actual_length` bytes from buffer offset 8 into its destination, then drops it; NO_DEVICE disconnects every device; no other slot changes |
| `UsbdImpl.UsbHandler.CompleteSlot` | src/core/libraries/usbd/usbd_impl.cpp:208-233 | the per-slot effect of completion, including the copy into the control destination |
| `UsbdImpl.UsbHandler.OpenUsbDevice` | src/core/libraries/usbd/usbd_impl.cpp:292-307 | the device joins the opened list exactly when it opens; otherwise the error is returned and the list is unchanged |
| `UsbdImpl.UsbHandler.OpenDevice` | src/core/libraries/usbd/usbd_impl.cpp:419-447 | a bus number that finds no device gives NO_DEVICE; otherwise the found device is opened, with the outcome of `open_usb_device` |
| `UsbdImpl.UsbHandler.GetDeviceList` | src/core/libraries/usbd/usbd_impl.cpp:326-417 | one record per connected device, in order: fresh session ids, bus number i + 1, address = port = `(u8)session`, `bLength` 18, type 1, the copied descriptor and the inferred speed; the session counter advances by the count; descriptors are unchanged. Each device's tree becomes its `read_descriptors` result for its responses (a passthrough device appends its configurations again on every call), and configuration, interface and strings are kept |
| `UsbdImpl.UsbHandler.EnumerateDevice` | src/core/libraries/usbd/usbd_impl.cpp:335-393 | one turn of the enumeration loop: the next session id, the device's descriptors re-read, its record built from the descriptor it had |
| `Usbd.LibusbErrToOrbis` | src/core/libraries/usbd/usbd.cpp:17-51 | 0 exactly for success; -k for k in 1..12 becomes 0x80240000 + k; any code below -12 is FATAL; every error has the top bit set; the input must be below 1 |
| `Usbd.OrbisToLibusb` | src/core/libraries/usbd/usbd.cpp:20-50 | reading a code back only ever yields a listed libusb code |
| `Usbd.ListedRoundTrip` | src/core/libraries/usbd/usbd.cpp:20-50 | each of the 13 listed libusb codes is recovered from its SCE code |
| `Usbd.ListedInjective` | src/core/libraries/usbd/usbd.cpp:20-50 | the mapping is injective on the listed codes |
| `Usbd.UnlistedIsFatal` | src/core/libraries/usbd/usbd.cpp:47-49 | every unlisted code below 1 maps to the code of OTHER, FATAL |
| `Usbd.ControlTransferResult` | src/core/libraries/usbd/usbd.cpp:116-126 | a non-negative byte count passes through unchanged, a negative one is translated; the result's top bit tells which |
| `Usbd.DeviceListResult` | src/core/libraries/usbd/usbd.cpp:296-303 | a positive count passes through, 0 becomes ORBIS_OK, a negative count its translated error |
| `Usbd.GetDeviceList` | src/core/libraries/usbd/usbd.cpp:296-303 | enumerates the bus and returns the number of records, or ORBIS_OK for an empty bus; each device's tree becomes its `read_descriptors` result and its other state is kept |
| `Usbd.KernelDriverCall` | src/core/libraries/usbd/usbd.cpp:58-64 | attach (and detach, lines 141-147) succeed exactly when the handle is present, else INVALID_ARG |
| `Usbd.KernelDriverActive` | src/core/libraries/usbd/usbd.cpp:374-384 | INVALID_ARG for a null handle; 0 above interface 256; otherwise 1 exactly when the host answers 1 or NOT_SUPPORTED |
| `Usbd.GetBusNumber` | src/core/libraries/usbd/usbd.cpp:229-235 | 0 for a null device, else the record's bus number |
| `Usbd.GetDeviceAddress` | src/core/libraries/usbd/usbd.cpp:278-284 | 0 for a null device, else the record's address |
| `Usbd.EnumeratedBusNumberNonZero` | src/core/libraries/usbd/usbd.cpp:229-235 | an enumerated device's bus number is i + 1, never the 0 of a null device |
| `Usbd.FirstAddressIsZero` | src/core/libraries/usbd/usbd.cpp:278-284 | the first device of the first enumeration has address 0, which a null device also reports |
| `Usbd.Open` | src/core/libraries/usbd/usbd.cpp:396-403 | a null device or handle slot gives INVALID_ARG with no change; otherwise the device behind the bus number is opened, the outcome translated; it joins the opened list on ORBIS_OK, and the list is unchanged on any other outcome |
| `Usbd.HandleEventsTimeout` | src/core/libraries/usbd/usbd.cpp:355-359 | one `operate` step, translated: always ORBIS_OK, the queue and every slot swept at timestamp 0; with no context nothing changes |

## Left out

- The host library itself is outside the model. This covers:
  - context creation and exit, and the `libusb_handle_events_timeout_completed` step of `operate`;
  - submit, open, close and claim;
  - the configuration fetch of `read_descriptors`;
  - the device scan of `initialize`.

  Their outcomes are inputs. The manager's constructor receives the devices that scan found.
- `deinitialize`, `get_location`, `get_new_location` and the usbd event queue: pure host plumbing.
- Passthrough `control_transfer`, `interrupt_transfer` and `isochronous_transfer` are left out. So are the `send_libusb_transfer` retry-on-BUSY loop and the passthrough configuration and interface getters and setters. All of them only forward to libusb.
- The emulated `interrupt_transfer` and `isochronous_transfer` have empty bodies and are not modelled.
- Concurrency is not modelled: the `mutex_transfers` locks, the atomic `is_init`, and `callback_transfer` arriving on libusb's thread. Everything runs sequentially.
- Memory and reference-count plumbing in `get_device_list` and `open_device` is left out. This includes:
  - the placement-new buffer, which makes every list entry alias one object;
  - `ref`/`unref`;
  - the handle allocation.

  Records are values.
- The `LIBUSB_ERROR_NO_MEM` branches of `get_device_list` and `open_device`: allocation is assumed to succeed.
- `UsbdImpl.FindDeviceFromIds`: the early null return for a device whose descriptor cannot be read is not modelled, since every record carries its descriptor.
- `UsbDevices.UsbDevice.GetDescriptor`: requires `buf_size <= 255` and a node length of at least 2 wherever the source casts `buf_size` to `u8` or subtracts the header size. Outside that range the source's copy size wraps around, and that behaviour is not modelled.
- `UsbDevices.ParseConfiguration`: requires every length byte met to be at least 2 and every descriptor to lie inside the 1000-byte buffer. The source loops forever on a zero length and reads past the buffer otherwise.
- `UsbdImpl.UsbHandler.GetFreeTransferId`: requires at least one free slot. On a saturated pool the source only logs and spins for ever.
- `UsbdImpl.UsbHandler.TransferComplete`: requires at most 8 isochronous packets, which is the size of the packet table. It also requires a control transfer's buffer to hold the reported data, and the slot not to be in the fake queue: a fake transfer is never handed to libusb.
- `UsbdImpl.UsbHandler.PushFakeTransfer`: requires the slot to be busy, fake and not already queued. The source only asserts the first two later, in `operate`.
- `Usbd.HandleEventsTimeout`: the timeout argument only bounds the host library's wait and is dropped.
- `UsbDevices.UsbDevice.ControlTransfer`: `now` stands for `get_timestamp()`, which the source fixes at 0. GET_CONFIGURATION requires a non-null buffer of at least one byte: the source writes `*buf` unchecked, and the null dereference is not modelled.
- `Utf16.Encode`: only valid UTF-8 is modelled, as a sequence of Unicode scalar values; the converter's behaviour on invalid input is not.
- `DescriptorTree.GetSize`: the size is an unbounded natural; the source's `u32` accumulator could in principle wrap.
- `UsbdImpl.UsbHandler.GetDeviceList`: the 64-bit wrap of `next_session_id` is not modelled. It requires the connected devices to be distinct objects, as `init` creates each with its own `make_shared`; a device listed twice would be read twice.
- Not modelled:
  - `UsbTransfer` fields `assigned_number`, `setup_buf`, the `libusb_transfer` pointer, and `iso_request`'s buffer, start frame and packet count;
  - the device `location` bytes beyond being stored.
- `add_node` returns a reference into the parent's vector. It is modelled on values: the returned child is the new last element.
- `open_device_with_ids`, `sceUsbdOpenDeviceWithVidPid`, `sceUsbdClaimInterface`, `sceUsbdCheckConnected` and `sceUsbdGetDeviceDescriptor` are left out. So are the remaining `sceUsbd*` entry points, which are stubbed, unreachable or direct libusb forwards, and the symbol table. None of them holds logic of its own beyond what is modelled here.
- Logging, including the trimming in `printlog_callback`.

## Findings

| source | as written | input that shows it | evidently intended | confidence | as-written member | corrected member |
|---|---|---|---|---|---|---|
| src/core/libraries/usbd/usbd_impl.cpp:168 | the fake-transfer sweep compares due times against a fixed timestamp of 0, while an emulated control transfer is due at `get_timestamp() + 100` = 100 | any emulated control transfer pushed onto the fake queue, followed by any number of `operate` calls: it stays queued and busy for ever | sweep at the current time, so the transfer completes once 100 time units have passed (`OperateAt`) | not executed | `UsbdImpl.EmulatedTransferNeverDue` | `UsbdImpl.EmulatedTransferCompletes` |
| src/core/libraries/usbd/usbd_impl.cpp:211-216 | the range-for over `usb_devices` calls `disconnect_usb_device(dev, true)`, which erases the visited element from that same vector | two connected devices and a transfer completing with `LIBUSB_TRANSFER_NO_DEVICE`: the loop skips the second device and then reads past the vector's live end | disconnect every connected device (iterate over a copy) | not executed | `UsbdImpl.RangeForEraseOverruns` | `UsbdImpl.UsbHandler.DisconnectAll` |

The model also records one mismatch without correcting it. Enumeration numbers buses from 1 (`usbd_impl.cpp:347`), but `find_device_from_bus_number` indexes the device list from 0 (`usbd_impl.cpp:466-471`). `UsbdImpl.BusNumberLookupIsShifted` states the consequence, and `UsbdImpl.UsbHandler.OpenDevice` follows the code as written.
