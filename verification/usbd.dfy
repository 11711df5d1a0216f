/**
 * The guest-facing `sceUsbd*` entry points: translation of libusb error codes
 * into SCE codes, null-pointer guards and the post-processing of return
 * values. A guest reads every result as a 32-bit word; SCE error codes have
 * the top bit set, so results are given here as unsigned 32-bit patterns.
 */
module Usbd {
  import opened Bytes
  import opened UsbDevices
  import opened UsbdImpl

  const ORBIS_OK: u32 := 0
  const SCE_USBD_ERROR_IO: u32 := 0x8024_0001
  const SCE_USBD_ERROR_INVALID_ARG: u32 := 0x8024_0002
  const SCE_USBD_ERROR_ACCESS: u32 := 0x8024_0003
  const SCE_USBD_ERROR_NO_DEVICE: u32 := 0x8024_0004
  const SCE_USBD_ERROR_NOT_FOUND: u32 := 0x8024_0005
  const SCE_USBD_ERROR_BUSY: u32 := 0x8024_0006
  const SCE_USBD_ERROR_TIMEOUT: u32 := 0x8024_0007
  const SCE_USBD_ERROR_OVERFLOW: u32 := 0x8024_0008
  const SCE_USBD_ERROR_PIPE: u32 := 0x8024_0009
  const SCE_USBD_ERROR_INTERRUPTED: u32 := 0x8024_000A
  const SCE_USBD_ERROR_NO_MEM: u32 := 0x8024_000B
  const SCE_USBD_ERROR_NOT_SUPPORTED: u32 := 0x8024_000C
  const SCE_USBD_ERROR_FATAL: u32 := 0x8024_00FF

  // libusb_error
  const LIBUSB_ERROR_IO: int := -1
  const LIBUSB_ERROR_INVALID_PARAM: int := -2
  const LIBUSB_ERROR_ACCESS: int := -3
  const LIBUSB_ERROR_NOT_FOUND: int := -5
  const LIBUSB_ERROR_BUSY: int := -6
  const LIBUSB_ERROR_TIMEOUT: int := -7
  const LIBUSB_ERROR_OVERFLOW: int := -8
  const LIBUSB_ERROR_PIPE: int := -9
  const LIBUSB_ERROR_INTERRUPTED: int := -10
  const LIBUSB_ERROR_NO_MEM: int := -11
  const LIBUSB_ERROR_NOT_SUPPORTED: int := -12
  const LIBUSB_ERROR_OTHER: int := -99

  /** The libusb codes the translation names: success, the twelve errors and OTHER. */
  predicate Listed(e: int)
  {
    -12 <= e <= 0 || e == LIBUSB_ERROR_OTHER
  }

  /**
   * `LibusbErrToOrbis`: success stays 0, each named libusb error becomes its
   * SCE counterpart, and anything else below 1 is fatal. Positive inputs are
   * refused by the source's assertion.
   */
  function LibusbErrToOrbis(e: int): (r: u32)
    requires e < 1
    ensures r == ORBIS_OK <==> e == 0
    ensures -12 <= e <= -1 ==> r == 0x8024_0000 - e
    ensures e < -12 ==> r == SCE_USBD_ERROR_FATAL
    ensures e < 0 ==> r >= 0x8000_0000
  {
    if e == LIBUSB_SUCCESS as int then ORBIS_OK
    else if e == LIBUSB_ERROR_IO then SCE_USBD_ERROR_IO
    else if e == LIBUSB_ERROR_INVALID_PARAM then SCE_USBD_ERROR_INVALID_ARG
    else if e == LIBUSB_ERROR_ACCESS then SCE_USBD_ERROR_ACCESS
    else if e == LIBUSB_ERROR_NO_DEVICE as int then SCE_USBD_ERROR_NO_DEVICE
    else if e == LIBUSB_ERROR_NOT_FOUND then SCE_USBD_ERROR_NOT_FOUND
    else if e == LIBUSB_ERROR_BUSY then SCE_USBD_ERROR_BUSY
    else if e == LIBUSB_ERROR_TIMEOUT then SCE_USBD_ERROR_TIMEOUT
    else if e == LIBUSB_ERROR_OVERFLOW then SCE_USBD_ERROR_OVERFLOW
    else if e == LIBUSB_ERROR_PIPE then SCE_USBD_ERROR_PIPE
    else if e == LIBUSB_ERROR_INTERRUPTED then SCE_USBD_ERROR_INTERRUPTED
    else if e == LIBUSB_ERROR_NO_MEM then SCE_USBD_ERROR_NO_MEM
    else if e == LIBUSB_ERROR_NOT_SUPPORTED then SCE_USBD_ERROR_NOT_SUPPORTED
    else SCE_USBD_ERROR_FATAL
  }

  /** Reads an SCE code back as the libusb code it stands for. */
  function OrbisToLibusb(r: u32): (e: Option<int>)
    ensures e.Some? ==> Listed(e.value)
  {
    if r == ORBIS_OK then Some(0)
    else if 0x8024_0001 <= r <= 0x8024_000C then Some(0x8024_0000 - r as int)
    else if r == SCE_USBD_ERROR_FATAL then Some(LIBUSB_ERROR_OTHER)
    else None
  }

  /** Every listed libusb code survives the translation and can be read back. */
  lemma ListedRoundTrip(e: int)
    requires Listed(e)
    ensures OrbisToLibusb(LibusbErrToOrbis(e)) == Some(e)
  {
  }

  /** The translation is injective on the listed codes: distinct libusb errors stay distinct. */
  lemma ListedInjective(a: int, b: int)
    requires Listed(a) && Listed(b) && LibusbErrToOrbis(a) == LibusbErrToOrbis(b)
    ensures a == b
  {
    ListedRoundTrip(a);
    ListedRoundTrip(b);
  }

  /** Every unlisted code collapses onto the code of OTHER. */
  lemma UnlistedIsFatal(e: int)
    requires e < 1 && !Listed(e)
    ensures LibusbErrToOrbis(e) == LibusbErrToOrbis(LIBUSB_ERROR_OTHER) == SCE_USBD_ERROR_FATAL
  {
  }

  /**
   * `sceUsbdControlTransfer` after the host call answered `bytes`: a byte
   * count is passed through, an error is translated; the two never overlap.
   */
  function ControlTransferResult(bytes: s32): (r: u32)
    ensures bytes >= 0 ==> r == bytes
    ensures bytes < 0 ==> r == LibusbErrToOrbis(bytes)
    ensures r < 0x8000_0000 <==> bytes >= 0
  {
    if bytes < 0 then LibusbErrToOrbis(bytes) else bytes
  }

  /** `sceUsbdGetDeviceList` on a list of `count` devices: a positive count passes through. */
  function DeviceListResult(count: int): (r: u32)
    requires count < 0x8000_0000
    ensures count > 0 ==> r == count
    ensures count == 0 ==> r == ORBIS_OK
    ensures count < 0 ==> r == LibusbErrToOrbis(count) && r >= 0x8000_0000
  {
    if count <= 0 then LibusbErrToOrbis(count) else count
  }

  /** `sceUsbdGetDeviceList`: enumerates the bus and reports the number of records. */
  method GetDeviceList(handler: UsbHandler, responses: seq<seq<ConfigResponse>>)
    returns (r: u32, records: seq<DeviceRecord>)
    requires handler.EnumerationOk(responses) && handler.DistinctDevices() && |handler.usbDevices| < 0x8000_0000
    modifies handler`nextSessionId, set d | d in handler.usbDevices
    ensures |records| == |handler.usbDevices|
    ensures r == (if records == [] then ORBIS_OK else |records|)
    ensures handler.nextSessionId == old(handler.nextSessionId) + |records|
    ensures forall i :: 0 <= i < |records| ==>
      records[i] == Enumerated(old(handler.nextSessionId) + i, i, old(handler.usbDevices[i].Descriptor()))
    ensures forall i :: 0 <= i < |handler.usbDevices| ==>
      handler.usbDevices[i].device
        == DescriptorsRead(handler.usbDevices[i].kind, old(handler.usbDevices[i].device), responses[i])
    ensures forall i :: 0 <= i < |handler.usbDevices| ==> handler.Unread(handler.usbDevices[i])
  {
    records := handler.GetDeviceList(responses);
    r := DeviceListResult(|records|);
  }

  /** `sceUsbdAttachKernelDriver` and `sceUsbdDetachKernelDriver`: only the handle is checked. */
  function KernelDriverCall(handlePresent: bool): (r: u32)
    ensures r == ORBIS_OK <==> handlePresent
    ensures !handlePresent ==> r == SCE_USBD_ERROR_INVALID_ARG
  {
    if !handlePresent then SCE_USBD_ERROR_INVALID_ARG else ORBIS_OK
  }

  /**
   * `sceUsbdKernelDriverActive`: a yes/no answer, where a host that cannot
   * tell (NOT_SUPPORTED) counts as active; interfaces above 256 are never
   * active. `hostActive` is what the host library answers.
   */
  function KernelDriverActive(handlePresent: bool, interfaceNum: s32, hostActive: int): (r: u32)
    ensures !handlePresent ==> r == SCE_USBD_ERROR_INVALID_ARG
    ensures handlePresent ==> r <= 1
    ensures handlePresent && interfaceNum > 256 ==> r == 0
    ensures handlePresent && interfaceNum <= 256 ==>
      (r == 1 <==> hostActive == 1 || hostActive == LIBUSB_ERROR_NOT_SUPPORTED)
  {
    if !handlePresent then SCE_USBD_ERROR_INVALID_ARG
    else if interfaceNum > 256 then 0
    else if hostActive == 1 || hostActive == LIBUSB_ERROR_NOT_SUPPORTED then 1
    else 0
  }

  /** `sceUsbdGetBusNumber`: 0 for a null device. */
  function GetBusNumber(dev: Option<DeviceRecord>): (r: u32)
    ensures dev.None? ==> r == 0
    ensures dev.Some? ==> r == dev.value.busNumber
  {
    if dev.None? then 0 else dev.value.busNumber
  }

  /** `sceUsbdGetDeviceAddress`: 0 for a null device. */
  function GetDeviceAddress(dev: Option<DeviceRecord>): (r: u32)
    ensures dev.None? ==> r == 0
    ensures dev.Some? ==> r == dev.value.deviceAddress
  {
    if dev.None? then 0 else dev.value.deviceAddress
  }

  /** Bus numbers start at 1, so on a bus of fewer than 255 devices no record reads like a null device. */
  lemma EnumeratedBusNumberNonZero(session: nat, i: nat, d: DescriptorTree.DeviceDescriptor)
    requires i < 0xFF
    ensures GetBusNumber(Some(Enumerated(session, i, d))) == i + 1
    ensures GetBusNumber(Some(Enumerated(session, i, d))) != GetBusNumber(None)
  {
  }

  /** Addresses are session ids, so the first device of the first enumeration has the address of a null device. */
  lemma FirstAddressIsZero(d: DescriptorTree.DeviceDescriptor)
    ensures GetDeviceAddress(Some(Enumerated(0, 0, d))) == GetDeviceAddress(None)
  {
  }

  /**
   * `sceUsbdOpen`: a null device or handle slot is refused; otherwise the
   * device behind the record's bus number is opened and the outcome translated.
   */
  method Open(handler: UsbHandler, dev: Option<DeviceRecord>, handleSlot: bool, hostOpen: s32) returns (r: u32)
    requires hostOpen <= 0
    modifies handler`openDevices
    ensures dev.None? || !handleSlot ==> r == SCE_USBD_ERROR_INVALID_ARG && handler.openDevices == old(handler.openDevices)
    ensures dev.Some? && handleSlot ==>
      var found := FindByBus(old(handler.usbDevices), dev.value.busNumber);
      && (found.None? ==> r == SCE_USBD_ERROR_NO_DEVICE && handler.openDevices == old(handler.openDevices))
      && (found.Some? ==>
            r == LibusbErrToOrbis(found.value.OpenResult(hostOpen)) &&
            handler.openDevices == if r == ORBIS_OK then old(handler.openDevices) + [found.value]
                                   else old(handler.openDevices))
  {
    if dev.None? || !handleSlot {
      return SCE_USBD_ERROR_INVALID_ARG;
    }
    var err := handler.OpenDevice(dev.value, hostOpen);
    r := LibusbErrToOrbis(err);
  }

  /** `sceUsbdHandleEventsTimeout`: one `operate` step; the timeout only bounds the host library's wait. */
  method HandleEventsTimeout(handler: UsbHandler) returns (r: u32)
    requires handler.Valid()
    modifies handler`fakeTransfers, handler.transfers
    ensures handler.Valid() && r == ORBIS_OK
    ensures handler.contextReady ==>
      handler.fakeTransfers == Pending(old(handler.fakeTransfers), old(handler.transfers[..]), OPERATE_TIMESTAMP)
    ensures handler.contextReady ==> forall s :: 0 <= s < MAX_TRANSFERS ==>
      handler.transfers[s] == Swept(old(handler.transfers[..]), old(handler.fakeTransfers), OPERATE_TIMESTAMP, s)
    ensures !handler.contextReady ==>
      handler.fakeTransfers == old(handler.fakeTransfers) && handler.transfers[..] == old(handler.transfers[..])
  {
    var err := handler.Operate();
    r := LibusbErrToOrbis(err);
  }
}
