/**
 * USB devices as the emulator presents them to the guest (`UsbDevice` with its
 * two variants): a passthrough device backed by real hardware and an emulated
 * device that answers the standard requests of section 9.4 of the USB 2.0
 * specification from its descriptor tree and a string table. Also the transfer
 * record (`UsbTransfer`) that control transfers fill in.
 */
module UsbDevices {
  import opened Bytes
  import opened DescriptorTree
  import Utf16

  // bmRequestType: direction | standard type | recipient
  const REQUEST_TYPE_OUT_DEVICE: u8 := 0x00
  const REQUEST_TYPE_OUT_INTERFACE: u8 := 0x01
  const REQUEST_TYPE_IN_DEVICE: u8 := 0x80

  // bRequest codes of the standard requests (section 9.4 of USB 2.0, Table 9-4)
  const REQUEST_GET_STATUS: u8 := 0x00
  const REQUEST_GET_DESCRIPTOR: u8 := 0x06
  const REQUEST_GET_CONFIGURATION: u8 := 0x08
  const REQUEST_SET_CONFIGURATION: u8 := 0x09
  const REQUEST_SET_INTERFACE: u8 := 0x0B

  const LIBUSB_SUCCESS: s32 := 0

  /** Time after which an emulated transfer is due. */
  const EMULATED_LATENCY: nat := 100
  /** What `get_timestamp()` returns: the source fixes it at 0. */
  const GET_TIMESTAMP: nat := 0

  /** English (United States), the only language id an emulated device reports. */
  const LANGID_EN_US: u16 := 0x0409

  /** Size of the stack buffer a configuration descriptor is fetched into. */
  const CONFIG_BUFFER_SIZE: nat := 1000

  /** `UsbDeviceIsoRequest::packets`: one 16-bit entry per isochronous packet. */
  type IsoPackets = s: seq<u16> | |s| == 8 witness [0, 0, 0, 0, 0, 0, 0, 0]

  /**
   * `UsbTransfer`: one slot of the transfer pool. `controlDest` is the guest
   * buffer an IN control transfer copies its answer to (null when none).
   */
  datatype Transfer = Transfer(
    transferId: u32,
    result: s32,
    count: u32,
    isoPackets: IsoPackets,
    busy: bool,
    controlDest: array?<u8>,
    fake: bool,
    expectedTime: nat,
    expectedResult: s32,
    expectedCount: u32)

  /** A slot that no operation owns and that holds no outcome. */
  predicate Idle(t: Transfer)
  {
    !t.busy && !t.fake && t.controlDest == null && t.result == 0 && t.count == 0
  }

  /** A default-initialised `UsbTransfer` carrying slot number `id`. */
  function NewTransfer(id: u32): (t: Transfer)
    ensures Idle(t) && t.transferId == id && !t.fake
  {
    Transfer(id, 0, 0, [0, 0, 0, 0, 0, 0, 0, 0], false, null, false, 0, 0, 0)
  }

  // ---------------------------------------------------------------------
  // Answers of an emulated device, as byte sequences
  // ---------------------------------------------------------------------

  /**
   * What `get_descriptor` needs of its inputs for its copy sizes not to
   * underflow: the size is cast to `u8` for device, configuration and
   * language-id answers, and the chosen node must be at least a header long.
   */
  predicate DescriptorRequestOk(device: Node, dtype: u8, index: u8, bufSize: nat)
  {
    bufSize >= 2 ==>
      && (dtype == DESCRIPTOR_DEVICE ==> bufSize <= 0xFF && device.bLength >= 2)
      && (dtype == DESCRIPTOR_CONFIG && index < |device.subnodes| ==>
            bufSize <= 0xFF && device.subnodes[index].bLength >= 2)
      && (dtype == DESCRIPTOR_STRING && index == 0 ==> bufSize <= 0xFF)
  }

  /** The bytes `get_descriptor` leaves at the start of the caller's buffer. */
  function DescriptorAnswer(device: Node, strings: seq<string>, dtype: u8, index: u8, bufSize: nat): (r: seq<u8>)
    requires DescriptorRequestOk(device, dtype, index, bufSize)
    ensures |r| <= bufSize
    ensures bufSize < 2 ==> r == [2, dtype][..bufSize]
    ensures bufSize >= 2 ==> 2 <= |r| <= 0xFF && r[1] == dtype
  {
    if bufSize < 2 then [2, dtype][..bufSize]
    else if dtype == DESCRIPTOR_DEVICE then
      [device.bLength, dtype] + device.data[..Min(device.bLength, bufSize) - 2]
    else if dtype == DESCRIPTOR_CONFIG && index < |device.subnodes| then
      var config := device.subnodes[index];
      [config.bLength, dtype] + config.data[..Min(config.bLength, bufSize) - 2]
    else if dtype == DESCRIPTOR_STRING && index == 0 then
      [4, dtype] + Le16(LANGID_EN_US)[..Min(4, bufSize) - 2]
    else if dtype == DESCRIPTOR_STRING && index <= |strings| then
      var body := Utf16.LeBytes(Utf16.Encode(strings[index - 1]));
      var len := Min(|body| + 2, 0xFF);
      [len, dtype] + body[..Min(len, Min(0xFF, bufSize)) - 2]
    else
      [2, dtype]
  }

  /**
   * DEVICE: the answer is `min(bLength, bufSize)` bytes of the device
   * descriptor's own header and payload, a prefix of the tree's wire form.
   */
  lemma DeviceDescriptorAnswer(device: Node, strings: seq<string>, index: u8, bufSize: nat)
    requires 2 <= bufSize <= 0xFF && device.bLength >= 2
    ensures var r := DescriptorAnswer(device, strings, DESCRIPTOR_DEVICE, index, bufSize);
      && |r| == Min(device.bLength, bufSize)
      && r == ([device.bLength, DESCRIPTOR_DEVICE] + device.data)[..|r|]
      && (device.bDescriptorType == DESCRIPTOR_DEVICE ==> r == Serialize(device)[..|r|])
  {
    var r := DescriptorAnswer(device, strings, DESCRIPTOR_DEVICE, index, bufSize);
    assert r == RawImage(device.(bDescriptorType := DESCRIPTOR_DEVICE))[..|r|];
    if device.bDescriptorType == DESCRIPTOR_DEVICE {
      assert Serialize(device)[..|r|] == Own(device)[..|r|];
    }
  }

  /** An 18-byte request for the descriptor of a typed device node returns all 18 bytes. */
  lemma DeviceDescriptorScenario(d: DeviceDescriptor, strings: seq<string>)
    ensures DescriptorAnswer(DeviceNode(d), strings, DESCRIPTOR_DEVICE, 0, 18) == [18, DESCRIPTOR_DEVICE] + EncodeDevice(d)
  {
    var n := DeviceNode(d);
    DeviceDescriptorAnswer(n, strings, 0, 18);
    assert Serialize(n)[..18] == [18, DESCRIPTOR_DEVICE] + EncodeDevice(d);
  }

  /**
   * CONFIG: an existing index answers with that configuration's own header and
   * payload only (never its children); a missing one with the bare header.
   */
  lemma ConfigDescriptorAnswer(device: Node, strings: seq<string>, index: u8, bufSize: nat)
    requires 2 <= bufSize
    requires DescriptorRequestOk(device, DESCRIPTOR_CONFIG, index, bufSize)
    ensures var r := DescriptorAnswer(device, strings, DESCRIPTOR_CONFIG, index, bufSize);
      if index < |device.subnodes| then
        var config := device.subnodes[index];
        && |r| == Min(config.bLength, bufSize)
        && r == ([config.bLength, DESCRIPTOR_CONFIG] + config.data)[..|r|]
        && (config.bDescriptorType == DESCRIPTOR_CONFIG ==> r == Own(config)[..|r|])
      else r == [2, DESCRIPTOR_CONFIG]
  {
    if index < |device.subnodes| {
      var config := device.subnodes[index];
      var r := DescriptorAnswer(device, strings, DESCRIPTOR_CONFIG, index, bufSize);
      assert r == RawImage(config.(bDescriptorType := DESCRIPTOR_CONFIG))[..|r|];
    }
  }

  /**
   * STRING (section 9.6.7 of USB 2.0): index 0 lists the language ids, index
   * `k` in `1..|strings|` carries string `k - 1` in UTF-16LE under a length
   * byte capped at 255, any other index answers with the bare header.
   */
  lemma StringDescriptorAnswer(device: Node, strings: seq<string>, index: u8, bufSize: nat)
    requires 2 <= bufSize && (index == 0 ==> bufSize <= 0xFF)
    ensures var r := DescriptorAnswer(device, strings, DESCRIPTOR_STRING, index, bufSize);
      if index == 0 then
        r == [4, DESCRIPTOR_STRING, 0x09, 0x04][..Min(4, bufSize)]
      else if index as int <= |strings| then
        var body := Utf16.LeBytes(Utf16.Encode(strings[index - 1]));
        && r[0] == Min(|body| + 2, 0xFF)
        && r[1] == DESCRIPTOR_STRING
        && |r| == Min(r[0], bufSize)
        && r[2..] == body[..|r| - 2]
      else r == [2, DESCRIPTOR_STRING]
  {
    if index == 0 {
      var r := DescriptorAnswer(device, strings, DESCRIPTOR_STRING, index, bufSize);
      assert Le16(LANGID_EN_US) == [0x09, 0x04];
      assert r == [4, DESCRIPTOR_STRING] + [0x09, 0x04][..Min(4, bufSize) - 2];
    }
  }

  /** A request for a descriptor type the device does not know answers with the bare header. */
  lemma UnknownDescriptorAnswer(device: Node, strings: seq<string>, dtype: u8, index: u8, bufSize: nat)
    requires 2 <= bufSize
    requires dtype != DESCRIPTOR_DEVICE && dtype != DESCRIPTOR_CONFIG && dtype != DESCRIPTOR_STRING
    ensures DescriptorAnswer(device, strings, dtype, index, bufSize) == [2, dtype]
  {
  }

  /** The GET_STATUS word (section 9.4.5 of USB 2.0): bit 0 self-powered, bit 1 remote wakeup. */
  function StatusWord(selfPowered: bool, remoteWakeup: bool): (w: u16)
    ensures w < 4
    ensures (w % 2 == 1) == selfPowered && (w / 2 % 2 == 1) == remoteWakeup
  {
    (if selfPowered then 1 else 0) + (if remoteWakeup then 2 else 0)
  }

  /** The bytes an IN request to the device leaves in a present buffer. */
  function InReply(device: Node, strings: seq<string>, currentConfig: u8,
                   bRequest: u8, wValue: u16, bufSize: nat): seq<u8>
    requires bRequest == REQUEST_GET_DESCRIPTOR ==>
      DescriptorRequestOk(device, wValue / 0x100, wValue % 0x100, bufSize)
  {
    if bRequest == REQUEST_GET_STATUS then Le16(StatusWord(false, false))[..Min(2, bufSize)]
    else if bRequest == REQUEST_GET_DESCRIPTOR then
      DescriptorAnswer(device, strings, wValue / 0x100, wValue % 0x100, bufSize)
    else if bRequest == REQUEST_GET_CONFIGURATION then [currentConfig]
    else []
  }

  predicate HandledIn(bmRequestType: u8, bRequest: u8)
  {
    bmRequestType == REQUEST_TYPE_IN_DEVICE &&
    (bRequest == REQUEST_GET_STATUS || bRequest == REQUEST_GET_DESCRIPTOR || bRequest == REQUEST_GET_CONFIGURATION)
  }

  // ---------------------------------------------------------------------
  // Parsing a configuration descriptor fetched from hardware
  // ---------------------------------------------------------------------

  /** What the hardware returned for one GET_DESCRIPTOR(CONFIG) request: a size or a negative error. */
  datatype ConfigResponse = ConfigResponse(ssize: int, buf: seq<u8>)

  /**
   * The walk over the length bytes from offset `i` until it reaches `ssize`
   * meets only lengths of at least 2 whose descriptors lie inside the buffer
   * (otherwise the source loops forever or reads past the buffer).
   */
  predicate WalkSafe(buf: seq<u8>, i: nat, ssize: int)
    decreases |buf| - i
  {
    i >= ssize || (i < |buf| && buf[i] >= 2 && i + buf[i] <= |buf| && WalkSafe(buf, i + buf[i], ssize))
  }

  /** The offset at which the walk from `i` stops. */
  function WalkEnd(buf: seq<u8>, i: nat, ssize: int): (e: int)
    requires WalkSafe(buf, i, ssize)
    ensures e >= i && e >= ssize
    ensures i < ssize ==> e > i
    decreases |buf| - i
  {
    if i >= ssize then i else WalkEnd(buf, i + buf[i], ssize)
  }

  /** The descriptors met by the walk from `i`, each a childless node. */
  function Split(buf: seq<u8>, i: nat, ssize: int): seq<Node>
    requires WalkSafe(buf, i, ssize)
    decreases |buf| - i
  {
    if i >= ssize then []
    else [FromRaw(buf[i], buf[i + 1], buf[i + 2..])] + Split(buf, i + buf[i], ssize)
  }

  predicate ParseOk(r: ConfigResponse)
  {
    r.ssize < 0 ||
    (|r.buf| == CONFIG_BUFFER_SIZE && r.ssize <= |r.buf| && r.buf[0] >= 2 && WalkSafe(r.buf, r.buf[0], r.ssize))
  }

  /** The configuration node built from one response: its own header, then every later descriptor as a flat child. */
  function ParsedConfiguration(buf: seq<u8>, ssize: int): Node
    requires ParseOk(ConfigResponse(ssize, buf)) && ssize >= 0
  {
    FromRaw(buf[0], buf[1], buf[2..]).(subnodes := Split(buf, buf[0], ssize))
  }

  /** Every split-off descriptor is a leaf. */
  lemma {:induction false} SplitIsFlat(buf: seq<u8>, i: nat, ssize: int)
    requires WalkSafe(buf, i, ssize)
    ensures forall k :: 0 <= k < |Split(buf, i, ssize)| ==> Split(buf, i, ssize)[k].subnodes == []
    decreases |buf| - i
  {
    if i < ssize {
      SplitIsFlat(buf, i + buf[i], ssize);
    }
  }

  /** The first descriptor the walk meets serialises to the bytes its length byte covers. */
  lemma SplitHead(buf: seq<u8>, i: nat, ssize: int)
    requires WalkSafe(buf, i, ssize) && i < ssize
    ensures Serialize(Split(buf, i, ssize)[0]) == buf[i..i + buf[i]]
  {
    SplitUnfold(buf, i, ssize);
    FromRawSerialize(buf[i], buf[i + 1], buf[i + 2..]);
    HeaderSlice(buf, i, buf[i]);
  }

  /** A descriptor's bytes are its two header bytes followed by the rest. */
  lemma HeaderSlice(buf: seq<u8>, i: nat, n: nat)
    requires 2 <= n && i + n <= |buf|
    ensures buf[i..i + n] == [buf[i], buf[i + 1]] + buf[i + 2..][..n - 2]
  {
  }

  /** When the lengths tile `buf[i..ssize]`, the split descriptors serialise back to those bytes. */
  lemma {:induction false} SplitSerializes(buf: seq<u8>, i: nat, ssize: int)
    requires WalkSafe(buf, i, ssize) && WalkEnd(buf, i, ssize) == ssize && ssize <= |buf|
    ensures i <= ssize && SerializeList(Split(buf, i, ssize)) == buf[i..ssize]
    decreases |buf| - i
  {
    if i < ssize {
      var j := i + buf[i];
      var parts := Split(buf, i, ssize);
      SplitSerializes(buf, j, ssize);
      SplitHead(buf, i, ssize);
      assert parts[1..] == Split(buf, j, ssize);
      assert SerializeList(parts) == buf[i..j] + buf[j..ssize];
      assert buf[i..ssize] == buf[i..j] + buf[j..ssize];
    }
  }

  /** A configuration whose descriptors tile the returned bytes serialises back to exactly those bytes. */
  lemma ConfigurationRoundTrip(buf: seq<u8>, ssize: int)
    requires ssize >= 0 && ParseOk(ConfigResponse(ssize, buf))
    requires WalkEnd(buf, buf[0], ssize) == ssize
    ensures Serialize(ParsedConfiguration(buf, ssize)) == buf[..ssize]
  {
    var own := FromRaw(buf[0], buf[1], buf[2..]);
    var conf := ParsedConfiguration(buf, ssize);
    SplitSerializes(buf, buf[0], ssize);
    FromRawSerialize(buf[0], buf[1], buf[2..]);
    HeaderSlice(buf, 0, buf[0]);
    assert RawImage(conf) == RawImage(own);
    SliceJoin(buf, 0, buf[0], ssize);
  }

  lemma SliceJoin(buf: seq<u8>, a: nat, b: nat, c: nat)
    requires a <= b <= c <= |buf|
    ensures buf[a..c] == buf[a..b] + buf[b..c]
  {
  }

  /** The configurations that a sequence of responses adds, skipping failed fetches. */
  function Configurations(responses: seq<ConfigResponse>): seq<Node>
    requires forall k :: 0 <= k < |responses| ==> ParseOk(responses[k])
  {
    if responses == [] then []
    else
      var last := responses[|responses| - 1];
      Configurations(responses[..|responses| - 1])
      + (if last.ssize < 0 then [] else [ParsedConfiguration(last.buf, last.ssize)])
  }

  /** A well-formed answer for each configuration a passthrough device announces in its descriptor. */
  predicate ResponsesOk(kind: DeviceKind, device: Node, responses: seq<ConfigResponse>)
  {
    kind == Passthrough ==>
      |responses| >= DecodeDevice(device.data).bNumConfigurations as int &&
      forall k :: 0 <= k < DecodeDevice(device.data).bNumConfigurations as int ==> ParseOk(responses[k])
  }

  /**
   * The descriptor tree after `read_descriptors`: an emulated device keeps its
   * tree; a passthrough device gets the fetched configurations appended after
   * whatever children it already had.
   */
  function DescriptorsRead(kind: DeviceKind, device: Node, responses: seq<ConfigResponse>): (r: Node)
    requires ResponsesOk(kind, device, responses)
    ensures r.bLength == device.bLength && r.bDescriptorType == device.bDescriptorType && r.data == device.data
  {
    if kind == Emulated then device
    else device.(subnodes := device.subnodes + Configurations(responses[..DecodeDevice(device.data).bNumConfigurations]))
  }

  /**
   * Reading the descriptors twice appends the configurations twice: the
   * source never clears the children, so every enumeration of a passthrough
   * device duplicates its configuration nodes.
   */
  lemma ReadTwiceDuplicates(device: Node, responses: seq<ConfigResponse>)
    requires ResponsesOk(Passthrough, device, responses)
    ensures ResponsesOk(Passthrough, DescriptorsRead(Passthrough, device, responses), responses)
    ensures var confs := Configurations(responses[..DecodeDevice(device.data).bNumConfigurations]);
      DescriptorsRead(Passthrough, DescriptorsRead(Passthrough, device, responses), responses).subnodes
        == device.subnodes + confs + confs
  {
  }

  /** The walk from `index` meets the descriptor there, then continues after it. */
  lemma SplitUnfold(buf: seq<u8>, index: nat, ssize: int)
    requires WalkSafe(buf, index, ssize) && index < ssize
    ensures WalkSafe(buf, index + buf[index], ssize)
    ensures Split(buf, index, ssize) ==
      [FromRaw(buf[index], buf[index + 1], buf[index + 2..])] + Split(buf, index + buf[index], ssize)
  {
  }

  /** One round of the parse loop: appending the next child keeps the header and moves one node from `rest` to the children. */
  lemma ParseStep(conf: Node, head: Node, child: Node, rest: seq<Node>, all: seq<Node>)
    requires conf == head.(subnodes := conf.subnodes)
    requires conf.subnodes + ([child] + rest) == all
    ensures AddNode(conf, child) == head.(subnodes := AddNode(conf, child).subnodes)
    ensures AddNode(conf, child).subnodes + rest == all
  {
    assert AddNode(conf, child).subnodes == conf.subnodes + [child];
    assert conf.subnodes + [child] + rest == conf.subnodes + ([child] + rest);
  }

  /** The minimalistic parse of one fetched configuration descriptor. */
  method ParseConfiguration(buf: seq<u8>, ssize: int) returns (conf: Node)
    requires ssize >= 0 && ParseOk(ConfigResponse(ssize, buf))
    ensures conf == ParsedConfiguration(buf, ssize)
  {
    conf := FromRaw(buf[0], buf[1], buf[2..]);
    ghost var head := conf;
    var index: nat := buf[0];
    while index < ssize
      invariant WalkSafe(buf, index, ssize)
      invariant conf == head.(subnodes := conf.subnodes)
      invariant conf.subnodes + Split(buf, index, ssize) == Split(buf, buf[0], ssize)
      decreases |buf| - index
    {
      var child := FromRaw(buf[index], buf[index + 1], buf[index + 2..]);
      SplitUnfold(buf, index, ssize);
      ParseStep(conf, head, child, Split(buf, index + buf[index], ssize), Split(buf, buf[0], ssize));
      conf := AddNode(conf, child);
      index := index + buf[index];
    }
  }

  // ---------------------------------------------------------------------
  // The device object
  // ---------------------------------------------------------------------

  datatype DeviceKind = Emulated | Passthrough

  class UsbDevice {
    const kind: DeviceKind
    /** The 7-byte bus location the manager assigned. */
    const location: seq<u8>
    /** The device descriptor; every other descriptor is a node below it. */
    var device: Node
    var currentConfig: u8
    var currentInterface: u8
    /** The string table of an emulated device (string descriptor `k` is entry `k - 1`). */
    var strings: seq<string>

    /** An emulated device built from its location only: its descriptor node stays default (length 0). */
    constructor EmulatedAt(location: seq<u8>)
      requires |location| == 7
      ensures kind == Emulated && this.location == location
      ensures device == EmptyNode() && strings == []
      ensures currentConfig == 1 && currentInterface == 0
    {
      kind := Emulated;
      this.location := location;
      device := EmptyNode();
      currentConfig := 1;
      currentInterface := 0;
      strings := [];
    }

    /** An emulated device with a device descriptor. */
    constructor EmulatedFrom(desc: DeviceDescriptor, location: seq<u8>)
      requires |location| == 7
      ensures kind == Emulated && this.location == location
      ensures device == DeviceNode(desc) && strings == []
      ensures currentConfig == 1 && currentInterface == 0
    {
      kind := Emulated;
      this.location := location;
      device := DeviceNode(desc);
      currentConfig := 1;
      currentInterface := 0;
      strings := [];
    }

    /** A passthrough device, its descriptor node copied from the hardware's device descriptor. */
    constructor PassthroughFrom(desc: DeviceDescriptor, location: seq<u8>)
      requires |location| == 7
      ensures kind == Passthrough && this.location == location
      ensures device == DeviceNode(desc) && strings == []
      ensures currentConfig == 1 && currentInterface == 0
    {
      kind := Passthrough;
      this.location := location;
      device := DeviceNode(desc);
      currentConfig := 1;
      currentInterface := 0;
      strings := [];
    }

    /** `open_device`: an emulated device always opens; a passthrough one reports the host's result. */
    function OpenResult(hostOpen: s32): (err: s32)
      reads this
      ensures kind == Emulated ==> err == LIBUSB_SUCCESS
      ensures kind == Passthrough ==> err == hostOpen
    {
      if kind == Emulated || hostOpen == LIBUSB_SUCCESS then LIBUSB_SUCCESS else hostOpen
    }

    /** The device descriptor fields read from the payload union. */
    function Descriptor(): DeviceDescriptor
      reads this
    {
      DecodeDevice(device.data)
    }

    /** `get_configuration`: writes the current configuration value into `buf[0]`. */
    method GetConfiguration(buf: array<u8>) returns (n: u32)
      requires 1 <= buf.Length
      modifies buf
      ensures n == 1 && buf[0] == currentConfig && buf[1..] == old(buf[1..])
    {
      buf[0] := currentConfig;
      n := 1;
    }

    method SetConfiguration(cfgNum: u8) returns (ok: bool)
      modifies this`currentConfig
      ensures ok && currentConfig == cfgNum
    {
      currentConfig := cfgNum;
      ok := true;
    }

    method SetInterface(intNum: u8) returns (ok: bool)
      modifies this`currentInterface
      ensures ok && currentInterface == intNum
    {
      currentInterface := intNum;
      ok := true;
    }

    /** `add_string`: the new string becomes string descriptor `|strings|` (1-based). */
    method AddString(s: string)
      modifies this`strings
      ensures strings == old(strings) + [s]
    {
      strings := strings + [s];
    }

    /** `get_descriptor`: writes the answer into `buf` and returns its length (0 for a null buffer). */
    method GetDescriptor(dtype: u8, index: u8, buf: array?<u8>, bufSize: u32) returns (count: u32)
      requires buf != null ==> bufSize <= buf.Length && DescriptorRequestOk(device, dtype, index, bufSize)
      modifies buf
      ensures buf == null ==> count == 0
      ensures buf != null ==>
        && count as int == |DescriptorAnswer(device, strings, dtype, index, bufSize)|
        && buf[..count] == DescriptorAnswer(device, strings, dtype, index, bufSize)
        && buf[count..] == old(buf[count..])
    {
      if buf == null {
        return 0;
      }
      count := Min(2, bufSize);
      if count < 2 {
        CopyInto(buf, 0, [2, dtype][..count]);
        return;
      }
      var len, body := ChooseDescriptor(dtype, index, bufSize);
      count := 2 + |body|;
      PutDescriptor(buf, len, dtype, body);
    }

    /**
     * The switch of `get_descriptor` for a buffer of at least two bytes: the
     * length byte and the payload bytes that follow the type byte.
     */
    method ChooseDescriptor(dtype: u8, index: u8, bufSize: u32) returns (len: u8, body: seq<u8>)
      requires 2 <= bufSize && DescriptorRequestOk(device, dtype, index, bufSize)
      ensures [len, dtype] + body == DescriptorAnswer(device, strings, dtype, index, bufSize)
    {
      // the header a request without a more specific answer gets
      len, body := 2, [];
      if dtype == DESCRIPTOR_DEVICE {
        len := device.bLength;
        assert bufSize % 0x100 == bufSize;
        var count := Min(len, bufSize % 0x100);
        body := device.data[..count - 2];
      } else if dtype == DESCRIPTOR_CONFIG {
        if index < |device.subnodes| {
          len := device.subnodes[index].bLength;
          assert bufSize % 0x100 == bufSize;
          var count := Min(len, bufSize % 0x100);
          body := device.subnodes[index].data[..count - 2];
        }
      } else if dtype == DESCRIPTOR_STRING {
        if index < |strings| + 1 {
          if index == 0 {
            len := 4;
            assert bufSize % 0x100 == bufSize;
            var count := Min(len, bufSize % 0x100);
            body := Le16(LANGID_EN_US)[..count - 2];
          } else {
            len, body := StringDescriptor(strings[index - 1], bufSize);
          }
        }
      }
    }

    /** The answer for a string from the table: its UTF-16LE code units, length byte capped at 255. */
    static method StringDescriptor(s: string, bufSize: u32) returns (len: u8, body: seq<u8>)
      requires 2 <= bufSize
      ensures var units := Utf16.LeBytes(Utf16.Encode(s));
        && len == Min(|units| + 2, 0xFF)
        && body == units[..Min(len, Min(0xFF, bufSize)) - 2]
    {
      var units := Utf16.Encode(s);
      len := Min(2 * |units| + 2, 0xFF);
      assert Min(0xFF, bufSize) % 0x100 == Min(0xFF, bufSize);
      var count := Min(len, Min(0xFF, bufSize) % 0x100);
      body := Utf16.LeBytes(units)[..count - 2];
    }

    /** Writes a descriptor header and `body` at the start of `buf`. */
    static method PutDescriptor(buf: array<u8>, len: u8, dtype: u8, body: seq<u8>)
      requires 2 + |body| <= buf.Length
      modifies buf
      ensures buf[..2 + |body|] == [len, dtype] + body
      ensures buf[2 + |body|..] == old(buf[2 + |body|..])
    {
      buf[0] := len;
      buf[1] := dtype;
      CopyInto(buf, 2, body);
      assert buf[..2 + |body|] == [buf[0], buf[1]] + buf[2..2 + |body|];
    }

    /** `get_status`: writes up to two bytes of the little-endian status word. */
    method GetStatus(selfPowered: bool, remoteWakeup: bool, buf: array?<u8>, bufSize: u32) returns (count: u32)
      requires buf != null ==> bufSize <= buf.Length
      modifies buf
      ensures count == (if buf == null then 0 else Min(2, bufSize))
      ensures buf != null ==>
        buf[..count] == Le16(StatusWord(selfPowered, remoteWakeup))[..count] && buf[count..] == old(buf[count..])
    {
      count := if buf != null then Min(2, bufSize) else 0;
      var deviceStatus := StatusWord(selfPowered, remoteWakeup);
      if buf != null {
        CopyInto(buf, 0, Le16(deviceStatus)[..count]);
      }
    }

    /** The inputs an emulated control transfer needs to stay inside the caller's buffer. */
    predicate ControlRequestOk(bmRequestType: u8, bRequest: u8, wValue: u16, bufSize: u32, buf: array?<u8>)
      reads this
    {
      && (buf != null ==> bufSize <= buf.Length)
      && (bmRequestType == REQUEST_TYPE_IN_DEVICE && bRequest == REQUEST_GET_DESCRIPTOR && buf != null ==>
            DescriptorRequestOk(device, wValue / 0x100, wValue % 0x100, bufSize))
      && (bmRequestType == REQUEST_TYPE_IN_DEVICE && bRequest == REQUEST_GET_CONFIGURATION ==>
            buf != null && buf.Length >= 1)
    }

    /**
     * Emulated `control_transfer`: answers the request at once, records the
     * outcome as a fake completion due `EMULATED_LATENCY` after `now` (the
     * value of `get_timestamp()`, which the source fixes at 0), and leaves
     * `busy` and the pending queue alone.
     */
    method ControlTransfer(bmRequestType: u8, bRequest: u8, wValue: u16, wIndex: u16, wLength: u16,
                           bufSize: u32, buf: array?<u8>, t: Transfer, now: nat) returns (t': Transfer)
      requires kind == Emulated
      requires ControlRequestOk(bmRequestType, bRequest, wValue, bufSize, buf)
      modifies this`currentConfig, this`currentInterface, buf
      ensures t'.busy == t.busy && t'.controlDest == t.controlDest
      ensures t' == t.(fake := true, expectedResult := LIBUSB_SUCCESS, expectedTime := now + EMULATED_LATENCY,
                       expectedCount := t'.expectedCount)
      ensures currentConfig ==
        if bmRequestType == REQUEST_TYPE_OUT_DEVICE && bRequest == REQUEST_SET_CONFIGURATION
        then wValue % 0x100 else old(currentConfig)
      ensures currentInterface ==
        if bmRequestType == REQUEST_TYPE_OUT_INTERFACE && bRequest == REQUEST_SET_INTERFACE
        then wIndex % 0x100 else old(currentInterface)
      ensures !HandledIn(bmRequestType, bRequest) ==> t'.expectedCount == bufSize
      ensures !HandledIn(bmRequestType, bRequest) && buf != null ==> buf[..] == old(buf[..])
      ensures HandledIn(bmRequestType, bRequest) && buf == null ==> t'.expectedCount == 0
      ensures HandledIn(bmRequestType, bRequest) && buf != null ==>
        var reply := InReply(old(device), old(strings), old(currentConfig), bRequest, wValue, bufSize);
        && t'.expectedCount as int == |reply|
        && buf[..|reply|] == reply
        && buf[|reply|..] == old(buf[|reply|..])
    {
      t' := t.(fake := true, expectedCount := bufSize, expectedResult := LIBUSB_SUCCESS,
               expectedTime := now + EMULATED_LATENCY);
      if bmRequestType == REQUEST_TYPE_OUT_DEVICE {
        if bRequest == REQUEST_SET_CONFIGURATION {
          var _ := SetConfiguration(wValue % 0x100);
        }
      } else if bmRequestType == REQUEST_TYPE_OUT_INTERFACE {
        if bRequest == REQUEST_SET_INTERFACE {
          var _ := SetInterface(wIndex % 0x100);
        }
      } else if bmRequestType == REQUEST_TYPE_IN_DEVICE {
        if bRequest == REQUEST_GET_STATUS {
          var n := GetStatus(false, false, buf, bufSize);
          t' := t'.(expectedCount := n);
        } else if bRequest == REQUEST_GET_DESCRIPTOR {
          var n := GetDescriptor(wValue / 0x100, wValue % 0x100, buf, bufSize);
          t' := t'.(expectedCount := n);
        } else if bRequest == REQUEST_GET_CONFIGURATION {
          var n := GetConfiguration(buf);
          t' := t'.(expectedCount := n);
        }
      }
    }

    function NumConfigurations(): u8
      reads this
    {
      Descriptor().bNumConfigurations
    }

    /** A passthrough device needs one well-formed response per configuration index. */
    predicate ReadOk(responses: seq<ConfigResponse>)
      reads this
    {
      ResponsesOk(kind, device, responses)
    }

    /**
     * `read_descriptors`: a no-op for an emulated device; a passthrough device
     * appends one parsed configuration node per successful fetch, in index
     * order (`responses[k]` is what fetching configuration `k` returned).
     */
    method ReadDescriptors(responses: seq<ConfigResponse>)
      requires ReadOk(responses)
      modifies this`device
      ensures device.bLength == old(device.bLength) && device.bDescriptorType == old(device.bDescriptorType)
      ensures device.data == old(device.data) && Descriptor() == old(Descriptor())
      ensures kind == Emulated ==> device == old(device)
      ensures kind == Passthrough ==>
        device.subnodes == old(device.subnodes) + Configurations(responses[..old(NumConfigurations())])
      ensures device == DescriptorsRead(kind, old(device), responses)
    {
      if kind == Emulated {
        return;
      }
      var n := NumConfigurations();
      for index := 0 to n
        invariant device == old(device).(subnodes := old(device.subnodes) + Configurations(responses[..index]))
      {
        assert responses[..index + 1][..index] == responses[..index];
        var r := responses[index];
        if r.ssize >= 0 {
          var conf := ParseConfiguration(r.buf, r.ssize);
          device := AddNode(device, conf);
        }
      }
    }
  }
}
