/**
 * The USB descriptor tree (`UsbDescriptorNode`): one descriptor (a length byte,
 * a type byte and a payload of up to 255 bytes) plus its ordered child
 * descriptors. Its wire form is the descriptor chain of section 9.5 of the
 * USB 2.0 specification: the node's own header and payload, then every child's
 * wire form, depth first, in child order.
 */
module DescriptorTree {
  import opened Bytes

  const DESCRIPTOR_DEVICE: u8 := 0x01
  const DESCRIPTOR_CONFIG: u8 := 0x02
  const DESCRIPTOR_STRING: u8 := 0x03

  /** Size of the payload union: `u8 data[0xFF]`. */
  const PAYLOAD_SIZE: nat := 0xFF

  /** The payload union, always 255 bytes (zero-initialised in the source). */
  type Payload = s: seq<u8> | |s| == 0xFF witness seq(0xFF, _ => 0)

  datatype Node = Node(bLength: u8, bDescriptorType: u8, data: Payload, subnodes: seq<Node>)

  function Zeros(n: nat): (r: seq<u8>)
    ensures |r| == n && forall i :: 0 <= i < n ==> r[i] == 0
  {
    seq(n, _ => 0)
  }

  /** A default-constructed node: length 0, type 0, zero payload, no children. */
  function EmptyNode(): (n: Node)
    ensures Serialize(n) == [] && Size(n) == 0
  {
    Node(0, 0, Zeros(PAYLOAD_SIZE), [])
  }

  /** The node's memory image from its first field on: header, then the payload union. */
  function RawImage(n: Node): (r: seq<u8>)
    ensures |r| == PAYLOAD_SIZE + 2
  {
    [n.bLength, n.bDescriptorType] + n.data
  }

  /** The `bLength` bytes a node writes for itself (header plus payload, no children). */
  function Own(n: Node): (r: seq<u8>)
    ensures |r| == n.bLength
  {
    RawImage(n)[..n.bLength]
  }

  /** Full pre-order wire form of a node and all its descendants. */
  function Serialize(n: Node): seq<u8>
  {
    Own(n) + SerializeList(n.subnodes)
  }

  function SerializeList(cs: seq<Node>): seq<u8>
  {
    if cs == [] then [] else Serialize(cs[0]) + SerializeList(cs[1..])
  }

  /** `get_size`: the node's own length plus the sizes of its children. */
  function Size(n: Node): nat
  {
    n.bLength + SizeList(n.subnodes)
  }

  function SizeList(cs: seq<Node>): nat
  {
    if cs == [] then 0 else Size(cs[0]) + SizeList(cs[1..])
  }

  /** The serialised form of a tree is exactly `get_size()` bytes long. */
  lemma {:induction false} SizeIsSerializedLength(n: Node)
    ensures |Serialize(n)| == Size(n)
    decreases n, 1
  {
    SizeListIsSerializedLength(n.subnodes);
  }

  lemma {:induction false} SizeListIsSerializedLength(cs: seq<Node>)
    ensures |SerializeList(cs)| == SizeList(cs)
    decreases cs, 0
  {
    if cs != [] {
      SizeIsSerializedLength(cs[0]);
      SizeListIsSerializedLength(cs[1..]);
    }
  }

  /** Serialising a concatenation of sibling lists concatenates their wire forms. */
  lemma {:induction false} SerializeListAppend(a: seq<Node>, b: seq<Node>)
    ensures SerializeList(a + b) == SerializeList(a) + SerializeList(b)
  {
    if a == [] {
      assert a + b == b;
    } else {
      assert (a + b)[0] == a[0];
      assert (a + b)[1..] == a[1..] + b;
      SerializeListAppend(a[1..], b);
    }
  }

  lemma SerializeListSingle(c: Node)
    ensures SerializeList([c]) == Serialize(c)
  {
    assert [c][1..] == [];
  }

  /** The bytes a node has written after visiting its first `i` children. */
  ghost function Written(n: Node, i: nat): seq<u8>
    requires i <= |n.subnodes|
  {
    Own(n) + SerializeList(n.subnodes[..i])
  }

  /** After `i` children the written bytes are a prefix of the node's wire form. */
  lemma {:induction false} WrittenIsPrefix(n: Node, i: nat)
    requires i <= |n.subnodes|
    ensures Serialize(n) == Written(n, i) + SerializeList(n.subnodes[i..])
    ensures |Written(n, i)| <= |Serialize(n)|
  {
    assert n.subnodes == n.subnodes[..i] + n.subnodes[i..];
    SerializeListAppend(n.subnodes[..i], n.subnodes[i..]);
  }

  /** Visiting one more child appends that child's wire form. */
  lemma WrittenStep(n: Node, i: nat)
    requires i < |n.subnodes|
    ensures Written(n, i + 1) == Written(n, i) + Serialize(n.subnodes[i])
  {
    assert n.subnodes[..i + 1] == n.subnodes[..i] + [n.subnodes[i]];
    SerializeListAppend(n.subnodes[..i], [n.subnodes[i]]);
    SerializeListSingle(n.subnodes[i]);
  }

  /**
   * Typed constructor: the payload is the bytes of a descriptor struct,
   * `bLength` is that struct's size plus the two header bytes.
   */
  function Typed(descriptorType: u8, bytes: seq<u8>): (n: Node)
    requires |bytes| <= PAYLOAD_SIZE - 2
    ensures n.subnodes == [] && n.bDescriptorType == descriptorType
    ensures Serialize(n) == [|bytes| + 2, descriptorType] + bytes
    ensures n.data[..|bytes|] == bytes
  {
    var n := Node(|bytes| + 2, descriptorType, bytes + Zeros(PAYLOAD_SIZE - |bytes|), []);
    assert Serialize(n) == Own(n);
    assert RawImage(n)[..n.bLength] == [|bytes| + 2, descriptorType] + bytes;
    n
  }

  /**
   * Raw constructor: keeps the given `bLength` and copies `bLength - 2`
   * payload bytes from `src`; the copy size underflows for `bLength < 2`.
   */
  function FromRaw(bLength: u8, descriptorType: u8, src: seq<u8>): (n: Node)
    requires 2 <= bLength && bLength - 2 <= |src|
    ensures n.subnodes == [] && n.bLength == bLength && n.bDescriptorType == descriptorType
    ensures n.data[..bLength - 2] == src[..bLength - 2]
  {
    Node(bLength, descriptorType, src[..bLength - 2] + Zeros(PAYLOAD_SIZE - (bLength - 2)), [])
  }

  /** A raw node serialises to its header followed by the `bLength - 2` copied bytes. */
  lemma FromRawSerialize(bLength: u8, descriptorType: u8, src: seq<u8>)
    requires 2 <= bLength && bLength - 2 <= |src|
    ensures Own(FromRaw(bLength, descriptorType, src)) == [bLength, descriptorType] + src[..bLength - 2]
    ensures Serialize(FromRaw(bLength, descriptorType, src)) == [bLength, descriptorType] + src[..bLength - 2]
  {
    var n := FromRaw(bLength, descriptorType, src);
    assert Serialize(n) == Own(n);
    assert RawImage(n)[..bLength] == [bLength, descriptorType] + src[..bLength - 2];
  }

  /**
   * `add_node`: appends one child at the end; the returned reference is the
   * new last child, `r.subnodes[|n.subnodes|]`.
   */
  function AddNode(n: Node, child: Node): (r: Node)
    ensures r.bLength == n.bLength && r.bDescriptorType == n.bDescriptorType && r.data == n.data
    ensures |r.subnodes| == |n.subnodes| + 1 && r.subnodes[..|n.subnodes|] == n.subnodes
    ensures r.subnodes[|n.subnodes|] == child
  {
    n.(subnodes := n.subnodes + [child])
  }

  /** Adding a child appends its wire form to the parent's and its size to the parent's size. */
  lemma AddNodeSerialize(n: Node, child: Node)
    ensures Serialize(AddNode(n, child)) == Serialize(n) + Serialize(child)
    ensures Size(AddNode(n, child)) == Size(n) + Size(child)
  {
    var r := AddNode(n, child);
    assert r.subnodes == n.subnodes + [child];
    SerializeListAppend(n.subnodes, [child]);
    SerializeListSingle(child);
    SizeIsSerializedLength(n);
    SizeIsSerializedLength(child);
    SizeIsSerializedLength(r);
  }

  /** `get_size`, with its loop over the children. */
  method GetSize(n: Node) returns (size: nat)
    ensures size == Size(n)
    decreases n
  {
    size := n.bLength;
    for i := 0 to |n.subnodes|
      invariant size == n.bLength + SizeList(n.subnodes[..i])
    {
      var childSize := GetSize(n.subnodes[i]);
      SizeListSnoc(n.subnodes[..i], n.subnodes[i]);
      assert n.subnodes[..i + 1] == n.subnodes[..i] + [n.subnodes[i]];
      size := size + childSize;
    }
    assert n.subnodes[..|n.subnodes|] == n.subnodes;
  }

  lemma SizeListSnoc(cs: seq<Node>, c: Node)
    ensures SizeList(cs + [c]) == SizeList(cs) + Size(c)
  {
    SerializeListAppend(cs, [c]);
    SerializeListSingle(c);
    SizeListIsSerializedLength(cs + [c]);
    SizeListIsSerializedLength(cs);
    SizeIsSerializedLength(c);
  }

  /** `a` with `bytes` written over it from offset `off` on. */
  function Overwrite(a: seq<u8>, off: nat, bytes: seq<u8>): (r: seq<u8>)
    requires off + |bytes| <= |a|
    ensures |r| == |a| && r[off..off + |bytes|] == bytes
    ensures r[..off] == a[..off] && r[off + |bytes|..] == a[off + |bytes|..]
  {
    a[..off] + bytes + a[off + |bytes|..]
  }

  /** Two adjacent writes are one write of the concatenation. */
  lemma OverwriteAdjacent(a: seq<u8>, off: nat, x: seq<u8>, y: seq<u8>)
    requires off + |x| + |y| <= |a|
    ensures Overwrite(Overwrite(a, off, x), off + |x|, y) == Overwrite(a, off, x + y)
  {
    var b := Overwrite(a, off, x);
    assert b[..off + |x|] == a[..off] + x;
    assert b[off + |x| + |y|..] == a[off + |x| + |y|..];
  }

  /** `memcpy(dst + off, src, |src|)`. */
  method CopyInto(dst: array<u8>, off: nat, src: seq<u8>)
    requires off + |src| <= dst.Length
    modifies dst
    ensures dst[..] == Overwrite(old(dst[..]), off, src)
  {
    forall j | off <= j < off + |src| {
      dst[j] := src[j - off];
    }
    assert dst[..] == Overwrite(old(dst[..]), off, src);
  }

  /**
   * `write_data(ptr, max_size)`: writes the node's pre-order wire form into
   * `buf[off..]`, silently truncated to `maxSize` bytes; it returns how many
   * bytes it wrote and touches nothing outside them.
   */
  method WriteData(n: Node, buf: array<u8>, off: nat, maxSize: nat) returns (size: nat)
    requires off + maxSize <= buf.Length
    modifies buf
    ensures size == Min(maxSize, Size(n)) && size <= |Serialize(n)|
    ensures buf[..] == Overwrite(old(buf[..]), off, Serialize(n)[..size])
    decreases n, 1
  {
    size := Min(n.bLength, maxSize);
    CopyInto(buf, off, Own(n)[..size]);
    assert Written(n, 0) == Own(n) by { assert n.subnodes[..0] == []; }
    var i := 0;
    while i < |n.subnodes|
      invariant 0 <= i <= |n.subnodes|
      invariant size == Min(maxSize, |Written(n, i)|)
      invariant buf[..] == Overwrite(old(buf[..]), off, Written(n, i)[..size])
    {
      var remaining := maxSize - size;
      if remaining == 0 {
        break;
      }
      var w := WriteChild(n, i, buf, off, size, maxSize, old(buf[..]));
      size := size + w;
      i := i + 1;
    }
    FinishWrite(n, i, Written(n, i), size, maxSize);
  }

  /** One turn of the loop in `write_data`: child `i` written after the `size` bytes already in place. */
  method WriteChild(n: Node, i: nat, buf: array<u8>, off: nat, size: nat, maxSize: nat, ghost orig: seq<u8>)
    returns (w: nat)
    requires i < |n.subnodes| && size == |Written(n, i)| < maxSize && off + maxSize <= buf.Length
    requires |orig| == buf.Length && buf[..] == Overwrite(orig, off, Written(n, i)[..size])
    modifies buf
    ensures size + w == Min(maxSize, |Written(n, i + 1)|)
    ensures buf[..] == Overwrite(orig, off, Written(n, i + 1)[..size + w])
    decreases n, 0
  {
    w := WriteData(n.subnodes[i], buf, off + size, maxSize - size);
    SizeIsSerializedLength(n.subnodes[i]);
    WrittenStep(n, i);
    AppendedWrite(orig, off, size, w, Written(n, i), Serialize(n.subnodes[i]));
    MinStep(maxSize, size, w, |Serialize(n.subnodes[i])|);
  }

  /** Writing `next[..w]` right after a fully written `prior` extends the written prefix of `prior + next`. */
  lemma AppendedWrite(orig: seq<u8>, off: nat, size: nat, w: nat, prior: seq<u8>, next: seq<u8>)
    requires |prior| == size && w <= |next| && off + size + w <= |orig|
    ensures Overwrite(Overwrite(orig, off, prior[..size]), off + size, next[..w])
         == Overwrite(orig, off, (prior + next)[..size + w])
  {
    assert prior[..size] == prior;
    assert (prior + next)[..size + w] == prior + next[..w];
    OverwriteAdjacent(orig, off, prior, next[..w]);
  }

  /** Bookkeeping of the truncated size: one more child of `b` bytes, truncated to what is left. */
  lemma MinStep(maxSize: nat, size: nat, w: nat, b: nat)
    requires size < maxSize && w == Min(maxSize - size, b)
    ensures size + w == Min(maxSize, size + b)
  {
  }

  /** Once every child is written, or the budget is used up, the written bytes are a prefix of the wire form. */
  lemma FinishWrite(n: Node, i: nat, done: seq<u8>, size: nat, maxSize: nat)
    requires i <= |n.subnodes| && done == Written(n, i) && size == Min(maxSize, |done|)
    requires i == |n.subnodes| || size == maxSize
    ensures size == Min(maxSize, Size(n)) && size <= |Serialize(n)|
    ensures Serialize(n)[..size] == done[..size]
  {
    WrittenIsPrefix(n, i);
    SizeIsSerializedLength(n);
    if i == |n.subnodes| {
      assert n.subnodes[i..] == [];
    }
  }

  /** The fields of a standard device descriptor (section 9.6.1 of USB 2.0), after the header. */
  datatype DeviceDescriptor = DeviceDescriptor(
    bcdUSB: u16, bDeviceClass: u8, bDeviceSubClass: u8, bDeviceProtocol: u8,
    bMaxPacketSize0: u8, idVendor: u16, idProduct: u16, bcdDevice: u16,
    iManufacturer: u8, iProduct: u8, iSerialNumber: u8, bNumConfigurations: u8)

  /** Reading the `_device` member of the payload union. */
  function DecodeDevice(data: seq<u8>): DeviceDescriptor
    requires |data| >= 16
  {
    DeviceDescriptor(FromLe16(data[0], data[1]), data[2], data[3], data[4], data[5],
                     FromLe16(data[6], data[7]), FromLe16(data[8], data[9]),
                     FromLe16(data[10], data[11]), data[12], data[13], data[14], data[15])
  }

  /** The 16-byte little-endian memory layout of `UsbDeviceDescriptor`. */
  function EncodeDevice(d: DeviceDescriptor): (r: seq<u8>)
    ensures |r| == 16 && DecodeDevice(r) == d
  {
    Le16(d.bcdUSB) + [d.bDeviceClass, d.bDeviceSubClass, d.bDeviceProtocol, d.bMaxPacketSize0]
    + Le16(d.idVendor) + Le16(d.idProduct) + Le16(d.bcdDevice)
    + [d.iManufacturer, d.iProduct, d.iSerialNumber, d.bNumConfigurations]
  }

  /** A device node built by the typed constructor: 18 bytes long, type DEVICE, fields readable back. */
  function DeviceNode(d: DeviceDescriptor): (n: Node)
    ensures n.bLength == 18 && n.bDescriptorType == DESCRIPTOR_DEVICE && n.subnodes == []
    ensures Serialize(n) == [18, DESCRIPTOR_DEVICE] + EncodeDevice(d)
    ensures DecodeDevice(n.data) == d
  {
    var n := Typed(DESCRIPTOR_DEVICE, EncodeDevice(d));
    assert n.data[..16] == EncodeDevice(d);
    n
  }
}
