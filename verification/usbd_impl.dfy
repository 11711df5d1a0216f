/**
 * The USB manager (`UsbHandler`): a fixed pool of transfer slots with a
 * cyclic allocator, the queue of emulated ("fake") transfers that `operate`
 * completes once they are due, the completion of transfers that came back
 * from the host library, and the virtual bus: the connected and opened device
 * lists and the enumeration records handed to the guest.
 */
module UsbdImpl {
  import opened Bytes
  import opened DescriptorTree
  import opened UsbDevices

  /** `MAX_SYS_USBD_TRANSFERS`: number of transfer slots. */
  const MAX_TRANSFERS: nat := 0x44

  const LIBUSB_TRANSFER_NO_DEVICE: s32 := 5
  const LIBUSB_TRANSFER_TYPE_CONTROL: u8 := 0
  /** Bytes of setup packet in front of the data of a control transfer buffer. */
  const LIBUSB_CONTROL_SETUP_SIZE: nat := 8
  const LIBUSB_DT_DEVICE_SIZE: u8 := 18
  const LIBUSB_ERROR_NO_DEVICE: s32 := -4

  // libusb_speed
  const SPEED_LOW: u8 := 1
  const SPEED_FULL: u8 := 2
  const SPEED_HIGH: u8 := 3
  const SPEED_SUPER: u8 := 4
  const SPEED_SUPER_PLUS: u8 := 5

  /** The time `operate` compares due times against: the source fixes it at 0. */
  const OPERATE_TIMESTAMP: nat := 0

  // ---------------------------------------------------------------------
  // Transfers coming back from the host library
  // ---------------------------------------------------------------------

  datatype IsoPacketDescriptor = IsoPacketDescriptor(actualLength: nat, status: u8)

  /** The fields of a completed `libusb_transfer` that completion reads. */
  datatype LibusbTransfer = LibusbTransfer(
    status: s32,
    actualLength: nat,
    transferType: u8,
    isoPackets: seq<IsoPacketDescriptor>,
    buffer: seq<u8>)

  /** One isochronous packet entry: status in the top 4 bits, length in the low 12. */
  function PackIso(status: u8, actualLength: nat): (w: u16)
    ensures w / 0x1000 == status % 0x10 && w % 0x1000 == actualLength % 0x1000
  {
    (status % 0x10) * 0x1000 + actualLength % 0x1000
  }

  /** The packet table after completion: the first `|descs|` entries packed, the rest kept. */
  function IsoUpdate(packets: IsoPackets, descs: seq<IsoPacketDescriptor>): IsoPackets
    requires |descs| <= 8
  {
    seq(8, m requires 0 <= m < 8 =>
      if m < |descs| then PackIso(descs[m].status, descs[m].actualLength) else packets[m])
  }

  /** The packing loop of `transfer_complete` over the packets the host library reported. */
  method PackIsoPackets(packets: IsoPackets, descs: seq<IsoPacketDescriptor>) returns (r: IsoPackets)
    requires |descs| <= 8
    ensures r == IsoUpdate(packets, descs)
  {
    r := packets;
    for index := 0 to |descs|
      invariant forall m :: 0 <= m < 8 ==>
        r[m] == if m < index then PackIso(descs[m].status, descs[m].actualLength) else packets[m]
    {
      r := r[index := PackIso(descs[index].status, descs[index].actualLength)];
    }
  }

  /** The slot after `transfer_complete` (the control-destination copy aside). */
  function Completed(t: Transfer, lt: LibusbTransfer): Transfer
    requires |lt.isoPackets| <= 8 && lt.actualLength < 0x1_0000_0000
    requires -0x8000_0000 <= lt.status < 0x8000_0000
  {
    t.(result := lt.status,
       count := lt.actualLength,
       isoPackets := IsoUpdate(t.isoPackets, lt.isoPackets),
       controlDest := if lt.transferType == LIBUSB_TRANSFER_TYPE_CONTROL then null else t.controlDest,
       busy := false)
  }

  // ---------------------------------------------------------------------
  // The fake-transfer queue, as values
  // ---------------------------------------------------------------------

  /** Every queued slot exists and is busy and fake, and no slot is queued twice. */
  ghost predicate QueueOk(q: seq<nat>, slots: seq<Transfer>)
  {
    && (forall k :: 0 <= k < |q| ==> q[k] < |slots| && slots[q[k]].busy && slots[q[k]].fake)
    && (forall a, b :: 0 <= a < b < |q| ==> q[a] != q[b])
  }

  /** The queue entries not yet due at `now`, in their original order. */
  function Pending(q: seq<nat>, slots: seq<Transfer>, now: nat): seq<nat>
    requires forall k :: 0 <= k < |q| ==> q[k] < |slots|
  {
    if q == [] then []
    else
      var last := q[|q| - 1];
      Pending(q[..|q| - 1], slots, now) + (if slots[last].expectedTime > now then [last] else [])
  }

  /** A due fake transfer delivers its prepared outcome and frees its slot. */
  function FakeCompleted(t: Transfer): (r: Transfer)
    ensures !r.busy && !r.fake && r.result == t.expectedResult && r.count == t.expectedCount
    ensures r.(result := t.result, count := t.count, busy := t.busy, fake := t.fake) == t
  {
    t.(result := t.expectedResult, count := t.expectedCount, fake := false, busy := false)
  }

  /** Slot `s` after sweeping queue `q` at `now`. */
  function Swept(slots: seq<Transfer>, q: seq<nat>, now: nat, s: nat): Transfer
    requires s < |slots|
  {
    if s in q && slots[s].expectedTime <= now then FakeCompleted(slots[s]) else slots[s]
  }

  /** The whole slot table after sweeping queue `q` at `now`. */
  function SweptAll(slots: seq<Transfer>, q: seq<nat>, now: nat): (r: seq<Transfer>)
    ensures |r| == |slots| && forall s :: 0 <= s < |slots| ==> r[s] == Swept(slots, q, now, s)
  {
    seq(|slots|, s requires 0 <= s < |slots| => Swept(slots, q, now, s))
  }

  /** A slot stays queued exactly when it was queued and is not yet due. */
  lemma {:induction false} PendingMembership(q: seq<nat>, slots: seq<Transfer>, now: nat, x: nat)
    requires forall k :: 0 <= k < |q| ==> q[k] < |slots|
    ensures x in Pending(q, slots, now) <==> x in q && slots[x].expectedTime > now
  {
    if q != [] {
      PendingMembership(q[..|q| - 1], slots, now, x);
      assert q == q[..|q| - 1] + [q[|q| - 1]];
    }
  }

  /** The sweep filters each part of a queue independently, so relative order is kept. */
  lemma {:induction false} PendingAppend(q1: seq<nat>, q2: seq<nat>, slots: seq<Transfer>, now: nat)
    requires forall k :: 0 <= k < |q1| ==> q1[k] < |slots|
    requires forall k :: 0 <= k < |q2| ==> q2[k] < |slots|
    ensures Pending(q1 + q2, slots, now) == Pending(q1, slots, now) + Pending(q2, slots, now)
  {
    if q2 != [] {
      var q2' := q2[..|q2| - 1];
      assert (q1 + q2)[..|q1 + q2| - 1] == q1 + q2';
      PendingAppend(q1, q2', slots, now);
    } else {
      assert q1 + q2 == q1;
    }
  }

  /** Filtering a queue without duplicates gives one without duplicates. */
  lemma {:induction false} PendingDistinct(q: seq<nat>, slots: seq<Transfer>, now: nat)
    requires forall k :: 0 <= k < |q| ==> q[k] < |slots|
    requires forall a, b :: 0 <= a < b < |q| ==> q[a] != q[b]
    ensures var p := Pending(q, slots, now); forall a, b :: 0 <= a < b < |p| ==> p[a] != p[b]
  {
    if q != [] {
      var init := q[..|q| - 1];
      var last := q[|q| - 1];
      PendingDistinct(init, slots, now);
      PendingMembership(init, slots, now, last);
    }
  }

  /** Rewriting a slot that is not queued keeps the queue well formed. */
  lemma UnqueuedUpdateKeepsQueue(q: seq<nat>, slots: seq<Transfer>, id: nat, t: Transfer)
    requires QueueOk(q, slots) && id < |slots| && id !in q
    ensures QueueOk(q, slots[id := t])
  {
    forall k | 0 <= k < |q|
      ensures q[k] != id
    {
    }
  }

  /** A sweep leaves a well-formed queue: what stays queued is untouched, hence still busy and fake. */
  lemma SweepKeepsQueueValid(q: seq<nat>, slots: seq<Transfer>, now: nat, swept: seq<Transfer>)
    requires QueueOk(q, slots) && |swept| == |slots|
    requires forall s :: 0 <= s < |slots| ==> swept[s] == Swept(slots, q, now, s)
    ensures QueueOk(Pending(q, slots, now), swept)
  {
    var p := Pending(q, slots, now);
    PendingDistinct(q, slots, now);
    forall k | 0 <= k < |p|
      ensures p[k] < |swept| && swept[p[k]].busy && swept[p[k]].fake
    {
      PendingMembership(q, slots, now, p[k]);
    }
  }

  /** One step of the sweep: the effect of looking at queue entry `j`. */
  lemma SweepStep(q: seq<nat>, slots: seq<Transfer>, now: nat, j: nat)
    requires QueueOk(q, slots) && j < |q|
    ensures Pending(q[..j + 1], slots, now) ==
      Pending(q[..j], slots, now) + (if slots[q[j]].expectedTime > now then [q[j]] else [])
    ensures q[j + 1..] == q[j..][1..] && q[j..][0] == q[j]
    ensures SweptAll(slots, q[..j], now)[q[j]] == slots[q[j]]
    ensures SweptAll(slots, q[..j + 1], now) ==
      if slots[q[j]].expectedTime <= now
      then SweptAll(slots, q[..j], now)[q[j] := FakeCompleted(slots[q[j]])]
      else SweptAll(slots, q[..j], now)
  {
    assert q[..j + 1][..j] == q[..j];
    assert q[..j + 1] == q[..j] + [q[j]];
  }

  /** The sweep has looked at the first `j` entries of `q0`; `i` of them are still queued in `queue`. */
  ghost predicate SweptUpTo(q0: seq<nat>, slots0: seq<Transfer>, now: nat, j: nat, i: nat,
                            queue: seq<nat>, table: seq<Transfer>)
    requires j <= |q0| && QueueOk(q0, slots0)
  {
    && queue == Pending(q0[..j], slots0, now) + q0[j..]
    && i == |Pending(q0[..j], slots0, now)|
    && table == SweptAll(slots0, q0[..j], now)
  }

  /** Taking out the entry that follows prefix `p`. */
  lemma QueueSplit(p: seq<nat>, rest: seq<nat>)
    requires rest != []
    ensures (p + rest)[|p|] == rest[0]
    ensures (p + rest)[..|p|] + (p + rest)[|p| + 1..] == p + rest[1..]
  {
    assert (p + rest)[..|p|] == p;
    assert (p + rest)[|p| + 1..] == rest[1..];
  }

  /** The entry the sweep looks at next is `q0[j]`, at position `i`, and its slot is still untouched. */
  lemma SweepEntryAt(q0: seq<nat>, slots0: seq<Transfer>, now: nat, j: nat, i: nat,
                     queue: seq<nat>, table: seq<Transfer>)
    requires j < |q0| && QueueOk(q0, slots0)
    requires SweptUpTo(q0, slots0, now, j, i, queue, table)
    ensures i < |queue| && queue[i] == q0[j] && q0[j] < |table| && table[q0[j]] == slots0[q0[j]]
  {
    SweepStep(q0, slots0, now, j);
    QueueSplit(Pending(q0[..j], slots0, now), q0[j..]);
  }

  /** An entry that is not yet due stays where it is. */
  lemma SweepKeep(q0: seq<nat>, slots0: seq<Transfer>, now: nat, j: nat, i: nat,
                  queue: seq<nat>, table: seq<Transfer>)
    requires j < |q0| && QueueOk(q0, slots0) && slots0[q0[j]].expectedTime > now
    requires SweptUpTo(q0, slots0, now, j, i, queue, table)
    ensures SweptUpTo(q0, slots0, now, j + 1, i + 1, queue, table)
  {
    var p := Pending(q0[..j], slots0, now);
    SweepStep(q0, slots0, now, j);
    assert q0[j..] == [q0[j]] + q0[j + 1..];
    assert queue == (p + [q0[j]]) + q0[j + 1..];
  }

  /** A due entry is completed in the table and leaves the queue. */
  lemma SweepDrop(q0: seq<nat>, slots0: seq<Transfer>, now: nat, j: nat, i: nat,
                  queue: seq<nat>, table: seq<Transfer>)
    requires j < |q0| && QueueOk(q0, slots0) && slots0[q0[j]].expectedTime <= now
    requires SweptUpTo(q0, slots0, now, j, i, queue, table)
    requires i < |queue| && q0[j] < |table|
    ensures SweptUpTo(q0, slots0, now, j + 1, i, queue[..i] + queue[i + 1..],
                      table[q0[j] := FakeCompleted(slots0[q0[j]])])
  {
    SweepStep(q0, slots0, now, j);
    QueueSplit(Pending(q0[..j], slots0, now), q0[j..]);
  }

  /** The sweep stops once it has looked at every entry. */
  lemma SweepFinished(q: seq<nat>, slots: seq<Transfer>, now: nat, j: nat, rest: seq<nat>)
    requires forall k :: 0 <= k < |q| ==> q[k] < |slots|
    requires j <= |q| && rest == Pending(q[..j], slots, now) + q[j..]
    requires |rest| == |Pending(q[..j], slots, now)| || j == |q|
    ensures j == |q| && q[..j] == q && rest == Pending(q, slots, now)
  {
    assert q[..j] == q;
  }

  /** Once every queued transfer is due, a sweep empties the queue. */
  lemma SweepDrains(q: seq<nat>, slots: seq<Transfer>, now: nat)
    requires forall k :: 0 <= k < |q| ==> q[k] < |slots| && slots[q[k]].expectedTime <= now
    ensures Pending(q, slots, now) == []
  {
    if Pending(q, slots, now) != [] {
      var x := Pending(q, slots, now)[0];
      PendingMembership(q, slots, now, x);
    }
  }

  /**
   * As written, `operate` sweeps at time 0 while an emulated control transfer
   * is due `EMULATED_LATENCY` after `get_timestamp()`, itself 0: such a
   * transfer stays queued forever, whatever the sweep.
   */
  lemma EmulatedTransferNeverDue(q: seq<nat>, slots: seq<Transfer>, x: nat)
    requires forall k :: 0 <= k < |q| ==> q[k] < |slots|
    requires x in q && slots[x].expectedTime == GET_TIMESTAMP + EMULATED_LATENCY
    ensures x in Pending(q, slots, OPERATE_TIMESTAMP)
    ensures Swept(slots, q, OPERATE_TIMESTAMP, x) == slots[x]
  {
    PendingMembership(q, slots, OPERATE_TIMESTAMP, x);
  }

  /** With a real clock, an emulated transfer started at `start` is completed by any sweep from `start + EMULATED_LATENCY` on. */
  lemma EmulatedTransferCompletes(q: seq<nat>, slots: seq<Transfer>, x: nat, start: nat, now: nat)
    requires forall k :: 0 <= k < |q| ==> q[k] < |slots|
    requires x in q && slots[x].expectedTime == start + EMULATED_LATENCY && now >= start + EMULATED_LATENCY
    ensures x !in Pending(q, slots, now)
    ensures Swept(slots, q, now, x) == FakeCompleted(slots[x])
  {
    PendingMembership(q, slots, now, x);
  }

  // ---------------------------------------------------------------------
  // The cyclic allocator, as values
  // ---------------------------------------------------------------------

  /** The slot `k` steps after `start`, wrapping at the pool size. */
  function Cyclic(start: nat, k: nat): (s: nat)
    requires start < MAX_TRANSFERS && k <= MAX_TRANSFERS
    ensures s < MAX_TRANSFERS
  {
    if start + k < MAX_TRANSFERS then start + k else start + k - MAX_TRANSFERS
  }

  /** How many steps after `start` slot `s` comes; the start slot itself comes last. */
  function Distance(start: nat, s: nat): (k: nat)
    requires start < MAX_TRANSFERS && s < MAX_TRANSFERS
    ensures 1 <= k <= MAX_TRANSFERS && Cyclic(start, k) == s
  {
    if s > start then s - start else s + MAX_TRANSFERS - start
  }

  /** Slot `Cyclic(start, k)` is the first free slot met when stepping from `start`. */
  ghost predicate FirstFreeAt(slots: seq<Transfer>, start: nat, k: nat)
    requires |slots| == MAX_TRANSFERS && start < MAX_TRANSFERS
  {
    1 <= k <= MAX_TRANSFERS && !slots[Cyclic(start, k)].busy &&
    forall j :: 1 <= j < k ==> slots[Cyclic(start, j)].busy
  }

  // ---------------------------------------------------------------------
  // Device lists, as values
  // ---------------------------------------------------------------------

  /** `vector::erase(find(...))`: the list without the first occurrence of `x`, if any. */
  function RemoveFirst(l: seq<UsbDevice>, x: UsbDevice): seq<UsbDevice>
  {
    if l == [] then []
    else if l[0] == x then l[1..]
    else [l[0]] + RemoveFirst(l[1..], x)
  }

  /** Removing one occurrence takes exactly one `x` out of the multiset, and nothing when `x` is absent. */
  lemma {:induction false} RemoveFirstMultiset(l: seq<UsbDevice>, x: UsbDevice)
    ensures multiset(RemoveFirst(l, x)) == multiset(l) - multiset{x}
  {
    if l != [] {
      assert l == [l[0]] + l[1..];
      if l[0] != x {
        RemoveFirstMultiset(l[1..], x);
        assert multiset(RemoveFirst(l, x)) == multiset{l[0]} + (multiset(l[1..]) - multiset{x});
      }
    }
  }

  /** Disconnecting a device that is not in a list leaves the list alone, so a second disconnect changes nothing. */
  lemma {:induction false} RemoveFirstAbsent(l: seq<UsbDevice>, x: UsbDevice)
    requires x !in l
    ensures RemoveFirst(l, x) == l
  {
    if l != [] {
      assert x !in l[1..];
      RemoveFirstAbsent(l[1..], x);
    }
  }

  /** Removing every device of `ds` in turn, one occurrence each. */
  function RemoveEach(l: seq<UsbDevice>, ds: seq<UsbDevice>): seq<UsbDevice>
  {
    if ds == [] then l else RemoveFirst(RemoveEach(l, ds[..|ds| - 1]), ds[|ds| - 1])
  }

  /** Disconnecting each device of `ds` once takes exactly `ds` out of the multiset. */
  lemma {:induction false} RemoveEachMultiset(l: seq<UsbDevice>, ds: seq<UsbDevice>)
    ensures multiset(RemoveEach(l, ds)) == multiset(l) - multiset(ds)
  {
    if ds != [] {
      var init := ds[..|ds| - 1];
      var last := ds[|ds| - 1];
      var before := RemoveEach(l, init);
      calc {
        multiset(RemoveEach(l, ds));
        multiset(RemoveFirst(before, last));
        { RemoveFirstMultiset(before, last); }
        multiset(before) - multiset{last};
        { RemoveEachMultiset(l, init); }
        multiset(l) - multiset(init) - multiset{last};
        { MultisetMinusTwice(multiset(l), multiset(init), last); }
        multiset(l) - (multiset(init) + multiset{last});
        { assert ds == init + [last]; }
        multiset(l) - multiset(ds);
      }
    }
  }

  lemma MultisetMinusTwice(m: multiset<UsbDevice>, a: multiset<UsbDevice>, x: UsbDevice)
    ensures m - a - multiset{x} == m - (a + multiset{x})
  {
  }

  /** The first index holding `x`, `|l|` when there is none (`std::find`). */
  method Find(l: seq<UsbDevice>, x: UsbDevice) returns (i: nat)
    ensures i <= |l| && (i < |l| ==> l[i] == x) && forall k :: 0 <= k < i ==> l[k] != x
    ensures RemoveFirst(l, x) == if i < |l| then l[..i] + l[i + 1..] else l
  {
    i := 0;
    while i < |l| && l[i] != x
      invariant i <= |l| && forall k :: 0 <= k < i ==> l[k] != x
    {
      i := i + 1;
    }
    RemoveFirstAt(l, x, i);
  }

  lemma {:induction false} RemoveFirstAt(l: seq<UsbDevice>, x: UsbDevice, i: nat)
    requires i <= |l| && (i < |l| ==> l[i] == x) && forall k :: 0 <= k < i ==> l[k] != x
    ensures RemoveFirst(l, x) == if i < |l| then l[..i] + l[i + 1..] else l
  {
    if i == |l| {
      assert x !in l;
      RemoveFirstAbsent(l, x);
    } else if i > 0 {
      var tail := l[1..];
      RemoveFirstAt(tail, x, i - 1);
      assert RemoveFirst(tail, x) == tail[..i - 1] + tail[i..];
      assert l[..i] == [l[0]] + tail[..i - 1];
      assert l[i + 1..] == tail[i..];
    }
  }

  /**
   * The range-for over `usb_devices` in the NO_DEVICE branch, as written: it
   * keeps the end position it started with while each visit erases the
   * element it visits. Visit `k` reads position `k` of a list that has lost
   * `k` elements, i.e. original element `2k`; the result lists the elements
   * visited before the first read past the live end, and whether that read
   * happens.
   */
  function RangeForErase(devices: seq<UsbDevice>, k: nat): (r: (seq<UsbDevice>, bool))
    decreases |devices| - k
  {
    if k >= |devices| then ([], false)
    else if k >= |devices| - k then ([], true)
    else
      var rest := RangeForErase(devices, k + 1);
      ([devices[2 * k]] + rest.0, rest.1)
  }

  /** With two or more devices the as-written loop skips the second one and reads past the live end. */
  lemma RangeForEraseOverruns(devices: seq<UsbDevice>)
    requires |devices| >= 2 && devices[1] != devices[0]
    requires forall k :: 0 <= k < |devices| && k != 1 ==> devices[k] != devices[1]
    ensures RangeForErase(devices, 0).1
    ensures devices[1] !in RangeForErase(devices, 0).0
  {
    RangeForEraseTail(devices, 0);
  }

  lemma {:induction false} RangeForEraseTail(devices: seq<UsbDevice>, k: nat)
    requires |devices| >= 2
    requires forall m :: 0 <= m < |devices| && m != 1 ==> devices[m] != devices[1]
    ensures RangeForErase(devices, k).1 == (k < |devices|)
    ensures devices[1] !in RangeForErase(devices, k).0
    decreases |devices| - k
  {
    if k < |devices| && k < |devices| - k {
      RangeForEraseTail(devices, k + 1);
    }
  }

  // ---------------------------------------------------------------------
  // Enumeration records
  // ---------------------------------------------------------------------

  /** The `libusb_device` a guest sees for one connected device. */
  datatype DeviceRecord = DeviceRecord(
    sessionData: nat,
    busNumber: u8,
    deviceAddress: u8,
    portNumber: u8,
    bLength: u8,
    bDescriptorType: u8,
    descriptor: DeviceDescriptor,
    speed: u8,
    attached: bool)

  /**
   * Speed inference from the device descriptor: an exponent-encoded
   * `bMaxPacketSize0` of 9 marks SuperSpeed (section 9.6.1 of the USB 3.2
   * specification), then the USB release number, then the packet size.
   */
  function InferSpeed(bMaxPacketSize0: u8, bcdUSB: u16): (speed: u8)
    ensures SPEED_LOW <= speed <= SPEED_SUPER_PLUS
    ensures speed >= SPEED_SUPER <==> bMaxPacketSize0 == 9
    ensures speed == SPEED_SUPER_PLUS <==> bMaxPacketSize0 == 9 && bcdUSB >= 0x0310
    ensures speed == SPEED_HIGH <==> bMaxPacketSize0 != 9 && bcdUSB >= 0x0200
    ensures speed == SPEED_LOW <==> bMaxPacketSize0 <= 8 && bcdUSB < 0x0200
  {
    if bMaxPacketSize0 == 9 then (if bcdUSB >= 0x0310 then SPEED_SUPER_PLUS else SPEED_SUPER)
    else if bcdUSB >= 0x0200 then SPEED_HIGH
    else if bMaxPacketSize0 > 8 then SPEED_FULL
    else SPEED_LOW
  }

  /** A later USB release number never lowers the inferred speed. */
  lemma InferSpeedMonotone(bMaxPacketSize0: u8, bcd1: u16, bcd2: u16)
    requires bcd1 <= bcd2
    ensures InferSpeed(bMaxPacketSize0, bcd1) <= InferSpeed(bMaxPacketSize0, bcd2)
  {
  }

  /** The record built for the device at list position `index` under session id `session`. */
  function Enumerated(session: nat, index: nat, d: DeviceDescriptor): DeviceRecord
  {
    DeviceRecord(session, (index + 1) % 0x100, session % 0x100, session % 0x100,
                 LIBUSB_DT_DEVICE_SIZE, DESCRIPTOR_DEVICE, d, InferSpeed(d.bMaxPacketSize0, d.bcdUSB), true)
  }

  /** `find_device_from_bus_number`: the bus number is used directly as a list index. */
  function FindByBus(devices: seq<UsbDevice>, busNumber: int): (r: Option<UsbDevice>)
    ensures r.Some? <==> 0 <= busNumber < |devices|
    ensures r.Some? ==> r.value == devices[busNumber]
  {
    if busNumber < 0 || busNumber >= |devices| then None else Some(devices[busNumber])
  }

  /**
   * Enumeration numbers buses from 1 but the lookup indexes from 0: the bus
   * number of the record for device `i` finds device `i + 1`, and the last
   * device is never found.
   */
  lemma BusNumberLookupIsShifted(devices: seq<UsbDevice>, session: nat, i: nat)
    requires i < |devices| < 0xFF
    ensures var bus := Enumerated(session, i, devices[i].Descriptor()).busNumber;
      FindByBus(devices, bus) == if i + 1 < |devices| then Some(devices[i + 1]) else None
  {
  }

  /**
   * Addresses (and port numbers) are session ids truncated to 8 bits: the
   * records of one enumeration of at most 256 devices have distinct
   * addresses, and the session 256 ids later reuses an address.
   */
  lemma EnumeratedAddresses(session: nat, i: nat, j: nat, d: DeviceDescriptor, e: DeviceDescriptor)
    requires i < j < 0x100
    ensures Enumerated(session + i, i, d).deviceAddress != Enumerated(session + j, j, e).deviceAddress
    ensures Enumerated(session + i, i, d).portNumber == Enumerated(session + i, i, d).deviceAddress
    ensures Enumerated(session, i, d).deviceAddress == Enumerated(session + 0x100, j, e).deviceAddress
  {
    assert (session + j) % 0x100 == ((session + i) % 0x100 + (j - i)) % 0x100;
  }

  /** `find_device_from_ids`: the first record with the given vendor and product ids. */
  method FindDeviceFromIds(records: seq<DeviceRecord>, vendorId: u16, productId: u16) returns (r: Option<nat>)
    ensures r.Some? ==>
      r.value < |records| &&
      records[r.value].descriptor.idVendor == vendorId && records[r.value].descriptor.idProduct == productId
    ensures r.Some? ==> forall k :: 0 <= k < r.value ==>
      !(records[k].descriptor.idVendor == vendorId && records[k].descriptor.idProduct == productId)
    ensures r.None? <==> forall k :: 0 <= k < |records| ==>
      !(records[k].descriptor.idVendor == vendorId && records[k].descriptor.idProduct == productId)
  {
    var i := 0;
    while i < |records|
      invariant i <= |records|
      invariant forall k :: 0 <= k < i ==>
        !(records[k].descriptor.idVendor == vendorId && records[k].descriptor.idProduct == productId)
    {
      var desc := records[i].descriptor;
      if desc.idVendor == vendorId && desc.idProduct == productId {
        return Some(i);
      }
      i := i + 1;
    }
    return None;
  }

  // ---------------------------------------------------------------------
  // The manager
  // ---------------------------------------------------------------------

  class UsbHandler {
    /** The transfer pool. */
    const transfers: array<Transfer>
    /** Whether the host library context was created (`ctx != nullptr`). */
    const contextReady: bool
    var transferCounter: nat
    /** Slot numbers of the queued fake transfers (`fake_transfers`). */
    var fakeTransfers: seq<nat>
    /** Devices connected to the virtual bus. */
    var usbDevices: seq<UsbDevice>
    /** Devices the guest has opened. */
    var openDevices: seq<UsbDevice>
    var nextSessionId: nat

    ghost predicate Valid()
      reads this, transfers
    {
      && transfers.Length == MAX_TRANSFERS
      && transferCounter < MAX_TRANSFERS
      && QueueOk(fakeTransfers, transfers[..])
    }

    /**
     * The manager after `initialize`: when the host context exists, every
     * slot is numbered by its index and the found devices are connected.
     */
    constructor (devices: seq<UsbDevice>, contextReady: bool)
      ensures Valid() && fresh(transfers) && this.contextReady == contextReady
      ensures forall s :: 0 <= s < MAX_TRANSFERS ==> transfers[s] == NewTransfer(if contextReady then s else 0)
      ensures forall s :: 0 <= s < MAX_TRANSFERS ==> Idle(transfers[s])
      ensures transferCounter == 0 && fakeTransfers == [] && openDevices == [] && nextSessionId == 0
      ensures usbDevices == if contextReady then devices else []
    {
      transfers := new Transfer[MAX_TRANSFERS](s requires 0 <= s < MAX_TRANSFERS => NewTransfer(if contextReady then s else 0));
      this.contextReady := contextReady;
      transferCounter := 0;
      fakeTransfers := [];
      usbDevices := if contextReady then devices else [];
      openDevices := [];
      nextSessionId := 0;
    }

    /**
     * `get_free_transfer_id`: steps the counter cyclically until it meets a
     * slot that is not busy, checking the slot it started on last. The source
     * spins for ever on a saturated pool, hence the requirement of a free slot.
     */
    method GetFreeTransferId() returns (id: nat)
      requires Valid()
      requires exists s :: 0 <= s < MAX_TRANSFERS && !transfers[s].busy
      modifies this`transferCounter
      ensures Valid()
      ensures id == transferCounter && id < MAX_TRANSFERS && !transfers[id].busy
      ensures exists k :: FirstFreeAt(transfers[..], old(transferCounter), k) && id == Cyclic(old(transferCounter), k)
    {
      ghost var start := transferCounter;
      ghost var free :| 0 <= free < MAX_TRANSFERS && !transfers[free].busy;
      ghost var bound := Distance(start, free);
      var numLoops := 1;
      transferCounter := transferCounter + 1;
      if transferCounter >= MAX_TRANSFERS {
        transferCounter := 0;
      }
      while transfers[transferCounter].busy
        invariant 1 <= numLoops <= bound
        invariant transferCounter == Cyclic(start, numLoops)
        invariant forall j :: 1 <= j < numLoops ==> transfers[Cyclic(start, j)].busy
        decreases bound - numLoops
      {
        numLoops := numLoops + 1;
        transferCounter := transferCounter + 1;
        if transferCounter >= MAX_TRANSFERS {
          transferCounter := 0;
        }
      }
      id := transferCounter;
      assert FirstFreeAt(transfers[..], start, numLoops);
    }

    /** `get_free_transfer`: allocates the next free slot and marks it busy; no other slot changes. */
    method GetFreeTransfer() returns (id: nat)
      requires Valid()
      requires exists s :: 0 <= s < MAX_TRANSFERS && !transfers[s].busy
      modifies this`transferCounter, transfers
      ensures Valid()
      ensures id == transferCounter && id < MAX_TRANSFERS
      ensures exists k :: FirstFreeAt(old(transfers[..]), old(transferCounter), k) && id == Cyclic(old(transferCounter), k)
      ensures !old(transfers[id].busy) && transfers[id] == old(transfers[id]).(busy := true)
      ensures forall s :: 0 <= s < MAX_TRANSFERS && s != id ==> transfers[s] == old(transfers[s])
    {
      id := GetFreeTransferId();
      transfers[id] := transfers[id].(busy := true);
    }

    /** Two allocations with no completion in between hand out two different slots, both now busy. */
    method AllocateTwo() returns (a: nat, b: nat)
      requires Valid()
      requires exists s, t :: 0 <= s < t < MAX_TRANSFERS && !transfers[s].busy && !transfers[t].busy
      modifies this`transferCounter, transfers
      ensures Valid() && a != b && a < MAX_TRANSFERS && b < MAX_TRANSFERS
      ensures !old(transfers[a].busy) && !old(transfers[b].busy) && transfers[a].busy && transfers[b].busy
      ensures forall s :: 0 <= s < MAX_TRANSFERS && s != a && s != b ==> transfers[s] == old(transfers[s])
    {
      ghost var s, t :| 0 <= s < t < MAX_TRANSFERS && !transfers[s].busy && !transfers[t].busy;
      a := GetFreeTransfer();
      ghost var other := if s == a then t else s;
      assert !transfers[other].busy;
      b := GetFreeTransfer();
    }

    /** `get_transfer_status`: the result, as its 32-bit pattern, and the byte count of a slot. */
    function TransferStatus(id: nat): (r: (u32, u32))
      reads this, transfers
      requires id < transfers.Length
      ensures transfers[id].result >= 0 ==> r.0 == transfers[id].result
      ensures transfers[id].result < 0 ==> r.0 as int - 0x1_0000_0000 == transfers[id].result
      ensures r.1 == transfers[id].count
    {
      (AsU32(transfers[id].result), transfers[id].count)
    }

    /** `get_isochronous_transfer_status`: the result and the packet table of a slot. */
    function IsochronousTransferStatus(id: nat): (r: (u32, IsoPackets))
      reads this, transfers
      requires id < transfers.Length
      ensures r.0 == TransferStatus(id).0 && r.1 == transfers[id].isoPackets
    {
      (AsU32(transfers[id].result), transfers[id].isoPackets)
    }

    /** `push_fake_transfer`: queues a busy, fake slot that is not queued yet. */
    method PushFakeTransfer(id: nat)
      requires Valid() && id < MAX_TRANSFERS && transfers[id].busy && transfers[id].fake
      requires id !in fakeTransfers
      modifies this`fakeTransfers
      ensures Valid()
      ensures fakeTransfers == old(fakeTransfers) + [id]
    {
      fakeTransfers := fakeTransfers + [id];
    }

    /**
     * The fake-transfer sweep of `operate` at time `now`: every due entry
     * delivers its prepared outcome, frees its slot and leaves the queue;
     * the others stay, unchanged and in order.
     */
    method SweepFakeTransfers(now: nat)
      requires Valid()
      modifies this`fakeTransfers, transfers
      ensures Valid()
      ensures fakeTransfers == Pending(old(fakeTransfers), old(transfers[..]), now)
      ensures forall s :: 0 <= s < MAX_TRANSFERS ==> transfers[s] == Swept(old(transfers[..]), old(fakeTransfers), now, s)
    {
      ghost var q0 := fakeTransfers;
      ghost var slots0 := transfers[..];
      var i := SweepLoop(q0, slots0, now);
      SweepFinished(q0, slots0, now, |q0|, fakeTransfers);
      SweepKeepsQueueValid(q0, slots0, now, transfers[..]);
    }

    /** The loop of the sweep: looks at every entry of `q0` in turn. */
    method SweepLoop(ghost q0: seq<nat>, ghost slots0: seq<Transfer>, now: nat) returns (i: nat)
      requires QueueOk(q0, slots0) && transfers.Length == |slots0|
      requires SweptUpTo(q0, slots0, now, 0, 0, fakeTransfers, transfers[..])
      modifies this`fakeTransfers, transfers
      ensures SweptUpTo(q0, slots0, now, |q0|, i, fakeTransfers, transfers[..])
    {
      ghost var j: nat := 0;
      i := 0;
      while i < |fakeTransfers|
        invariant j <= |q0| && SweptUpTo(q0, slots0, now, j, i, fakeTransfers, transfers[..])
        decreases |q0| - j
      {
        i := SweepEntry(q0, slots0, now, j, i);
        j := j + 1;
      }
      SweepFinished(q0, slots0, now, j, fakeTransfers);
    }

    /** Looks at queue entry `j`, which sits at position `i`: completes and unqueues it when due. */
    method SweepEntry(ghost q0: seq<nat>, ghost slots0: seq<Transfer>, now: nat, ghost j: nat, i: nat) returns (i': nat)
      requires j < |q0| && QueueOk(q0, slots0) && transfers.Length == |slots0|
      requires SweptUpTo(q0, slots0, now, j, i, fakeTransfers, transfers[..])
      modifies this`fakeTransfers, transfers
      ensures SweptUpTo(q0, slots0, now, j + 1, i', fakeTransfers, transfers[..])
    {
      SweepEntryAt(q0, slots0, now, j, i, fakeTransfers, transfers[..]);
      var slot := fakeTransfers[i];
      if transfers[slot].expectedTime > now {
        SweepKeep(q0, slots0, now, j, i, fakeTransfers, transfers[..]);
        i' := i + 1;
      } else {
        SweepDrop(q0, slots0, now, j, i, fakeTransfers, transfers[..]);
        transfers[slot] := FakeCompleted(transfers[slot]);
        fakeTransfers := fakeTransfers[..i] + fakeTransfers[i + 1..];
        i' := i;
      }
    }

    /** `operate` at time `now`: the sweep, when the host context exists; the result is always success. */
    method OperateAt(now: nat) returns (r: int)
      requires Valid()
      modifies this`fakeTransfers, transfers
      ensures Valid() && r == 0
      ensures contextReady ==> fakeTransfers == Pending(old(fakeTransfers), old(transfers[..]), now)
      ensures contextReady ==> forall s :: 0 <= s < MAX_TRANSFERS ==>
        transfers[s] == Swept(old(transfers[..]), old(fakeTransfers), now, s)
      ensures !contextReady ==> fakeTransfers == old(fakeTransfers) && transfers[..] == old(transfers[..])
    {
      if contextReady {
        if fakeTransfers != [] {
          SweepFakeTransfers(now);
        } else {
          assert Pending([], transfers[..], now) == [];
        }
      }
      return 0;
    }

    /** `operate` as written: the sweep runs at the fixed time `OPERATE_TIMESTAMP`. */
    method Operate() returns (r: int)
      requires Valid()
      modifies this`fakeTransfers, transfers
      ensures Valid() && r == 0
      ensures contextReady ==> fakeTransfers == Pending(old(fakeTransfers), old(transfers[..]), OPERATE_TIMESTAMP)
      ensures contextReady ==> forall s :: 0 <= s < MAX_TRANSFERS ==>
        transfers[s] == Swept(old(transfers[..]), old(fakeTransfers), OPERATE_TIMESTAMP, s)
      ensures !contextReady ==> fakeTransfers == old(fakeTransfers) && transfers[..] == old(transfers[..])
    {
      r := OperateAt(OPERATE_TIMESTAMP);
    }

    /** `disconnect_usb_device`: drops the first occurrence from the opened list, and from the bus when asked. */
    method DisconnectUsbDevice(dev: UsbDevice, updateUsbDevices: bool)
      modifies this`openDevices, this`usbDevices
      ensures openDevices == RemoveFirst(old(openDevices), dev)
      ensures usbDevices == if updateUsbDevices then RemoveFirst(old(usbDevices), dev) else old(usbDevices)
    {
      var i := Find(openDevices, dev);
      if i < |openDevices| {
        openDevices := openDevices[..i] + openDevices[i + 1..];
      }
      if updateUsbDevices {
        var k := Find(usbDevices, dev);
        if k < |usbDevices| {
          usbDevices := usbDevices[..k] + usbDevices[k + 1..];
        }
      }
    }

    /** The NO_DEVICE reaction: every connected device is disconnected, walking a copy of the list. */
    method DisconnectAll()
      modifies this`openDevices, this`usbDevices
      ensures usbDevices == []
      ensures openDevices == RemoveEach(old(openDevices), old(usbDevices))
    {
      var devices := usbDevices;
      for k := 0 to |devices|
        invariant usbDevices == devices[k..]
        invariant openDevices == RemoveEach(old(openDevices), devices[..k])
      {
        assert devices[..k + 1][..k] == devices[..k];
        DisconnectUsbDevice(devices[k], true);
        assert devices[k..] == [devices[k]] + devices[k + 1..];
      }
      assert devices[..|devices|] == devices;
    }

    /**
     * `transfer_complete`: copies the outcome of a host-library transfer into
     * its slot and frees it; a lost device disconnects every device.
     */
    method TransferComplete(id: nat, lt: LibusbTransfer)
      requires Valid() && id < MAX_TRANSFERS && id !in fakeTransfers
      requires |lt.isoPackets| <= 8 && lt.actualLength < 0x8000_0000
      requires -0x8000_0000 <= lt.status < 0x8000_0000
      requires lt.transferType == LIBUSB_TRANSFER_TYPE_CONTROL && transfers[id].controlDest != null ==>
        LIBUSB_CONTROL_SETUP_SIZE + lt.actualLength <= |lt.buffer| &&
        lt.actualLength <= transfers[id].controlDest.Length
      modifies transfers, transfers[id].controlDest, this`usbDevices, this`openDevices
      ensures Valid()
      ensures transfers[id] == Completed(old(transfers[id]), lt)
      ensures forall s :: 0 <= s < MAX_TRANSFERS && s != id ==> transfers[s] == old(transfers[s])
      ensures var dest := old(transfers[id].controlDest);
        dest != null && lt.transferType == LIBUSB_TRANSFER_TYPE_CONTROL ==>
          dest[..] == Overwrite(old(dest[..]), 0,
                                lt.buffer[LIBUSB_CONTROL_SETUP_SIZE..LIBUSB_CONTROL_SETUP_SIZE + lt.actualLength])
      ensures var dest := old(transfers[id].controlDest);
        dest != null && lt.transferType != LIBUSB_TRANSFER_TYPE_CONTROL ==> dest[..] == old(dest[..])
      ensures lt.status == LIBUSB_TRANSFER_NO_DEVICE ==>
        usbDevices == [] && openDevices == RemoveEach(old(openDevices), old(usbDevices))
      ensures lt.status != LIBUSB_TRANSFER_NO_DEVICE ==>
        usbDevices == old(usbDevices) && openDevices == old(openDevices)
    {
      ghost var slots := transfers[..];
      if lt.status == LIBUSB_TRANSFER_NO_DEVICE {
        DisconnectAll();
      }
      var t := CompleteSlot(transfers[id], lt);
      transfers[id] := t;
      assert transfers[..] == slots[id := t];
      UnqueuedUpdateKeepsQueue(fakeTransfers, slots, id, t);
    }

    /**
     * The slot part of `transfer_complete`: result, count and packets are
     * taken over, a control transfer's data (after the setup packet) lands in
     * its destination, which is then dropped, and the slot is freed.
     */
    static method CompleteSlot(t: Transfer, lt: LibusbTransfer) returns (t': Transfer)
      requires |lt.isoPackets| <= 8 && lt.actualLength < 0x8000_0000
      requires -0x8000_0000 <= lt.status < 0x8000_0000
      requires lt.transferType == LIBUSB_TRANSFER_TYPE_CONTROL && t.controlDest != null ==>
        LIBUSB_CONTROL_SETUP_SIZE + lt.actualLength <= |lt.buffer| &&
        lt.actualLength <= t.controlDest.Length
      modifies t.controlDest
      ensures t' == Completed(t, lt)
      ensures t.controlDest != null && lt.transferType == LIBUSB_TRANSFER_TYPE_CONTROL ==>
        t.controlDest[..] == Overwrite(old(t.controlDest[..]), 0,
                                       lt.buffer[LIBUSB_CONTROL_SETUP_SIZE..LIBUSB_CONTROL_SETUP_SIZE + lt.actualLength])
      ensures t.controlDest != null && lt.transferType != LIBUSB_TRANSFER_TYPE_CONTROL ==>
        t.controlDest[..] == old(t.controlDest[..])
    {
      t' := t.(result := lt.status, count := lt.actualLength);
      var packets := PackIsoPackets(t'.isoPackets, lt.isoPackets);
      t' := t'.(isoPackets := packets);
      if lt.transferType == LIBUSB_TRANSFER_TYPE_CONTROL && t'.controlDest != null {
        CopyInto(t'.controlDest, 0,
                 lt.buffer[LIBUSB_CONTROL_SETUP_SIZE..LIBUSB_CONTROL_SETUP_SIZE + lt.actualLength]);
        t' := t'.(controlDest := null);
      }
      t' := t'.(busy := false);
    }

    /** `open_usb_device`: the device joins the opened list exactly when it opens. */
    method OpenUsbDevice(dev: UsbDevice, hostOpen: s32) returns (err: s32)
      modifies this`openDevices
      ensures err == dev.OpenResult(hostOpen)
      ensures err == LIBUSB_SUCCESS ==> openDevices == old(openDevices) + [dev]
      ensures err != LIBUSB_SUCCESS ==> openDevices == old(openDevices)
    {
      err := dev.OpenResult(hostOpen);
      if err != LIBUSB_SUCCESS {
        return err;
      }
      openDevices := openDevices + [dev];
    }

    /**
     * `open_device` for an enumerated record: looks the device up by the
     * record's bus number, then opens it. `hostOpen` is what opening real
     * hardware returns (0 or a negative libusb error).
     */
    method OpenDevice(record: DeviceRecord, hostOpen: s32) returns (err: s32)
      requires hostOpen <= 0
      modifies this`openDevices
      ensures var found := FindByBus(old(usbDevices), record.busNumber);
        && (found.None? ==> err == LIBUSB_ERROR_NO_DEVICE && openDevices == old(openDevices))
        && (found.Some? ==>
              err == found.value.OpenResult(hostOpen) &&
              openDevices == if err == LIBUSB_SUCCESS then old(openDevices) + [found.value] else old(openDevices))
    {
      var dev2 := FindByBus(usbDevices, record.busNumber);
      if dev2.None? {
        return LIBUSB_ERROR_NO_DEVICE;
      }
      err := OpenUsbDevice(dev2.value, hostOpen);
      if err < 0 {
        return err;
      }
      return 0;
    }

    /** What enumeration needs: one set of configuration responses per connected device. */
    /** Each connected device is its own object: the bus creates one per device found. */
    predicate DistinctDevices()
      reads this
    {
      forall i, j :: 0 <= i < j < |usbDevices| ==> usbDevices[i] != usbDevices[j]
    }

    /** Enumeration touches only the descriptor tree: configuration, interface and strings are kept. */
    twostate predicate Unread(d: UsbDevice)
      reads d
    {
      && d.currentConfig == old(d.currentConfig)
      && d.currentInterface == old(d.currentInterface)
      && d.strings == old(d.strings)
    }

    /** The device re-read its descriptors from `response` and kept everything else. */
    twostate predicate ReadFrom(d: UsbDevice, response: seq<ConfigResponse>)
      reads d
    {
      && ResponsesOk(d.kind, old(d.device), response)
      && d.device == DescriptorsRead(d.kind, old(d.device), response)
      && Unread(d)
    }

    predicate EnumerationOk(responses: seq<seq<ConfigResponse>>)
      reads this, usbDevices
    {
      |responses| == |usbDevices| &&
      forall i :: 0 <= i < |usbDevices| ==> usbDevices[i].ReadOk(responses[i])
    }

    /**
     * `get_device_list`: one record per connected device, in list order, each
     * under a fresh session id; every device re-reads its descriptors first
     * (`responses[i]` is what the hardware behind device `i` returns).
     */
    method GetDeviceList(responses: seq<seq<ConfigResponse>>) returns (records: seq<DeviceRecord>)
      requires EnumerationOk(responses) && DistinctDevices()
      modifies this`nextSessionId, set d | d in usbDevices
      ensures |records| == |usbDevices| && nextSessionId == old(nextSessionId) + |records|
      ensures forall i :: 0 <= i < |records| ==>
        records[i] == Enumerated(old(nextSessionId) + i, i, old(usbDevices[i].Descriptor()))
      ensures forall i :: 0 <= i < |usbDevices| ==> usbDevices[i].Descriptor() == old(usbDevices[i].Descriptor())
      ensures forall i :: 0 <= i < |usbDevices| ==>
        usbDevices[i].device == DescriptorsRead(usbDevices[i].kind, old(usbDevices[i].device), responses[i])
      ensures forall i :: 0 <= i < |usbDevices| ==> Unread(usbDevices[i])
    {
      records := [];
      for i := 0 to |usbDevices|
        invariant |records| == i && nextSessionId == old(nextSessionId) + i
        invariant forall k :: 0 <= k < i ==>
          records[k] == Enumerated(old(nextSessionId) + k, k, DecodeDevice(old(usbDevices[k].device).data))
        invariant forall k :: 0 <= k < i ==> ReadFrom(usbDevices[k], responses[k])
        invariant forall k :: i <= k < |usbDevices| ==> unchanged(usbDevices[k])
      {
        var record := EnumerateDevice(i, responses[i]);
        records := records + [record];
        assert records[i] == record;
      }
    }

    /** One turn of `get_device_list`: the next session id, the descriptors re-read, the record filled in. */
    method EnumerateDevice(i: nat, response: seq<ConfigResponse>) returns (record: DeviceRecord)
      requires i < |usbDevices| && usbDevices[i].ReadOk(response)
      modifies this`nextSessionId, usbDevices[i]
      ensures nextSessionId == old(nextSessionId) + 1
      ensures record == Enumerated(old(nextSessionId), i, old(usbDevices[i].Descriptor()))
      ensures ReadFrom(usbDevices[i], response)
    {
      var sessionId := nextSessionId;
      nextSessionId := nextSessionId + 1;
      var dev := usbDevices[i];
      dev.ReadDescriptors(response);
      var desc := dev.Descriptor();
      record := Enumerated(sessionId, i, desc);
    }
  }
}
