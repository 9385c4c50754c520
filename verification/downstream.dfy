// QueryDownstreamIdentifiers: a portion is a header and a list of devices, each with a
// header and a list of descriptors. What iterating such bytes means, and what it yields on
// a portion that was serialised from devices.
module Downstream {
  import opened Bytes
  import opened Formats
  import D = Descriptors

  const DEVICE_HEADER_LEN := 3

  /** A device as the response iterator yields it: its descriptors are a slice of the portion. */
  datatype Device = Device(index: u16, count: byte, descriptors: seq<byte>)

  /** A device before serialisation. */
  datatype Listed = Listed(index: u16, descriptors: seq<D.Descriptor>)

  const PORTION_HEADER_LEN := 6
  // ---- Reading ----

  /** The device at an offset and the offset after it. */
  function DeviceAt(portion: seq<byte>, offset: nat): Option<(Device, nat)> {
    if |portion| < offset + DEVICE_HEADER_LEN then None
    else
      var start := offset + DEVICE_HEADER_LEN;
      var count := portion[offset + 2];
      match ListLength(D.DESCRIPTOR, portion[start..], count)
      case Err(_) => None
      case Ok(n) =>
        if start + n > |portion| then None
        else Some((Device(FromLe16(portion[offset..]), count, portion[start..start + n]), start + n))
  }

  /** The number of devices the portion header states. */
  function Stated(portion: seq<byte>): nat
    requires |portion| >= PORTION_HEADER_LEN
  {
    FromLe16(portion[4..])
  }

  /** The devices from the k-th on, up to the stated number or the first that does not parse. */
  function DevicesFrom(portion: seq<byte>, k: nat, offset: nat): seq<Device>
    requires |portion| >= PORTION_HEADER_LEN
    decreases Stated(portion) - k
  {
    if k >= Stated(portion) then []
    else
      match DeviceAt(portion, offset)
      case None => []
      case Some((d, next)) => [d] + DevicesFrom(portion, k + 1, next)
  }

  function Devices(portion: seq<byte>): seq<Device> {
    if |portion| < PORTION_HEADER_LEN then [] else DevicesFrom(portion, 0, PORTION_HEADER_LEN)
  }

  /** A device whose slice is exactly its stated number of descriptors. */
  predicate IsWhole(d: Device) {
    var parsed := ParseList(D.DESCRIPTOR, d.descriptors, d.count);
    parsed.Ok? && parsed.value.1 == |d.descriptors|
  }

  function DescriptorsOf(d: Device): seq<D.Descriptor>
    requires IsWhole(d)
  {
    ParseList(D.DESCRIPTOR, d.descriptors, d.count).value.0
  }

  // ---- Writing ----

  predicate Serialisable(x: Listed) { |x.descriptors| < 0x100 && forall d :: d in x.descriptors ==> D.WellFormed(d) }

  function DeviceWire(x: Listed): seq<byte>
    requires |x.descriptors| < 0x100
  {
    Le16(x.index) + ([|x.descriptors|] + ListWire(D.DESCRIPTOR, x.descriptors))
  }

  ghost predicate AllSerialisable(xs: seq<Listed>) { forall i :: 0 <= i < |xs| ==> Serialisable(xs[i]) }

  function DevicesWire(xs: seq<Listed>): seq<byte>
    requires AllSerialisable(xs)
  {
    if xs == [] then [] else DeviceWire(xs[0]) + DevicesWire(xs[1..])
  }

  /** The iterator never looks at the length in the portion header. */
  function PortionWire(length: u32, xs: seq<Listed>): seq<byte>
    requires AllSerialisable(xs) && |xs| < 0x1_0000
  {
    Le32(length) + (Le16(|xs|) + DevicesWire(xs))
  }

  function Sliced(x: Listed): Device
    requires |x.descriptors| < 0x100
  {
    Device(x.index, |x.descriptors|, ListWire(D.DESCRIPTOR, x.descriptors))
  }

  // ---- What is written is what is read ----

  lemma WrittenDevice(x: Listed, before: seq<byte>, after: seq<byte>)
    requires Serialisable(x)
    ensures DeviceAt(before + (DeviceWire(x) + after), |before|) == Some((Sliced(x), |before| + |DeviceWire(x)|))
    ensures IsWhole(Sliced(x)) && DescriptorsOf(Sliced(x)) == x.descriptors
  {
    hide ListWire, ParseList, D.WellFormed;
    var portion, offset := before + (DeviceWire(x) + after), |before|;
    var blob := ListWire(D.DESCRIPTOR, x.descriptors);
    D.DescriptorsLossless(x.descriptors, after);
    D.DescriptorsLossless(x.descriptors, []);
    assert blob + [] == blob;
    assert portion[offset..] == Le16(x.index) + portion[offset + 2..];
    ReadLe16(x.index, portion[offset + 2..]);
    assert portion[offset + 2] == |x.descriptors|;
    var start := offset + DEVICE_HEADER_LEN;
    assert portion[start..] == blob + after;
    assert ListLength(D.DESCRIPTOR, portion[start..], |x.descriptors|) == Ok(|blob|);
    assert portion[start..start + |blob|] == blob;
  }

  lemma {:induction false} WrittenDevices(portion: seq<byte>, k: nat, xs: seq<Listed>,
                                          before: seq<byte>, after: seq<byte>)
    requires |portion| >= PORTION_HEADER_LEN && AllSerialisable(xs) && k + |xs| == Stated(portion)
    requires portion == before + (DevicesWire(xs) + after)
    ensures DevicesFrom(portion, k, |before|) == seq(|xs|, i requires 0 <= i < |xs| => Sliced(xs[i]))
    decreases |xs|
  {
    hide DeviceAt, DeviceWire, Stated, D.WellFormed;
    if xs == [] {
    } else {
      var wire := DeviceWire(xs[0]);
      assert before + (DevicesWire(xs) + after) == before + (wire + (DevicesWire(xs[1..]) + after));
      WrittenDevice(xs[0], before, DevicesWire(xs[1..]) + after);
      assert portion == (before + wire) + (DevicesWire(xs[1..]) + after);
      WrittenDevices(portion, k + 1, xs[1..], before + wire, after);
    }
  }

  /** For every list of devices: iterating its serialisation yields those devices in order and
      no more, and iterating each of them yields its descriptors. */
  lemma TwoLevelRoundTrip(length: u32, xs: seq<Listed>, after: seq<byte>)
    requires AllSerialisable(xs) && |xs| < 0x1_0000
    ensures var ds := Devices(PortionWire(length, xs) + after);
      && |ds| == |xs|
      && forall i :: 0 <= i < |xs| ==>
           ds[i] == Sliced(xs[i]) && IsWhole(ds[i]) && DescriptorsOf(ds[i]) == xs[i].descriptors
  {
    hide IsWhole, DescriptorsOf, DevicesFrom;
    var portion := PortionWire(length, xs) + after;
    var header := Le32(length) + Le16(|xs|);
    assert portion[4..] == Le16(|xs|) + portion[6..];
    ReadLe16(|xs|, portion[6..]);
    assert portion == header + (DevicesWire(xs) + after);
    WrittenDevices(portion, 0, xs, header, after);
    forall i | 0 <= i < |xs| ensures IsWhole(Sliced(xs[i])) && DescriptorsOf(Sliced(xs[i])) == xs[i].descriptors {
      WrittenDevice(xs[i], [], []);
    }
  }

  // ---- Any bytes at all ----

  /** Whatever the bytes, a yielded device holds exactly its stated number of descriptors. */
  lemma YieldedIsWhole(portion: seq<byte>, offset: nat)
    requires DeviceAt(portion, offset).Some?
    ensures var (d, next) := DeviceAt(portion, offset).value;
      && IsWhole(d) && |DescriptorsOf(d)| == d.count as int
      && offset + DEVICE_HEADER_LEN + |d.descriptors| == next <= |portion|
      && d.descriptors == portion[offset + DEVICE_HEADER_LEN..next]
  {
    hide ListWire, ParseList;
    var (d, next) := DeviceAt(portion, offset).value;
    var blob := portion[offset + DEVICE_HEADER_LEN..];
    D.DescriptorsCanonical(blob, d.count);
    var ds := ParseList(D.DESCRIPTOR, blob, d.count).value.0;
    assert d.descriptors == ListWire(D.DESCRIPTOR, ds);
    D.DescriptorsLossless(ds, []);
    assert d.descriptors + [] == d.descriptors;
  }

  /** Where the slices of the yielded devices start. */
  function StartsFrom(portion: seq<byte>, k: nat, offset: nat): seq<nat>
    requires |portion| >= PORTION_HEADER_LEN
    decreases Stated(portion) - k
  {
    if k >= Stated(portion) then []
    else
      match DeviceAt(portion, offset)
      case None => []
      case Some((_, next)) => [offset + DEVICE_HEADER_LEN] + StartsFrom(portion, k + 1, next)
  }

  /** Each device is whole, sits inside the portion, and starts after the one before it ends. */
  ghost predicate Tiled(portion: seq<byte>, from: nat, starts: seq<nat>, ds: seq<Device>) {
    && |starts| == |ds|
    && (forall i :: 0 <= i < |ds| ==>
          && IsWhole(ds[i]) && |DescriptorsOf(ds[i])| == ds[i].count as int
          && starts[i] + |ds[i].descriptors| <= |portion|
          && ds[i].descriptors == portion[starts[i]..starts[i] + |ds[i].descriptors|])
    && (|starts| > 0 ==> starts[0] == from + DEVICE_HEADER_LEN)
    && (forall i :: 0 < i < |ds| ==> starts[i] == starts[i - 1] + |ds[i - 1].descriptors| + DEVICE_HEADER_LEN)
  }

  lemma TiledNothing(portion: seq<byte>, from: nat)
    ensures Tiled(portion, from, [], [])
  {
  }

  lemma TiledStep(portion: seq<byte>, from: nat, d: Device, next: nat, starts: seq<nat>, ds: seq<Device>)
    requires from + DEVICE_HEADER_LEN + |d.descriptors| == next <= |portion|
    requires IsWhole(d) && |DescriptorsOf(d)| == d.count as int
    requires d.descriptors == portion[from + DEVICE_HEADER_LEN..next]
    requires Tiled(portion, next, starts, ds)
    ensures Tiled(portion, from, [from + DEVICE_HEADER_LEN] + starts, [d] + ds)
  {
    hide IsWhole, DescriptorsOf;
  }

  lemma {:induction false} TiledFrom(portion: seq<byte>, k: nat, offset: nat)
    requires |portion| >= PORTION_HEADER_LEN
    ensures Tiled(portion, offset, StartsFrom(portion, k, offset), DevicesFrom(portion, k, offset))
    decreases Stated(portion) - k
  {
    hide DeviceAt, IsWhole, DescriptorsOf, Tiled;
    if k >= Stated(portion) || DeviceAt(portion, offset).None? {
      TiledNothing(portion, offset);
    } else {
      YieldedIsWhole(portion, offset);
      var (d, next) := DeviceAt(portion, offset).value;
      TiledFrom(portion, k + 1, next);
      TiledStep(portion, offset, d, next, StartsFrom(portion, k + 1, next), DevicesFrom(portion, k + 1, next));
    }
  }

  lemma {:induction false} DevicesAreBounded(portion: seq<byte>, k: nat, offset: nat)
    requires |portion| >= PORTION_HEADER_LEN && k <= Stated(portion)
    ensures |DevicesFrom(portion, k, offset)| <= Stated(portion) - k
    decreases Stated(portion) - k
  {
    if k >= Stated(portion) || DeviceAt(portion, offset).None? {
    } else {
      DevicesAreBounded(portion, k + 1, DeviceAt(portion, offset).value.1);
    }
  }

  /** On any bytes, iteration yields at most the stated number of devices, each whole, in
      disjoint slices of the portion that follow one another. */
  lemma IterationIsSafe(portion: seq<byte>)
    ensures |portion| < PORTION_HEADER_LEN ==> Devices(portion) == []
    ensures |portion| >= PORTION_HEADER_LEN ==>
      && |Devices(portion)| <= Stated(portion)
      && Tiled(portion, PORTION_HEADER_LEN, StartsFrom(portion, 0, PORTION_HEADER_LEN), Devices(portion))
  {
    if |portion| >= PORTION_HEADER_LEN {
      DevicesAreBounded(portion, 0, PORTION_HEADER_LEN);
      TiledFrom(portion, 0, PORTION_HEADER_LEN);
    }
  }
}
