// The two stateful iterators of QueryDownstreamIdentifiers, against what iteration means.
module DownstreamIterators {
  import opened Bytes
  import opened Formats
  import opened Downstream
  import D = Descriptors

  datatype PldmError = InvalidPortion

  class QueryDownstreamIdentifiersResponse {
    const portion: seq<byte>
    var iterCurrent: nat
    var offsetNext: nat

    /** What is still to come before the iterator says None. */
    ghost function Remaining(): seq<Device>
      reads this
    {
      if |portion| < PORTION_HEADER_LEN then []
      else DevicesFrom(portion, iterCurrent, if iterCurrent == 0 then PORTION_HEADER_LEN else offsetNext)
    }

    constructor (portion: seq<byte>)
      ensures this.portion == portion && Remaining() == Devices(portion)
    {
      this.portion := portion;
      iterCurrent, offsetNext := 0, 0;
    }

    constructor Clone(other: QueryDownstreamIdentifiersResponse)
      ensures portion == other.portion && iterCurrent == other.iterCurrent && offsetNext == other.offsetNext
    {
      portion := other.portion;
      iterCurrent, offsetNext := other.iterCurrent, other.offsetNext;
    }

    /** Yields what remains, in order. At the stated end it says None and starts over; where the
        bytes stop making sense it says None and stays there. */
    method Next() returns (r: Option<Device>)
      modifies this
      ensures if old(Remaining()) == [] then
                && r == None
                && if |portion| >= PORTION_HEADER_LEN && old(iterCurrent) >= Stated(portion)
                   then Remaining() == Devices(portion)
                   else Remaining() == [] && iterCurrent == old(iterCurrent) && offsetNext == old(offsetNext)
              else
                r == Some(old(Remaining())[0]) && Remaining() == old(Remaining())[1..]
    {
      hide ListLength, ParseList, D.Parse, D.Wire;
      if |portion| < PORTION_HEADER_LEN {
        return None;
      }
      var number: nat := FromLe16(portion[4..]);
      if iterCurrent >= number {
        iterCurrent, offsetNext := 0, 0;
        return None;
      }
      var offset := if iterCurrent == 0 then PORTION_HEADER_LEN else offsetNext;
      if offset >= |portion| {
        return None;
      }
      if |portion| - offset < DEVICE_HEADER_LEN {
        return None;
      }
      var index, count := FromLe16(portion[offset..]), portion[offset + 2];
      var start := offset + DEVICE_HEADER_LEN;
      var size := D.BlobLength(portion[start..], count);
      if size.Err? {
        return None;
      }
      // A length that was found in the rest of the portion cannot reach past it.
      var next := start + size.value;
      assert next <= |portion|;
      offsetNext := next;
      iterCurrent := iterCurrent + 1;
      return Some(Device(index, count, portion[start..next]));
    }

    /** Walks a clone, which starts where this iterator stands. */
    method TryAt(index: nat) returns (r: Result<Device, PldmError>)
      ensures r == if index < |Remaining()| then Ok(Remaining()[index]) else Err(InvalidPortion)
    {
      var clone := new QueryDownstreamIdentifiersResponse.Clone(this);
      var deviceIndex := 0;
      while true
        invariant fresh(clone) && unchanged(this)
        invariant deviceIndex <= index && deviceIndex <= |Remaining()|
        invariant clone.Remaining() == Remaining()[deviceIndex..]
        decreases |clone.Remaining()|
      {
        var device := clone.Next();
        if device.None? {
          return Err(InvalidPortion);
        }
        if deviceIndex == index {
          return Ok(device.value);
        }
        deviceIndex := deviceIndex + 1;
      }
    }
  }

  /** A list that decodes is its first descriptor in front of the list that decodes behind it. */
  lemma TakeOne(b: seq<byte>, n: nat)
    requires 0 < n && ParseList(D.DESCRIPTOR, b, n).Ok?
    ensures D.Parse(b).Ok? && D.Parse(b).value.1 <= |b|
    ensures var (d, k) := D.Parse(b).value;
      && ParseList(D.DESCRIPTOR, b[k..], n - 1).Ok?
      && ParseList(D.DESCRIPTOR, b, n).value.0 == [d] + ParseList(D.DESCRIPTOR, b[k..], n - 1).value.0
      && ParseList(D.DESCRIPTOR, b, n).value.1 == k + ParseList(D.DESCRIPTOR, b[k..], n - 1).value.1
  {
    hide D.Parse;
  }

  /** The length field gives the extent of a descriptor, and those bytes alone decode to it. */
  lemma OwnBytes(b: seq<byte>)
    requires D.Parse(b).Ok?
    ensures |b| >= 4 && D.Parse(b).value.1 == 4 + FromLe16(b[2..]) as int <= |b|
    ensures D.Parse(b[..4 + FromLe16(b[2..]) as int]) == D.Parse(b)
  {
    D.DescriptorCanonical(b);
    var (d, n) := D.Parse(b).value;
    D.DescriptorLossless(d, []);
    assert D.Wire(d) + [] == b[..n];
  }

  /** The iterator over one device's descriptors. */
  class DownstreamDevice {
    const device: Device
    var iterDevCount: nat
    var iterOffset: nat

    /** The device is whole, as every yielded device is, and so is what remains of it. */
    ghost predicate Valid()
      reads this
    {
      && IsWhole(device) && iterDevCount <= device.count as int && iterOffset <= |device.descriptors|
      && ParseList(D.DESCRIPTOR, device.descriptors[iterOffset..], device.count as int - iterDevCount).Ok?
      && ParseList(D.DESCRIPTOR, device.descriptors[iterOffset..], device.count as int - iterDevCount).value.1
           == |device.descriptors| - iterOffset
    }

    ghost function Remaining(): seq<D.Descriptor>
      requires Valid()
      reads this
    {
      ParseList(D.DESCRIPTOR, device.descriptors[iterOffset..], device.count as int - iterDevCount).value.0
    }

    constructor (device: Device)
      requires IsWhole(device)
      ensures Valid() && this.device == device && Remaining() == DescriptorsOf(device)
    {
      this.device := device;
      iterDevCount, iterOffset := 0, 0;
      new;
      assert device.descriptors[0..] == device.descriptors;
    }

    /** Yields the descriptors in order, then None once, then starts over. */
    method Next() returns (r: Option<D.Descriptor>)
      requires Valid()
      modifies this
      ensures Valid()
      ensures if old(Remaining()) == [] then r == None && Remaining() == DescriptorsOf(device)
              else r == Some(old(Remaining())[0]) && Remaining() == old(Remaining())[1..]
    {
      hide D.Parse, D.Wire, ParseList;
      var bytes := device.descriptors;
      ParseListLength(D.DESCRIPTOR, bytes[iterOffset..], device.count as int - iterDevCount);
      if device.count == 0 {
        ListOfNone(D.DESCRIPTOR, bytes[iterOffset..]);
        ListOfNone(D.DESCRIPTOR, bytes);
        return None;
      }
      if iterDevCount >= device.count as int {
        ListOfNone(D.DESCRIPTOR, bytes[iterOffset..]);
        iterDevCount, iterOffset := 0, 0;
        assert bytes[0..] == bytes;
        return None;
      }
      ghost var rest := bytes[iterOffset..];
      TakeOne(rest, device.count as int - iterDevCount);
      OwnBytes(rest);
      assert rest[2..] == bytes[iterOffset + 2..];
      var length := FromLe16(bytes[iterOffset + 2..]) as int;
      var end := iterOffset + 4 + length;
      assert end <= |bytes|;
      var descriptor := D.Parse(bytes[iterOffset..end]);
      assert bytes[iterOffset..end] == rest[..4 + length];
      assert bytes[end..] == rest[4 + length..];
      iterOffset := end;
      iterDevCount := iterDevCount + 1;
      return Some(descriptor.value.0);
    }
  }
}
