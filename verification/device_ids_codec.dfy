// The encoder and decoder loops over descriptors, against their wire forms.
module DeviceIdsCodec {
  import opened Bytes
  import opened Formats
  import opened DeviceIds
  import D = Descriptors

  method EncodeDescriptor(d: D.Descriptor, buffer: array<byte>, at: nat) returns (r: Result<nat, CodecError>)
    requires D.Encodable(d) && at <= buffer.Length
    modifies buffer
    ensures Encoded(old(buffer[..]), buffer[..], at, D.Wire(d), r)
  {
    if buffer.Length - at < D.Size(d) {
      return Err(BufferTooShort);
    }
    hide Splice;
    ghost var was := buffer[..];
    SpliceNothing(was, at);
    var descriptorType, length := Le16(d.descriptorType), Le16(d.length);
    PutNext(buffer, at, was, [], 0, descriptorType);
    assert [] + descriptorType == descriptorType;
    PutNext(buffer, at, was, descriptorType, 2, length);
    PutNext(buffer, at, was, descriptorType + length, 4, d.data[..d.length]);
    assert D.Wire(d) == descriptorType + length + d.data[..d.length];
    return Ok(D.Size(d));
  }

  lemma {:induction false} TotalSizeAppend(ds: seq<D.Descriptor>, d: D.Descriptor)
    ensures TotalSize(ds + [d]) == TotalSize(ds) + D.Size(d)
  {
    if ds == [] {
      assert [d][1..] == [];
    } else {
      TotalSizeAppend(ds[1..], d);
      assert (ds + [d])[1..] == ds[1..] + [d];
    }
  }

  lemma SizeIsWireLength(r: Response)
    requires DeviceIds.Encodable(r)
    ensures DeviceIds.Size(r) == |Wire(r)|
  {
    TotalSizeIsWireLength(Listed(r));
  }

  /** `codec_size_in_bytes`: a loop over the descriptors that will be sent, which only needs the
      count not to underflow. */
  method ResponseSize(r: Response) returns (size: nat)
    requires r.additional.Some? ==> 1 <= r.descriptorCount
    ensures size == DeviceIds.Size(r)
    ensures DeviceIds.Encodable(r) ==> size == |Wire(r)|
  {
    hide D.Size, DeviceIds.Encodable, Wire;
    size := FIXED_LEN + D.Size(r.initial);
    ghost var listed := Listed(r);
    TotalSizeAppend([], r.initial);
    assert [] + [r.initial] == listed[..1];
    if r.additional.Some? {
      for i := 0 to Visited(r.descriptorCount)
        invariant size == FIXED_LEN + TotalSize(listed[..i + 1])
      {
        assert listed[..i + 2] == listed[..i + 1] + [r.additional.value[i]];
        TotalSizeAppend(listed[..i + 1], r.additional.value[i]);
        size := size + D.Size(r.additional.value[i]);
      }
    }
    assert listed[..|listed|] == listed;
    if DeviceIds.Encodable(r) { SizeIsWireLength(r); }
  }

  lemma ListedStep(ds: seq<D.Descriptor>, i: nat)
    requires i < |ds|
    ensures ListWire(D.DESCRIPTOR, ds[..i + 1]) == ListWire(D.DESCRIPTOR, ds[..i]) + D.Wire(ds[i])
    ensures |ListWire(D.DESCRIPTOR, ds[..i + 1])| <= |ListWire(D.DESCRIPTOR, ds)|
  {
    assert ds[..i + 1] == ds[..i] + [ds[i]];
    ListWireAppend(D.DESCRIPTOR, ds[..i], ds[i]);
    ListWirePrefix(D.DESCRIPTOR, ds, i + 1);
  }

  /** The initial descriptor, then the loop over the additional ones. */
  method EncodeListed(r: Response, buffer: array<byte>, at: nat) returns (offset: nat)
    requires DeviceIds.Encodable(r) && at + |ListWire(D.DESCRIPTOR, Listed(r))| <= buffer.Length
    modifies buffer
    ensures offset == |ListWire(D.DESCRIPTOR, Listed(r))|
    ensures buffer[..] == Splice(old(buffer[..]), at, ListWire(D.DESCRIPTOR, Listed(r)))
  {
    hide Splice, ListWire, D.Wire;
    ghost var was, listed := buffer[..], Listed(r);
    assert listed[0] == r.initial && listed[0] in listed;
    ListedStep(listed, 0);
    var first := EncodeDescriptor(r.initial, buffer, at);
    offset := first.value;
    ListWireOfNone(D.DESCRIPTOR);
    assert listed[..0] == [];
    assert [] + D.Wire(r.initial) == D.Wire(r.initial);
    if r.additional.Some? {
      for i := 0 to Visited(r.descriptorCount)
        invariant offset == |ListWire(D.DESCRIPTOR, listed[..i + 1])| <= |ListWire(D.DESCRIPTOR, listed)|
        invariant buffer[..] == Splice(was, at, ListWire(D.DESCRIPTOR, listed[..i + 1]))
      {
        ListedStep(listed, i + 1);
        ghost var done := ListWire(D.DESCRIPTOR, listed[..i + 1]);
        assert r.additional.value[i] == listed[i + 1] && listed[i + 1] in listed;
        var bytes := EncodeDescriptor(r.additional.value[i], buffer, at + offset);
        SpliceTwice(was, at, done, D.Wire(listed[i + 1]));
        offset := offset + bytes.value;
      }
    }
    assert listed[..|listed|] == listed;
  }

  method EncodeResponse(r: Response, buffer: array<byte>, at: nat) returns (n: Result<nat, CodecError>)
    requires DeviceIds.Encodable(r) && at <= buffer.Length
    modifies buffer
    ensures Encoded(old(buffer[..]), buffer[..], at, Wire(r), n)
  {
    var size := ResponseSize(r);
    if buffer.Length - at < size {
      return Err(BufferTooShort);
    }
    hide Splice, ListWire;
    ghost var was := buffer[..];
    var fixed := r.hdr + ([r.completionCode] + (Le32(r.identifiersLen) + [r.descriptorCount]));
    assert Wire(r) == fixed + ListWire(D.DESCRIPTOR, Listed(r));
    SpliceNothing(was, at);
    PutNext(buffer, at, was, [], 0, fixed);
    assert [] + fixed == fixed;
    var bytes := EncodeListed(r, buffer, at + FIXED_LEN);
    SpliceTwice(was, at, fixed, ListWire(D.DESCRIPTOR, Listed(r)));
    return Ok(FIXED_LEN + bytes);
  }

  /** The loop over the array of additional descriptors, filled from the front. */
  method DecodeAdditional(buffer: seq<byte>, start: nat, count: nat)
    returns (more: Additional, failure: Option<CodecError>)
    requires start <= |buffer| && count <= ADDITIONAL_MAX_COUNT
    ensures match ParseList(D.DESCRIPTOR, buffer[start..], count)
            case Err(e) => failure == Some(e)
            case Ok((ds, _)) => |ds| == count && failure == None && more == FillAdditional(ds)
  {
    hide D.Parse, D.Wire, ParseList, Prepend;
    var descriptors := new D.Descriptor[ADDITIONAL_MAX_COUNT](_ => D.EMPTY_DESCRIPTOR);
    var offset := start;
    ghost var goal := ParseList(D.DESCRIPTOR, buffer[start..], count);
    PrependNothing(goal);
    for i := 0 to count
      invariant start <= offset <= |buffer|
      invariant forall k :: i <= k < ADDITIONAL_MAX_COUNT ==> descriptors[k] == D.EMPTY_DESCRIPTOR
      invariant goal == Prepend(descriptors[..i], offset - start, ParseList(D.DESCRIPTOR, buffer[offset..], count - i))
    {
      ghost var rest, done := buffer[offset..], descriptors[..i];
      var d := D.Parse(buffer[offset..]);
      ParseListStep(D.DESCRIPTOR, rest, count - i);
      if d.Err? {
        PrependError(done, offset - start, d.error);
        return descriptors[..], Some(d.error);
      }
      D.DescriptorCanonical(rest);
      ghost var left := ParseList(D.DESCRIPTOR, rest[d.value.1..], count - i - 1);
      PrependTwice(done, offset - start, [d.value.0], d.value.1, left);
      descriptors[i] := d.value.0;
      offset := offset + d.value.1;
      assert rest[d.value.1..] == buffer[offset..];
      assert descriptors[..i + 1] == done + [d.value.0];
    }
    ListOfNone(D.DESCRIPTOR, buffer[offset..]);
    PrependLast(descriptors[..count], offset - start);
    assert descriptors[..] == FillAdditional(descriptors[..count]);
    return descriptors[..], None;
  }

  method DecodeResponse(buffer: seq<byte>) returns (r: Result<Response, CodecError>)
    ensures r == Parse(buffer)
  {
    hide D.Parse, D.Wire, ParseList;
    if |buffer| < 3 { return Err(BufferTooShort); }
    var hdr := buffer[..3];
    if |buffer| < 4 { return Err(BufferTooShort); }
    var completionCode := buffer[3];
    if |buffer| < 8 { return Err(BufferTooShort); }
    var identifiersLen := FromLe32(buffer[4..]);
    if |buffer| < 9 { return Err(BufferTooShort); }
    var count := buffer[8];
    var offset := FIXED_LEN;
    var initial := D.Parse(buffer[offset..]);
    if initial.Err? { return Err(initial.error); }
    D.DescriptorCanonical(buffer[offset..]);
    offset := offset + initial.value.1;
    if count <= 1 {
      return Ok(Response(hdr, completionCode, identifiersLen, count, initial.value.0, None));
    }
    var more, failure := DecodeAdditional(buffer, offset, Visited(count));
    if failure.Some? { return Err(failure.value); }
    return Ok(Response(hdr, completionCode, identifiersLen, count, initial.value.0, Some(more)));
  }
}
