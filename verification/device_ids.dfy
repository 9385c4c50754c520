// QueryDeviceIdentifiersResponse: a header, one initial descriptor and up to four more.
module DeviceIds {
  import opened Bytes
  import opened Base
  import opened Formats
  import D = Descriptors

  const ADDITIONAL_MAX_COUNT := 4
  const FIXED_LEN := 9

  type Additional = ds: seq<D.Descriptor> | |ds| == ADDITIONAL_MAX_COUNT
    witness seq(ADDITIONAL_MAX_COUNT, _ => D.EMPTY_DESCRIPTOR)

  datatype Response = Response(
    hdr: Header,
    completionCode: byte,
    identifiersLen: u32,
    descriptorCount: byte,
    initial: D.Descriptor,
    additional: Option<Additional>)

  /** How many of the additional descriptors the encoder and the decoder visit. */
  function Visited(count: byte): nat {
    if count == 0 then 0 else if count as int - 1 < ADDITIONAL_MAX_COUNT then count as int - 1 else ADDITIONAL_MAX_COUNT
  }

  /** The descriptors that go on the wire. */
  function Listed(r: Response): (ds: seq<D.Descriptor>) {
    match r.additional
    case None => [r.initial]
    case Some(more) => [r.initial] + more[..Visited(r.descriptorCount)]
  }

  /** No count underflows and no slice is out of range. */
  predicate Encodable(r: Response) {
    (r.additional.Some? ==> 1 <= r.descriptorCount) && forall d :: d in Listed(r) ==> D.Encodable(d)
  }

  function FillAdditional(ds: seq<D.Descriptor>): Additional
    requires |ds| <= ADDITIONAL_MAX_COUNT
  {
    ds + seq(ADDITIONAL_MAX_COUNT - |ds|, _ => D.EMPTY_DESCRIPTOR)
  }

  predicate WellFormed(r: Response) {
    && D.WellFormed(r.initial)
    && (r.additional.Some? <==> 1 < r.descriptorCount)
    && (r.additional.Some? ==>
          && (forall i :: 0 <= i < Visited(r.descriptorCount) ==> D.WellFormed(r.additional.value[i]))
          && (forall i :: Visited(r.descriptorCount) <= i < ADDITIONAL_MAX_COUNT ==>
                r.additional.value[i] == D.EMPTY_DESCRIPTOR))
  }

  function Wire(r: Response): seq<byte> {
    r.hdr + ([r.completionCode] + (Le32(r.identifiersLen) + ([r.descriptorCount] + ListWire(D.DESCRIPTOR, Listed(r)))))
  }

  function TotalSize(ds: seq<D.Descriptor>): nat {
    if ds == [] then 0 else D.Size(ds[0]) + TotalSize(ds[1..])
  }

  /** `codec_size_in_bytes` */
  function Size(r: Response): nat { FIXED_LEN + TotalSize(Listed(r)) }

  /** `QueryDeviceIdentifiersResponse::new` for one initial descriptor and `more`. */
  function New(instanceId: byte, code: byte, initial: D.Descriptor, more: seq<D.Descriptor>): Option<Response> {
    if |more| > ADDITIONAL_MAX_COUNT then None
    else
      Some(Response(ResponseHeader(instanceId, TYPE_FW_UPDATE, 0x01), code,
                    TotalSize([initial] + more) % U32_MODULUS, 1 + |more|, initial,
                    if |more| > 0 then Some(FillAdditional(more)) else None))
  }

  function Parse(b: seq<byte>): Result<Response, CodecError> {
    if |b| < FIXED_LEN then Err(BufferTooShort)
    else
      var count := b[8];
      var (initial, n) :- D.Parse(b[FIXED_LEN..]);
      if |b| < FIXED_LEN + n then Err(BufferTooShort)
      else if count <= 1 then Ok(Response(b[..3], b[3], FromLe32(b[4..]), count, initial, None))
      else
        var (more, _) :- ParseList(D.DESCRIPTOR, b[FIXED_LEN + n..], Visited(count));
        ParseListLength(D.DESCRIPTOR, b[FIXED_LEN + n..], Visited(count));
        Ok(Response(b[..3], b[3], FromLe32(b[4..]), count, initial, Some(FillAdditional(more))))
  }

  lemma {:induction false} TotalSizeIsWireLength(ds: seq<D.Descriptor>)
    requires forall d :: d in ds ==> D.Encodable(d)
    ensures TotalSize(ds) == |ListWire(D.DESCRIPTOR, ds)|
  {
    if ds == [] {
    } else {
      TotalSizeIsWireLength(ds[1..]);
    }
  }

  lemma {:induction false} TotalSizeBound(ds: seq<D.Descriptor>)
    requires forall d :: d in ds ==> D.Encodable(d)
    ensures TotalSize(ds) <= 68 * |ds|
  {
    if ds == [] {
    } else {
      assert ds[0] in ds;
      TotalSizeBound(ds[1..]);
    }
  }

  /** The constructor, the size function and the encoder count the same bytes. */
  lemma ConstructorAgreesWithEncoder(instanceId: byte, code: byte, initial: D.Descriptor, more: seq<D.Descriptor>)
    requires |more| <= ADDITIONAL_MAX_COUNT
    requires forall d :: d in [initial] + more ==> D.Encodable(d)
    ensures var r := New(instanceId, code, initial, more).value;
      && Encodable(r) && Listed(r) == [initial] + more
      && |Wire(r)| == Size(r) == FIXED_LEN + r.identifiersLen as int
  {
    var r := New(instanceId, code, initial, more).value;
    if more != [] { assert FillAdditional(more)[..|more|] == more; }
    assert Listed(r) == [initial] + more;
    TotalSizeIsWireLength([initial] + more);
    TotalSizeBound([initial] + more);
  }

  lemma WireStarts(r: Response)
    ensures r.hdr + [r.completionCode] <= Wire(r)
  {
  }

  lemma RoundTrip(r: Response, rest: seq<byte>)
    requires WellFormed(r)
    ensures Parse(Wire(r) + rest) == Ok(r)
  {
    hide D.Wire, D.Parse, D.WellFormed, ListWire, ParseList;
    var more := if r.additional.Some? then r.additional.value[..Visited(r.descriptorCount)] else [];
    var tail := ListWire(D.DESCRIPTOR, more) + rest;
    var b := Wire(r) + rest;
    assert Listed(r) == [r.initial] + more;
    ListWireFront(D.DESCRIPTOR, r.initial, more);
    assert b[4..] == Le32(r.identifiersLen) + b[8..];
    ReadLe32(r.identifiersLen, b[8..]);
    assert b[FIXED_LEN..] == D.DESCRIPTOR.wire(r.initial) + tail;
    D.DescriptorLossless(r.initial, tail);
    assert b[FIXED_LEN + |D.Wire(r.initial)|..] == tail;
    D.DescriptorsLossless(more, rest);
    if r.additional.Some? { assert FillAdditional(more) == r.additional.value; }
    assert b[..3] == r.hdr;
    assert D.Parse(b[FIXED_LEN..]) == Ok((r.initial, |D.Wire(r.initial)|));
  }

  lemma FixedPartCanonical(b: seq<byte>, descriptors: seq<byte>)
    requires |b| >= FIXED_LEN && descriptors <= b[FIXED_LEN..]
    ensures b[..3] + ([b[3]] + (Le32(FromLe32(b[4..])) + ([b[8]] + descriptors))) <= b
  {
    WriteLe32(b[4..]);
    assert b == b[..3] + ([b[3]] + (b[4..][..4] + ([b[8]] + b[FIXED_LEN..])));
  }

  lemma DecodedIsCanonical(b: seq<byte>)
    requires Parse(b).Ok?
    ensures WellFormed(Parse(b).value) && Wire(Parse(b).value) <= b
  {
    hide D.Wire, D.Parse, D.WellFormed, ListWire, ParseList, FromLe32, Le32;
    var r := Parse(b).value;
    var k := Visited(r.descriptorCount);
    var b1 := b[FIXED_LEN..];
    D.DescriptorCanonical(b1);
    var n := D.Parse(b1).value.1;
    var more: seq<D.Descriptor> := [];
    if r.additional.Some? {
      more := ParseList(D.DESCRIPTOR, b[FIXED_LEN + n..], k).value.0;
      D.DescriptorsCanonical(b[FIXED_LEN + n..], k);
      assert r.additional.value == FillAdditional(more);
      forall i | 0 <= i < k ensures D.WellFormed(r.additional.value[i]) {
        assert r.additional.value[i] == more[i] && more[i] in more;
      }
      assert r.additional.value[..k] == more;
    } else {
      ListWireOfNone(D.DESCRIPTOR);
    }
    assert Listed(r) == [r.initial] + more;
    ListWireFront(D.DESCRIPTOR, r.initial, more);
    assert b1 == D.Wire(r.initial) + b[FIXED_LEN + n..];
    FixedPartCanonical(b, ListWire(D.DESCRIPTOR, Listed(r)));
  }

  lemma LosslessIffWellFormed(r: Response, rest: seq<byte>)
    requires Encodable(r)
    ensures Parse(Wire(r) + rest) == Ok(r) <==> WellFormed(r)
  {
    hide Parse, Wire;
    if WellFormed(r) { RoundTrip(r, rest); }
    if Parse(Wire(r) + rest) == Ok(r) { DecodedIsCanonical(Wire(r) + rest); }
  }

  lemma ParseOnPrefix(q: seq<byte>, b: seq<byte>)
    requires q <= b
    ensures Parse(q) in {Parse(b), Err(BufferTooShort)}
  {
    hide D.Parse, ParseList, FromLe32;
    if FIXED_LEN <= |q| {
      ReadsOnPrefix(q, b, 4);
      assert q[..3] == b[..3];
      D.DescriptorCutSafe(q[FIXED_LEN..], b[FIXED_LEN..]);
      if D.Parse(q[FIXED_LEN..]).Ok? {
        D.DescriptorCanonical(q[FIXED_LEN..]);
        var n := FIXED_LEN + D.Parse(q[FIXED_LEN..]).value.1;
        D.DescriptorsCutSafe(q[n..], b[n..], Visited(q[8]));
      }
    }
  }

  /** A truncated response is reported as too short, never as malformed and never as a value. */
  lemma TruncatedIsTooShort(r: Response, q: seq<byte>)
    requires WellFormed(r) && q < Wire(r)
    ensures Parse(q) == Err(BufferTooShort)
  {
    hide Parse, Wire;
    RoundTrip(r, []);
    assert Wire(r) + [] == Wire(r);
    ParseOnPrefix(q, Wire(r));
    if Parse(q) == Ok(r) { DecodedIsCanonical(q); }
  }
}
