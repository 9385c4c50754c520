// The message that carries a portion, and a whole round trip from devices to devices.
module DownstreamCodec {
  import opened Bytes
  import opened Base
  import opened Downstream

  datatype Response = Response(
    hdr: Header,
    completionCode: byte,
    nextHandle: u32,
    transferFlag: byte,
    portion: seq<byte>)

  const RESPONSE_FIXED_LEN := 9

  function ResponseWire(r: Response): seq<byte> {
    r.hdr + ([r.completionCode] + (Le32(r.nextHandle) + ([r.transferFlag] + r.portion)))
  }

  /** Everything after the fixed part is the portion. */
  function ParseResponse(b: seq<byte>): Result<Response, CodecError> {
    if |b| < RESPONSE_FIXED_LEN then Err(BufferTooShort)
    else Ok(Response(b[..3], b[3], FromLe32(b[4..]), b[8], b[9..]))
  }

  lemma ResponseRoundTrip(r: Response, rest: seq<byte>)
    ensures ParseResponse(ResponseWire(r) + rest) == Ok(r.(portion := r.portion + rest))
  {
    var b := ResponseWire(r) + rest;
    assert b[4..] == Le32(r.nextHandle) + b[8..];
    ReadLe32(r.nextHandle, b[8..]);
    assert b[..3] == r.hdr && b[9..] == r.portion + rest;
  }

  lemma DecodedResponseIsCanonical(b: seq<byte>)
    requires ParseResponse(b).Ok?
    ensures ResponseWire(ParseResponse(b).value) == b
  {
  }

  /** A response built from any list of devices, sent, decoded and iterated, yields exactly
      those devices and their descriptors, also when bytes follow the message. */
  lemma SentDevicesArrive(r: Response, length: u32, xs: seq<Listed>, rest: seq<byte>)
    requires AllSerialisable(xs) && |xs| < 0x1_0000 && r.portion == PortionWire(length, xs)
    ensures ParseResponse(ResponseWire(r) + rest).Ok?
    ensures var ds := Devices(ParseResponse(ResponseWire(r) + rest).value.portion);
      && |ds| == |xs|
      && forall i :: 0 <= i < |xs| ==>
           ds[i].index == xs[i].index && IsWhole(ds[i]) && DescriptorsOf(ds[i]) == xs[i].descriptors
  {
    hide ParseResponse, ResponseWire, Devices, PortionWire, IsWhole, DescriptorsOf;
    ResponseRoundTrip(r, rest);
    TwoLevelRoundTrip(length, xs, rest);
  }

  method EncodeResponse(r: Response, buffer: array<byte>, at: nat) returns (n: Result<nat, CodecError>)
    requires at <= buffer.Length
    modifies buffer
    ensures Encoded(old(buffer[..]), buffer[..], at, ResponseWire(r), n)
  {
    var size := RESPONSE_FIXED_LEN + |r.portion|;
    if buffer.Length - at < size {
      return Err(BufferTooShort);
    }
    hide Splice, Le32;
    ghost var was := buffer[..];
    SpliceNothing(was, at);
    var code, handle, flag := [r.completionCode], Le32(r.nextHandle), [r.transferFlag];
    PutNext(buffer, at, was, [], 0, r.hdr);
    PutNext(buffer, at, was, [] + r.hdr, 3, code);
    PutNext(buffer, at, was, [] + r.hdr + code, 4, handle);
    PutNext(buffer, at, was, [] + r.hdr + code + handle, 8, flag);
    PutNext(buffer, at, was, [] + r.hdr + code + handle + flag, 9, r.portion);
    assert ResponseWire(r) == [] + r.hdr + code + handle + flag + r.portion;
    return Ok(size);
  }

  method DecodeResponse(buffer: seq<byte>) returns (r: Result<Response, CodecError>)
    ensures r == ParseResponse(buffer)
  {
    if |buffer| < RESPONSE_FIXED_LEN {
      return Err(BufferTooShort);
    }
    var offset := 0;
    var hdr := buffer[offset..offset + 3];
    offset := offset + 3;
    var code := buffer[offset];
    offset := offset + 1;
    var handle := FromLe32(buffer[offset..]);
    offset := offset + 4;
    var flag := buffer[offset];
    offset := offset + 1;
    return Ok(Response(hdr, code, handle, flag, buffer[offset..]));
  }
}
