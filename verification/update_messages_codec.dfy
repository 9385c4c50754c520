// The encoders and decoders of the update messages, against their wire forms.
module UpdateMessagesCodec {
  import opened Bytes
  import opened Base
  import opened FirmwareParameters
  import opened UpdateMessages

  /** One of the three requests that end in a version string. */
  method EncodeRequest(r: StringRequest, buffer: array<byte>, at: nat) returns (n: Result<nat, CodecError>)
    requires |r.fixed| >= 2 && StrLen(r) as int <= VER_STR_MAX_LEN && at <= buffer.Length
    modifies buffer
    ensures Encoded(old(buffer[..]), buffer[..], at, RequestWire(r), n)
  {
    var len := StrLen(r) as int;
    if buffer.Length - at < |r.fixed| + len {
      return Err(BufferTooShort);
    }
    hide Splice;
    ghost var was := buffer[..];
    SpliceNothing(was, at);
    var offset := 0;
    PutNext(buffer, at, was, [], offset, r.fixed);
    offset := offset + |r.fixed|;
    assert [] + r.fixed == r.fixed;
    PutNext(buffer, at, was, r.fixed, offset, r.str[..len]);
    return Ok(offset + len);
  }

  method DecodeRequest(buffer: seq<byte>, fixedLen: nat) returns (r: Result<StringRequest, CodecError>)
    requires fixedLen >= 2
    ensures r == ParseRequest(buffer, fixedLen)
  {
    var offset := 0;
    if |buffer| < offset + fixedLen {
      return Err(BufferTooShort);
    }
    var fixed := buffer[offset..offset + fixedLen];
    offset := offset + fixedLen;
    var len := fixed[fixedLen - 1] as int;
    if len > VER_STR_MAX_LEN {
      return Err(InvalidData);
    }
    if |buffer| < offset + len {
      return Err(BufferTooShort);
    }
    assert buffer[offset..][..len] == buffer[offset..offset + len];
    return Ok(StringRequest(fixed, Pad(buffer[offset..offset + len])));
  }

  /** The optional last field. */
  method PutTail(tail: Option<u32>, buffer: array<byte>, at: nat,
                 ghost was: seq<byte>, ghost done: seq<byte>, start: nat)
    returns (offset: nat)
    requires start == |done| && at + start + |TailWire(tail)| <= buffer.Length == |was|
    requires buffer[..] == Splice(was, at, done)
    modifies buffer
    ensures offset == start + |TailWire(tail)|
    ensures buffer[..] == Splice(was, at, done + TailWire(tail))
  {
    offset := start;
    if tail.Some? {
      PutNext(buffer, at, was, done, offset, Le32(tail.value));
      offset := offset + 4;
    } else {
      assert done + [] == done;
    }
  }

  lemma TailLength(tail: Option<u32>)
    ensures |TailWire(tail)| == if tail.Some? then 4 else 0
  {
  }

  method EncodeUpdateComponentResponse(r: UpdateComponentResponse, buffer: array<byte>, at: nat)
    returns (n: Result<nat, CodecError>)
    requires at <= buffer.Length
    modifies buffer
    ensures Encoded(old(buffer[..]), buffer[..], at, UpdateComponentResponseWire(r), n)
  {
    var size := HEADER_LEN + 3 + 4 + 2;
    if r.opaqueDataMaxTransfer.Some? {
      size := size + 4;
    }
    if buffer.Length - at < size {
      return Err(BufferTooShort);
    }
    hide Splice, TailWire, Le32, Le16;
    ghost var was := buffer[..];
    SpliceNothing(was, at);
    var codes := [r.completionCode, r.compatibility, r.compatibilityCode];
    var flags, time := Le32(r.flags), Le16(r.timeBeforeRequest);
    TailLength(r.opaqueDataMaxTransfer);
    PutNext(buffer, at, was, [], 0, r.hdr);
    PutNext(buffer, at, was, [] + r.hdr, 3, codes);
    PutNext(buffer, at, was, [] + r.hdr + codes, 6, flags);
    PutNext(buffer, at, was, [] + r.hdr + codes + flags, 10, time);
    var offset := PutTail(r.opaqueDataMaxTransfer, buffer, at, was, [] + r.hdr + codes + flags + time, 12);
    assert UpdateComponentResponseWire(r) == [] + r.hdr + codes + flags + time + TailWire(r.opaqueDataMaxTransfer);
    return Ok(offset);
  }

  method DecodeUpdateComponentResponse(buffer: seq<byte>) returns (r: Result<UpdateComponentResponse, CodecError>)
    ensures r == ParseUpdateComponentResponse(buffer)
  {
    hide FromLe32, FromLe16;
    if |buffer| < 3 { return Err(BufferTooShort); }
    var hdr := buffer[..3];
    if |buffer| < 4 { return Err(BufferTooShort); }
    var completionCode := buffer[3];
    if |buffer| < 5 { return Err(BufferTooShort); }
    var compatibility := buffer[4];
    if |buffer| < 6 { return Err(BufferTooShort); }
    var compatibilityCode := buffer[5];
    if |buffer| < 10 { return Err(BufferTooShort); }
    var flags := FromLe32(buffer[6..]);
    if |buffer| < 12 { return Err(BufferTooShort); }
    var time := FromLe16(buffer[10..]);
    var tail: Option<u32> := None;
    if ComponentOpaqueData(flags) {
      if |buffer| < 16 { return Err(BufferTooShort); }
      tail := Some(FromLe32(buffer[12..]));
    }
    return Ok(UpdateComponentResponse(hdr, completionCode, compatibility, compatibilityCode, flags, time, tail));
  }

  /** Only the size function guards the writes, so a tail it does not count must fit anyway. */
  method EncodeRequestUpdateResponse(r: RequestUpdateResponse, buffer: array<byte>, at: nat)
    returns (n: Result<nat, CodecError>)
    requires at <= buffer.Length
    requires r.pkgDataMaxTransfer.Some? ==>
      r.willSendPkgDataCmd == 2 || !(RequestUpdateResponseSize(r) <= buffer.Length - at < 11)
    modifies buffer
    ensures if buffer.Length - at < RequestUpdateResponseSize(r) then
              n == Err(BufferTooShort) && buffer[..] == old(buffer[..])
            else
              && n == Ok(|RequestUpdateResponseWire(r)|)
              && at + |RequestUpdateResponseWire(r)| <= buffer.Length
              && buffer[..] == Splice(old(buffer[..]), at, RequestUpdateResponseWire(r))
  {
    if buffer.Length - at < RequestUpdateResponseSize(r) {
      return Err(BufferTooShort);
    }
    hide Splice, TailWire, Le16;
    ghost var was := buffer[..];
    SpliceNothing(was, at);
    TailLength(r.pkgDataMaxTransfer);
    var fixed := r.hdr + ([r.completionCode] + (Le16(r.metaDataLen) + [r.willSendPkgDataCmd]));
    PutNext(buffer, at, was, [], 0, fixed);
    assert [] + fixed == fixed;
    var offset := PutTail(r.pkgDataMaxTransfer, buffer, at, was, fixed, 7);
    assert RequestUpdateResponseWire(r) == fixed + TailWire(r.pkgDataMaxTransfer);
    return Ok(offset);
  }

  method DecodeRequestUpdateResponse(buffer: seq<byte>) returns (r: Result<RequestUpdateResponse, CodecError>)
    ensures r == ParseRequestUpdateResponse(buffer)
  {
    hide FromLe32, FromLe16;
    if |buffer| < 7 { return Err(BufferTooShort); }
    var tail: Option<u32> := None;
    if buffer[6] == 2 {
      if |buffer| < 11 { return Err(BufferTooShort); }
      tail := Some(FromLe32(buffer[7..]));
    }
    return Ok(RequestUpdateResponse(buffer[..3], buffer[3], FromLe16(buffer[4..]), buffer[6], tail));
  }
}
