// The requests that end in a version string, and the responses with a conditional tail.
module UpdateMessages {
  import opened Bytes
  import opened Base
  import opened FirmwareParameters

  // RequestUpdate, PassComponentTable and UpdateComponent requests have one shape: a packed
  // fixed part whose last two bytes are the type and length of the version string after it.

  const REQUEST_UPDATE_FIXED_LEN := 14
  const PASS_COMPONENT_FIXED_LEN := 15
  const UPDATE_COMPONENT_FIXED_LEN := 22

  datatype StringRequest = StringRequest(fixed: seq<byte>, str: VerStr)

  function StrType(r: StringRequest): byte
    requires |r.fixed| >= 2
  {
    r.fixed[|r.fixed| - 2]
  }

  function StrLen(r: StringRequest): byte
    requires |r.fixed| >= 2
  {
    r.fixed[|r.fixed| - 1]
  }

  function RequestWire(r: StringRequest): seq<byte>
    requires |r.fixed| >= 2
  {
    r.fixed + StringWire(StrLen(r), Some(r.str))
  }

  function ParseRequest(b: seq<byte>, fixedLen: nat): (r: Result<StringRequest, CodecError>)
    requires fixedLen >= 2
    ensures r.Ok? ==> |r.value.fixed| == fixedLen <= |b|
  {
    if |b| < fixedLen then Err(BufferTooShort)
    else
      var str :- ParseString(b[fixedLen..], b[fixedLen - 1]);
      Ok(StringRequest(b[..fixedLen], str))
  }

  /** The fixed part is there, and so is the whole of a string of an allowed length. */
  predicate Readable(b: seq<byte>, fixedLen: nat)
    requires fixedLen >= 2
  {
    |b| >= fixedLen && b[fixedLen - 1] <= 32 && |b| >= fixedLen + b[fixedLen - 1] as int
  }

  /** Only a string length that is too large is malformed; everything else is too short. */
  lemma RequestDecodesIff(b: seq<byte>, fixedLen: nat)
    requires fixedLen >= 2
    ensures ParseRequest(b, fixedLen).Ok? <==> Readable(b, fixedLen)
    ensures ParseRequest(b, fixedLen).Err? ==>
      ParseRequest(b, fixedLen).error == if |b| >= fixedLen && b[fixedLen - 1] > 32 then InvalidData else BufferTooShort
  {
  }

  lemma RequestLosslessIff(r: StringRequest, rest: seq<byte>)
    requires |r.fixed| >= 2 && StrLen(r) as int <= VER_STR_MAX_LEN
    ensures ParseRequest(RequestWire(r) + rest, |r.fixed|) == Ok(r) <==> r.str == Pad(r.str[..StrLen(r)])
  {
    var b := RequestWire(r) + rest;
    var s := StringWire(StrLen(r), Some(r.str));
    assert b == r.fixed + (s + rest);
    assert b[|r.fixed|..] == s + rest && b[..|r.fixed|] == r.fixed;
    assert b[|r.fixed| - 1] == StrLen(r);
    assert (s + rest)[..StrLen(r)] == s;
  }

  lemma RequestCanonical(b: seq<byte>, fixedLen: nat)
    requires fixedLen >= 2 && ParseRequest(b, fixedLen).Ok?
    ensures var r := ParseRequest(b, fixedLen).value;
      StringWellFormed(StrLen(r), r.str) && RequestWire(r) <= b
  {
  }

  lemma TruncatedRequestIsTooShort(r: StringRequest, q: seq<byte>)
    requires |r.fixed| >= 2 && StringWellFormed(StrLen(r), r.str)
    requires q < RequestWire(r)
    ensures ParseRequest(q, |r.fixed|) == Err(BufferTooShort)
  {
  }

  /** `get_comp_image_set_ver_str`: the length is clamped to what the string can hold. */
  function ImageSetVersion(r: StringRequest): (byte, byte, VerStr)
    requires |r.fixed| >= 2
  {
    var len: byte := if StrLen(r) as int <= VER_STR_MAX_LEN then StrLen(r) else VER_STR_MAX_LEN;
    (StrType(r), len, Pad(r.str[..len]))
  }

  /** On a decoded request the clamp never acts and the getter returns the string as sent. */
  lemma ImageSetVersionOfDecoded(b: seq<byte>)
    requires ParseRequest(b, REQUEST_UPDATE_FIXED_LEN).Ok?
    ensures var r := ParseRequest(b, REQUEST_UPDATE_FIXED_LEN).value;
      ImageSetVersion(r) == (b[12], b[13], r.str) && r.str[..b[13]] == b[14..14 + b[13] as int]
  {
  }

  // ---- Responses with a conditional tail ----

  datatype UpdateComponentResponse = UpdateComponentResponse(
    hdr: Header,
    completionCode: byte,
    compatibility: byte,
    compatibilityCode: byte,
    flags: u32,
    timeBeforeRequest: u16,
    opaqueDataMaxTransfer: Option<u32>)

  predicate ComponentOpaqueData(flags: u32) { flags / 2 % 2 == 1 }

  function TailWire(tail: Option<u32>): seq<byte> { if tail.Some? then Le32(tail.value) else [] }

  function ParseTail(b: seq<byte>, present: bool): Result<Option<u32>, CodecError> {
    if !present then Ok(None)
    else if |b| < 4 then Err(BufferTooShort)
    else Ok(Some(FromLe32(b)))
  }

  lemma TailLosslessIff(tail: Option<u32>, present: bool, rest: seq<byte>)
    ensures ParseTail(TailWire(tail) + rest, present) == Ok(tail) <==> (present <==> tail.Some?)
  {
  }

  function UpdateComponentResponseWire(r: UpdateComponentResponse): seq<byte> {
    r.hdr + ([r.completionCode, r.compatibility, r.compatibilityCode] +
             (Le32(r.flags) + (Le16(r.timeBeforeRequest) + TailWire(r.opaqueDataMaxTransfer))))
  }

  function ParseUpdateComponentResponse(b: seq<byte>): Result<UpdateComponentResponse, CodecError> {
    if |b| < 12 then Err(BufferTooShort)
    else
      var flags := FromLe32(b[6..]);
      var tail :- ParseTail(b[12..], ComponentOpaqueData(flags));
      Ok(UpdateComponentResponse(b[..3], b[3], b[4], b[5], flags, FromLe16(b[10..]), tail))
  }

  /** The encoder writes the tail when the value has one; the decoder reads it when the flag
      says so. They agree exactly when flag and tail do. */
  lemma UpdateComponentResponseLosslessIff(r: UpdateComponentResponse, rest: seq<byte>)
    ensures ParseUpdateComponentResponse(UpdateComponentResponseWire(r) + rest) == Ok(r)
       <==> (ComponentOpaqueData(r.flags) <==> r.opaqueDataMaxTransfer.Some?)
  {
    var b := UpdateComponentResponseWire(r) + rest;
    ReadLe32(r.flags, b[10..]);
    ReadLe16(r.timeBeforeRequest, b[12..]);
    assert b[6..] == Le32(r.flags) + b[10..];
    assert b[10..] == Le16(r.timeBeforeRequest) + b[12..];
    assert b[12..] == TailWire(r.opaqueDataMaxTransfer) + rest;
    assert b[..3] == r.hdr;
    TailLosslessIff(r.opaqueDataMaxTransfer, ComponentOpaqueData(r.flags), rest);
  }

  lemma TailCanonical(b: seq<byte>, present: bool)
    requires ParseTail(b, present).Ok?
    ensures TailWire(ParseTail(b, present).value) <= b
  {
    if present { WriteLe32(b); }
  }

  lemma TailOnPrefix(q: seq<byte>, b: seq<byte>, present: bool)
    requires q <= b
    ensures ParseTail(q, present) in {ParseTail(b, present), Err(BufferTooShort)}
  {
  }

  /** Whatever decodes has flag and tail agreeing, and encodes to the bytes consumed. */
  lemma UpdateComponentResponseCanonical(b: seq<byte>)
    requires ParseUpdateComponentResponse(b).Ok?
    ensures var r := ParseUpdateComponentResponse(b).value;
      (ComponentOpaqueData(r.flags) <==> r.opaqueDataMaxTransfer.Some?) && UpdateComponentResponseWire(r) <= b
  {
    hide Le32, FromLe32, Le16, FromLe16, TailWire;
    var r := ParseUpdateComponentResponse(b).value;
    var tail := TailWire(r.opaqueDataMaxTransfer);
    TailCanonical(b[12..], ComponentOpaqueData(r.flags));
    WriteLe32(b[6..]);
    WriteLe16(b[10..]);
    assert b == b[..3] + ([b[3], b[4], b[5]] + (b[6..][..4] + (b[10..][..2] + (tail + b[12..][|tail|..]))));
  }

  lemma UpdateComponentResponseOnPrefix(q: seq<byte>, b: seq<byte>)
    requires q <= b
    ensures ParseUpdateComponentResponse(q) in {ParseUpdateComponentResponse(b), Err(BufferTooShort)}
  {
    hide ParseTail, FromLe32, FromLe16;
    if 12 <= |q| {
      ReadsOnPrefix(q, b, 6);
      ReadsOnPrefix(q, b, 10);
      assert q[..3] == b[..3];
      TailOnPrefix(q[12..], b[12..], ComponentOpaqueData(FromLe32(q[6..])));
    }
  }

  lemma TruncatedUpdateComponentResponseIsTooShort(r: UpdateComponentResponse, q: seq<byte>)
    requires ComponentOpaqueData(r.flags) <==> r.opaqueDataMaxTransfer.Some?
    requires q < UpdateComponentResponseWire(r)
    ensures ParseUpdateComponentResponse(q) == Err(BufferTooShort)
  {
    hide ParseUpdateComponentResponse, UpdateComponentResponseWire;
    var b := UpdateComponentResponseWire(r);
    UpdateComponentResponseLosslessIff(r, []);
    assert b + [] == b;
    UpdateComponentResponseOnPrefix(q, b);
    if ParseUpdateComponentResponse(q) == Ok(r) { UpdateComponentResponseCanonical(q); }
  }

  datatype RequestUpdateResponse = RequestUpdateResponse(
    hdr: Header,
    completionCode: byte,
    metaDataLen: u16,
    willSendPkgDataCmd: byte,
    pkgDataMaxTransfer: Option<u32>)

  function RequestUpdateResponseWire(r: RequestUpdateResponse): seq<byte> {
    r.hdr + ([r.completionCode] + (Le16(r.metaDataLen) + ([r.willSendPkgDataCmd] + TailWire(r.pkgDataMaxTransfer))))
  }

  /** `codec_size_in_bytes`, which looks at the command byte and not at the tail. */
  function RequestUpdateResponseSize(r: RequestUpdateResponse): nat {
    if r.willSendPkgDataCmd == 2 then 11 else 7
  }

  function ParseRequestUpdateResponse(b: seq<byte>): Result<RequestUpdateResponse, CodecError> {
    if |b| < 7 then Err(BufferTooShort)
    else
      var tail :- ParseTail(b[7..], b[6] == 2);
      Ok(RequestUpdateResponse(b[..3], b[3], FromLe16(b[4..]), b[6], tail))
  }

  /** The one condition under which the size function counts what the encoder writes and the
      decoder reads back what was encoded. */
  lemma RequestUpdateResponseAgreesIff(r: RequestUpdateResponse, rest: seq<byte>)
    ensures var consistent := r.willSendPkgDataCmd == 2 <==> r.pkgDataMaxTransfer.Some?;
      && (|RequestUpdateResponseWire(r)| == RequestUpdateResponseSize(r) <==> consistent)
      && (ParseRequestUpdateResponse(RequestUpdateResponseWire(r) + rest) == Ok(r) <==> consistent)
  {
    var b := RequestUpdateResponseWire(r) + rest;
    ReadLe16(r.metaDataLen, b[6..]);
    assert b[4..] == Le16(r.metaDataLen) + b[6..];
    assert b[7..] == TailWire(r.pkgDataMaxTransfer) + rest;
    assert b[..3] == r.hdr;
    TailLosslessIff(r.pkgDataMaxTransfer, r.willSendPkgDataCmd == 2, rest);
  }

  /** Whatever decodes has command byte and tail agreeing, and encodes to the bytes consumed. */
  lemma RequestUpdateResponseCanonical(b: seq<byte>)
    requires ParseRequestUpdateResponse(b).Ok?
    ensures var r := ParseRequestUpdateResponse(b).value;
      (r.willSendPkgDataCmd == 2 <==> r.pkgDataMaxTransfer.Some?) && RequestUpdateResponseWire(r) <= b
  {
    hide Le16, FromLe16, TailWire;
    var r := ParseRequestUpdateResponse(b).value;
    var tail := TailWire(r.pkgDataMaxTransfer);
    TailCanonical(b[7..], b[6] == 2);
    WriteLe16(b[4..]);
    assert b == b[..3] + ([b[3]] + (b[4..][..2] + ([b[6]] + (tail + b[7..][|tail|..]))));
  }

  lemma RequestUpdateResponseOnPrefix(q: seq<byte>, b: seq<byte>)
    requires q <= b
    ensures ParseRequestUpdateResponse(q) in {ParseRequestUpdateResponse(b), Err(BufferTooShort)}
  {
    hide ParseTail, FromLe16;
    if 7 <= |q| {
      ReadsOnPrefix(q, b, 4);
      assert q[..3] == b[..3];
      TailOnPrefix(q[7..], b[7..], q[6] == 2);
    }
  }

  lemma TruncatedRequestUpdateResponseIsTooShort(r: RequestUpdateResponse, q: seq<byte>)
    requires r.willSendPkgDataCmd == 2 <==> r.pkgDataMaxTransfer.Some?
    requires q < RequestUpdateResponseWire(r)
    ensures ParseRequestUpdateResponse(q) == Err(BufferTooShort)
  {
    hide ParseRequestUpdateResponse, RequestUpdateResponseWire;
    var b := RequestUpdateResponseWire(r);
    RequestUpdateResponseAgreesIff(r, []);
    assert b + [] == b;
    RequestUpdateResponseOnPrefix(q, b);
    if ParseRequestUpdateResponse(q) == Ok(r) { RequestUpdateResponseCanonical(q); }
  }
}
