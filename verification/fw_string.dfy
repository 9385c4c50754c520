// PldmFirmwareString: type, length and up to 32 bytes of text.
module FirmwareStrings {
  import opened Bytes
  import opened FirmwareParameters

  datatype FirmwareString = FirmwareString(strType: byte, strLen: byte, strData: VerStr)

  const STRING_HEADER_LEN := 2

  function FirmwareStringWire(s: FirmwareString): seq<byte> {
    [s.strType, s.strLen] + StringWire(s.strLen, Some(s.strData))
  }

  function ParseFirmwareString(b: seq<byte>): Result<FirmwareString, CodecError> {
    if |b| < STRING_HEADER_LEN then Err(BufferTooShort)
    else
      var data :- ParseString(b[STRING_HEADER_LEN..], b[1]);
      Ok(FirmwareString(b[0], b[1], data))
  }

  /** A string survives encoding and decoding exactly when what follows its length is zero. */
  lemma FirmwareStringLosslessIff(s: FirmwareString, rest: seq<byte>)
    requires s.strLen as int <= VER_STR_MAX_LEN
    ensures ParseFirmwareString(FirmwareStringWire(s) + rest) == Ok(s) <==> StringWellFormed(s.strLen, s.strData)
  {
    var body := StringWire(s.strLen, Some(s.strData));
    assert (FirmwareStringWire(s) + rest)[STRING_HEADER_LEN..] == body + rest;
    assert (body + rest)[..s.strLen] == body;
  }

  lemma DecodedFirmwareStringIsCanonical(b: seq<byte>)
    requires ParseFirmwareString(b).Ok?
    ensures var s := ParseFirmwareString(b).value;
      StringWellFormed(s.strLen, s.strData) && FirmwareStringWire(s) <= b
  {
  }

  lemma TruncatedFirmwareStringIsTooShort(s: FirmwareString, q: seq<byte>)
    requires StringWellFormed(s.strLen, s.strData) && q < FirmwareStringWire(s)
    ensures ParseFirmwareString(q) == Err(BufferTooShort)
  {
  }

  method EncodeFirmwareString(s: FirmwareString, buffer: array<byte>, at: nat) returns (r: Result<nat, CodecError>)
    requires s.strLen as int <= VER_STR_MAX_LEN && at <= buffer.Length
    modifies buffer
    ensures Encoded(old(buffer[..]), buffer[..], at, FirmwareStringWire(s), r)
  {
    var len := s.strLen as int;
    if buffer.Length - at < len + STRING_HEADER_LEN {
      return Err(BufferTooShort);
    }
    hide Splice;
    ghost var was := buffer[..];
    SpliceNothing(was, at);
    var offset := 0;
    PutNext(buffer, at, was, [], offset, [s.strType]);
    offset := offset + 1;
    PutNext(buffer, at, was, [] + [s.strType], offset, [s.strLen]);
    offset := offset + 1;
    PutNext(buffer, at, was, [] + [s.strType] + [s.strLen], offset, s.strData[..len]);
    assert FirmwareStringWire(s) == [] + [s.strType] + [s.strLen] + s.strData[..len];
    return Ok(offset + len);
  }

  method DecodeFirmwareString(buffer: seq<byte>) returns (r: Result<FirmwareString, CodecError>)
    ensures r == ParseFirmwareString(buffer)
  {
    if |buffer| < 1 { return Err(BufferTooShort); }
    var strType := buffer[0];
    if |buffer| < 2 { return Err(BufferTooShort); }
    var strLen := buffer[1];
    var len := strLen as int;
    if len > VER_STR_MAX_LEN {
      return Err(InvalidData);
    }
    if |buffer| < STRING_HEADER_LEN + len {
      return Err(BufferTooShort);
    }
    assert buffer[STRING_HEADER_LEN..][..len] == buffer[STRING_HEADER_LEN..STRING_HEADER_LEN + len];
    return Ok(FirmwareString(strType, strLen, Pad(buffer[STRING_HEADER_LEN..STRING_HEADER_LEN + len])));
  }
}
