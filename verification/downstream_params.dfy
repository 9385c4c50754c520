// DownstreamDeviceParameterTable: fixed fields around two versions, then the two version
// strings. The encoder, the size function and the decoder agree.
module DownstreamParameters {
  import opened Bytes
  import opened FirmwareParameters
  import opened FirmwareParametersLaws

  const FIXED_LEN := 36
  // What the decoder asks for up front: it leaves out the types and lengths of the two strings.
  const MIN_LEN := 32

  datatype Table = Table(
    index: u16,
    active: Version,
    pending: Version,
    activationMethods: u16,
    capabilities: u32,
    activeStr: VerStr,
    pendingStr: VerStr)

  /** No slice of the two strings is out of range. */
  predicate CanEncode(t: Table) {
    t.active.strLen as int <= VER_STR_MAX_LEN && t.pending.strLen as int <= VER_STR_MAX_LEN
  }

  predicate IsPadded(t: Table) {
    StringWellFormed(t.active.strLen, t.activeStr) && StringWellFormed(t.pending.strLen, t.pendingStr)
  }

  /** `size` */
  function TableSize(t: Table): nat { FIXED_LEN + t.active.strLen as nat + t.pending.strLen as nat }

  function FixedWire(t: Table): (b: seq<byte>)
    ensures |b| == FIXED_LEN
  {
    Le16(t.index) + (VersionWire(t.active) + (VersionWire(t.pending) +
    (Le16(t.activationMethods) + Le32(t.capabilities))))
  }

  function TableWire(t: Table): seq<byte> {
    FixedWire(t) + (StringWire(t.active.strLen, Some(t.activeStr)) + StringWire(t.pending.strLen, Some(t.pendingStr)))
  }

  function ParseTable(b: seq<byte>): Result<Table, CodecError> {
    if |b| < FIXED_LEN then Err(BufferTooShort)
    else
      var active, pending := ReadVersion(b[2..]), ReadVersion(b[16..]);
      var activeStr :- ParseString(b[FIXED_LEN..], active.strLen);
      var pendingStr :- ParseString(b[FIXED_LEN + active.strLen as int..], pending.strLen);
      Ok(Table(FromLe16(b), active, pending, FromLe16(b[30..]), FromLe32(b[32..]), activeStr, pendingStr))
  }

  lemma FixedRoundTrip(t: Table, rest: seq<byte>)
    ensures var b := FixedWire(t) + rest;
      && FromLe16(b) == t.index && ReadVersion(b[2..]) == t.active && ReadVersion(b[16..]) == t.pending
      && FromLe16(b[30..]) == t.activationMethods && FromLe32(b[32..]) == t.capabilities
  {
  }

  lemma FixedCanonical(b: seq<byte>, activeStr: VerStr, pendingStr: VerStr)
    requires |b| >= FIXED_LEN
    ensures FixedWire(Table(FromLe16(b), ReadVersion(b[2..]), ReadVersion(b[16..]),
                            FromLe16(b[30..]), FromLe32(b[32..]), activeStr, pendingStr)) == b[..FIXED_LEN]
  {
    WriteLe16(b);
    VersionCanonical(b[2..]);
    VersionCanonical(b[16..]);
    WriteLe16(b[30..]);
    WriteLe32(b[32..]);
    assert b[..36] == b[..2] + (b[2..][..14] + (b[16..][..14] + (b[30..][..2] + b[32..][..4])));
  }

  lemma TableRoundTrip(t: Table, rest: seq<byte>)
    requires IsPadded(t)
    ensures ParseTable(TableWire(t) + rest) == Ok(t) && |TableWire(t)| == TableSize(t)
  {
    hide FixedWire, ReadVersion, ParseString;
    var n, m := t.active.strLen, t.pending.strLen;
    var active, pending := StringWire(n, Some(t.activeStr)), StringWire(m, Some(t.pendingStr));
    var b := TableWire(t) + rest;
    assert b == FixedWire(t) + (active + (pending + rest));
    FixedRoundTrip(t, active + (pending + rest));
    assert b[FIXED_LEN..] == active + (pending + rest);
    assert b[FIXED_LEN + n as int..] == pending + rest;
    StringRoundTrip(n, t.activeStr, pending + rest);
    StringRoundTrip(m, t.pendingStr, rest);
  }

  lemma DecodedTableIsCanonical(b: seq<byte>)
    requires ParseTable(b).Ok?
    ensures IsPadded(ParseTable(b).value) && TableWire(ParseTable(b).value) <= b
  {
    hide FixedWire, ReadVersion, ParseString, FromLe16, FromLe32;
    var t := ParseTable(b).value;
    var n, m := t.active.strLen, t.pending.strLen;
    FixedCanonical(b, t.activeStr, t.pendingStr);
    var b1 := b[FIXED_LEN..];
    StringCanonical(b1, n);
    var b2 := b[FIXED_LEN + n as int..];
    StringCanonical(b2, m);
    assert b == b[..FIXED_LEN] + (b1[..n] + (b2[..m] + b2[m..]));
  }

  /** A table survives encoding and decoding exactly when its strings are zero-padded. */
  lemma TableLosslessIff(t: Table, rest: seq<byte>)
    requires CanEncode(t)
    ensures ParseTable(TableWire(t) + rest) == Ok(t) <==> IsPadded(t)
  {
    hide ParseTable, TableWire;
    if IsPadded(t) { TableRoundTrip(t, rest); }
    if ParseTable(TableWire(t) + rest) == Ok(t) { DecodedTableIsCanonical(TableWire(t) + rest); }
  }

  /** A truncated table is reported as too short, never as malformed and never as a value. */
  lemma TruncatedTableIsTooShort(t: Table, q: seq<byte>)
    requires IsPadded(t) && q < TableWire(t)
    ensures ParseTable(q) == Err(BufferTooShort)
  {
  }

  // ---- The codec ----

  method EncodeTable(t: Table, buffer: array<byte>, at: nat) returns (r: Result<nat, CodecError>)
    requires CanEncode(t) && at <= buffer.Length
    modifies buffer
    ensures Encoded(old(buffer[..]), buffer[..], at, TableWire(t), r)
  {
    if buffer.Length - at < TableSize(t) {
      return Err(BufferTooShort);
    }
    hide Splice, FixedWire;
    ghost var was := buffer[..];
    SpliceNothing(was, at);
    var fixed := FixedWire(t);
    var n, m := t.active.strLen as int, t.pending.strLen as int;
    PutNext(buffer, at, was, [], 0, fixed);
    assert [] + fixed == fixed;
    PutNext(buffer, at, was, fixed, FIXED_LEN, t.activeStr[..n]);
    PutNext(buffer, at, was, fixed + t.activeStr[..n], FIXED_LEN + n, t.pendingStr[..m]);
    assert TableWire(t) == fixed + t.activeStr[..n] + t.pendingStr[..m] by {
      assert StringWire(t.active.strLen, Some(t.activeStr)) == t.activeStr[..n];
      assert StringWire(t.pending.strLen, Some(t.pendingStr)) == t.pendingStr[..m];
    }
    return Ok(FIXED_LEN + n + m);
  }

  method DecodeTable(buffer: seq<byte>) returns (r: Result<Table, CodecError>)
    ensures r == ParseTable(buffer)
  {
    hide FromLe16, FromLe32, ReadVersion;
    if |buffer| < MIN_LEN {
      return Err(BufferTooShort);
    }
    var index := FromLe16(buffer);
    if |buffer| < FIXED_LEN {
      // The capabilities, read last of the fixed fields, are the ones cut off.
      return Err(BufferTooShort);
    }
    var active, pending := ReadVersion(buffer[2..]), ReadVersion(buffer[16..]);
    var methods, capabilities := FromLe16(buffer[30..]), FromLe32(buffer[32..]);
    var offset := FIXED_LEN;
    var len := active.strLen as int;
    if len > VER_STR_MAX_LEN {
      return Err(InvalidData);
    }
    if |buffer| < offset + len {
      return Err(BufferTooShort);
    }
    assert buffer[offset..][..len] == buffer[offset..offset + len];
    var activeStr := Pad(buffer[offset..offset + len]);
    offset := offset + len;
    len := pending.strLen as int;
    if len > VER_STR_MAX_LEN {
      return Err(InvalidData);
    }
    if |buffer| < offset + len {
      return Err(BufferTooShort);
    }
    assert buffer[offset..][..len] == buffer[offset..offset + len];
    return Ok(Table(index, active, pending, methods, capabilities, activeStr, Pad(buffer[offset..offset + len])));
  }
}
