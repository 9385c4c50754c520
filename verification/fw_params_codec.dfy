// The encoder and decoder loops of FirmwareParameters, against its wire form.
module FirmwareParametersCodec {
  import opened Bytes
  import opened Formats
  import opened FirmwareParameters
  import opened FirmwareParametersLaws

  lemma EntryWireParts(e: Entry)
    requires EntryEncodable(e)
    ensures EntryWire(e) == EntryFixedWire(e.fixed) + e.active[..e.fixed.active.strLen] +
                            (if e.pending.Some? then e.pending.value[..e.fixed.pending.strLen] else [])
    ensures |EntryWire(e)| == EntrySize(e)
  {
    hide EntryFixedWire;
  }

  method EncodeEntry(e: Entry, buffer: array<byte>, at: nat) returns (r: Result<nat, CodecError>)
    requires EntryEncodable(e) && at <= buffer.Length
    modifies buffer
    ensures Encoded(old(buffer[..]), buffer[..], at, EntryWire(e), r)
  {
    hide Splice, EntryFixedWire, EntryWire;
    EntryWireParts(e);
    if buffer.Length - at < EntrySize(e) {
      return Err(BufferTooShort);
    }
    ghost var was := buffer[..];
    SpliceNothing(was, at);
    var offset := 0;
    var fixed := EntryFixedWire(e.fixed);
    PutNext(buffer, at, was, [], offset, fixed);
    assert [] + fixed == fixed;
    offset := offset + ENTRY_FIXED_LEN;
    var len := e.fixed.active.strLen as int;
    PutNext(buffer, at, was, fixed, offset, e.active[..len]);
    offset := offset + len;
    if e.pending.Some? {
      var pendingLen := e.fixed.pending.strLen as int;
      PutNext(buffer, at, was, fixed + e.active[..len], offset, e.pending.value[..pendingLen]);
      offset := offset + pendingLen;
    } else {
      assert fixed + e.active[..len] + [] == fixed + e.active[..len];
    }
    return Ok(offset);
  }

  function TotalEntrySize(es: seq<Entry>): nat {
    if es == [] then 0 else TotalEntrySize(es[..|es| - 1]) + EntrySize(es[|es| - 1])
  }

  /** The sizes of the parts, whether or not the lengths fit the strings. */
  function SizeOfParts(p: Params): nat
    requires p.fixed.compCount as int <= MAX_COMPONENT_COUNT
  {
    PARAM_FIXED_LEN + p.fixed.activeLen as nat + StringSize(p.fixed.pendingLen, p.pending) +
    TotalEntrySize(p.table[..p.fixed.compCount])
  }

  lemma {:induction false} EntriesTakeTheirSize(es: seq<Entry>)
    requires forall i :: 0 <= i < |es| ==> EntryEncodable(es[i])
    ensures |ListWire(ENTRY, es)| == TotalEntrySize(es)
  {
    hide EntryFixedWire;
    if es == [] {
    } else {
      var front, last := es[..|es| - 1], es[|es| - 1];
      EntriesTakeTheirSize(front);
      ListWireAppend(ENTRY, front, last);
      EntryWireParts(last);
      assert es == front + [last];
    }
  }

  /** On an encodable value the size of the parts is that of the wire form. */
  lemma SizeIsWireLength(p: Params)
    requires Encodable(p)
    ensures SizeOfParts(p) == |Wire(p)|
  {
    EntriesTakeTheirSize(p.table[..p.fixed.compCount]);
  }

  /** `codec_size_in_bytes`, which only indexes the table. */
  method ParamsSize(p: Params) returns (bytes: nat)
    requires p.fixed.compCount as int <= MAX_COMPONENT_COUNT
    ensures bytes == SizeOfParts(p)
    ensures Encodable(p) ==> bytes == |Wire(p)|
  {
    hide EntrySize, Encodable, Wire;
    bytes := PARAM_FIXED_LEN;
    if p.pending.Some? {
      bytes := bytes + p.fixed.pendingLen as int;
    }
    bytes := bytes + p.fixed.activeLen as int;
    ghost var strings := bytes;
    for i := 0 to p.fixed.compCount as int
      invariant bytes == strings + TotalEntrySize(p.table[..i])
    {
      bytes := bytes + EntrySize(p.table[i]);
      assert p.table[..i + 1][..i] == p.table[..i];
    }
    if Encodable(p) { SizeIsWireLength(p); }
  }

  function HeadWire(p: Params): seq<byte> {
    ParamFixedWire(p.fixed) + StringWire(p.fixed.activeLen, Some(p.active)) + StringWire(p.fixed.pendingLen, p.pending)
  }

  lemma WireIsHeadAndTable(p: Params)
    requires Encodable(p)
    ensures Wire(p) == HeadWire(p) + ListWire(ENTRY, p.table[..p.fixed.compCount])
  {
  }

  /** The fixed part and the two version strings. */
  method EncodeHead(p: Params, buffer: array<byte>, at: nat) returns (offset: nat)
    requires Encodable(p) && at + |HeadWire(p)| <= buffer.Length
    modifies buffer
    ensures offset == |HeadWire(p)| && buffer[..] == Splice(old(buffer[..]), at, HeadWire(p))
  {
    hide Splice, ParamFixedWire;
    ghost var was := buffer[..];
    SpliceNothing(was, at);
    offset := 0;
    var fixed := ParamFixedWire(p.fixed);
    PutNext(buffer, at, was, [], offset, fixed);
    offset := offset + PARAM_FIXED_LEN;
    var len := p.fixed.activeLen as int;
    assert [] + fixed == fixed;
    PutNext(buffer, at, was, fixed, offset, p.active[..len]);
    offset := offset + len;
    if p.pending.Some? {
      var pendingLen := p.fixed.pendingLen as int;
      PutNext(buffer, at, was, fixed + p.active[..len], offset, p.pending.value[..pendingLen]);
      offset := offset + pendingLen;
    } else {
      assert HeadWire(p) == fixed + p.active[..len];
    }
  }

  /** The entry at `i` extends the table's wire form, within that of the whole table. */
  lemma TableStep(p: Params, i: nat)
    requires i < p.fixed.compCount as int <= MAX_COMPONENT_COUNT
    ensures ListWire(ENTRY, p.table[..i + 1]) == ListWire(ENTRY, p.table[..i]) + EntryWire(p.table[i])
    ensures |ListWire(ENTRY, p.table[..i + 1])| <= |ListWire(ENTRY, p.table[..p.fixed.compCount])|
  {
    assert p.table[..i + 1] == p.table[..i] + [p.table[i]];
    ListWireAppend(ENTRY, p.table[..i], p.table[i]);
    ListWirePrefix(ENTRY, p.table[..p.fixed.compCount], i + 1);
    assert p.table[..p.fixed.compCount][..i + 1] == p.table[..i + 1];
  }

  method EncodeTable(p: Params, buffer: array<byte>, at: nat) returns (offset: nat)
    requires Encodable(p) && at + |ListWire(ENTRY, p.table[..p.fixed.compCount])| <= buffer.Length
    modifies buffer
    ensures offset == |ListWire(ENTRY, p.table[..p.fixed.compCount])|
    ensures buffer[..] == Splice(old(buffer[..]), at, ListWire(ENTRY, p.table[..p.fixed.compCount]))
  {
    hide EntryWire, ListWire;
    ghost var was := buffer[..];
    offset := 0;
    ListWireOfNone(ENTRY);
    assert p.table[..0] == [];
    for i := 0 to p.fixed.compCount as int
      invariant offset == |ListWire(ENTRY, p.table[..i])| <= |ListWire(ENTRY, p.table[..p.fixed.compCount])|
      invariant buffer[..] == Splice(was, at, ListWire(ENTRY, p.table[..i]))
    {
      TableStep(p, i);
      ghost var done := ListWire(ENTRY, p.table[..i]);
      var bytes := EncodeEntry(p.table[i], buffer, at + offset);
      SpliceTwice(was, at, done, EntryWire(p.table[i]));
      offset := offset + bytes.value;
    }
  }

  method EncodeParams(p: Params, buffer: array<byte>, at: nat) returns (r: Result<nat, CodecError>)
    requires Encodable(p) && at <= buffer.Length
    modifies buffer
    ensures Encoded(old(buffer[..]), buffer[..], at, Wire(p), r)
  {
    hide Splice, Wire, HeadWire, ListWire;
    WireIsHeadAndTable(p);
    var size := ParamsSize(p);
    if buffer.Length - at < size {
      return Err(BufferTooShort);
    }
    ghost var was := buffer[..];
    var offset := EncodeHead(p, buffer, at);
    var bytes := EncodeTable(p, buffer, at + offset);
    SpliceTwice(was, at, HeadWire(p), ListWire(ENTRY, p.table[..p.fixed.compCount]));
    return Ok(offset + bytes);
  }

  /** `GetFirmwareParametersResponse`: header, completion code, parameters. */
  method EncodeParamsResponse(hdr: seq<byte>, completionCode: byte, p: Params, buffer: array<byte>, at: nat)
    returns (r: Result<nat, CodecError>)
    requires Encodable(p) && |hdr| == 3 && at <= buffer.Length
    modifies buffer
    ensures Encoded(old(buffer[..]), buffer[..], at, hdr + ([completionCode] + Wire(p)), r)
  {
    hide Wire, Splice;
    var size := ParamsSize(p);
    if buffer.Length - at < 4 + size {
      return Err(BufferTooShort);
    }
    ghost var was := buffer[..];
    SpliceNothing(was, at);
    PutNext(buffer, at, was, [], 0, hdr);
    assert [] + hdr == hdr;
    PutNext(buffer, at, was, hdr, 3, [completionCode]);
    var bytes := EncodeParams(p, buffer, at + 4);
    SpliceTwice(was, at, hdr + [completionCode], Wire(p));
    assert hdr + ([completionCode] + Wire(p)) == hdr + [completionCode] + Wire(p);
    return Ok(4 + bytes.value);
  }

  method DecodeEntry(buffer: seq<byte>) returns (r: Result<Entry, CodecError>)
    ensures r == (match ParseEntry(buffer) case Ok((e, _)) => Ok(e) case Err(e) => Err(e))
  {
    var offset := 0;
    if |buffer| < offset + ENTRY_FIXED_LEN {
      return Err(BufferTooShort);
    }
    var fixed := ReadEntryFixed(buffer);
    offset := offset + ENTRY_FIXED_LEN;
    var activeLen := fixed.active.strLen as int;
    if activeLen > VER_STR_MAX_LEN {
      return Err(InvalidData);
    }
    if |buffer| < offset + activeLen {
      return Err(BufferTooShort);
    }
    var active := Pad(buffer[offset..offset + activeLen]);
    assert buffer[offset..][..activeLen] == buffer[offset..offset + activeLen];
    offset := offset + activeLen;
    var pending: Option<VerStr> := None;
    if fixed.pending.strLen > 0 {
      var len := fixed.pending.strLen as int;
      if len > VER_STR_MAX_LEN {
        return Err(InvalidData);
      }
      if |buffer| < offset + len {
        return Err(BufferTooShort);
      }
      pending := Some(Pad(buffer[offset..offset + len]));
      assert buffer[offset..][..len] == buffer[offset..offset + len];
    }
    return Ok(Entry(fixed, active, pending));
  }

  lemma EntrySizeOfParsed(b: seq<byte>)
    requires ParseEntry(b).Ok?
    ensures ParseEntry(b).value.1 == EntrySize(ParseEntry(b).value.0)
  {
  }

  /** The loop over the entry table: an array of defaults overwritten from the front. */
  method DecodeTable(buffer: seq<byte>, start: nat, count: nat) returns (table: seq<Entry>, failure: Option<CodecError>)
    requires start <= |buffer| && count <= MAX_COMPONENT_COUNT
    ensures match ParseList(ENTRY, buffer[start..], count)
            case Err(e) => failure == Some(e)
            case Ok((es, _)) => |es| == count && failure == None && table == FillTable(es)
  {
    hide ParseEntry, EntryWire, ParseList, Prepend, EntrySize, EntryWellFormed;
    var entries := new Entry[MAX_COMPONENT_COUNT](_ => DEFAULT_ENTRY);
    var offset := start;
    ghost var goal := ParseList(ENTRY, buffer[start..], count);
    PrependNothing(goal);
    for i := 0 to count
      invariant start <= offset <= |buffer|
      invariant forall k :: i <= k < MAX_COMPONENT_COUNT ==> entries[k] == DEFAULT_ENTRY
      invariant goal == Prepend(entries[..i], offset - start, ParseList(ENTRY, buffer[offset..], count - i))
    {
      ghost var rest, done := buffer[offset..], entries[..i];
      var entry := DecodeEntry(buffer[offset..]);
      ParseListStep(ENTRY, rest, count - i);
      if entry.Err? {
        PrependError(done, offset - start, entry.error);
        return [], Some(entry.error);
      }
      EntryCanonical(rest);
      EntrySizeOfParsed(rest);
      ghost var left := ParseList(ENTRY, rest[EntrySize(entry.value)..], count - i - 1);
      PrependTwice(done, offset - start, [entry.value], EntrySize(entry.value), left);
      entries[i] := entry.value;
      offset := offset + EntrySize(entry.value);
      assert rest[EntrySize(entry.value)..] == buffer[offset..];
      assert entries[..i + 1] == done + [entry.value];
    }
    ListOfNone(ENTRY, buffer[offset..]);
    PrependLast(entries[..count], offset - start);
    assert entries[..] == FillTable(entries[..count]);
    return entries[..], None;
  }

  method DecodeParams(buffer: seq<byte>) returns (r: Result<Params, CodecError>)
    ensures r == Parse(buffer)
  {
    hide ReadParamFixed, ParseList, FillTable, FromLe32, FromLe16;
    var offset := 0;
    if |buffer| < offset + PARAM_FIXED_LEN {
      return Err(BufferTooShort);
    }
    var fixed := ReadParamFixed(buffer);
    offset := offset + PARAM_FIXED_LEN;
    var len := fixed.activeLen as int;
    if len > VER_STR_MAX_LEN {
      return Err(InvalidData);
    }
    if |buffer| < offset + len {
      return Err(BufferTooShort);
    }
    var active := Pad(buffer[offset..offset + len]);
    assert buffer[offset..][..len] == buffer[offset..offset + len];
    offset := offset + len;
    var pending: Option<VerStr> := None;
    if fixed.pendingLen > 0 {
      var n := fixed.pendingLen as int;
      if n > VER_STR_MAX_LEN {
        return Err(InvalidData);
      }
      if |buffer| < offset + n {
        return Err(BufferTooShort);
      }
      pending := Some(Pad(buffer[offset..offset + n]));
      assert buffer[offset..][..n] == buffer[offset..offset + n];
    }
    offset := offset + fixed.pendingLen as int;
    var count := fixed.compCount as int;
    if count > MAX_COMPONENT_COUNT {
      return Err(InvalidData);
    }
    var table, failure := DecodeTable(buffer, offset, count);
    if failure.Some? {
      return Err(failure.value);
    }
    return Ok(Params(fixed, active, pending, table));
  }
}
