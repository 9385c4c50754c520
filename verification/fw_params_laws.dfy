// The FirmwareParameters format is lossless exactly on well-formed values, canonical on
// every buffer that decodes, and never takes a truncated message for a malformed one.
module FirmwareParametersLaws {
  import opened Bytes
  import opened Formats
  import opened FirmwareParameters

  // ---- Fixed-size parts ----

  lemma VersionRoundTrip(v: Version, rest: seq<byte>)
    ensures ReadVersion(VersionWire(v) + rest) == v
  {
  }

  lemma VersionCanonical(b: seq<byte>)
    requires |b| >= VERSION_LEN
    ensures VersionWire(ReadVersion(b)) == b[..VERSION_LEN]
  {
    WriteLe32(b);
    assert b[..14] == b[..4] + ([b[4], b[5]] + b[6..14]);
  }

  lemma EntryFixedRoundTrip(f: EntryFixed, rest: seq<byte>)
    ensures ReadEntryFixed(EntryFixedWire(f) + rest) == f
  {
    hide ReadVersion, VersionWire;
    var b := EntryFixedWire(f) + rest;
    ReadLe16(f.classification, b[2..]);
    ReadLe16(f.identifier, b[4..]);
    VersionRoundTrip(f.active, b[19..]);
    VersionRoundTrip(f.pending, b[33..]);
    ReadLe16(f.activationMethods, b[35..]);
    ReadLe32(f.capabilities, rest);
    assert b == Le16(f.classification) + b[2..];
    assert b[2..] == Le16(f.identifier) + b[4..];
    assert b[5..] == VersionWire(f.active) + b[19..];
    assert b[19..] == VersionWire(f.pending) + b[33..];
    assert b[33..] == Le16(f.activationMethods) + b[35..];
    assert b[35..] == Le32(f.capabilities) + rest;
  }

  lemma EntryFixedCanonical(b: seq<byte>)
    requires |b| >= ENTRY_FIXED_LEN
    ensures EntryFixedWire(ReadEntryFixed(b)) == b[..ENTRY_FIXED_LEN]
  {
    WriteLe16(b);
    WriteLe16(b[2..]);
    VersionCanonical(b[5..]);
    VersionCanonical(b[19..]);
    WriteLe16(b[33..]);
    WriteLe32(b[35..]);
    assert b[..39] == b[..2] + (b[2..][..2] + ([b[4]] +
      (b[5..][..14] + (b[19..][..14] + (b[33..][..2] + b[35..][..4])))));
  }

  lemma ParamFixedRoundTrip(f: ParamFixed, rest: seq<byte>)
    ensures ReadParamFixed(ParamFixedWire(f) + rest) == f
  {
  }

  lemma ParamFixedCanonical(b: seq<byte>)
    requires |b| >= PARAM_FIXED_LEN
    ensures ParamFixedWire(ReadParamFixed(b)) == b[..PARAM_FIXED_LEN]
  {
    WriteLe32(b);
    WriteLe16(b[4..]);
    assert b[..10] == b[..4] + (b[4..][..2] + [b[6], b[7], b[8], b[9]]);
  }

  // ---- Strings ----

  lemma StringRoundTrip(len: byte, s: VerStr, rest: seq<byte>)
    requires StringWellFormed(len, s)
    ensures ParseString(StringWire(len, Some(s)) + rest, len) == Ok(s)
  {
  }

  lemma OptStringRoundTrip(len: byte, s: Option<VerStr>, rest: seq<byte>)
    requires OptStringWellFormed(len, s)
    ensures ParseOptString(StringWire(len, s) + rest, len) == Ok(s)
  {
  }

  lemma StringCanonical(b: seq<byte>, len: byte)
    requires ParseString(b, len).Ok?
    ensures var s := ParseString(b, len).value;
      len as int <= |b| && StringWellFormed(len, s) && StringWire(len, Some(s)) == b[..len]
  {
  }

  lemma OptStringCanonical(b: seq<byte>, len: byte)
    requires ParseOptString(b, len).Ok?
    ensures var s := ParseOptString(b, len).value;
      len as int <= |b| && OptStringWellFormed(len, s) && StringWire(len, s) == b[..len]
  {
  }

  lemma StringOnPrefix(q: seq<byte>, b: seq<byte>, len: byte)
    requires q <= b
    ensures ParseString(q, len) in {ParseString(b, len), Err(BufferTooShort)}
    ensures ParseOptString(q, len) in {ParseOptString(b, len), Err(BufferTooShort)}
  {
    if len as int <= |q| { assert q[..len] == b[..len]; }
  }

  // ---- Entries ----

  lemma EntryLossless(e: Entry, rest: seq<byte>)
    requires EntryWellFormed(e)
    ensures ParseEntry(EntryWire(e) + rest) == Ok((e, |EntryWire(e)|))
  {
    hide EntryFixedWire, ReadEntryFixed, ParseString, ParseOptString;
    var n, m := e.fixed.active.strLen, e.fixed.pending.strLen;
    var active, pending := StringWire(n, Some(e.active)), StringWire(m, e.pending);
    var b := EntryWire(e) + rest;
    EntryFixedRoundTrip(e.fixed, active + (pending + rest));
    assert b == EntryFixedWire(e.fixed) + (active + (pending + rest));
    assert b[ENTRY_FIXED_LEN..] == active + (pending + rest);
    assert b[ENTRY_FIXED_LEN + n as int..] == pending + rest;
    StringRoundTrip(n, e.active, pending + rest);
    OptStringRoundTrip(m, e.pending, rest);
  }

  lemma EntryCanonical(b: seq<byte>)
    requires ParseEntry(b).Ok?
    ensures var (e, n) := ParseEntry(b).value;
      EntryWellFormed(e) && n == |EntryWire(e)| && EntryWire(e) <= b
  {
    hide EntryFixedWire, ReadEntryFixed, ParseString, ParseOptString;
    var e := ParseEntry(b).value.0;
    var n, m := e.fixed.active.strLen, e.fixed.pending.strLen;
    EntryFixedCanonical(b);
    var b1 := b[ENTRY_FIXED_LEN..];
    StringCanonical(b1, n);
    var b2 := b[ENTRY_FIXED_LEN + n as int..];
    OptStringCanonical(b2, m);
    assert b == b[..ENTRY_FIXED_LEN] + (b1[..n] + (b2[..m] + b2[m..]));
  }

  lemma EntryFixedOnPrefix(q: seq<byte>, b: seq<byte>)
    requires q <= b && ENTRY_FIXED_LEN <= |q|
    ensures ReadEntryFixed(q) == ReadEntryFixed(b)
  {
  }

  lemma EntryCutSafe(q: seq<byte>, b: seq<byte>)
    requires q <= b
    ensures ParseEntry(q) in {ParseEntry(b), Err(BufferTooShort)}
  {
    hide ReadEntryFixed, ParseString, ParseOptString;
    if ENTRY_FIXED_LEN <= |q| {
      EntryFixedOnPrefix(q, b);
      var f := ReadEntryFixed(q);
      StringOnPrefix(q[ENTRY_FIXED_LEN..], b[ENTRY_FIXED_LEN..], f.active.strLen);
      if ParseString(q[ENTRY_FIXED_LEN..], f.active.strLen).Ok? {
        StringCanonical(q[ENTRY_FIXED_LEN..], f.active.strLen);
        var n := ENTRY_FIXED_LEN + f.active.strLen as int;
        StringOnPrefix(q[n..], b[n..], f.pending.strLen);
      }
    }
  }

  lemma EntriesAreLawful()
    ensures Lawful(ENTRY, (e: Entry) => EntryWellFormed(e))
  {
    hide EntryWire, ParseEntry, EntryWellFormed;
    forall e, rest | EntryWellFormed(e) ensures ENTRY.parse(ENTRY.wire(e) + rest) == Ok((e, |ENTRY.wire(e)|)) {
      EntryLossless(e, rest);
    }
    forall b | ENTRY.parse(b).Ok?
      ensures var (e, n) := ENTRY.parse(b).value; EntryWellFormed(e) && n == |ENTRY.wire(e)| && ENTRY.wire(e) <= b
    {
      EntryCanonical(b);
    }
    forall q, b {:trigger ENTRY.parse(q), ENTRY.parse(b)} | q <= b
      ensures ENTRY.parse(q) == ENTRY.parse(b) || ENTRY.parse(q) == Err(BufferTooShort)
    {
      EntryCutSafe(q, b);
    }
  }

  lemma EntriesLossless(es: seq<Entry>, rest: seq<byte>)
    requires forall e :: e in es ==> EntryWellFormed(e)
    ensures ParseList(ENTRY, ListWire(ENTRY, es) + rest, |es|) == Ok((es, |ListWire(ENTRY, es)|))
  {
    EntriesAreLawful();
    ListLossless(ENTRY, (e: Entry) => EntryWellFormed(e), es, rest);
  }

  lemma EntriesCanonical(b: seq<byte>, count: nat)
    requires ParseList(ENTRY, b, count).Ok?
    ensures var (es, n) := ParseList(ENTRY, b, count).value;
      && |es| == count && (forall e :: e in es ==> EntryWellFormed(e))
      && n == |ListWire(ENTRY, es)| && ListWire(ENTRY, es) <= b
  {
    EntriesAreLawful();
    ListCanonical(ENTRY, (e: Entry) => EntryWellFormed(e), b, count);
  }

  lemma EntriesCutSafe(q: seq<byte>, b: seq<byte>, count: nat)
    requires q <= b
    ensures ParseList(ENTRY, q, count) in {ParseList(ENTRY, b, count), Err(BufferTooShort)}
  {
    EntriesAreLawful();
    ListCutSafe(ENTRY, (e: Entry) => EntryWellFormed(e), q, b, count);
  }

  // ---- Whole messages ----

  lemma RoundTrip(p: Params, rest: seq<byte>)
    requires WellFormed(p)
    ensures Parse(Wire(p) + rest) == Ok(p)
  {
    hide ParamFixedWire, ReadParamFixed, ParseString, ParseOptString, ParseList, ListWire;
    var n, m := p.fixed.activeLen, p.fixed.pendingLen;
    var active, pending := StringWire(n, Some(p.active)), StringWire(m, p.pending);
    var es := p.table[..p.fixed.compCount];
    var tail := ListWire(ENTRY, es) + rest;
    var b := Wire(p) + rest;
    assert b == ParamFixedWire(p.fixed) + (active + (pending + tail));
    ParamFixedRoundTrip(p.fixed, active + (pending + tail));
    assert b[PARAM_FIXED_LEN..] == active + (pending + tail);
    assert b[PARAM_FIXED_LEN + n as int..] == pending + tail;
    assert b[PARAM_FIXED_LEN + n as int + m as int..] == tail;
    StringRoundTrip(n, p.active, pending + tail);
    OptStringRoundTrip(m, p.pending, tail);
    EntriesLossless(es, rest);
    assert FillTable(es) == p.table;
  }

  lemma FilledTable(es: seq<Entry>, count: nat)
    requires |es| == count <= MAX_COMPONENT_COUNT && forall e :: e in es ==> EntryWellFormed(e)
    ensures FillTable(es)[..count] == es
    ensures forall i :: 0 <= i < count ==> EntryWellFormed(FillTable(es)[i])
    ensures forall i :: count <= i < MAX_COMPONENT_COUNT ==> FillTable(es)[i] == DEFAULT_ENTRY
  {
  }

  lemma DecodedIsWellFormed(b: seq<byte>)
    requires Parse(b).Ok?
    ensures WellFormed(Parse(b).value)
  {
    hide ReadParamFixed, ParseString, ParseOptString, ParseList, ListWire, EntryWellFormed;
    var p := Parse(b).value;
    var n, m := p.fixed.activeLen, p.fixed.pendingLen;
    StringCanonical(b[PARAM_FIXED_LEN..], n);
    OptStringCanonical(b[PARAM_FIXED_LEN + n as int..], m);
    var b3 := b[PARAM_FIXED_LEN + n as int + m as int..];
    EntriesCanonical(b3, p.fixed.compCount);
    FilledTable(ParseList(ENTRY, b3, p.fixed.compCount).value.0, p.fixed.compCount);
  }

  lemma FourParts(b: seq<byte>, i: nat, j: nat, k: nat, table: seq<byte>)
    requires i <= j <= k <= |b| && table <= b[k..]
    ensures b[..i] + (b[i..j] + (b[j..k] + table)) <= b
  {
  }

  /** Whatever decodes is well formed, and its encoding is exactly the bytes consumed. */
  lemma DecodedIsCanonical(b: seq<byte>)
    requires Parse(b).Ok?
    ensures WellFormed(Parse(b).value) && Wire(Parse(b).value) <= b
  {
    hide ParamFixedWire, ReadParamFixed, ParseString, ParseOptString, ParseList, ListWire, StringWire, WellFormed;
    DecodedIsWellFormed(b);
    var p := Parse(b).value;
    var n, m, count := p.fixed.activeLen, p.fixed.pendingLen, p.fixed.compCount;
    var i := PARAM_FIXED_LEN;
    var j := i + n as int;
    var k := j + m as int;
    ParamFixedCanonical(b);
    StringCanonical(b[i..], n);
    assert b[i..][..n] == b[i..j];
    OptStringCanonical(b[j..], m);
    assert b[j..][..m] == b[j..k];
    EntriesCanonical(b[k..], count);
    var es := ParseList(ENTRY, b[k..], count).value.0;
    assert p.table[..count] == es;
    FourParts(b, i, j, k, ListWire(ENTRY, es));
  }

  /** A value survives encoding and decoding exactly when it is well formed. */
  lemma LosslessIffWellFormed(p: Params, rest: seq<byte>)
    requires Encodable(p)
    ensures Parse(Wire(p) + rest) == Ok(p) <==> WellFormed(p)
  {
    hide Parse, Wire;
    if WellFormed(p) { RoundTrip(p, rest); }
    if Parse(Wire(p) + rest) == Ok(p) { DecodedIsCanonical(Wire(p) + rest); }
  }

  lemma ParamFixedOnPrefix(q: seq<byte>, b: seq<byte>)
    requires q <= b && PARAM_FIXED_LEN <= |q|
    ensures ReadParamFixed(q) == ReadParamFixed(b)
  {
  }

  lemma ParseOnPrefix(q: seq<byte>, b: seq<byte>)
    requires q <= b
    ensures Parse(q) in {Parse(b), Err(BufferTooShort)}
  {
    hide ReadParamFixed, ParseString, ParseOptString, ParseList;
    if PARAM_FIXED_LEN <= |q| {
      ParamFixedOnPrefix(q, b);
      var f := ReadParamFixed(q);
      StringOnPrefix(q[PARAM_FIXED_LEN..], b[PARAM_FIXED_LEN..], f.activeLen);
      if ParseString(q[PARAM_FIXED_LEN..], f.activeLen).Ok? {
        StringCanonical(q[PARAM_FIXED_LEN..], f.activeLen);
        var n := PARAM_FIXED_LEN + f.activeLen as int;
        StringOnPrefix(q[n..], b[n..], f.pendingLen);
        if ParseOptString(q[n..], f.pendingLen).Ok? {
          OptStringCanonical(q[n..], f.pendingLen);
          var m := n + f.pendingLen as int;
          EntriesCutSafe(q[m..], b[m..], f.compCount);
        }
      }
    }
  }

  /** A truncated message is always reported as too short, never as malformed and never as a value. */
  lemma TruncatedIsTooShort(p: Params, q: seq<byte>)
    requires WellFormed(p) && q < Wire(p)
    ensures Parse(q) == Err(BufferTooShort)
  {
    hide Parse, Wire;
    RoundTrip(p, []);
    assert Wire(p) + [] == Wire(p);
    ParseOnPrefix(q, Wire(p));
    if Parse(q) == Ok(p) { DecodedIsCanonical(q); }
  }
}
