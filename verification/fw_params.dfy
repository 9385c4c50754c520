// FirmwareParameters: a fixed header, two version strings and up to eight component
// entries of variable size. The values, their wire form and the decoder's meaning.
module FirmwareParameters {
  import opened Bytes
  import opened Formats

  const VER_STR_MAX_LEN := 32
  const MAX_COMPONENT_COUNT := 8
  const VERSION_LEN := 14
  const ENTRY_FIXED_LEN := 39
  const PARAM_FIXED_LEN := 10

  function Zeros(n: nat): seq<byte> { seq(n, _ => 0) }

  type VerStr = s: seq<byte> | |s| == VER_STR_MAX_LEN witness Zeros(VER_STR_MAX_LEN)
  type Date = s: seq<byte> | |s| == 8 witness Zeros(8)

  /** Comparison stamp, version string type and length, and release date of one image. */
  datatype Version = Version(stamp: u32, strType: byte, strLen: byte, date: Date)

  datatype EntryFixed = EntryFixed(
    classification: u16,
    identifier: u16,
    classificationIndex: byte,
    active: Version,
    pending: Version,
    activationMethods: u16,
    capabilities: u32)

  datatype Entry = Entry(fixed: EntryFixed, active: VerStr, pending: Option<VerStr>)

  datatype ParamFixed = ParamFixed(
    capabilities: u32,
    compCount: u16,
    activeType: byte,
    activeLen: byte,
    pendingType: byte,
    pendingLen: byte)

  datatype AnyParams = Params(fixed: ParamFixed, active: VerStr, pending: Option<VerStr>, table: seq<Entry>)

  const NO_VERSION := Version(0, 0, 0, Zeros(8))

  const DEFAULT_ENTRY := Entry(EntryFixed(0, 0, 0, NO_VERSION, NO_VERSION, 0, 0), Zeros(VER_STR_MAX_LEN), None)

  const DEFAULT_PARAMS :=
    Params(ParamFixed(0, 0, 0, 0, 0, 0), Zeros(VER_STR_MAX_LEN), None, seq(MAX_COMPONENT_COUNT, _ => DEFAULT_ENTRY))

  /** The component table is an array of eight entries. */
  type Params = p: AnyParams | |p.table| == MAX_COMPONENT_COUNT witness DEFAULT_PARAMS

  // ---- What the encoder accepts, and what it can carry without loss ----

  predicate StringEncodable(len: byte, s: Option<VerStr>) {
    s.Some? ==> len as int <= VER_STR_MAX_LEN
  }

  predicate EntryEncodable(e: Entry) {
    && StringEncodable(e.fixed.active.strLen, Some(e.active))
    && StringEncodable(e.fixed.pending.strLen, e.pending)
  }

  /** Values on which no slice index of the encoder or of the size function is out of range. */
  predicate Encodable(p: Params) {
    && p.fixed.compCount as int <= MAX_COMPONENT_COUNT
    && StringEncodable(p.fixed.activeLen, Some(p.active))
    && StringEncodable(p.fixed.pendingLen, p.pending)
    && forall i :: 0 <= i < p.fixed.compCount ==> EntryEncodable(p.table[i])
  }

  function Pad(s: seq<byte>): VerStr
    requires |s| <= VER_STR_MAX_LEN
  {
    s + Zeros(VER_STR_MAX_LEN - |s|)
  }

  predicate StringWellFormed(len: byte, s: VerStr) {
    len as int <= VER_STR_MAX_LEN && s == Pad(s[..len])
  }

  predicate OptStringWellFormed(len: byte, s: Option<VerStr>) {
    match s
    case None => len == 0
    case Some(v) => 0 < len && StringWellFormed(len, v)
  }

  predicate EntryWellFormed(e: Entry) {
    StringWellFormed(e.fixed.active.strLen, e.active) && OptStringWellFormed(e.fixed.pending.strLen, e.pending)
  }

  /** Zero padding, a pending string exactly when its length is positive, default entries past the count. */
  predicate WellFormed(p: Params) {
    && p.fixed.compCount as int <= MAX_COMPONENT_COUNT
    && StringWellFormed(p.fixed.activeLen, p.active)
    && OptStringWellFormed(p.fixed.pendingLen, p.pending)
    && (forall i :: 0 <= i < p.fixed.compCount ==> EntryWellFormed(p.table[i]))
    && (forall i :: p.fixed.compCount <= i < MAX_COMPONENT_COUNT ==> p.table[i] == DEFAULT_ENTRY)
  }

  // ---- The wire form of the parts ----

  function VersionWire(v: Version): (b: seq<byte>)
    ensures |b| == VERSION_LEN
  {
    Le32(v.stamp) + ([v.strType, v.strLen] + v.date)
  }

  function EntryFixedWire(f: EntryFixed): (b: seq<byte>)
    ensures |b| == ENTRY_FIXED_LEN
  {
    Le16(f.classification) + (Le16(f.identifier) + ([f.classificationIndex] +
    (VersionWire(f.active) + (VersionWire(f.pending) + (Le16(f.activationMethods) + Le32(f.capabilities))))))
  }

  function ParamFixedWire(f: ParamFixed): (b: seq<byte>)
    ensures |b| == PARAM_FIXED_LEN
  {
    Le32(f.capabilities) + (Le16(f.compCount) + [f.activeType, f.activeLen, f.pendingType, f.pendingLen])
  }

  /** The first `len` bytes of a string, when it is there. */
  function StringWire(len: byte, s: Option<VerStr>): seq<byte> {
    match s
    case None => []
    case Some(v) => if len as int <= VER_STR_MAX_LEN then v[..len] else v
  }

  function EntryWire(e: Entry): seq<byte> {
    EntryFixedWire(e.fixed) +
    (StringWire(e.fixed.active.strLen, Some(e.active)) + StringWire(e.fixed.pending.strLen, e.pending))
  }

  // ---- The decoder of the parts, as functions of the bytes ----

  function ReadVersion(b: seq<byte>): Version
    requires |b| >= VERSION_LEN
  {
    Version(FromLe32(b), b[4], b[5], b[6..14])
  }

  function ReadEntryFixed(b: seq<byte>): EntryFixed
    requires |b| >= ENTRY_FIXED_LEN
  {
    EntryFixed(FromLe16(b), FromLe16(b[2..]), b[4], ReadVersion(b[5..]), ReadVersion(b[19..]),
               FromLe16(b[33..]), FromLe32(b[35..]))
  }

  function ReadParamFixed(b: seq<byte>): ParamFixed
    requires |b| >= PARAM_FIXED_LEN
  {
    ParamFixed(FromLe32(b), FromLe16(b[4..]), b[6], b[7], b[8], b[9])
  }

  function ParseString(b: seq<byte>, len: byte): Result<VerStr, CodecError> {
    if len as int > VER_STR_MAX_LEN then Err(InvalidData)
    else if |b| < len as int then Err(BufferTooShort)
    else Ok(Pad(b[..len]))
  }

  function ParseOptString(b: seq<byte>, len: byte): Result<Option<VerStr>, CodecError> {
    if len == 0 then Ok(None)
    else
      var s :- ParseString(b, len);
      Ok(Some(s))
  }

  function StringSize(len: byte, s: Option<VerStr>): nat { if s.Some? then len else 0 }

  function EntrySize(e: Entry): nat {
    ENTRY_FIXED_LEN + e.fixed.active.strLen as nat + StringSize(e.fixed.pending.strLen, e.pending)
  }

  function ParseEntry(b: seq<byte>): Result<(Entry, nat), CodecError> {
    if |b| < ENTRY_FIXED_LEN then Err(BufferTooShort)
    else
      var f := ReadEntryFixed(b);
      var active :- ParseString(b[ENTRY_FIXED_LEN..], f.active.strLen);
      var pending :- ParseOptString(b[ENTRY_FIXED_LEN + f.active.strLen as int..], f.pending.strLen);
      var e := Entry(f, active, pending);
      Ok((e, EntrySize(e)))
  }

  const ENTRY: Format<Entry> := Format(e => EntryWire(e), b => ParseEntry(b))

  // ---- Whole messages ----

  function Wire(p: Params): seq<byte>
    requires p.fixed.compCount as int <= MAX_COMPONENT_COUNT
  {
    ParamFixedWire(p.fixed) +
    (StringWire(p.fixed.activeLen, Some(p.active)) +
     (StringWire(p.fixed.pendingLen, p.pending) + ListWire(ENTRY, p.table[..p.fixed.compCount])))
  }

  function FillTable(es: seq<Entry>): (t: seq<Entry>)
    requires |es| <= MAX_COMPONENT_COUNT
    ensures |t| == MAX_COMPONENT_COUNT
  {
    es + seq(MAX_COMPONENT_COUNT - |es|, _ => DEFAULT_ENTRY)
  }

  function Parse(b: seq<byte>): Result<Params, CodecError> {
    if |b| < PARAM_FIXED_LEN then Err(BufferTooShort)
    else
      var f := ReadParamFixed(b);
      var active :- ParseString(b[PARAM_FIXED_LEN..], f.activeLen);
      var pending :- ParseOptString(b[PARAM_FIXED_LEN + f.activeLen as int..], f.pendingLen);
      if f.compCount as int > MAX_COMPONENT_COUNT then Err(InvalidData)
      else
        var rest := b[PARAM_FIXED_LEN + f.activeLen as int + f.pendingLen as int..];
        var (es, _) :- ParseList(ENTRY, rest, f.compCount);
        ParseListLength(ENTRY, rest, f.compCount);
        Ok(Params(f, active, pending, FillTable(es)))
  }
}
