// Where each field stands in the bytes of a message, counted from the front as the tables of
// DSP0267 and DSP0240 count: what a reader without this library's decoders finds there.
module Layouts {
  import opened Bytes
  import opened Base
  import opened UpdateMessages
  import Formats
  import F = FirmwareParameters
  import FL = FirmwareParametersLaws
  import D = Descriptors
  import DeviceIds
  import DC = DownstreamCodec
  import DP = DownstreamParameters
  import DS = Downstream
  import V = Versions

  // ---- Firmware parameters ----

  /** A comparison stamp, a string type, a string length and a release date from `i` on. */
  ghost predicate HasVersion(b: seq<byte>, i: nat, v: F.Version)
    requires |b| >= i + 14
  {
    FromLe32(b[i..]) == v.stamp && b[i + 4] == v.strType && b[i + 5] == v.strLen && b[i + 6..i + 14] == v.date
  }

  lemma VersionAt(b: seq<byte>, i: nat, v: F.Version)
    requires |b| >= i + 14 && F.ReadVersion(b[i..]) == v
    ensures HasVersion(b, i, v)
  {
    hide FromLe32;
    assert b[i..][6..14] == b[i + 6..i + 14];
  }

  lemma EntryFixedLayout(f: F.EntryFixed, rest: seq<byte>)
    ensures var b := F.EntryFixedWire(f) + rest;
      && FromLe16(b) == f.classification && FromLe16(b[2..]) == f.identifier && b[4] == f.classificationIndex
      && HasVersion(b, 5, f.active) && HasVersion(b, 19, f.pending)
      && FromLe16(b[33..]) == f.activationMethods && FromLe32(b[35..]) == f.capabilities
  {
    hide F.EntryFixedWire, F.ReadVersion, HasVersion, FromLe16, FromLe32;
    var b := F.EntryFixedWire(f) + rest;
    FL.EntryFixedRoundTrip(f, rest);
    VersionAt(b, 5, f.active);
    VersionAt(b, 19, f.pending);
  }

  /** A component entry: 39 fixed bytes, then the two strings without padding. */
  lemma EntryLayout(e: F.Entry, rest: seq<byte>)
    requires F.EntryEncodable(e)
    ensures var b := F.EntryWire(e) + rest;
      var n, m := e.fixed.active.strLen as int, F.StringSize(e.fixed.pending.strLen, e.pending);
      && |F.EntryWire(e)| == 39 + n + m
      && FromLe16(b) == e.fixed.classification && FromLe16(b[2..]) == e.fixed.identifier
      && b[4] == e.fixed.classificationIndex
      && HasVersion(b, 5, e.fixed.active) && HasVersion(b, 19, e.fixed.pending)
      && FromLe16(b[33..]) == e.fixed.activationMethods && FromLe32(b[35..]) == e.fixed.capabilities
      && b[39..39 + n] == e.active[..n]
      && (e.pending.Some? ==> b[39 + n..39 + n + m] == e.pending.value[..m])
  {
    hide F.EntryFixedWire, HasVersion, FromLe16, FromLe32;
    var n, m := e.fixed.active.strLen, e.fixed.pending.strLen;
    var strings := F.StringWire(n, Some(e.active)) + F.StringWire(m, e.pending);
    EntryFixedLayout(e.fixed, strings + rest);
    assert F.EntryWire(e) + rest == F.EntryFixedWire(e.fixed) + (strings + rest);
  }

  /** Firmware parameters: ten fixed bytes, the two strings, then as many entries as it says. */
  lemma ParamsLayout(p: F.Params, rest: seq<byte>)
    requires F.Encodable(p)
    ensures var b := F.Wire(p) + rest;
      var n, m := p.fixed.activeLen as int, F.StringSize(p.fixed.pendingLen, p.pending);
      && |F.Wire(p)| >= 10 + n + m
      && FromLe32(b) == p.fixed.capabilities && FromLe16(b[4..]) == p.fixed.compCount
      && b[6] == p.fixed.activeType && b[7] == p.fixed.activeLen
      && b[8] == p.fixed.pendingType && b[9] == p.fixed.pendingLen
      && b[10..10 + n] == p.active[..n]
      && (p.pending.Some? ==> b[10 + n..10 + n + m] == p.pending.value[..m])
      && b[10 + n + m..] == Formats.ListWire(F.ENTRY, p.table[..p.fixed.compCount]) + rest
  {
    hide F.ParamFixedWire, FromLe16, FromLe32, Formats.ListWire;
    var n, m := p.fixed.activeLen, p.fixed.pendingLen;
    var strings := F.StringWire(n, Some(p.active)) + F.StringWire(m, p.pending);
    var entries := Formats.ListWire(F.ENTRY, p.table[..p.fixed.compCount]);
    FL.ParamFixedRoundTrip(p.fixed, strings + (entries + rest));
    assert F.Wire(p) + rest == F.ParamFixedWire(p.fixed) + (strings + (entries + rest));
  }

  /** The parameter table of a downstream device: 36 fixed bytes, then its two strings. */
  lemma DownstreamTableLayout(t: DP.Table, rest: seq<byte>)
    requires DP.CanEncode(t)
    ensures var b := DP.TableWire(t) + rest;
      var n, m := t.active.strLen as int, t.pending.strLen as int;
      && |DP.TableWire(t)| == 36 + n + m
      && FromLe16(b) == t.index && HasVersion(b, 2, t.active) && HasVersion(b, 16, t.pending)
      && FromLe16(b[30..]) == t.activationMethods && FromLe32(b[32..]) == t.capabilities
      && b[36..36 + n] == t.activeStr[..n] && b[36 + n..36 + n + m] == t.pendingStr[..m]
  {
    hide DP.FixedWire, F.ReadVersion, HasVersion, FromLe16, FromLe32;
    var n, m := t.active.strLen, t.pending.strLen;
    var strings := F.StringWire(n, Some(t.activeStr)) + F.StringWire(m, Some(t.pendingStr));
    var b := DP.TableWire(t) + rest;
    DP.FixedRoundTrip(t, strings + rest);
    assert b == DP.FixedWire(t) + (strings + rest);
    VersionAt(b, 2, t.active);
    VersionAt(b, 16, t.pending);
  }

  // ---- Descriptors ----

  /** A descriptor: type, length, and as many bytes of data. */
  lemma DescriptorLayout(d: D.Descriptor, rest: seq<byte>)
    requires D.Encodable(d)
    ensures var b, n := D.Wire(d) + rest, d.length as int;
      && |D.Wire(d)| == 4 + n
      && FromLe16(b) == d.descriptorType && FromLe16(b[2..]) == d.length && b[4..4 + n] == d.data[..n]
  {
  }

  /** Device identifiers: header, code, length, count, and the descriptors that count. */
  lemma DeviceIdsLayout(r: DeviceIds.Response, rest: seq<byte>)
    ensures var b := DeviceIds.Wire(r) + rest;
      && |b| >= 9 && b[..3] == r.hdr && b[3] == r.completionCode
      && FromLe32(b[4..]) == r.identifiersLen && b[8] == r.descriptorCount
      && b[9..] == Formats.ListWire(D.DESCRIPTOR, DeviceIds.Listed(r)) + rest
  {
  }

  /** Downstream identifiers: header, code, handle, transfer flag, and the portion. */
  lemma DownstreamLayout(r: DC.Response)
    ensures var b := DC.ResponseWire(r);
      && |b| >= 9 && b[..3] == r.hdr && b[3] == r.completionCode
      && FromLe32(b[4..]) == r.nextHandle && b[8] == r.transferFlag && b[9..] == r.portion
  {
  }

  /** A portion: its length, the number of devices, and each device as index, count and descriptors. */
  lemma PortionLayout(length: u32, xs: seq<DS.Listed>, rest: seq<byte>)
    requires DS.AllSerialisable(xs) && 0 < |xs| < 0x1_0000
    ensures var b, x := DS.PortionWire(length, xs) + rest, xs[0];
      && |b| >= 9 && FromLe32(b) == length && FromLe16(b[4..]) as int == |xs|
      && FromLe16(b[6..]) == x.index && b[8] as int == |x.descriptors|
      && Formats.ListWire(D.DESCRIPTOR, x.descriptors) <= b[9..]
  {
    hide Le16, Le32, FromLe16, FromLe32, Formats.ListWire, D.WellFormed;
    var b := DS.PortionWire(length, xs) + rest;
    assert b == Le32(length) + b[4..];
    assert b[4..] == Le16(|xs|) + b[6..];
    assert b[6..] == Le16(xs[0].index) + b[8..];
    ReadLe32(length, b[4..]);
    ReadLe16(|xs|, b[6..]);
    ReadLe16(xs[0].index, b[8..]);
  }

  // ---- Responses ----

  /** UpdateComponent's response: twelve bytes, and the opaque-data size if there is one. */
  lemma UpdateComponentResponseLayout(r: UpdateComponentResponse)
    ensures var b := UpdateComponentResponseWire(r);
      && |b| == 12 + |TailWire(r.opaqueDataMaxTransfer)|
      && b[..3] == r.hdr && b[3] == r.completionCode && b[4] == r.compatibility && b[5] == r.compatibilityCode
      && FromLe32(b[6..]) == r.flags && FromLe16(b[10..]) == r.timeBeforeRequest
      && (r.opaqueDataMaxTransfer.Some? ==> FromLe32(b[12..]) == r.opaqueDataMaxTransfer.value)
  {
  }

  /** RequestUpdate's response: seven bytes, and the package-data size if there is one. */
  lemma RequestUpdateResponseLayout(r: RequestUpdateResponse)
    ensures var b := RequestUpdateResponseWire(r);
      && |b| == 7 + |TailWire(r.pkgDataMaxTransfer)|
      && b[..3] == r.hdr && b[3] == r.completionCode
      && FromLe16(b[4..]) == r.metaDataLen && b[6] == r.willSendPkgDataCmd
      && (r.pkgDataMaxTransfer.Some? ==> FromLe32(b[7..]) == r.pkgDataMaxTransfer.value)
  {
  }

  // ---- Versions ----

  /** Two decimal digits in two nibbles, F standing for a missing one. */
  ghost predicate ShowsDigits(b: byte, n: byte) {
    b % 16 == n % 10 && b / 16 == if n < 10 then 15 else n / 10
  }

  lemma DigitsOfByte(n: byte)
    requires n < 100
    ensures ShowsDigits(V.BcdByte(n), n)
  {
    var tens, units := n as int / 10, n as int % 10;
    assert tens * 16 % 0x100 == tens * 16;
    assert (tens * 16 + units) / 16 == tens && (tens * 16 + units) % 16 == units;
  }

  /** A version word shows, from the top byte down, the decimal digits of major, minor and update,
      and then the letter. */
  lemma VersionWordLayout(v: V.PldmVersion)
    requires v.major < 100 && v.minor < 100 && (v.update < 100 || v.update == V.NO_UPDATE)
    ensures var w := V.Encode(v);
      && ShowsDigits(w / 0x100_0000, v.major) && ShowsDigits(w / 0x1_0000 % 0x100, v.minor)
      && (if v.update == V.NO_UPDATE then w / 0x100 % 0x100 == 0xFF else ShowsDigits(w / 0x100 % 0x100, v.update))
      && w % 0x100 == v.alpha
  {
    hide V.BcdByte, ShowsDigits;
    var update: byte := if v.update == V.NO_UPDATE then 0xFF else V.BcdByte(v.update);
    V.FieldsOfWord(V.BcdByte(v.major), V.BcdByte(v.minor), update, v.alpha);
    DigitsOfByte(v.major);
    DigitsOfByte(v.minor);
    if v.update < 100 { DigitsOfByte(v.update); }
  }
}
