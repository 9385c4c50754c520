// Device descriptors: type, length and up to 64 bytes of data, sent one after another.
module Descriptors {
  import opened Bytes
  import opened Formats

  const DATA_MAX_LEN := 64
  const DESCRIPTOR_HEADER_LEN := 4

  function ZeroData(n: nat): seq<byte> { seq(n, _ => 0) }

  type DescriptorData = s: seq<byte> | |s| == DATA_MAX_LEN witness ZeroData(DATA_MAX_LEN)

  datatype Descriptor = Descriptor(descriptorType: u16, length: u16, data: DescriptorData)

  const EMPTY_DESCRIPTOR := Descriptor(0, 0, ZeroData(DATA_MAX_LEN))

  /** Descriptors on which the encoder's slice of the data is in range. */
  predicate Encodable(d: Descriptor) { d.length as int <= DATA_MAX_LEN }

  function PadData(s: seq<byte>): DescriptorData
    requires |s| <= DATA_MAX_LEN
  {
    s + ZeroData(DATA_MAX_LEN - |s|)
  }

  predicate WellFormed(d: Descriptor) { Encodable(d) && d.data == PadData(d.data[..d.length]) }

  /** `codec_size_in_bytes` */
  function Size(d: Descriptor): nat { DESCRIPTOR_HEADER_LEN + d.length as nat }

  function Wire(d: Descriptor): seq<byte> {
    Le16(d.descriptorType) + (Le16(d.length) + (if Encodable(d) then d.data[..d.length] else d.data))
  }

  /** `Descriptor::decode`, with the size of what it read. */
  function Parse(b: seq<byte>): Result<(Descriptor, nat), CodecError> {
    if |b| < DESCRIPTOR_HEADER_LEN then Err(BufferTooShort)
    else
      var length := FromLe16(b[2..]);
      if length as int > DATA_MAX_LEN then Err(InvalidData)
      else if |b| < DESCRIPTOR_HEADER_LEN + length as int then Err(BufferTooShort)
      else
        var d := Descriptor(FromLe16(b), length, PadData(b[4..4 + length as int]));
        Ok((d, Size(d)))
  }

  const DESCRIPTOR: Format<Descriptor> := Format(d => Wire(d), b => Parse(b))

  lemma DescriptorLossless(d: Descriptor, rest: seq<byte>)
    requires WellFormed(d)
    ensures Parse(Wire(d) + rest) == Ok((d, |Wire(d)|))
  {
    var b := Wire(d) + rest;
    var n := d.length as int;
    ReadLe16(d.descriptorType, b[2..]);
    ReadLe16(d.length, b[4..]);
    assert b == Le16(d.descriptorType) + b[2..];
    assert b[2..] == Le16(d.length) + b[4..];
    assert b[4..4 + n] == d.data[..n];
  }

  lemma DescriptorCanonical(b: seq<byte>)
    requires Parse(b).Ok?
    ensures var (d, n) := Parse(b).value; WellFormed(d) && n == |Wire(d)| && Wire(d) <= b
  {
  }

  lemma DescriptorCutSafe(q: seq<byte>, b: seq<byte>)
    requires q <= b
    ensures Parse(q) in {Parse(b), Err(BufferTooShort)}
  {
    if Parse(q).Ok? {
      var n := Parse(q).value.1;
      assert q[4..n] == b[4..n];
    }
  }

  lemma DescriptorsAreLawful()
    ensures Lawful(DESCRIPTOR, (d: Descriptor) => WellFormed(d))
  {
    hide Wire, Parse, WellFormed;
    forall d, rest | WellFormed(d)
      ensures DESCRIPTOR.parse(DESCRIPTOR.wire(d) + rest) == Ok((d, |DESCRIPTOR.wire(d)|))
    {
      DescriptorLossless(d, rest);
    }
    forall b | DESCRIPTOR.parse(b).Ok?
      ensures var (d, n) := DESCRIPTOR.parse(b).value;
        WellFormed(d) && n == |DESCRIPTOR.wire(d)| && DESCRIPTOR.wire(d) <= b
    {
      DescriptorCanonical(b);
    }
    forall q, b {:trigger DESCRIPTOR.parse(q), DESCRIPTOR.parse(b)} | q <= b
      ensures DESCRIPTOR.parse(q) == DESCRIPTOR.parse(b) || DESCRIPTOR.parse(q) == Err(BufferTooShort)
    {
      DescriptorCutSafe(q, b);
    }
  }

  lemma DescriptorsLossless(ds: seq<Descriptor>, rest: seq<byte>)
    requires forall d :: d in ds ==> WellFormed(d)
    ensures ParseList(DESCRIPTOR, ListWire(DESCRIPTOR, ds) + rest, |ds|) == Ok((ds, |ListWire(DESCRIPTOR, ds)|))
  {
    DescriptorsAreLawful();
    ListLossless(DESCRIPTOR, (d: Descriptor) => WellFormed(d), ds, rest);
  }

  lemma DescriptorsCanonical(b: seq<byte>, count: nat)
    requires ParseList(DESCRIPTOR, b, count).Ok?
    ensures var (ds, n) := ParseList(DESCRIPTOR, b, count).value;
      && |ds| == count && (forall d :: d in ds ==> WellFormed(d))
      && n == |ListWire(DESCRIPTOR, ds)| && ListWire(DESCRIPTOR, ds) <= b
  {
    DescriptorsAreLawful();
    ListCanonical(DESCRIPTOR, (d: Descriptor) => WellFormed(d), b, count);
  }

  lemma DescriptorsCutSafe(q: seq<byte>, b: seq<byte>, count: nat)
    requires q <= b
    ensures ParseList(DESCRIPTOR, q, count) in {ParseList(DESCRIPTOR, b, count), Err(BufferTooShort)}
  {
    DescriptorsAreLawful();
    ListCutSafe(DESCRIPTOR, (d: Descriptor) => WellFormed(d), q, b, count);
  }

  /** The length of a list of `count` descriptors at the front of a blob, found by decoding
      each in turn: `try_get_descriptor_length_from_blob`. */
  method BlobLength(blob: seq<byte>, count: nat) returns (r: Result<nat, CodecError>)
    ensures r == ListLength(DESCRIPTOR, blob, count)
    ensures r.Ok? ==> r.value <= |blob|
  {
    hide Wire, Parse, ListLength;
    var offset: nat, total: nat := 0, 0;
    assert blob[0..] == blob;
    for i := 0 to count
      invariant 0 <= offset == total <= |blob|
      invariant ListLength(DESCRIPTOR, blob, count) == Plus(offset, ListLength(DESCRIPTOR, blob[offset..], count - i))
    {
      ghost var rest := blob[offset..];
      var d := DESCRIPTOR.parse(blob[offset..]);
      if d.Err? {
        ListLengthError(DESCRIPTOR, rest, count - i);
        return Err(d.error);
      }
      DescriptorCanonical(rest);
      ListLengthStep(DESCRIPTOR, rest, count - i);
      total := total + d.value.1;
      offset := offset + d.value.1;
      assert rest[d.value.1..] == blob[offset..];
    }
    ListLengthOfNone(DESCRIPTOR, blob[offset..]);
    return Ok(total);
  }
}
