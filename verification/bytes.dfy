// Bytes, machine integers and the little-endian forms in which PLDM messages carry them.
module Bytes {
  type byte = b: int | 0 <= b < 0x100
  type u16 = x: int | 0 <= x < 0x1_0000
  type u32 = x: int | 0 <= x < 0x1_0000_0000
  type u64 = x: int | 0 <= x < 0x1_0000_0000_0000_0000

  const U32_MODULUS: int := 0x1_0000_0000

  datatype Option<+T> = None | Some(value: T)

  datatype Result<+T, +E> = Ok(value: T) | Err(error: E) {
    predicate IsFailure() { Err? }

    function PropagateFailure<U>(): Result<U, E>
      requires Err?
    {
      Err(error)
    }

    function Extract(): T
      requires Ok?
    {
      value
    }
  }

  /** `PldmCodecError` */
  datatype CodecError = BufferTooShort | InvalidData | Unsupported

  function Le16(x: u16): (b: seq<byte>)
    ensures |b| == 2
  {
    [x % 0x100, x / 0x100]
  }

  function FromLe16(b: seq<byte>): u16
    requires |b| >= 2
  {
    b[0] as int + 0x100 * (b[1] as int)
  }

  function Le32(x: u32): (b: seq<byte>)
    ensures |b| == 4
  {
    Le16(x % 0x1_0000) + Le16(x / 0x1_0000)
  }

  function FromLe32(b: seq<byte>): u32
    requires |b| >= 4
  {
    FromLe16(b) as int + 0x1_0000 * (FromLe16(b[2..]) as int)
  }

  function Le64(x: u64): (b: seq<byte>)
    ensures |b| == 8
  {
    Le32(x % U32_MODULUS) + Le32(x / U32_MODULUS)
  }

  function FromLe64(b: seq<byte>): u64
    requires |b| >= 8
  {
    FromLe32(b) as int + U32_MODULUS * (FromLe32(b[4..]) as int)
  }

  /** Little-endian: the first byte counts least. */
  lemma ByteOrder(b: seq<byte>)
    requires |b| >= 4
    ensures FromLe32(b) as int == b[0] as int + 0x100 * b[1] as int + 0x1_0000 * b[2] as int + 0x100_0000 * b[3] as int
  {
  }

  lemma ReadLe16(x: u16, rest: seq<byte>)
    ensures FromLe16(Le16(x) + rest) == x
  {
  }

  lemma ReadLe32(x: u32, rest: seq<byte>)
    ensures FromLe32(Le32(x) + rest) == x
  {
  }

  lemma ReadLe64(x: u64, rest: seq<byte>)
    ensures FromLe64(Le64(x) + rest) == x
  {
    hide Le32, FromLe32;
    var high := Le32(x / U32_MODULUS) + rest;
    assert Le64(x) + rest == Le32(x % U32_MODULUS) + high;
    assert (Le64(x) + rest)[4..] == high;
    ReadLe32(x % U32_MODULUS, high);
    ReadLe32(x / U32_MODULUS, rest);
  }

  lemma WriteLe16(b: seq<byte>)
    requires |b| >= 2
    ensures Le16(FromLe16(b)) == b[..2]
  {
  }

  lemma WriteLe32(b: seq<byte>)
    requires |b| >= 4
    ensures Le32(FromLe32(b)) == b[..4]
  {
  }

  /** Reading well inside a prefix does not notice what was cut off. */
  lemma ReadsOnPrefix(q: seq<byte>, b: seq<byte>, i: nat)
    requires q <= b
    ensures i + 2 <= |q| ==> FromLe16(q[i..]) == FromLe16(b[i..])
    ensures i + 4 <= |q| ==> FromLe32(q[i..]) == FromLe32(b[i..])
  {
    if i + 4 <= |q| {
      assert q[i..][2..] == q[i + 2..] && b[i..][2..] == b[i + 2..];
    }
  }

  // Buffers. A message goes into `buffer[at..]`, the sub-slice handed to an encoder.

  function Splice(contents: seq<byte>, at: nat, message: seq<byte>): (s: seq<byte>)
    requires at + |message| <= |contents|
    ensures |s| == |contents|
  {
    contents[..at] + message + contents[at + |message|..]
  }

  lemma SpliceTwice(contents: seq<byte>, at: nat, a: seq<byte>, b: seq<byte>)
    requires at + |a| + |b| <= |contents|
    ensures Splice(Splice(contents, at, a), at + |a|, b) == Splice(contents, at, a + b)
  {
  }

  lemma SpliceNothing(contents: seq<byte>, at: nat)
    requires at <= |contents|
    ensures Splice(contents, at, []) == contents
  {
  }

  /** What an encoder does to `buffer[at..]`: the whole message or nothing. */
  predicate Encoded(before: seq<byte>, after: seq<byte>, at: nat, message: seq<byte>, r: Result<nat, CodecError>)
    requires at <= |before|
  {
    if |before| - at < |message| then r == Err(BufferTooShort) && after == before
    else r == Ok(|message|) && after == Splice(before, at, message)
  }

  lemma SpliceNext(contents: seq<byte>, at: nat, message: seq<byte>, i: nat)
    requires i < |message| && at + |message| <= |contents|
    ensures Splice(contents, at, message[..i])[at + i := message[i]] == Splice(contents, at, message[..i + 1])
  {
  }

  /** `copy_from_slice` into `buffer[at..at + |message|]` */
  method Put(buffer: array<byte>, at: nat, message: seq<byte>)
    requires at + |message| <= buffer.Length
    modifies buffer
    ensures buffer[..] == Splice(old(buffer[..]), at, message)
  {
    hide Splice;
    SpliceNothing(buffer[..], at);
    for i := 0 to |message|
      invariant buffer[..] == Splice(old(buffer[..]), at, message[..i])
    {
      SpliceNext(old(buffer[..]), at, message, i);
      buffer[at + i] := message[i];
    }
    assert message[..|message|] == message;
  }

  /** The next part of a message that is being written into `buffer[at..]`. */
  method PutNext(buffer: array<byte>, at: nat, ghost was: seq<byte>, ghost done: seq<byte>,
                 offset: nat, part: seq<byte>)
    requires offset == |done| && at + offset + |part| <= buffer.Length == |was|
    requires buffer[..] == Splice(was, at, done)
    modifies buffer
    ensures buffer[..] == Splice(was, at, done + part)
  {
    Put(buffer, at + offset, part);
    SpliceTwice(was, at, done, part);
  }
}
