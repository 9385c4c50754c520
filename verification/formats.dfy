// Formats: a value's wire form together with the decoder that reads it back.
// A list format repeats an item format a known number of times; its laws follow by
// induction from those of the item. Component entries and descriptors are the items.
module Formats {
  import opened Bytes

  /** The parser returns the value and how many bytes it took. */
  datatype Format<!T> = Format(wire: T -> seq<byte>, parse: seq<byte> -> Result<(T, nat), CodecError>)

  /** Well-formed values survive a round trip, whatever follows them. */
  ghost predicate Lossless<T(!new)>(f: Format<T>, wellFormed: T -> bool) {
    forall x, rest :: wellFormed(x) ==> f.parse(f.wire(x) + rest) == Ok((x, |f.wire(x)|))
  }

  /** What decodes is well formed and its wire form is the bytes taken. */
  ghost predicate Canonical<T(!new)>(f: Format<T>, wellFormed: T -> bool) {
    forall b :: f.parse(b).Ok? ==>
      && wellFormed(f.parse(b).value.0)
      && f.parse(b).value.1 == |f.wire(f.parse(b).value.0)|
      && f.wire(f.parse(b).value.0) <= b
  }

  /** Cutting a buffer short changes nothing, or makes it too short. */
  ghost predicate CutSafe<T(!new)>(f: Format<T>) {
    forall q, b {:trigger f.parse(q), f.parse(b)} ::
      q <= b ==> f.parse(q) == f.parse(b) || f.parse(q) == Err(BufferTooShort)
  }

  ghost predicate Lawful<T(!new)>(f: Format<T>, wellFormed: T -> bool) {
    Lossless(f, wellFormed) && Canonical(f, wellFormed) && CutSafe(f)
  }

  function ListWire<T>(f: Format<T>, xs: seq<T>): seq<byte> {
    if xs == [] then [] else f.wire(xs[0]) + ListWire(f, xs[1..])
  }

  function ParseList<T>(f: Format<T>, b: seq<byte>, count: nat): Result<(seq<T>, nat), CodecError>
    decreases count
  {
    if count == 0 then Ok(([], 0))
    else
      var (x, n) :- f.parse(b);
      if |b| < n then Err(BufferTooShort)
      else
        var (xs, m) :- ParseList(f, b[n..], count - 1);
        Ok(([x] + xs, n + m))
  }

  /** How many bytes a list of `count` items takes. */
  function ListLength<T>(f: Format<T>, b: seq<byte>, count: nat): Result<nat, CodecError> {
    var (_, n) :- ParseList(f, b, count);
    Ok(n)
  }

  function Plus(k: nat, r: Result<nat, CodecError>): Result<nat, CodecError> {
    var n :- r;
    Ok(k + n)
  }

  lemma ListLengthStep<T>(f: Format<T>, b: seq<byte>, count: nat)
    requires 0 < count && f.parse(b).Ok? && f.parse(b).value.1 <= |b|
    ensures ListLength(f, b, count) == Plus(f.parse(b).value.1, ListLength(f, b[f.parse(b).value.1..], count - 1))
  {
  }

  lemma ListLengthError<T>(f: Format<T>, b: seq<byte>, count: nat)
    requires 0 < count && f.parse(b).Err?
    ensures ListLength(f, b, count) == Err(f.parse(b).error)
  {
  }

  lemma ListLengthOfNone<T>(f: Format<T>, b: seq<byte>)
    ensures ListLength(f, b, 0) == Ok(0)
  {
  }

  lemma ListWireOfNone<T>(f: Format<T>)
    ensures ListWire(f, []) == []
  {
  }

  lemma ListWireFront<T>(f: Format<T>, x: T, xs: seq<T>)
    ensures ListWire(f, [x] + xs) == f.wire(x) + ListWire(f, xs)
  {
  }

  lemma {:induction false} ListWireAppend<T>(f: Format<T>, xs: seq<T>, x: T)
    ensures ListWire(f, xs + [x]) == ListWire(f, xs) + f.wire(x)
  {
    if xs == [] {
      assert [x][1..] == [];
    } else {
      ListWireAppend(f, xs[1..], x);
      assert (xs + [x])[1..] == xs[1..] + [x];
    }
  }

  lemma {:induction false} ListLossless<T(!new)>(f: Format<T>, wellFormed: T -> bool, xs: seq<T>, rest: seq<byte>)
    requires Lossless(f, wellFormed)
    requires forall x :: x in xs ==> wellFormed(x)
    ensures ParseList(f, ListWire(f, xs) + rest, |xs|) == Ok((xs, |ListWire(f, xs)|))
  {
    if xs == [] {
    } else {
      var tail := ListWire(f, xs[1..]) + rest;
      assert ListWire(f, xs) + rest == f.wire(xs[0]) + tail;
      ListLossless(f, wellFormed, xs[1..], rest);
      assert (f.wire(xs[0]) + tail)[|f.wire(xs[0])|..] == tail;
      assert xs == [xs[0]] + xs[1..];
    }
  }

  lemma {:induction false} ListCanonical<T(!new)>(f: Format<T>, wellFormed: T -> bool, b: seq<byte>, count: nat)
    requires Canonical(f, wellFormed)
    requires ParseList(f, b, count).Ok?
    ensures var (xs, n) := ParseList(f, b, count).value;
      |xs| == count && (forall x :: x in xs ==> wellFormed(x)) && n == |ListWire(f, xs)| && ListWire(f, xs) <= b
    decreases count
  {
    if count == 0 {
    } else {
      var (xs, n) := ParseList(f, b, count).value;
      var k := f.parse(b).value.1;
      ListCanonical(f, wellFormed, b[k..], count - 1);
      assert xs[1..] == ParseList(f, b[k..], count - 1).value.0;
      assert b == f.wire(xs[0]) + b[k..];
    }
  }

  lemma ListCutStep<T>(f: Format<T>, q: seq<byte>, b: seq<byte>, count: nat)
    requires 0 < count && f.parse(q) == f.parse(b)
    requires f.parse(q).Ok? ==>
      var k := f.parse(q).value.1;
      k <= |q| <= |b| && ParseList(f, q[k..], count - 1) in {ParseList(f, b[k..], count - 1), Err(BufferTooShort)}
    ensures ParseList(f, q, count) in {ParseList(f, b, count), Err(BufferTooShort)}
  {
  }

  lemma ListOfNone<T>(f: Format<T>, b: seq<byte>)
    ensures ParseList(f, b, 0) == Ok(([], 0))
  {
  }

  lemma ListError<T>(f: Format<T>, b: seq<byte>, count: nat)
    requires 0 < count && f.parse(b).Err?
    ensures ParseList(f, b, count) == Err(f.parse(b).error)
  {
  }

  lemma {:induction false} ListCutSafe<T(!new)>(f: Format<T>, wellFormed: T -> bool,
                                                q: seq<byte>, b: seq<byte>, count: nat)
    requires Canonical(f, wellFormed) && CutSafe(f)
    requires q <= b
    ensures ParseList(f, q, count) in {ParseList(f, b, count), Err(BufferTooShort)}
    decreases count
  {
    hide ParseList;
    if count == 0 {
      ListOfNone(f, q);
      ListOfNone(f, b);
    } else if f.parse(q) == f.parse(b) {
      if f.parse(q).Ok? {
        var k := f.parse(q).value.1;
        ListCutSafe(f, wellFormed, q[k..], b[k..], count - 1);
      }
      ListCutStep(f, q, b, count);
    } else {
      ListError(f, q, count);
    }
  }

  lemma {:induction false} ParseListLength<T>(f: Format<T>, b: seq<byte>, count: nat)
    ensures ParseList(f, b, count).Ok? ==> |ParseList(f, b, count).value.0| == count
    decreases count
  {
    if count == 0 || f.parse(b).Err? || f.parse(b).value.1 > |b| {
    } else {
      ParseListLength(f, b[f.parse(b).value.1..], count - 1);
    }
  }

  // ---- Decoding loops: what is done already, in front of what is left ----

  function Prepend<T>(done: seq<T>, taken: nat, r: Result<(seq<T>, nat), CodecError>)
    : Result<(seq<T>, nat), CodecError>
  {
    var (xs, n) :- r;
    Ok((done + xs, taken + n))
  }

  lemma ParseListStep<T>(f: Format<T>, b: seq<byte>, count: nat)
    requires 0 < count
    ensures match f.parse(b)
            case Err(e) => ParseList(f, b, count) == Err(e)
            case Ok((x, n)) => n <= |b| ==> ParseList(f, b, count) == Prepend([x], n, ParseList(f, b[n..], count - 1))
  {
  }

  lemma PrependNothing<T>(r: Result<(seq<T>, nat), CodecError>)
    ensures r == Prepend([], 0, r)
  {
    if r.Ok? { assert [] + r.value.0 == r.value.0; }
  }

  lemma PrependLast<T>(done: seq<T>, n: nat)
    ensures Prepend(done, n, Ok(([], 0))) == Ok((done, n))
  {
    assert done + [] == done;
  }

  lemma PrependError<T>(done: seq<T>, n: nat, e: CodecError)
    ensures Prepend(done, n, Err(e)) == Err(e)
  {
  }

  lemma PrependTwice<T>(a: seq<T>, n: nat, b: seq<T>, m: nat, r: Result<(seq<T>, nat), CodecError>)
    ensures Prepend(a, n, Prepend(b, m, r)) == Prepend(a + b, n + m, r)
  {
    if r.Ok? { assert a + (b + r.value.0) == (a + b) + r.value.0; }
  }

  lemma {:induction false} ListWirePrefix<T>(f: Format<T>, xs: seq<T>, n: nat)
    requires n <= |xs|
    ensures |ListWire(f, xs[..n])| <= |ListWire(f, xs)|
  {
    if n == 0 {
    } else {
      ListWirePrefix(f, xs[1..], n - 1);
      assert xs[..n][1..] == xs[1..][..n - 1];
    }
  }
}
