// Bitmaps of commands and types: bit `c % 8` of byte `c / 8` stands for code `c`.
module Bitmap {
  import opened Bytes

  type BitIndex = i: int | 0 <= i < 8

  /** `b & (1 << i) != 0`, by binary recursion */
  predicate HasBit(b: nat, i: nat) { if i == 0 then b % 2 == 1 else HasBit(b / 2, i - 1) }

  /** `b | (1 << i)` */
  function WithBit(b: nat, i: nat): nat
    decreases i
  {
    if i == 0 then b - b % 2 + 1 else 2 * WithBit(b / 2, i - 1) + b % 2
  }

  /** Setting bit 0 leaves the higher bits alone; setting a higher one leaves bit 0 alone. */
  lemma HalvesOfWithBit(b: nat, i: nat)
    ensures i == 0 ==> WithBit(b, i) / 2 == b / 2 && WithBit(b, i) % 2 == 1
    ensures 0 < i ==> WithBit(b, i) / 2 == WithBit(b / 2, i - 1) && WithBit(b, i) % 2 == b % 2
  {
  }

  lemma {:induction false} BitsOfWithBit(b: nat, i: nat, j: nat)
    ensures HasBit(WithBit(b, i), j) <==> j == i || HasBit(b, j)
    decreases i
  {
    hide WithBit;
    HalvesOfWithBit(b, i);
    if i == 0 || j == 0 {
    } else {
      BitsOfWithBit(b / 2, i - 1, j - 1);
    }
  }

  function Pow2(n: nat): nat { if n == 0 then 1 else 2 * Pow2(n - 1) }

  lemma HalfFits(b: nat, p: nat)
    requires b < 2 * p
    ensures b / 2 < p
  {
  }

  lemma LowBitFits(b: nat, p: nat)
    requires b < 2 * p
    ensures b - b % 2 + 1 < 2 * p
  {
  }

  lemma DoubleFits(b: nat, half: nat, p: nat)
    requires half < p
    ensures 2 * half + b % 2 < 2 * p
  {
  }

  lemma {:induction false} WithBitFits(b: nat, i: nat, n: nat)
    requires b < Pow2(n) && i < n
    ensures WithBit(b, i) < Pow2(n)
    decreases n
  {
    if i > 0 {
      HalfFits(b, Pow2(n - 1));
      WithBitFits(b / 2, i - 1, n - 1);
      DoubleFits(b, WithBit(b / 2, i - 1), Pow2(n - 1));
    } else {
      LowBitFits(b, Pow2(n - 1));
    }
  }

  function SetBit(b: byte, i: BitIndex): byte {
    assert Pow2(8) == 256;
    WithBitFits(b, i, 8);
    WithBit(b, i)
  }

  /** `is_bit_set` */
  predicate IsBitSet(bitmap: seq<byte>, item: byte)
    requires item as int / 8 < |bitmap|
  {
    HasBit(bitmap[item / 8], item as int % 8)
  }

  function NoBits(n: nat): seq<byte> { seq(n, _ => 0) }

  predicate Fits(items: seq<byte>, n: nat) { forall i :: 0 <= i < |items| ==> items[i] as int / 8 < n }

  /** The bitmap of a list of codes that all have a bit. */
  function BitmapOf(items: seq<byte>, n: nat): (bitmap: seq<byte>)
    requires Fits(items, n)
    ensures |bitmap| == n
  {
    if items == [] then NoBits(n)
    else
      var bitmap := BitmapOf(items[..|items| - 1], n);
      var item := items[|items| - 1];
      bitmap[item / 8 := SetBit(bitmap[item / 8], item as int % 8)]
  }

  lemma {:induction false} NoBitInZero(i: nat)
    ensures !HasBit(0, i)
  {
    if i == 0 {
    } else {
      NoBitInZero(i - 1);
    }
  }

  /** A bit is set exactly when its code is listed. */
  lemma {:induction false} BitmapMeaning(items: seq<byte>, n: nat, c: byte)
    requires Fits(items, n) && c as int / 8 < n
    ensures IsBitSet(BitmapOf(items, n), c) <==> c in items
  {
    if items == [] {
      NoBitInZero(c as int % 8);
    } else {
      var rest, item := items[..|items| - 1], items[|items| - 1];
      BitmapMeaning(rest, n, c);
      assert items == rest + [item];
      if item / 8 == c / 8 {
        BitsOfWithBit(BitmapOf(rest, n)[item / 8], item as int % 8, c as int % 8);
      }
    }
  }

  /** What `construct_bitmap` looks at: as many entries as the bitmap has bits. */
  function Considered(items: seq<byte>, n: nat): seq<byte> { if |items| <= 8 * n then items else items[..8 * n] }

  method ConstructBitmap(items: seq<byte>, n: nat) returns (bitmap: seq<byte>)
    requires Fits(Considered(items, n), n)
    ensures bitmap == BitmapOf(Considered(items, n), n)
  {
    var bits := new byte[n](_ => 0);
    var considered := Considered(items, n);
    for i := 0 to |considered|
      invariant bits[..] == BitmapOf(considered[..i], n)
    {
      var item := considered[i];
      assert considered[..i + 1][..i] == considered[..i];
      bits[item / 8] := SetBit(bits[item / 8], item as int % 8);
    }
    assert considered[..|considered|] == considered;
    return bits[..];
  }
}
