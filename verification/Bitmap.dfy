/** NVMalloc's packed bitmap, one bit per unit of 64 bytes, walked with a byte index and a mask. */
module Bitmap {
  import opened Tiling
  import opened HeapSpec

  function MaskOf(k: nat): bv8
    requires k < 8
  {
    if k == 0 then 1 else if k == 1 then 2 else if k == 2 then 4 else if k == 3 then 8
    else if k == 4 then 16 else if k == 5 then 32 else if k == 6 then 64 else 128
  }

  // The byte operations of the four loops.

  predicate Test(b: bv8, mask: bv8)
  {
    b & mask != 0
  }

  function On(b: bv8, mask: bv8): bv8
  {
    b | mask
  }

  function Off(b: bv8, mask: bv8): bv8
  {
    b & !mask
  }

  function Left(mask: bv8): bv8
  {
    mask << 1
  }

  function Right(mask: bv8): bv8
  {
    mask >> 1
  }

  predicate Bit(bits: seq<bv8>, u: nat)
    requires u < 8 * |bits|
  {
    Test(bits[u / 8], MaskOf(u % 8))
  }

  /** The units whose bit is set. */
  ghost function UsedOf(bits: seq<bv8>): set<nat>
  {
    set u: nat | u < 8 * |bits| && Bit(bits, u)
  }

  // ---- single bytes ----

  lemma MaskMoves(k: nat)
    requires k < 8
    ensures MaskOf(0) == 1 && MaskOf(7) == 128
    ensures MaskOf(k) == 128 <==> k == 7
    ensures MaskOf(k) == 1 <==> k == 0
    ensures k < 7 ==> Left(MaskOf(k)) == MaskOf(k + 1)
    ensures k > 0 ==> Right(MaskOf(k)) == MaskOf(k - 1)
  {
  }

  lemma MaskSets(b: bv8, k: nat, j: nat)
    requires k < 8 && j < 8
    ensures Test(On(b, MaskOf(k)), MaskOf(j)) <==> k == j || Test(b, MaskOf(j))
  {
  }

  lemma MaskClears(b: bv8, k: nat, j: nat)
    requires k < 8 && j < 8
    ensures Test(Off(b, MaskOf(k)), MaskOf(j)) <==> k != j && Test(b, MaskOf(j))
  {
  }

  lemma SetBit(bits: seq<bv8>, u: nat)
    requires u < 8 * |bits|
    ensures UsedOf(bits[u / 8 := On(bits[u / 8], MaskOf(u % 8))]) == UsedOf(bits) + {u}
  {
    hide MaskOf, On, Off, Test;
    var after := bits[u / 8 := On(bits[u / 8], MaskOf(u % 8))];
    forall v: nat | v < 8 * |bits|
      ensures Bit(after, v) <==> v == u || Bit(bits, v)
    {
      MaskSets(bits[u / 8], u % 8, v % 8);
    }
  }

  lemma ClearBit(bits: seq<bv8>, u: nat)
    requires u < 8 * |bits|
    ensures UsedOf(bits[u / 8 := Off(bits[u / 8], MaskOf(u % 8))]) == UsedOf(bits) - {u}
  {
    hide MaskOf, On, Off, Test;
    var after := bits[u / 8 := Off(bits[u / 8], MaskOf(u % 8))];
    forall v: nat | v < 8 * |bits|
      ensures Bit(after, v) <==> v != u && Bit(bits, v)
    {
      MaskClears(bits[u / 8], u % 8, v % 8);
    }
  }

  // ---- the four loops ----

  /** A byte index and a mask that point at the bit of unit u. */
  predicate PointsAt(index: int, mask: bv8, u: nat)
  {
    index == u / 8 && mask == MaskOf(u % 8)
  }

  /** The step the forward loops share. */
  method Advance(index: nat, mask: bv8, ghost u: nat) returns (index': nat, mask': bv8)
    requires PointsAt(index, mask, u)
    ensures PointsAt(index', mask', u + 1)
  {
    hide MaskOf, Left;
    MaskMoves(u % 8);
    if mask == 128 {
      return index + 1, 1;
    } else {
      return index, Left(mask);
    }
  }

  /** The step isFreeBackward makes, before its loop and in it; it stops at unit 0. */
  method Retreat(index: nat, mask: bv8, ghost u: nat) returns (ok: bool, index': nat, mask': bv8)
    requires PointsAt(index, mask, u)
    ensures ok <==> u > 0
    ensures ok ==> PointsAt(index', mask', u - 1)
  {
    hide MaskOf, Right;
    MaskMoves(u % 8);
    if mask == 1 {
      if index == 0 {
        return false, index, mask;
      }
      return true, index - 1, 128;
    } else {
      return true, index, Right(mask);
    }
  }

  method IsFreeForward(bitmap: array<bv8>, from: nat, end: nat) returns (n: nat)
    requires end <= 8 * bitmap.Length
    ensures n == Forward(UsedOf(bitmap[..]), end, from)
  {
    hide MaskOf, Test;
    ghost var used := UsedOf(bitmap[..]);
    n := 0;
    var location := from;
    var index := location / 8;
    var mask := MaskOf(location % 8);
    while location < end && !Test(bitmap[index], mask)
      invariant PointsAt(index, mask, location)
      invariant n + Forward(used, end, location) == Forward(used, end, from)
      decreases end - location
    {
      assert !Bit(bitmap[..], location);
      index, mask := Advance(index, mask, location);
      n := n + 1;
      location := location + 1;
    }
    assert location < end ==> Bit(bitmap[..], location);
  }

  lemma BelowStep(used: set<nat>, u: nat)
    ensures Below(used, u) == if u > 0 && u - 1 !in used then 1 + Below(used, u - 1) else 0
  {
  }

  method IsFreeBackward(bitmap: array<bv8>, location: nat, end: nat) returns (n: nat)
    requires end <= 8 * bitmap.Length
    ensures n == Backward(UsedOf(bitmap[..]), end, location)
  {
    hide MaskOf, Test, Below;
    ghost var used := UsedOf(bitmap[..]);
    n := 0;
    var index := location / 8;
    var mask := MaskOf(location % 8);
    BelowStep(used, 0);
    if location > end {
      return;
    }
    var ok;
    ok, index, mask := Retreat(index, mask, location);
    if !ok {
      return;
    }
    while !Test(bitmap[index], mask)
      invariant n < location && PointsAt(index, mask, location - n - 1)
      invariant n + Below(used, location - n) == Below(used, location)
      decreases location - n
    {
      assert !Bit(bitmap[..], location - n - 1);
      BelowStep(used, location - n);
      ok, index, mask := Retreat(index, mask, location - n - 1);
      n := n + 1;
      if !ok {
        return;
      }
    }
    assert Bit(bitmap[..], location - n - 1);
    BelowStep(used, location - n);
  }

  method MakeOne(bitmap: array<bv8>, location: nat, size: nat)
    requires location + size <= 8 * bitmap.Length
    modifies bitmap
    ensures UsedOf(bitmap[..]) == old(UsedOf(bitmap[..])) + Span(location, location + size)
  {
    hide MaskOf, On;
    var index := location / 8;
    var mask := MaskOf(location % 8);
    for i := 0 to size
      invariant PointsAt(index, mask, location + i)
      invariant UsedOf(bitmap[..]) == old(UsedOf(bitmap[..])) + Span(location, location + i)
    {
      ghost var before := bitmap[..];
      bitmap[index] := On(bitmap[index], mask);
      assert bitmap[..] == before[index := On(before[index], mask)];
      SetBit(before, location + i);
      index, mask := Advance(index, mask, location + i);
    }
  }

  method MakeZero(bitmap: array<bv8>, location: nat, size: nat)
    requires location + size <= 8 * bitmap.Length
    modifies bitmap
    ensures UsedOf(bitmap[..]) == old(UsedOf(bitmap[..])) - Span(location, location + size)
  {
    hide MaskOf, Off;
    var index := location / 8;
    var mask := MaskOf(location % 8);
    for i := 0 to size
      invariant PointsAt(index, mask, location + i)
      invariant UsedOf(bitmap[..]) == old(UsedOf(bitmap[..])) - Span(location, location + i)
    {
      ghost var before := bitmap[..];
      bitmap[index] := Off(bitmap[index], mask);
      assert bitmap[..] == before[index := Off(before[index], mask)];
      ClearBit(before, location + i);
      index, mask := Advance(index, mask, location + i);
    }
  }

  /** Growing the bitmap with zero bytes changes no unit. */
  lemma GrowBitmap(bits: seq<bv8>, more: seq<bv8>)
    requires |bits| <= |more|
    requires forall i | 0 <= i < |bits| :: more[i] == bits[i]
    requires forall i | |bits| <= i < |more| :: more[i] == 0
    ensures UsedOf(more) == UsedOf(bits)
  {
    forall u: nat | u < 8 * |more|
      ensures Bit(more, u) <==> u < 8 * |bits| && Bit(bits, u)
    {
      assert !Test(0, MaskOf(u % 8));
    }
  }
}
