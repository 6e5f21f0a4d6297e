/** The 64-bit free map of a span and the table lookup that finds its lowest set bit. */
module BitScan {
  import opened Basics
  import opened Words

  const MASK: Word := 0xFFFF_FFFF_FFFF_FFFF

  function Inc(a: Word): Word
  {
    a + 1
  }

  function Dec(a: Word): Word
  {
    a - 1
  }

  function Double(w: Word): Word
  {
    w << 1
  }

  /** `w << k` */
  function Shl(w: Word, k: nat): Word
    decreases k
  {
    if k == 0 then w else Double(Shl(w, k - 1))
  }

  /** The word with bit i alone set. */
  function One(i: nat): Word
  {
    Shl(1, i)
  }

  predicate Bit(w: Word, i: nat)
  {
    And(w, One(i)) != 0
  }

  /** The positions below 64 that are set. */
  ghost function Bits(w: Word): set<nat>
  {
    set i: nat | i < 64 && Bit(w, i)
  }

  // ---- single bits ----

  lemma DoubleAsInt(w: Word)
    requires w < 0x8000_0000_0000_0000
    ensures Double(w) as int == 2 * (w as int)
  {
    assert (w << 1) as int == 2 * (w as int);
  }

  lemma TopClear(w: Word)
    requires w as int < 0x8000_0000_0000_0000
    ensures w < 0x8000_0000_0000_0000
  {
  }

  lemma Pow2Of62()
    ensures Pow2(62) == 0x4000_0000_0000_0000
  {
    assert Pow2(6) == 64;
    Pow2By8(6);
    Pow2By8(14);
    Pow2By8(22);
    Pow2By8(30);
    Pow2By8(38);
    Pow2By8(46);
    Pow2By8(54);
  }

  lemma Pow2By8(k: nat)
    ensures Pow2(k + 8) == 256 * Pow2(k)
  {
    assert Pow2(k + 2) == 4 * Pow2(k);
    assert Pow2(k + 4) == 4 * Pow2(k + 2);
    assert Pow2(k + 6) == 4 * Pow2(k + 4);
  }

  lemma {:induction false} OneIsPow2(i: nat)
    requires i < 64
    ensures One(i) as int == Pow2(i)
    decreases i
  {
    hide Double;
    if i > 0 {
      OneIsPow2(i - 1);
      Pow2Grows(i - 1, 62);
      Pow2Of62();
      TopClear(One(i - 1));
      DoubleAsInt(One(i - 1));
    }
  }

  lemma OneNonZero(i: nat)
    requires i < 64
    ensures One(i) != 0
  {
    hide Double, Shl;
    OneIsPow2(i);
  }

  lemma DoubleAnd(a: Word, b: Word)
    ensures And(Double(a), Double(b)) == Double(And(a, b))
    ensures And(1, Double(b)) == 0 && And(Double(a), 1) == 0
    ensures Double(0) == 0
  {
  }

  lemma {:induction false} OnesApart(i: nat, j: nat)
    requires i != j
    ensures And(One(i), One(j)) == 0
    decreases i
  {
    hide Double, And;
    if i > 0 && j > 0 {
      OnesApart(i - 1, j - 1);
      DoubleAnd(One(i - 1), One(j - 1));
    } else if i == 0 {
      DoubleAnd(0, One(j - 1));
    } else {
      DoubleAnd(One(i - 1), 0);
    }
  }

  lemma MaskNeutral(a: Word)
    ensures And(MASK, a) == a
  {
  }

  /** `MASK << h` keeps the bits from h on. */
  lemma {:induction false} MaskKeeps(h: nat, i: nat)
    ensures And(Shl(MASK, h), One(i)) == if i >= h then One(i) else 0
    decreases h
  {
    hide Double, And;
    MaskNeutral(One(i));
    if h > 0 {
      if i > 0 {
        MaskKeeps(h - 1, i - 1);
        DoubleAnd(Shl(MASK, h - 1), One(i - 1));
      } else {
        DoubleAnd(Shl(MASK, h - 1), 0);
      }
    }
  }

  // ---- the word operations, bit by bit ----

  lemma AndMask(w: Word, f: Word, m: Word)
    ensures And(f, m) == m ==> And(And(w, f), m) == And(w, m)
    ensures And(f, m) == 0 ==> And(And(w, f), m) == 0
  {
  }

  lemma ClearBit(w: Word, k: Word, m: Word)
    ensures And(And(w, Not(m)), m) == 0
    ensures And(k, m) == 0 ==> And(And(w, Not(k)), m) == And(w, m)
  {
  }

  lemma SetBit(w: Word, k: Word, m: Word)
    ensures And(Or(w, m), m) == m
    ensures And(k, m) == 0 ==> And(Or(w, k), m) == And(w, m)
  {
    assert (w | m) & m == m;
  }

  lemma MaskBits(w: Word, h: nat)
    ensures Bits(And(w, Shl(MASK, h))) == set i | i in Bits(w) && i >= h
  {
    hide And, Double, Shl;
    forall i: nat
      ensures Bit(And(w, Shl(MASK, h)), i) <==> Bit(w, i) && i >= h
    {
      MaskKeeps(h, i);
      AndMask(w, Shl(MASK, h), One(i));
    }
  }

  lemma ClearBits(w: Word, k: nat)
    requires k < 64
    ensures Bits(And(w, Not(One(k)))) == Bits(w) - {k}
  {
    hide And, Double, Shl, Not;
    forall i: nat | i < 64
      ensures Bit(And(w, Not(One(k))), i) <==> Bit(w, i) && i != k
    {
      if i != k {
        OnesApart(k, i);
      }
      ClearBit(w, One(k), One(i));
    }
  }

  lemma SetBits(w: Word, k: nat)
    requires k < 64
    ensures Bits(Or(w, One(k))) == Bits(w) + {k}
  {
    hide And, Double, Shl, Or;
    forall i: nat | i < 64
      ensures Bit(Or(w, One(k)), i) <==> Bit(w, i) || i == k
    {
      if i != k {
        OnesApart(k, i);
      }
      OneNonZero(i);
      SetBit(w, One(k), One(i));
    }
  }

  // ---- the lowest set bit ----

  lemma DoubleDec(m: Word)
    ensures And(Double(m), Dec(Double(m))) == Double(And(m, Dec(m)))
    ensures And(m, Dec(m)) == 0 ==> Dec(Double(m)) == Or(Dec(m), m)
  {
  }

  lemma {:induction false} OneIsSingle(i: nat)
    ensures And(One(i), Dec(One(i))) == 0
    decreases i
  {
    hide And, Double, Dec, Or;
    if i > 0 {
      OneIsSingle(i - 1);
      DoubleDec(One(i - 1));
      DoubleAnd(0, 0);
    } else {
      OneHasNoLower();
    }
  }

  lemma OneHasNoLower()
    ensures And(1, Dec(1)) == 0 && Dec(1) == 0
  {
  }

  lemma AndOr(w: Word, a: Word, b: Word)
    ensures And(w, Or(a, b)) == Or(And(w, a), And(w, b))
    ensures Or(0, 0) == 0 && And(w, 0) == 0
  {
    assert w & (a | b) == (w & a) | (w & b);
  }

  /** With no bit set below i, the word has nothing in common with the mask of the bits below i. */
  lemma {:induction false} NothingBelow(w: Word, i: nat)
    requires forall j: nat | j < i :: !Bit(w, j)
    ensures And(w, Dec(One(i))) == 0
    decreases i
  {
    hide And, Double, Dec, Or;
    OneHasNoLower();
    AndOr(w, 0, 0);
    if i > 0 {
      NothingBelow(w, i - 1);
      OneIsSingle(i - 1);
      DoubleDec(One(i - 1));
      AndOr(w, Dec(One(i - 1)), One(i - 1));
      assert !Bit(w, i - 1);
    }
  }

  lemma NegatedAnd(w: Word, m: Word)
    requires m != 0 && And(m, Dec(m)) == 0 && And(w, Dec(m)) == 0 && And(w, m) != 0
    ensures And(w, Inc(Not(w))) == m
  {
  }

  ghost predicate IsLowest(w: Word, i: nat)
  {
    i < 64 && Bit(w, i) && forall j: nat | j < i :: !Bit(w, j)
  }

  /** `w & (~w + 1)` leaves the lowest set bit alone. */
  lemma LowestAlone(w: Word, i: nat)
    requires IsLowest(w, i)
    ensures And(w, Inc(Not(w))) == One(i)
  {
    hide And, Double, Dec, Or, Inc, Not, Shl;
    NothingBelow(w, i);
    OneIsSingle(i);
    OneNonZero(i);
    NegatedAnd(w, One(i));
  }

  // ---- the de Bruijn table ----

  const TABLE: seq<nat> := [
    1, 2, 29, 3, 30, 15, 25, 4, 31, 23, 21, 16, 26, 18, 5, 9,
    32, 28, 14, 24, 22, 20, 17, 8, 27, 13, 19, 7, 12, 6, 11, 10]

  function LowHalf(w: Word): bv32
  {
    (w & 0xFFFF_FFFF) as bv32
  }

  function HighHalf(w: Word): bv32
  {
    (w >> 32) as bv32
  }

  /** LOW1BIT: the top five bits of the product index the table. */
  function Slot(x: bv32): bv5
  {
    ((x * 0x077C_B531) >> 27) as bv5
  }

  function Low1Bit(x: bv32): nat
  {
    TABLE[Slot(x) as int]
  }

  lemma TableRow0()
    ensures Low1Bit(0x1) == 1 && Low1Bit(0x2) == 2
    ensures Low1Bit(0x4) == 3 && Low1Bit(0x8) == 4
    ensures Low1Bit(0x10) == 5 && Low1Bit(0x20) == 6
    ensures Low1Bit(0x40) == 7 && Low1Bit(0x80) == 8
  {
  }

  lemma TableRow1()
    ensures Low1Bit(0x100) == 9 && Low1Bit(0x200) == 10
    ensures Low1Bit(0x400) == 11 && Low1Bit(0x800) == 12
    ensures Low1Bit(0x1000) == 13 && Low1Bit(0x2000) == 14
    ensures Low1Bit(0x4000) == 15 && Low1Bit(0x8000) == 16
  {
  }

  lemma TableRow2()
    ensures Low1Bit(0x10000) == 17 && Low1Bit(0x20000) == 18
    ensures Low1Bit(0x40000) == 19 && Low1Bit(0x80000) == 20
    ensures Low1Bit(0x100000) == 21 && Low1Bit(0x200000) == 22
    ensures Low1Bit(0x400000) == 23 && Low1Bit(0x800000) == 24
  {
  }

  lemma TableRow3()
    ensures Low1Bit(0x1000000) == 25 && Low1Bit(0x2000000) == 26
    ensures Low1Bit(0x4000000) == 27 && Low1Bit(0x8000000) == 28
    ensures Low1Bit(0x10000000) == 29 && Low1Bit(0x20000000) == 30
    ensures Low1Bit(0x40000000) == 31 && Low1Bit(0x80000000) == 32
  {
  }

  /** The single bits of a 32-bit word. */
  function One32(i: nat): bv32
  {
    if i == 0 then 1 else Twice(One32(i - 1))
  }

  function Twice(x: bv32): bv32
  {
    x << 1
  }

  lemma TwiceEight(x: bv32)
    ensures Twice(Twice(Twice(Twice(Twice(Twice(Twice(Twice(x)))))))) == x << 8
  {
  }

  lemma One32By8(i: nat)
    ensures One32(i + 8) == One32(i) << 8
  {
    hide Twice;
    TwiceEight(One32(i));
    assert One32(i + 2) == Twice(Twice(One32(i)));
    assert One32(i + 4) == Twice(Twice(One32(i + 2)));
    assert One32(i + 6) == Twice(Twice(One32(i + 4)));
  }

  lemma FirstEight()
    ensures One32(0) == 1 && One32(1) == 2 && One32(2) == 4 && One32(3) == 8
    ensures One32(4) == 16 && One32(5) == 32 && One32(6) == 64 && One32(7) == 128
  {
  }

  /** The single bits, one by one. */
  lemma SingleBits()
    ensures One32(0) == 0x1 && One32(1) == 0x2 && One32(2) == 0x4 && One32(3) == 0x8
    ensures One32(4) == 0x10 && One32(5) == 0x20 && One32(6) == 0x40 && One32(7) == 0x80
    ensures One32(8) == 0x100 && One32(9) == 0x200 && One32(10) == 0x400 && One32(11) == 0x800
    ensures One32(12) == 0x1000 && One32(13) == 0x2000 && One32(14) == 0x4000 && One32(15) == 0x8000
    ensures One32(16) == 0x1_0000 && One32(17) == 0x2_0000 && One32(18) == 0x4_0000 && One32(19) == 0x8_0000
    ensures One32(20) == 0x10_0000 && One32(21) == 0x20_0000 && One32(22) == 0x40_0000 && One32(23) == 0x80_0000
    ensures One32(24) == 0x100_0000 && One32(25) == 0x200_0000 && One32(26) == 0x400_0000 && One32(27) == 0x800_0000
    ensures One32(28) == 0x1000_0000 && One32(29) == 0x2000_0000 && One32(30) == 0x4000_0000
    ensures One32(31) == 0x8000_0000
  {
    FirstEight();
    forall i: nat | i < 24
      ensures One32(i + 8) == One32(i) << 8
    {
      One32By8(i);
    }
    assert One32(0 + 8) == 0x100 && One32(1 + 8) == 0x200 && One32(2 + 8) == 0x400 && One32(3 + 8) == 0x800;
    assert One32(4 + 8) == 0x1000 && One32(5 + 8) == 0x2000 && One32(6 + 8) == 0x4000 && One32(7 + 8) == 0x8000;
  }

  lemma TableFindsBit(i: nat)
    requires i < 32
    ensures Low1Bit(One32(i)) == i + 1
  {
    hide Low1Bit, One32;
    SingleBits();
    TableRow0();
    TableRow1();
    TableRow2();
    TableRow3();
  }

  // ---- the 32-bit split ----

  lemma HalvesOfDouble(w: Word)
    ensures LowHalf(Double(w)) == Twice(LowHalf(w))
    ensures LowHalf(w) < 0x8000_0000 ==> HighHalf(Double(w)) == Twice(HighHalf(w))
    ensures LowHalf(w) == 0x8000_0000 && HighHalf(w) == 0 ==> HighHalf(Double(w)) == 1
    ensures HighHalf(1) == 0 && LowHalf(1) == 1
  {
  }

  lemma TwiceEdge()
    ensures Twice(0x8000_0000) == 0 && Twice(0) == 0
  {
  }

  lemma {:induction false} HalvesOfOne(i: nat)
    ensures LowHalf(One(i)) == if i < 32 then One32(i) else 0
    ensures HighHalf(One(i)) == if i < 32 then 0 else One32(i - 32)
    decreases i
  {
    hide Double, LowHalf, HighHalf, Twice;
    HalvesOfDouble(if i > 0 then One(i - 1) else 0);
    TwiceEdge();
    SingleBits();
    if i > 0 {
      HalvesOfOne(i - 1);
      assert i - 1 < 31 ==> One32(i - 1) < 0x8000_0000;
    }
  }

  /** The lookup with its 32-bit split gives the lowest set bit, counted from one. */
  lemma LookupFindsLowest(w: Word, i: nat)
    requires IsLowest(w, i)
    ensures var low := And(w, Inc(Not(w)));
      i + 1 == if LowHalf(low) != 0 then Low1Bit(LowHalf(low)) else Low1Bit(HighHalf(low)) + 32
  {
    hide And, Inc, Not, Shl, LowHalf, HighHalf, Low1Bit, One32;
    LowestAlone(w, i);
    HalvesOfOne(i);
    if i < 32 {
      TableFindsBit(i);
      One32NonZero(i);
    } else {
      TableFindsBit(i - 32);
    }
  }

  lemma One32NonZero(i: nat)
    requires i < 32
    ensures One32(i) != 0
  {
    hide One32;
    SingleBits();
  }

  // ---- the full map of a fresh span ----

  function Half(w: Word): Word
  {
    w >> 1
  }

  /** `w >> k` */
  function Shr(w: Word, k: nat): Word
    decreases k
  {
    if k == 0 then w else Half(Shr(w, k - 1))
  }

  lemma HalfMovesBit(w: Word, m: Word)
    ensures And(Half(w), m) == 0 <==> And(w, Double(m)) == 0
  {
    hide And, Half, Double;
    HalfThenDouble(w, m);
    DoubleIsZero(And(Half(w), m));
  }

  lemma HalfThenDouble(w: Word, m: Word)
    ensures Double(And(Half(w), m)) == And(w, Double(m))
    ensures And(Half(w), m) < 0x8000_0000_0000_0000
  {
  }

  lemma DoubleIsZero(x: Word)
    requires x < 0x8000_0000_0000_0000
    ensures Double(x) == 0 <==> x == 0
  {
  }

  lemma {:induction false} ShrMovesBits(w: Word, k: nat, i: nat)
    ensures Bit(Shr(w, k), i) <==> Bit(w, i + k)
    decreases k
  {
    hide And, Half, Double;
    if k > 0 {
      HalfMovesBit(Shr(w, k - 1), One(i));
      ShrMovesBits(w, k - 1, i + 1);
    }
  }

  lemma TopBitLeaves(w: Word)
    requires LowHalf(w) == 0 && HighHalf(w) == 0x8000_0000
    ensures Double(w) == 0
  {
  }

  lemma {:induction false} OneVanishes(i: nat)
    requires i >= 64
    ensures One(i) == 0
    decreases i
  {
    hide Double, LowHalf, HighHalf;
    if i == 64 {
      HalvesOfOne(63);
      SingleBits();
      TopBitLeaves(One(63));
    } else {
      OneVanishes(i - 1);
      DoubleAnd(0, 0);
    }
  }

  /** `MASK >> (64 - n)` marks blocks 0 to n - 1 and no others. */
  lemma FullMap(n: nat, w: Word)
    requires 0 < n <= 64 && w == Shr(MASK, 64 - n)
    ensures forall i: nat :: i in Bits(w) <==> i < n
  {
    hide And, Double, Shr, Shl;
    forall i: nat | i < 64
      ensures Bit(w, i) <==> i < n
    {
      ShrMovesBits(MASK, 64 - n, i);
      MaskNeutral(One(i + 64 - n));
      if i < n {
        OneNonZero(i + 64 - n);
      } else {
        OneVanishes(i + 64 - n);
      }
    }
  }

  lemma DecOfZero(w: Word)
    ensures And(w, Dec(0)) == w
  {
  }

  /** A word with no bit set is zero. */
  lemma NoBitsIsZero(w: Word)
    requires Bits(w) == {}
    ensures w == 0
  {
    hide And, Dec, Shl;
    forall j: nat | j < 64
      ensures !Bit(w, j)
    {
      assert j !in Bits(w);
    }
    NothingBelow(w, 64);
    OneVanishes(64);
    DecOfZero(w);
  }
}
