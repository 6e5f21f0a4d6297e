/** Damage to one byte of a stored NVMalloc header: what the checksum notices and what it does not. */
module Damage {
  import opened Words
  import opened Checksum

  // ---- positive headers ----

  /** Byte j alone. */
  function ByteMask(j: nat): Word
    requires j < 8
  {
    if j == 0 then 0xFF
    else if j == 1 then 0xFF00
    else if j == 2 then 0xFF_0000
    else if j == 3 then 0xFF00_0000
    else if j == 4 then 0xFF_0000_0000
    else if j == 5 then 0xFF00_0000_0000
    else if j == 6 then 0xFF_0000_0000_0000
    else 0xFF00_0000_0000_0000
  }

  /** The error changes byte j and no other. */
  predicate InByte(e: Word, j: nat)
    requires j < 8
  {
    e != 0 && And(e, ByteMask(j)) == e
  }

  lemma InByteMovesUp(e: Word, j: nat)
    requires j < 6 && InByte(e, j)
    ensures Byte6(e) == 0 && InByte(Up(e), j + 1)
  {
  }

  lemma InByte6(e: Word)
    requires InByte(e, 6)
    ensures Byte6(e) != 0 && Byte6(Up(e)) == 0 && Up(Up(e)) == 0
  {
  }

  lemma InByteUnused(e: Word)
    ensures InByte(e, 7) ==> e & UNUSED != 0
  {
  }

  lemma XorNothing(a: bv8)
    ensures Xor8(a, 0) == a && Xor8(0, a) == a
  {
  }

  lemma {:induction false} OneByteIsOdd(e: Word, j: nat, k: nat)
    requires j <= 6 && InByte(e, j) && k + j >= 7
    ensures XorBytes(e, k) != 0
    decreases k
  {
    hide Byte6, Up, Xor8, InByte;
    if j < 6 {
      InByteMovesUp(e, j);
      OneByteIsOdd(Up(e), j + 1, k - 1);
      XorNothing(XorBytes(Up(e), k - 1));
    } else {
      InByte6(e);
      if k > 1 {
        XorBytesOfZero(k - 2);
        XorNothing(0);
      }
      XorNothing(Byte6(e));
    }
  }

  /** A positive word with one byte changed, any byte, is refused. */
  lemma OneByteIsNoticed(offset: Word, w: Word, e: Word, j: nat)
    requires Accepted(offset, w) && j < 8 && InByte(e, j)
    ensures !Accepted(offset, Xor(w, e))
  {
    hide Byte6, Up, Xor, Xor8, XorBytes, InByte, Accepted;
    UndetectedErrors(offset, w, e);
    if j == 7 {
      InByteUnused(e);
    } else {
      OneByteIsOdd(e, j, 7);
    }
  }

  // ---- negative headers ----

  /** The change by `d` of byte j. */
  function ByteAt(d: bv8, j: nat): Word
    requires j < 8
  {
    if j < 4 then Pack(0, Raise(d as bv32, j)) else Pack(Raise(d as bv32, j - 4), 0)
  }

  /** The word read back when an error e strikes the stored complement of w. */
  function Damaged(w: Word, e: Word): Word
  {
    Neg(Xor(Neg(w), e))
  }

  /** The exclusive or of the four bytes of a size. */
  function Parity(x: bv32): bv8
  {
    ((x ^ (x >> 8) ^ (x >> 16) ^ (x >> 24)) & 0xFF) as bv8
  }

  function Low8(x: bv32): bv8
  {
    (x & 0xFF) as bv8
  }

  /** A word in two halves, and moving a half up or down by j bytes. */
  function Pack(high: bv32, low: bv32): Word
  {
    ((high as Word) << 32) | (low as Word)
  }

  function Up32(x: bv32): bv32
  {
    x << 8
  }

  function Down32(x: bv32): bv32
  {
    x >> 8
  }

  function Raise(x: bv32, j: nat): bv32
    decreases j
  {
    if j == 0 then x else Raise(Up32(x), j - 1)
  }

  function Lower(x: bv32, j: nat): bv32
    decreases j
  {
    if j == 0 then x else Lower(Down32(x), j - 1)
  }

  /** Bytes 0 to j - 1. */
  function Beneath(j: nat): bv32
    requires j < 4
  {
    if j == 0 then 0 else if j == 1 then 0xFF else if j == 2 then 0xFFFF else 0xFF_FFFF
  }

  /** q fits in the bytes above byte j. */
  predicate Above(q: bv32, j: nat)
    requires j < 4
  {
    q < if j == 0 then 0x100_0000 else if j == 1 then 0x1_0000 else if j == 2 then 0x100 else 1
  }

  /** Byte j of a size, the bytes above it, and whether nothing is below it. */
  function ByteOf(size: bv32, j: nat): bv8
    requires j < 4
  {
    Low8(Lower(size, j))
  }

  function Rest(size: bv32, j: nat): bv32
    requires j < 4
  {
    Down32(Lower(size, j))
  }

  predicate Clean(size: bv32, j: nat)
    requires j < 4
  {
    size & Beneath(j) == 0
  }

  /** d makes up for the borrow from the bytes q above. */
  predicate BorrowHidden(q: bv32, d: bv8)
  {
    0 - d == Parity(q ^ (q - 1))
  }

  /** Clearing the byte b makes up for the carry into the bytes q above. */
  predicate CarryHidden(q: bv32, b: bv8, j: nat)
    requires j < 4
  {
    Above(q + 1, j) && b == Parity(q ^ (q + 1))
  }

  /** A change by d of byte j of a stored negative header goes unnoticed: the size has nothing below the
      byte, and a zero byte is set to the one value that hides the borrow, or a byte that is set is
      cleared and that hides the carry. */
  predicate Unnoticed(size: bv32, d: bv8, j: nat)
  {
    && j < 4 && Clean(size, j)
    && if ByteOf(size, j) == 0 then BorrowHidden(Rest(size, j), d)
       else d == 0 - ByteOf(size, j) && CarryHidden(Rest(size, j), ByteOf(size, j), j)
  }

  // ---- the half that holds the size ----

  function Xor32(a: bv32, b: bv32): bv32
  {
    a ^ b
  }

  function Neg32(x: bv32): bv32
  {
    -x
  }

  /** What is read back of the size when an error e strikes its complement. */
  function ReadBack(size: bv32, e: bv32): bv32
  {
    Neg32(Xor32(Neg32(size), e))
  }

  function Succ(q: bv32): bv32
  {
    q + 1
  }

  function Pred(q: bv32): bv32
  {
    q - 1
  }

  /** A byte with the bytes q above it. */
  function Cons(q: bv32, b: bv8): bv32
  {
    (q << 8) | (b as bv32)
  }

  predicate Small(q: bv32)
  {
    q < 0x100_0000
  }

  /** x can be moved up by j bytes without loss. */
  predicate Fits(x: bv32, j: nat)
    requires j < 4
  {
    x <= if j == 0 then 0xFFFF_FFFF else if j == 1 then 0xFF_FFFF else if j == 2 then 0xFFFF else 0xFF
  }

  lemma RisesLow(q: bv32, d: bv8)
    requires Small(q) && q != 0 && d != 0
    ensures ReadBack(Cons(q, 0), d as bv32) == Cons(Pred(q), 0 - d)
  {
  }

  lemma FallsLow(q: bv32, b: bv8, d: bv8)
    requires Small(q) && b != 0 && d == 0 - b
    ensures ReadBack(Cons(q, b), d as bv32) == Cons(Succ(q), 0)
  {
  }

  lemma SetsLow(q: bv32, b: bv8, d: bv8)
    requires Small(q) && b != 0 && d != 0 && d != 0 - b
    ensures var x := Xor32(Cons(q, b), ReadBack(Cons(q, b), d as bv32)); 0 < x <= 0xFF
  {
  }

  lemma XorCons(q: bv32, b: bv8, r: bv32, c: bv8)
    ensures Xor32(Cons(q, b), Cons(r, c)) == Cons(Xor32(q, r), Xor8(b, c))
  {
  }

  lemma ParityCons(q: bv32, b: bv8)
    requires Small(q)
    ensures Parity(Cons(q, b)) == Xor8(Parity(q), b)
  {
    hide Parity, Small, Xor8, Xor32;
    ConsIsXor(q, b);
    ParityLinear(Up32(q), b as bv32);
    ParityUp(q);
    ParityOfByte(b);
  }

  lemma ConsIsXor(q: bv32, b: bv8)
    ensures Cons(q, b) == Xor32(Up32(q), b as bv32)
  {
    hide Xor32, Cons;
    ConsOfRaised(q, b, Up32(q));
  }

  lemma ConsOfRaised(q: bv32, b: bv8, up: bv32)
    requires up == q << 8
    ensures Cons(q, b) == Xor32(up, b as bv32)
  {
  }

  lemma ParityLinear(x: bv32, y: bv32)
    ensures Parity(Xor32(x, y)) == Xor8(Parity(x), Parity(y))
  {
    hide Parity;
    ParityOfXor(x, y, Xor32(x, y));
  }

  lemma ParityOfXor(x: bv32, y: bv32, z: bv32)
    requires z == x ^ y
    ensures Parity(z) == Parity(x) ^ Parity(y)
  {
  }

  lemma ParityUp(x: bv32)
    requires Small(x)
    ensures Parity(Up32(x)) == Parity(x)
  {
  }

  lemma ParityOfByte(b: bv8)
    ensures Parity(b as bv32) == b
  {
  }

  lemma ParityByte(x: bv32)
    requires 0 < x <= 0xFF
    ensures Parity(x) != 0
  {
  }

  lemma UpReadBack(x: bv32, e: bv32)
    ensures ReadBack(Up32(x), Up32(e)) == Up32(ReadBack(x, e))
  {
    hide Neg32, Xor32, Up32;
    UpNeg(x);
    UpXor(Neg32(x), e);
    UpNeg(Xor32(Neg32(x), e));
  }

  lemma UpNeg(x: bv32)
    ensures Neg32(Up32(x)) == Up32(Neg32(x))
  {
  }

  lemma {:induction false} RaiseReadBack(x: bv32, e: bv32, j: nat)
    ensures ReadBack(Raise(x, j), Raise(e, j)) == Raise(ReadBack(x, e), j)
    decreases j
  {
    hide ReadBack, Up32;
    if j > 0 {
      UpReadBack(x, e);
      RaiseReadBack(Up32(x), Up32(e), j - 1);
    }
  }

  lemma UpXor(x: bv32, y: bv32)
    ensures Xor32(Up32(x), Up32(y)) == Up32(Xor32(x, y))
  {
  }

  lemma {:induction false} RaiseXor(x: bv32, y: bv32, j: nat)
    ensures Xor32(Raise(x, j), Raise(y, j)) == Raise(Xor32(x, y), j)
    decreases j
  {
    hide Xor32, Up32;
    if j > 0 {
      UpXor(x, y);
      RaiseXor(Up32(x), Up32(y), j - 1);
    }
  }

  lemma UpFits(x: bv32, j: nat)
    requires 0 < j < 4 && Fits(x, j)
    ensures Fits(Up32(x), j - 1) && Small(x)
  {
  }

  lemma {:induction false} RaiseParity(x: bv32, j: nat)
    requires j < 4 && Fits(x, j)
    ensures Parity(Raise(x, j)) == Parity(x)
    decreases j
  {
    hide Parity, Up32;
    if j > 0 {
      UpFits(x, j);
      ParityUp(x);
      RaiseParity(Up32(x), j - 1);
    }
  }

  lemma CleanParts(size: bv32, j: nat)
    requires j < 4 && Clean(size, j)
    ensures size == Raise(Cons(Rest(size, j), ByteOf(size, j)), j)
    ensures Above(Rest(size, j), j)
  {
    hide Clean, Cons, Down32, Low8, Raise;
    CleanMoves(size, j);
    LowerFits(size, 0, j);
    PartsOf(Lower(size, j));
    FitsParts(Lower(size, j), j);
  }

  lemma {:induction false} CleanMoves(size: bv32, j: nat)
    requires j < 4 && Clean(size, j)
    ensures size == Raise(Lower(size, j), j)
    decreases j
  {
    hide Clean, Down32, Up32;
    if j > 0 {
      CleanStep(size, j);
      CleanMoves(Down32(size), j - 1);
      RaiseOuter(Lower(size, j), j);
    }
  }

  lemma CleanStep(size: bv32, j: nat)
    requires 0 < j < 4 && Clean(size, j)
    ensures Up32(Down32(size)) == size && Clean(Down32(size), j - 1)
  {
  }

  lemma {:induction false} RaiseOuter(x: bv32, j: nat)
    requires j > 0
    ensures Raise(x, j) == Up32(Raise(x, j - 1))
    decreases j
  {
    hide Up32;
    if j > 1 {
      RaiseOuter(Up32(x), j - 1);
    }
  }

  lemma {:induction false} LowerFits(x: bv32, i: nat, j: nat)
    requires i + j < 4 && Fits(x, i)
    ensures Fits(Lower(x, j), i + j)
    decreases j
  {
    hide Down32, Fits;
    if j > 0 {
      DownFits(x, i);
      LowerFits(Down32(x), i + 1, j - 1);
    }
  }

  lemma DownFits(x: bv32, i: nat)
    requires i < 3 && Fits(x, i)
    ensures Fits(Down32(x), i + 1)
  {
  }

  lemma PartsOf(x: bv32)
    ensures x == Cons(Down32(x), Low8(x))
  {
  }

  lemma FitsParts(x: bv32, j: nat)
    requires j < 4 && Fits(x, j)
    ensures Above(Down32(x), j)
  {
  }

  lemma FitsCons(q: bv32, b: bv8, j: nat)
    requires j < 4 && Above(q, j)
    ensures Fits(Cons(q, b), j) && Small(q)
  {
  }

  lemma XorBounded(q: bv32, r: bv32, j: nat)
    requires j < 4 && Above(q, j) && Above(r, j)
    ensures Above(Xor32(q, r), j)
  {
  }

  lemma Unclean(size: bv32, d: bv8, j: nat)
    requires j < 4 && d != 0 && !Clean(size, j)
    ensures Parity(Xor32(size, ReadBack(size, Raise(d as bv32, j)))) != 0
  {
  }

  // ---- which changes of the half go unnoticed ----

  lemma BorrowIs(q: bv32, d: bv8)
    ensures BorrowHidden(q, d) <==> Xor8(Parity(Xor32(q, Pred(q))), Xor8(0, 0 - d)) == 0
  {
    hide Parity;
    SumIsZero(Parity(q ^ (q - 1)), 0 - d, 0);
  }

  lemma CarryIs(q: bv32, b: bv8, j: nat)
    requires j < 4
    ensures CarryHidden(q, b, j) <==> Above(Succ(q), j) && Xor8(Parity(Xor32(q, Succ(q))), Xor8(b, 0)) == 0
  {
    hide Parity, Above;
    SumIsZero(Parity(q ^ (q + 1)), b, 0);
  }

  lemma SumIsZero(p: bv8, b: bv8, z: bv8)
    requires z == 0
    ensures Xor8(p, Xor8(b, z)) == 0 <==> b == p
    ensures Xor8(p, Xor8(z, b)) == 0 <==> b == p
  {
  }

  lemma {:induction false} RaiseOfZero(x: bv32, j: nat)
    requires x == 0
    ensures Raise(x, j) == 0
    decreases j
  {
    if j > 0 {
      RaiseOfZero(Up32(x), j - 1);
    }
  }

  lemma UpNonZero(x: bv32)
    requires Small(x) && x != 0
    ensures Up32(x) != 0
  {
  }

  lemma {:induction false} RaiseNonZero(x: bv32, j: nat)
    requires j < 4 && Fits(x, j) && x != 0
    ensures Raise(x, j) != 0
    decreases j
  {
    hide Fits, Up32, Small;
    if j > 0 {
      UpFits(x, j);
      UpNonZero(x);
      RaiseNonZero(Up32(x), j - 1);
    }
  }

  lemma ConsZero(q: bv32, b: bv8)
    requires Small(q)
    ensures Cons(q, b) == 0 <==> q == 0 && b == 0
  {
  }

  lemma Neighbours(q: bv32, j: nat)
    requires j < 4 && Above(q, j)
    ensures q != 0 ==> Above(Pred(q), j)
    ensures Above(Succ(q), j) ==> Succ(q) != 0
  {
  }

  lemma CarryOut(q: bv32, j: nat)
    requires j < 4 && Above(q, j) && !Above(Succ(q), j)
    ensures Raise(Cons(Succ(q), 0), j) == 0
  {
  }

  /** The two halves of the comparison, moved down to byte 0. */
  lemma Moved(m: bv32, d: bv8, j: nat)
    requires j < 4
    ensures var r := ReadBack(m, d as bv32);
      && ReadBack(Raise(m, j), Raise(d as bv32, j)) == Raise(r, j)
      && Xor32(Raise(m, j), Raise(r, j)) == Raise(Xor32(m, r), j)
  {
    hide ReadBack, Raise, Xor32;
    RaiseReadBack(m, d as bv32, j);
    RaiseXor(m, ReadBack(m, d as bv32), j);
  }

  /** The change of one cons cell into another, read at byte j. */
  lemma PairsDiffer(q: bv32, b: bv8, r: bv32, c: bv8, j: nat)
    requires j < 4 && Above(q, j) && Above(r, j)
    ensures Parity(Raise(Xor32(Cons(q, b), Cons(r, c)), j)) == Xor8(Parity(Xor32(q, r)), Xor8(b, c))
    ensures Raise(Cons(r, c), j) == 0 <==> r == 0 && c == 0
  {
    hide Raise, Xor32, Cons, Parity, Above, Xor8, Fits, Small;
    XorCons(q, b, r, c);
    XorBounded(q, r, j);
    FitsCons(Xor32(q, r), Xor8(b, c), j);
    RaiseParity(Cons(Xor32(q, r), Xor8(b, c)), j);
    ParityCons(Xor32(q, r), Xor8(b, c));
    FitsCons(r, c, j);
    ConsZero(r, c);
    if Cons(r, c) == 0 {
      RaiseOfZero(Cons(r, c), j);
    } else {
      RaiseNonZero(Cons(r, c), j);
    }
  }

  /** What is read back is not zero and its bytes have the same exclusive or. */
  predicate Passes(size: bv32, e: bv32)
  {
    ReadBack(size, e) != 0 && Parity(Xor32(size, ReadBack(size, e))) == 0
  }

  lemma RisesPass(q: bv32, d: bv8, j: nat)
    requires j < 4 && Above(q, j) && q != 0 && d != 0
    ensures Passes(Raise(Cons(q, 0), j), Raise(d as bv32, j)) <==> BorrowHidden(q, d)
  {
    hide ReadBack, Raise, Xor32, Cons, Parity, Above, Xor8, BorrowHidden, Pred, Fits, Small;
    FitsCons(q, 0, j);
    RisesLow(q, d);
    Neighbours(q, j);
    Moved(Cons(q, 0), d, j);
    PairsDiffer(q, 0, Pred(q), 0 - d, j);
    BorrowIs(q, d);
    NegNonZero(d);
  }

  lemma NegNonZero(d: bv8)
    ensures 0 - d == 0 <==> d == 0
  {
  }

  lemma FallsPass(q: bv32, b: bv8, d: bv8, j: nat)
    requires j < 4 && Above(q, j) && b != 0 && d == 0 - b
    ensures Passes(Raise(Cons(q, b), j), Raise(d as bv32, j)) <==> CarryHidden(q, b, j)
  {
    hide ReadBack, Raise, Xor32, Cons, Parity, Above, Xor8, CarryHidden, Succ, Fits, Small;
    FitsCons(q, b, j);
    FallsLow(q, b, d);
    Neighbours(q, j);
    Moved(Cons(q, b), d, j);
    CarryIs(q, b, j);
    if Above(Succ(q), j) {
      PairsDiffer(q, b, Succ(q), 0, j);
    } else {
      CarryOut(q, j);
    }
  }

  lemma SetsFail(q: bv32, b: bv8, d: bv8, j: nat)
    requires j < 4 && Above(q, j) && b != 0 && d != 0 && d != 0 - b
    ensures !Passes(Raise(Cons(q, b), j), Raise(d as bv32, j))
  {
    hide ReadBack, Raise, Xor32, Cons, Parity, Above, Fits, Small;
    FitsCons(q, b, j);
    SetsLow(q, b, d);
    Moved(Cons(q, b), d, j);
    var x := Xor32(Cons(q, b), ReadBack(Cons(q, b), d as bv32));
    FitsByte(x, j);
    RaiseParity(x, j);
    ParityByte(x);
  }

  lemma FitsByte(x: bv32, j: nat)
    requires j < 4 && x <= 0xFF
    ensures Fits(x, j)
  {
  }

  lemma HalfUnnoticed(size: bv32, d: bv8, j: nat)
    requires size != 0 && d != 0 && j < 4
    ensures Passes(size, Raise(d as bv32, j)) <==> Unnoticed(size, d, j)
  {
    hide ReadBack, Raise, Xor32, Cons, Parity, Above, Clean, Rest, ByteOf, BorrowHidden, CarryHidden, Small;
    if !Clean(size, j) {
      Unclean(size, d, j);
    } else {
      var q, b := Rest(size, j), ByteOf(size, j);
      CleanParts(size, j);
      FitsCons(q, b, j);
      ConsZero(q, b);
      if q == 0 && b == 0 {
        RaiseOfZero(Cons(q, b), j);
      } else if b == 0 {
        RisesPass(q, d, j);
      } else if d == 0 - b {
        FallsPass(q, b, d, j);
      } else {
        SetsFail(q, b, d, j);
      }
    }
  }

  // ---- the whole word ----

  /** The upper half of a header word with check byte c. */
  function Top(c: bv8): bv32
  {
    (c as bv32) << 16
  }

  lemma JoinIsPack(size: bv32, c: bv8)
    ensures Join(size as Word, c) == Pack(Top(c), size)
  {
  }

  function Not32(x: bv32): bv32
  {
    !x
  }

  lemma NegPack(high: bv32, low: bv32)
    requires low != 0
    ensures Neg(Pack(high, low)) == Pack(Not32(high), Neg32(low))
  {
  }

  lemma NegPackZero(high: bv32)
    ensures Neg(Pack(Not32(high), 0)) == Pack(Succ(high), 0)
  {
  }

  lemma XorPack(a: bv32, b: bv32, c: bv32, d: bv32)
    ensures Xor(Pack(a, b), Pack(c, d)) == Pack(Xor32(a, c), Xor32(b, d))
  {
  }

  lemma HalfFacts(x: bv32, e: bv32)
    ensures Xor32(x, 0) == x && Neg32(Neg32(x)) == x && Not32(Not32(x)) == x
    ensures Neg32(x) == 0 <==> x == 0
  {
  }

  lemma NotXor(x: bv32, e: bv32)
    ensures Not32(Xor32(Not32(x), e)) == Xor32(x, e)
  {
    hide Not32, Xor32;
    NotOfXor(Not32(x), e);
    HalfFacts(x, e);
  }

  lemma NotOfXor(a: bv32, e: bv32)
    ensures Not32(Xor32(a, e)) == Xor32(Not32(a), e)
  {
    hide Not32;
    NotOfSum(a, e, Xor32(a, e));
  }

  lemma NotOfSum(a: bv32, e: bv32, y: bv32)
    requires y == a ^ e
    ensures Not32(y) == Not32(a) ^ e
  {
  }

  /** An error in the lower half changes the size read back, unless it carries out of that half. */
  lemma DamagedLow(high: bv32, size: bv32, e: bv32)
    requires size != 0
    ensures Damaged(Pack(high, size), Pack(0, e)) ==
      if ReadBack(size, e) != 0 then Pack(high, ReadBack(size, e)) else Pack(Succ(high), 0)
  {
    hide Pack, Neg, Xor, Xor32, Neg32, Not32, Succ;
    NegPack(high, size);
    XorPack(Not32(high), Neg32(size), 0, e);
    HalfFacts(Not32(high), 0);
    HalfFacts(high, 0);
    HalfFacts(Xor32(Neg32(size), e), 0);
    if ReadBack(size, e) != 0 {
      NegPack(Not32(high), Xor32(Neg32(size), e));
    } else {
      NegPackZero(high);
    }
  }

  /** An error in the upper half leaves the size alone and strikes the word itself. */
  lemma DamagedHigh(high: bv32, size: bv32, e: bv32)
    requires size != 0
    ensures Damaged(Pack(high, size), Pack(e, 0)) == Xor(Pack(high, size), Pack(e, 0))
  {
    hide Pack, Neg, Xor, Xor32, Neg32, Not32;
    NegPack(high, size);
    XorPack(Not32(high), Neg32(size), e, 0);
    XorPack(high, size, e, 0);
    HalfFacts(Neg32(size), 0);
    HalfFacts(size, 0);
    NegPack(Xor32(Not32(high), e), Neg32(size));
    NotXor(high, e);
  }

  // ---- the check of a size ----

  /** The seven bytes of a word, from byte 6 downwards, when y0, y1, ... are the word moved up. */
  lemma SevenBytes(y0: Word, y1: Word, y2: Word, y3: Word, y4: Word, y5: Word, y6: Word)
    requires Up(y0) == y1 && Up(y1) == y2 && Up(y2) == y3 && Up(y3) == y4 && Up(y4) == y5 && Up(y5) == y6
    requires Byte6(y0) == 0 && Byte6(y1) == 0 && Byte6(y2) == 0
    ensures XorBytes(y0, 7) == Xor8(Byte6(y3), Xor8(Byte6(y4), Xor8(Byte6(y5), Byte6(y6))))
  {
    hide Up, Byte6, Xor8;
    assert XorBytes(y6, 1) == Xor8(Byte6(y6), 0);
    assert XorBytes(y5, 2) == Xor8(Byte6(y5), XorBytes(y6, 1));
    assert XorBytes(y4, 3) == Xor8(Byte6(y4), XorBytes(y5, 2));
    assert XorBytes(y3, 4) == Xor8(Byte6(y3), XorBytes(y4, 3));
    assert XorBytes(y2, 5) == Xor8(0, XorBytes(y3, 4));
    assert XorBytes(y1, 6) == Xor8(0, XorBytes(y2, 5));
    XorNothing(Byte6(y6));
    XorNothing(XorBytes(y3, 4));
  }

  /** The size in a word, moved up by one byte after the other. */
  predicate MovedUp(x: bv32, y0: Word, y1: Word, y2: Word, y3: Word, y4: Word, y5: Word, y6: Word)
  {
    && y0 == x as Word && y1 == y0 << 8 && y2 == y0 << 16 && y3 == y0 << 24
    && y4 == y0 << 32 && y5 == y0 << 40 && y6 == y0 << 48
  }

  lemma UpMoves(x: bv32, y0: Word, y1: Word, y2: Word, y3: Word, y4: Word, y5: Word, y6: Word)
    requires MovedUp(x, y0, y1, y2, y3, y4, y5, y6)
    ensures Up(y0) == y1 && Up(y1) == y2 && Up(y2) == y3 && Up(y3) == y4 && Up(y4) == y5 && Up(y5) == y6
  {
  }

  /** Byte i of a size. */
  function Nth(x: bv32, i: nat): bv8
  {
    if i == 0 then (x & 0xFF) as bv8
    else if i == 1 then ((x >> 8) & 0xFF) as bv8
    else if i == 2 then ((x >> 16) & 0xFF) as bv8
    else (x >> 24) as bv8
  }

  lemma MovedBytes(x: bv32, y0: Word, y1: Word, y2: Word, y3: Word, y4: Word, y5: Word, y6: Word)
    requires MovedUp(x, y0, y1, y2, y3, y4, y5, y6)
    ensures Byte6(y0) == 0 && Byte6(y1) == 0 && Byte6(y2) == 0
    ensures Byte6(y3) == Nth(x, 3) && Byte6(y4) == Nth(x, 2) && Byte6(y5) == Nth(x, 1) && Byte6(y6) == Nth(x, 0)
  {
  }

  lemma MovedWords(x: bv32) returns (y0: Word, y1: Word, y2: Word, y3: Word, y4: Word, y5: Word, y6: Word)
    ensures y0 == x as Word && MovedUp(x, y0, y1, y2, y3, y4, y5, y6)
  {
    y0 := x as Word;
    y1, y2, y3, y4, y5, y6 := y0 << 8, y0 << 16, y0 << 24, y0 << 32, y0 << 40, y0 << 48;
  }

  lemma SumOfFour(x: bv32, a: bv8, b: bv8, c: bv8, d: bv8)
    requires a == Nth(x, 0) && b == Nth(x, 1) && c == Nth(x, 2) && d == Nth(x, 3)
    ensures Xor8(d, Xor8(c, Xor8(b, a))) == Parity(x)
  {
    assert d ^ (c ^ (b ^ a)) == Parity(x);
  }

  lemma BytesOfSize(x: bv32)
    ensures XorBytes(x as Word, 7) == Parity(x)
  {
    hide Byte6, Up, XorBytes, Parity, Xor8, Nth, MovedUp;
    var y0, y1, y2, y3, y4, y5, y6 := MovedWords(x);
    UpMoves(x, y0, y1, y2, y3, y4, y5, y6);
    MovedBytes(x, y0, y1, y2, y3, y4, y5, y6);
    SevenBytes(y0, y1, y2, y3, y4, y5, y6);
    SumOfFour(x, Nth(x, 0), Nth(x, 1), Nth(x, 2), Nth(x, 3));
  }

  /** c is the check byte of the size. */
  predicate IsCheck(offset: Word, size: bv32, c: bv8)
  {
    c == XorBytes(Xor(offset, size as Word), 7)
  }

  /** A word with the check of one size and another size passes exactly when their bytes have the same
      exclusive or. */
  lemma OtherSize(offset: Word, size: bv32, r: bv32, c: bv8)
    requires IsCheck(offset, size, c)
    ensures Accepted(offset, Pack(Top(c), r)) <==> Parity(Xor32(size, r)) == 0
  {
    hide Byte6, Up, Xor, Xor8, XorBytes, Join, XorGetSize, Parity, Xor32, Pack, Top;
    JoinIsPack(r, c);
    JoinKeeps(r, c);
    XorBytesLinear(offset, size as Word, 7);
    XorBytesLinear(offset, r as Word, 7);
    BytesOfSize(size);
    BytesOfSize(r);
    ParityLinear(size, r);
    CheckOf(r, c);
    CheckOf(r, XorBytes(Xor(offset, r as Word), 7));
    Cancel(XorBytes(offset, 7), Parity(size), Parity(r));
  }

  lemma CheckOf(r: bv32, c: bv8)
    ensures Byte6(Join(r as Word, c)) == c
  {
  }

  lemma Cancel(a: bv8, b: bv8, c: bv8)
    ensures Xor8(a, b) == Xor8(a, c) <==> Xor8(b, c) == 0
  {
  }

  lemma CarriedOut(offset: Word, c: bv8)
    ensures !Accepted(offset, Pack(Succ(Top(c)), 0))
  {
    hide XorBytes, Accepted;
    AcceptedIsParity(offset, Pack(Succ(Top(c)), 0));
    CarryIsUnused(c);
  }

  lemma CarryIsUnused(c: bv8)
    ensures Pack(Succ(Top(c)), 0) & UNUSED != 0
  {
  }

  lemma ByteAtInByte(d: bv8, j: nat)
    requires d != 0 && 4 <= j < 8
    ensures InByte(ByteAt(d, j), j)
  {
    hide Raise, Pack;
    RaiseInByte(d, j - 4, Raise(d as bv32, j - 4));
    PackInByte(j, Raise(d as bv32, j - 4));
  }

  lemma RaiseInByte(d: bv8, i: nat, r: bv32)
    requires d != 0 && i < 4 && r == Raise(d as bv32, i)
    ensures r != 0
    ensures r & (if i == 0 then 0xFF else if i == 1 then 0xFF00 else if i == 2 then 0xFF_0000 else 0xFF00_0000) == r
  {
  }

  lemma PackInByte(j: nat, r: bv32)
    requires 4 <= j < 8 && r != 0
    requires r & (if j == 4 then 0xFF else if j == 5 then 0xFF00 else if j == 6 then 0xFF_0000 else 0xFF00_0000) == r
    ensures InByte(Pack(r, 0), j)
  {
  }

  lemma LowByteIsNoticed(offset: Word, size: bv32, d: bv8, j: nat, c: bv8)
    requires size != 0 && d != 0 && j < 4 && IsCheck(offset, size, c)
    ensures Accepted(offset, Damaged(Pack(Top(c), size), Pack(0, Raise(d as bv32, j)))) <==> Unnoticed(size, d, j)
  {
    hide XorBytes, Accepted, Pack, Parity, Xor, Xor32, ReadBack, Raise, Join, Damaged, Top, Succ, Unnoticed, IsCheck;
    var e := Raise(d as bv32, j);
    DamagedLow(Top(c), size, e);
    HalfUnnoticed(size, d, j);
    OtherSize(offset, size, ReadBack(size, e), c);
    CarriedOut(offset, c);
  }

  lemma HighByteIsNoticed(offset: Word, size: bv32, d: bv8, j: nat, c: bv8)
    requires size != 0 && d != 0 && 4 <= j < 8 && IsCheck(offset, size, c)
    ensures !Accepted(offset, Damaged(Pack(Top(c), size), Pack(Raise(d as bv32, j - 4), 0)))
  {
    hide XorBytes, Accepted, Pack, Xor, Raise, Join, Damaged, Top, InByte, XorGetSize;
    JoinIsPack(size, c);
    DamagedHigh(Top(c), size, Raise(d as bv32, j - 4));
    RoundTrip(offset, size);
    ByteAtInByte(d, j);
    OneByteIsNoticed(offset, XorWord(offset, size), ByteAt(d, j), j);
  }

  /** A one-byte change of a stored negative header is accepted exactly when it is one of the unnoticed
      ones, which are known from the size alone. */
  lemma NegatedByteIsNoticed(offset: Word, size: bv32, d: bv8, j: nat)
    requires size != 0 && d != 0 && j < 8
    ensures Accepted(offset, Damaged(XorWord(offset, size), ByteAt(d, j))) <==> Unnoticed(size, d, j)
  {
    hide XorBytes, Accepted, Pack, Xor, Raise, Join, Damaged, Top, Clean;
    var c := XorBytes(Xor(offset, size as Word), 7);
    JoinIsPack(size, c);
    if j < 4 {
      LowByteIsNoticed(offset, size, d, j, c);
    } else {
      HighByteIsNoticed(offset, size, d, j, c);
    }
  }

  // ---- the sizes NVMalloc stores in negative headers ----

  /** q ends in exactly n set bits, for ones == 2^n. */
  predicate EndsIn(q: bv32, ones: bv32)
  {
    q & (ones + (ones - 1)) == ones - 1
  }

  lemma CarryOfOne(q: bv32)
    requires Small(q)
    ensures CarryHidden(q, 1, 0) <==> EndsIn(q, 0x1) || EndsIn(q, 0x1_0000)
  {
  }

  lemma OddOne(q: bv32, b: bv8)
    requires Small(q) && b & 0x3F == 1 && b != 1
    ensures !CarryHidden(q, b, 0)
  {
  }

  lemma CarryOfQuarter(q: bv32, b: bv8)
    requires Small(q) && b != 0 && b & 0x3F == 0
    ensures CarryHidden(q, b, 0) <==> (b == 0x80 && EndsIn(q, 0x4000)) || (b == 0xC0 && EndsIn(q, 0x2000))
  {
  }

  lemma SmallNegs()
    ensures 0 - (1 as bv8) == 0xFF && 0 - (0x80 as bv8) == 0x80 && 0 - (0xC0 as bv8) == 0x40
  {
  }

  lemma BorrowOf(q: bv32)
    requires Small(q) && q != 0
    ensures Parity(q ^ (q - 1)) == 0 <==> q & 0xFFFF == 0x8000
  {
  }

  lemma LowestByte(size: bv32, j: nat)
    ensures Clean(size, 0) && Small(Rest(size, 0))
    ensures ByteOf(size, 0) != 0 && 0 < j < 4 ==> !Clean(size, j)
    ensures size != 0 && ByteOf(size, 0) == 0 ==> Rest(size, 0) != 0
  {
  }

  lemma LastBits(size: bv32)
    ensures size & 0x3F == 1 ==> ByteOf(size, 0) & 0x3F == 1 && ByteOf(size, 0) != 0
    ensures size & 0x3F == 0 ==> ByteOf(size, 0) & 0x3F == 0
  {
  }

  lemma FirstByteOnly(size: bv32, d: bv8, j: nat)
    requires ByteOf(size, 0) != 0
    ensures Unnoticed(size, d, j) <==>
      j == 0 && d == 0 - ByteOf(size, 0) && CarryHidden(Rest(size, 0), ByteOf(size, 0), 0)
  {
    hide Clean, ByteOf, Rest, CarryHidden, Small;
    LowestByte(size, j);
  }

  /** Quarantined blocks store a multiple of 64 plus one. Only byte 0 can be damaged unnoticed: it must be 1
      and be cleared, and the bytes above it must be even or end in exactly sixteen set bits. */
  lemma QuarantinedHeaders(size: bv32, d: bv8, j: nat)
    requires size & 0x3F == 1 && d != 0
    ensures Unnoticed(size, d, j) <==>
      && j == 0 && ByteOf(size, 0) == 1 && d == 0xFF
      && (EndsIn(Rest(size, 0), 0x1) || EndsIn(Rest(size, 0), 0x1_0000))
  {
    hide Clean, ByteOf, Rest, CarryHidden, Small, Unnoticed, EndsIn;
    LowestByte(size, j);
    LastBits(size);
    FirstByteOnly(size, d, j);
    SmallNegs();
    if ByteOf(size, 0) == 1 {
      CarryOfOne(Rest(size, 0));
    } else {
      OddOne(Rest(size, 0), ByteOf(size, 0));
    }
  }

  /** Free runs that are not a multiple of 256 bytes: again only byte 0, which is cleared. It must be 0x80
      under exactly fourteen set bits, or 0xC0 under exactly thirteen. */
  lemma FreeHeaders(size: bv32, d: bv8, j: nat)
    requires size & 0x3F == 0 && ByteOf(size, 0) != 0 && d != 0
    ensures Unnoticed(size, d, j) <==>
      && j == 0
      && ((ByteOf(size, 0) == 0x80 && d == 0x80 && EndsIn(Rest(size, 0), 0x4000))
          || (ByteOf(size, 0) == 0xC0 && d == 0x40 && EndsIn(Rest(size, 0), 0x2000)))
  {
    hide Clean, ByteOf, Rest, CarryHidden, Small, Unnoticed, EndsIn;
    LowestByte(size, j);
    LastBits(size);
    FirstByteOnly(size, d, j);
    SmallNegs();
    CarryOfQuarter(Rest(size, 0), ByteOf(size, 0));
  }

  /** Free runs that are a multiple of 256 bytes: byte 0 has just one unnoticed change, or none when the
      sixteen bits above it are 0x8000. */
  lemma FreePages(size: bv32)
    requires size != 0 && ByteOf(size, 0) == 0
    ensures (exists d: bv8 :: d != 0 && Unnoticed(size, d, 0)) <==> Rest(size, 0) & 0xFFFF != 0x8000
    ensures forall d: bv8, d': bv8 :: Unnoticed(size, d, 0) && Unnoticed(size, d', 0) ==> d == d'
  {
    hide Clean, ByteOf, Rest, Parity, Small;
    LowestByte(size, 0);
    var q := Rest(size, 0);
    var p := Parity(q ^ (q - 1));
    BorrowOf(q);
    assert Unnoticed(size, 0 - p, 0);
  }

  /** The stored header of a free run of 256 bytes, with its lowest byte changed from 0 to 255, is accepted
      as the header of one byte. */
  lemma NegatedByteUnnoticed(offset: Word)
    ensures var w := XorWord(offset, 256);
      && Negative(Neg(w)) && ByteAt(0xFF, 0) == 0xFF
      && Accepted(offset, Damaged(w, 0xFF)) && XorGetSize(Damaged(w, 0xFF)) == 1
  {
    hide XorBytes, Accepted, Damaged, Join, XorGetSize, Top;
    var c := XorBytes(Xor(offset, (256 as bv32) as Word), 7);
    RoundTrip(offset, 256);
    NegatedByteIsNoticed(offset, 256, 0xFF, 0);
    JoinIsPack(256, c);
    DamagedLow(Top(c), 256, 0xFF);
    JoinIsPack(1, c);
    JoinKeeps(1, c);
  }
}
