/** The checksummed in-band header of NVMalloc (the D_XOR build).

    A header word holds a 32-bit size in its low half and one check byte in byte 6.
    Free and quarantined blocks store the two's complement of that word. */
module Checksum {
  import opened Words

  // ---- unsigned 32-bit words and the numbers they stand for ----

  /** The 32-bit word whose value is n. */
  function Bits32(n: nat): (b: bv32)
    requires n < 0x1_0000_0000
    ensures b as int == n
  {
    if n == 0 then 0
    else
      var half := Bits32(n / 2);
      HalfIsSmall(n / 2, half);
      ShiftDoubles(half);
      if n % 2 == 0 then half << 1 else (half << 1) | 1
  }

  lemma HalfIsSmall(n: nat, b: bv32)
    requires b as int == n < 0x8000_0000
    ensures b < 0x8000_0000
  {
  }

  lemma ShiftDoubles(b: bv32)
    requires b < 0x8000_0000
    ensures ((b << 1) | 1) as int == 2 * (b as int) + 1
    ensures (b << 1) as int == 2 * (b as int)
  {
  }

  // ---- what a header word is ----

  /** Byte 6, the byte that holds the check value. */
  function Byte6(x: Word): bv8
  {
    ((x >> 48) & 0xFF) as bv8
  }

  function Up(x: Word): Word
  {
    x << 8
  }

  function Xor8(a: bv8, b: bv8): bv8
  {
    a ^ b
  }

  /** The exclusive or of k bytes of x, from byte 6 downwards. */
  function XorBytes(x: Word, k: nat): bv8
    decreases k
  {
    if k == 0 then 0 else Xor8(Byte6(x), XorBytes(Up(x), k - 1))
  }

  /** A size and a check byte put together. */
  function Join(size: Word, check: bv8): Word
  {
    size | ((check as Word) << 48)
  }

  /** The word for a block of `size` bytes at byte offset `offset`: the size, and in byte 6 the
      exclusive or of the seven low bytes of offset and size. */
  function XorWord(offset: Word, size: bv32): Word
  {
    Join(size as Word, XorBytes(Xor(offset, size as Word), 7))
  }

  function XorGetSize(h: Word): bv32
  {
    ((h & 0xFF00_FFFF_FFFF_FFFF) & 0xFFFF_FFFF) as bv32
  }

  /** The test the allocator makes on a word (negated back first when it was negative). */
  predicate Accepted(offset: Word, w: Word)
  {
    XorWord(offset, XorGetSize(w)) == w
  }

  /** The sign tests on the stored 64-bit word. */
  predicate Positive(w: Word)
  {
    w != 0 && w & 0x8000_0000_0000_0000 == 0
  }

  predicate Negative(w: Word)
  {
    w & 0x8000_0000_0000_0000 != 0
  }

  /** Two's complement. */
  function Neg(w: Word): Word
  {
    -w
  }

  // ---- the loop that computes it ----

  /** The two masks of the loop: byte 6 alone, and the seven low bytes. */
  function Only6(x: Word): Word
  {
    x & 0x00FF_0000_0000_0000
  }

  function Low7(x: Word): Word
  {
    x & 0x00FF_FFFF_FFFF_FFFF
  }

  lemma RoundMovesByte(chk: Word, next: Word)
    ensures Byte6(Xor(chk, Only6(next))) == Xor8(Byte6(chk), Byte6(next))
  {
  }

  lemma XorAssociates(a: bv8, b: bv8, c: bv8)
    ensures Xor8(Xor8(a, b), c) == Xor8(a, Xor8(b, c))
  {
    assert (a ^ b) ^ c == a ^ (b ^ c);
  }

  lemma MaskIsHarmless(x: Word)
    ensures Byte6(Low7(x)) == Byte6(x)
    ensures Up(Low7(x)) == Up(x)
  {
  }

  lemma KeepByte6(size: Word, chk: Word)
    ensures size | Only6(chk) == Join(size, Byte6(chk))
  {
  }

  /** What the loop keeps: byte 6 of `chk` and k more bytes of `next` XOR to the check value. */
  ghost predicate Pending(chk: Word, next: Word, k: nat, check: bv8)
  {
    Xor8(Byte6(chk), XorBytes(next, k)) == check
  }

  lemma RoundKeeps(chk: Word, next: Word, k: nat, check: bv8)
    requires k > 0 && Pending(chk, next, k, check)
    ensures Pending(Xor(chk, Only6(next)), Up(next), k - 1, check)
  {
    hide Byte6, Xor8;
    RoundMovesByte(chk, next);
    XorAssociates(Byte6(chk), Byte6(next), XorBytes(Up(next), k - 1));
  }

  lemma RoundsStart(x: Word)
    ensures Pending(Low7(x), Up(Low7(x)), 6, XorBytes(x, 7))
  {
    hide Byte6, Xor8;
    MaskIsHarmless(x);
  }

  lemma RoundsEnd(chk: Word, next: Word, size: Word, check: bv8)
    requires Pending(chk, next, 0, check)
    ensures size | Only6(chk) == Join(size, check)
  {
    KeepByte6(size, chk);
    XorWithNothing(chk, next, Byte6(chk), 0);
  }

  /** The six rounds add the bytes below byte 6 to it one after the other. */
  method XorCompute(offset: Word, size: bv32) returns (w: Word)
    ensures w == XorWord(offset, size)
  {
    hide Pending, XorBytes, Join, Up, Xor, Only6, Low7;
    ghost var check := XorBytes(Xor(offset, size as Word), 7);
    var chk := Low7(Xor(offset, size as Word));
    var next := Up(chk);
    RoundsStart(Xor(offset, size as Word));
    for i := 0 to 6
      invariant Pending(chk, next, 6 - i, check)
    {
      RoundKeeps(chk, next, 6 - i, check);
      chk := Xor(chk, Only6(next));
      next := Up(next);
    }
    RoundsEnd(chk, next, size as Word, check);
    w := (size as Word) | Only6(chk);
  }

  // ---- round trip ----

  lemma JoinKeeps(s: bv32, c: bv8)
    ensures XorGetSize(Join(s as Word, c)) == s
    ensures s != 0 ==> Positive(Join(s as Word, c))
  {
  }

  lemma NegFlipsSign(w: Word)
    ensures Positive(w) ==> Negative(Neg(w))
  {
  }

  lemma NegNeg(w: Word)
    ensures Neg(Neg(w)) == w
  {
  }

  lemma RoundTrip(offset: Word, size: bv32)
    ensures XorGetSize(XorWord(offset, size)) == size
    ensures Accepted(offset, XorWord(offset, size))
    ensures size != 0 ==> Positive(XorWord(offset, size)) && Negative(Neg(XorWord(offset, size)))
    ensures Neg(Neg(XorWord(offset, size))) == XorWord(offset, size)
  {
    hide Join, XorGetSize, Positive, Negative, Neg, XorBytes, Xor;
    JoinKeeps(size, XorBytes(Xor(offset, size as Word), 7));
    NegFlipsSign(XorWord(offset, size));
    NegNeg(XorWord(offset, size));
  }

  // ---- which corruptions pass the test ----

  /** The bytes of a positive word that carry nothing: 4, 5 and 7. */
  const UNUSED: Word := 0xFF00_FFFF_0000_0000

  lemma ShiftIsLinear(a: Word, b: Word)
    ensures Up(Xor(a, b)) == Xor(Up(a), Up(b))
    ensures Byte6(Xor(a, b)) == Xor8(Byte6(a), Byte6(b))
  {
  }

  lemma XorRegroups(a: bv8, b: bv8, c: bv8, d: bv8)
    ensures Xor8(Xor8(a, b), Xor8(c, d)) == Xor8(Xor8(a, c), Xor8(b, d))
  {
    XorAssociates(a, b, Xor8(c, d));
    XorAssociates(a, c, Xor8(b, d));
    assert b ^ (c ^ d) == c ^ (b ^ d);
  }

  lemma {:induction false} XorBytesLinear(a: Word, b: Word, k: nat)
    ensures XorBytes(Xor(a, b), k) == Xor8(XorBytes(a, k), XorBytes(b, k))
    decreases k
  {
    if k > 0 {
      XorBytesLinear(Up(a), Up(b), k - 1);
      ShiftIsLinear(a, b);
      XorRegroups(Byte6(a), Byte6(b), XorBytes(Up(a), k - 1), XorBytes(Up(b), k - 1));
    }
  }

  lemma {:induction false} XorBytesOfZero(k: nat)
    ensures XorBytes(0, k) == 0
  {
    if k > 0 {
      XorBytesOfZero(k - 1);
    }
  }

  lemma XorBytesOfCheck(c: bv8)
    ensures XorBytes(Join(0, c), 7) == c
  {
    var d := Up(Join(0, c));
    assert Byte6(Join(0, c)) == c;
    assert Byte6(d) == 0 && Up(d) == 0;
    XorBytesOfZero(5);
    assert XorBytes(d, 6) == 0;
  }

  lemma XorSolves(a: bv8, b: bv8, c: bv8)
    ensures Xor8(a, b) == c <==> b == Xor8(c, a)
  {
    assert a ^ b == c ==> b == c ^ a;
    assert b == c ^ a ==> a ^ b == c;
  }

  lemma JoinIsXor(s: bv32, c: bv8)
    ensures Join(s as Word, c) == Xor(s as Word, Join(0, c))
  {
  }

  lemma JoinFits(w: Word, c: bv8)
    ensures Join(XorGetSize(w) as Word, c) == w <==> w & UNUSED == 0 && c == Byte6(w)
  {
    if w & UNUSED == 0 && c == Byte6(w) {
      assert Join(XorGetSize(w) as Word, c) == w;
    }
    if Join(XorGetSize(w) as Word, c) == w {
      assert w & UNUSED == 0;
      assert c == Byte6(w);
    }
  }

  /** The bytes of a word with nothing in the unused ones. */
  lemma XorBytesOfWord(w: Word)
    requires w & UNUSED == 0
    ensures XorBytes(w, 7) == Xor8(XorBytes(XorGetSize(w) as Word, 7), Byte6(w))
  {
    hide Byte6, Up, Xor, Xor8, XorBytes, Join, XorGetSize;
    var s := XorGetSize(w);
    JoinFits(w, Byte6(w));
    JoinIsXor(s, Byte6(w));
    XorBytesOfCheck(Byte6(w));
    XorBytesLinear(s as Word, Join(0, Byte6(w)), 7);
  }

  /** The test read as a parity check: the seven bytes of an accepted word XOR to those of the offset. */
  lemma AcceptedIsParity(offset: Word, w: Word)
    ensures Accepted(offset, w) <==> w & UNUSED == 0 && XorBytes(w, 7) == XorBytes(offset, 7)
  {
    hide Byte6, Up, Xor, Xor8, XorBytes, Join, XorGetSize;
    var s := XorGetSize(w) as Word;
    XorBytesLinear(offset, s, 7);
    JoinFits(w, XorBytes(Xor(offset, s), 7));
    if w & UNUSED == 0 {
      XorBytesOfWord(w);
      XorSolves(XorBytes(s, 7), Byte6(w), XorBytes(offset, 7));
    }
  }

  lemma XorWithNothing(w: Word, e: Word, a: bv8, b: bv8)
    ensures w & UNUSED == 0 ==> Xor(w, e) & UNUSED == e & UNUSED
    ensures Xor8(a, b) == a <==> b == 0
  {
    assert a ^ b == a ==> b == 0;
  }

  /** The test is a linear code: an error pattern goes unnoticed exactly when it leaves the three
      unused bytes zero and its own bytes XOR to zero. */
  lemma UndetectedErrors(offset: Word, w: Word, e: Word)
    requires Accepted(offset, w)
    ensures Accepted(offset, Xor(w, e)) <==> XorBytes(e, 7) == 0 && e & UNUSED == 0
  {
    hide Byte6, Up, Xor, Xor8, XorBytes, Join, XorGetSize;
    AcceptedIsParity(offset, w);
    AcceptedIsParity(offset, Xor(w, e));
    XorBytesLinear(w, e, 7);
    XorWithNothing(w, e, XorBytes(w, 7), XorBytes(e, 7));
  }
}
