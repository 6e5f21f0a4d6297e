/** The wear-levelling clock inside one span of HPNMalloc: a free map, a moving hand and a wear counter,
    from one span_init to the next. */
module SpanClock {
  import opened Basics
  import opened Words
  import opened BitScan

  // ---- the clock on values ----

  datatype Clock = Clock(
    free: set<nat>,  // the free blocks
    hand: nat,       // cur_pos: the search starts at this block
    total: nat,      // total_block_num, also last_pos
    wear: nat)       // wear_count

  ghost predicate Sane(c: Clock)
  {
    0 < c.total <= 64 && c.hand <= c.total && forall b | b in c.free :: b < c.total
  }

  /** The first free block at or after `from`. */
  function FirstFree(free: set<nat>, total: nat, from: nat): (r: Option<nat>)
    ensures r.Some? ==> from <= r.value < total && r.value in free && forall b | from <= b < r.value :: b !in free
    ensures r.None? ==> forall b | from <= b < total :: b !in free
    decreases total - from
  {
    if from >= total then None
    else if from in free then Some(from)
    else FirstFree(free, total, from + 1)
  }

  /** span_clock_allocate: past the last free block the hand goes back to the start, at the price of one
      unit of wear, unless the span has reached the wear threshold. */
  function Allocate(c: Clock, threshold: nat): (r: (Clock, Option<nat>))
  {
    match FirstFree(c.free, c.total, c.hand)
    case Some(b) => (c.(free := c.free - {b}, hand := b + 1), Some(b))
    case None =>
      if c.wear + 1 >= threshold then (c.(wear := c.wear + 1), None)
      else
        match FirstFree(c.free, c.total, 0)
        case Some(b) => (c.(free := c.free - {b}, hand := b + 1, wear := c.wear + 1), Some(b))
        case None => (c.(wear := c.wear + 1), None)
  }

  // ---- runs within one epoch ----

  datatype Op = Take(threshold: nat) | Give(block: nat)

  /** Blocks are requested only while one is free, only blocks handed out come back, and the span is not
      free altogether: that would end the epoch. */
  predicate Enabled(c: Clock, op: Op)
  {
    match op
    case Take(_) => c.free != {}
    case Give(b) => b < c.total && b !in c.free && |c.free| + 1 < c.total
  }

  function Step(c: Clock, op: Op): Clock
  {
    match op
    case Take(threshold) => Allocate(c, threshold).0
    case Give(b) => c.(free := c.free + {b})
  }

  /** The block a step hands out, if any. */
  function Handed(c: Clock, op: Op): Option<nat>
  {
    match op
    case Take(threshold) => Allocate(c, threshold).1
    case Give(_) => None
  }

  ghost predicate Legal(c: Clock, ops: seq<Op>)
    decreases |ops|
  {
    ops == [] || (Enabled(c, ops[0]) && Legal(Step(c, ops[0]), ops[1..]))
  }

  /** All the blocks handed out, in order. */
  function HandedOut(c: Clock, ops: seq<Op>): seq<nat>
    decreases |ops|
  {
    if ops == [] then []
    else
      var rest := HandedOut(Step(c, ops[0]), ops[1..]);
      match Handed(c, ops[0])
      case Some(b) => [b] + rest
      case None => rest
  }

  function Run(c: Clock, ops: seq<Op>): Clock
    decreases |ops|
  {
    if ops == [] then c else Run(Step(c, ops[0]), ops[1..])
  }

  lemma StepSane(c: Clock, op: Op)
    requires Sane(c) && Enabled(c, op)
    ensures Sane(Step(c, op)) && Step(c, op).total == c.total
  {
  }

  /** A request is refused only at the wear threshold, and then the free blocks and the hand stay. */
  lemma RefusedOnlyAtThreshold(c: Clock, threshold: nat)
    requires Sane(c) && c.free != {}
    ensures var (r, b) := Allocate(c, threshold);
      && (b.None? <==> c.wear + 1 >= threshold && forall x | x in c.free :: x < c.hand)
      && (b.None? ==> r == c.(wear := c.wear + 1))
      && (b.Some? ==> b.value in c.free && r.free == c.free - {b.value} && r.hand == b.value + 1)
  {
    var x :| x in c.free;
  }

  /** A free block at or after the hand. */
  ghost predicate Ahead(c: Clock)
  {
    exists x :: x in c.free && c.hand <= x
  }

  ghost predicate LeastFrom(free: set<nat>, from: nat, b: nat)
  {
    b in free && from <= b && forall x | x in free && from <= x :: b <= x
  }

  /** A request with a free block at or after the hand gets the first such block and costs no wear. Any
      other costs one unit, and gets the first free block of all unless the threshold is reached. The hand
      then stands right behind the block. */
  lemma WhatARequestGets(c: Clock, threshold: nat)
    requires Sane(c) && c.free != {}
    ensures var (r, b) := Allocate(c, threshold);
      && r.total == c.total && r.wear == c.wear + (if Ahead(c) then 0 else 1)
      && (if Ahead(c) then b.Some? && LeastFrom(c.free, c.hand, b.value)
          else if c.wear + 1 < threshold then b.Some? && LeastFrom(c.free, 0, b.value)
          else b.None?)
      && (if b.Some? then r.free == c.free - {b.value} && r.hand == b.value + 1
          else r.free == c.free && r.hand == c.hand)
  {
    var x :| x in c.free;
    var (r, b) := Allocate(c, threshold);
    if Ahead(c) {
      var y :| y in c.free && c.hand <= y;
    } else {
      assert forall y | y in c.free :: y < c.hand;
    }
  }

  /** The requests of a run that were made with no free block at or after the hand. */
  ghost function Wraps(c: Clock, ops: seq<Op>): nat
    decreases |ops|
  {
    if ops == [] then 0
    else (if ops[0].Take? && !Ahead(c) then 1 else 0) + Wraps(Step(c, ops[0]), ops[1..])
  }

  /** Over every run the wear counter grows by just the number of those requests. */
  lemma {:induction false} WearCountsWraps(c: Clock, ops: seq<Op>)
    requires Sane(c) && Legal(c, ops)
    ensures Run(c, ops).wear == c.wear + Wraps(c, ops)
    decreases |ops|
  {
    hide Allocate, Ahead;
    if ops != [] {
      StepSane(c, ops[0]);
      if ops[0].Take? {
        WhatARequestGets(c, ops[0].threshold);
      }
      WearCountsWraps(Step(c, ops[0]), ops[1..]);
    }
  }

  // ---- fairness ----

  /** Since block b was handed out, x has been waiting: it is free, and the hand has yet to come to it
      before it can come to b again. */
  ghost predicate Waiting(c: Clock, b: nat, x: nat)
  {
    x in c.free && x != b && if c.hand > b then x > b ==> c.hand <= x else x < b && c.hand <= x
  }

  lemma WaitingStep(c: Clock, op: Op, b: nat, x: nat)
    requires Sane(c) && Enabled(c, op) && Waiting(c, b, x)
    ensures Handed(c, op) == Some(x) || (Waiting(Step(c, op), b, x) && Handed(c, op) != Some(b))
  {
  }

  lemma {:induction false} WaitingRun(c: Clock, ops: seq<Op>, b: nat, x: nat)
    requires Sane(c) && Legal(c, ops) && Waiting(c, b, x)
    ensures x in HandedOut(c, ops) || b !in HandedOut(c, ops)
    decreases |ops|
  {
    if ops != [] {
      WaitingStep(c, ops[0], b, x);
      if Handed(c, ops[0]) != Some(x) {
        StepSane(c, ops[0]);
        WaitingRun(Step(c, ops[0]), ops[1..], b, x);
      }
    }
  }

  /** Fairness: after b is handed out, it is not handed out again before every other block that was free
      at that moment has had its turn, for any interleaving of requests, frees and refusals. */
  lemma Fairness(c: Clock, threshold: nat, ops: seq<Op>, x: nat)
    requires Sane(c) && c.free != {}
    requires var (r, b) := Allocate(c, threshold);
      b.Some? && x in c.free && x != b.value && Legal(r, ops) && x !in HandedOut(r, ops)
    ensures var (r, b) := Allocate(c, threshold); b.value !in HandedOut(r, ops)
  {
    var (r, b) := Allocate(c, threshold);
    RefusedOnlyAtThreshold(c, threshold);
    assert Waiting(r, b.value, x);
    StepSane(c, Take(threshold));
    WaitingRun(r, ops, b.value, x);
  }

  // ---- the wear counter ----

  function Count(s: seq<nat>, b: nat): nat
  {
    if s == [] then 0 else (if s[0] == b then 1 else 0) + Count(s[1..], b)
  }

  /** The turn that block b may still have before the hand wraps. */
  function Passed(c: Clock, b: nat): nat
  {
    if b < c.hand then 1 else 0
  }

  lemma WearStep(c: Clock, op: Op, b: nat)
    requires Sane(c) && Enabled(c, op)
    ensures var r := Step(c, op);
      (if Handed(c, op) == Some(b) then 1 else 0) + Passed(c, b) + c.wear <= r.wear + Passed(r, b)
  {
  }

  lemma {:induction false} WearRun(c: Clock, ops: seq<Op>, b: nat)
    requires Sane(c) && Legal(c, ops)
    ensures Count(HandedOut(c, ops), b) + Passed(c, b) + c.wear <= Run(c, ops).wear + Passed(Run(c, ops), b)
    decreases |ops|
  {
    if ops != [] {
      StepSane(c, ops[0]);
      WearStep(c, ops[0], b);
      WearRun(Step(c, ops[0]), ops[1..], b);
    }
  }

  /** span_init */
  function Fresh(total: nat, wear: nat): Clock
  {
    Clock(UpTo(total), 0, total, wear)
  }

  /** Since span_init a block has been handed out at most once more than the wear counter has grown. */
  lemma WearBoundsHandOuts(total: nat, wear: nat, ops: seq<Op>, b: nat)
    requires 0 < total <= 64 && Legal(Fresh(total, wear), ops)
    ensures Count(HandedOut(Fresh(total, wear), ops), b) <= Run(Fresh(total, wear), ops).wear - wear + 1
  {
    WearRun(Fresh(total, wear), ops, b);
  }

  function Takes(n: nat, threshold: nat): (ops: seq<Op>)
    ensures |ops| == n
  {
    if n == 0 then [] else [Take(threshold)] + Takes(n - 1, threshold)
  }

  /** The n numbers from k on. */
  function From(k: nat, n: nat): (s: seq<nat>)
    ensures |s| == n && forall i | 0 <= i < n :: s[i] == k + i
    decreases n
  {
    if n == 0 then [] else [k] + From(k + 1, n - 1)
  }

  /** A span just set up hands out its blocks from the first to the last, without wear. */
  lemma FirstRound(total: nat, wear: nat, threshold: nat, n: nat)
    requires 0 < total <= 64 && n <= total
    ensures var c := Fresh(total, wear);
      && Legal(c, Takes(n, threshold)) && HandedOut(c, Takes(n, threshold)) == From(0, n)
      && Run(c, Takes(n, threshold)).wear == wear && Run(c, Takes(n, threshold)).hand == n
  {
    RoundFrom(Fresh(total, wear), threshold, n);
  }

  lemma {:induction false} RoundFrom(c: Clock, threshold: nat, n: nat)
    requires Sane(c) && c.hand + n <= c.total && forall b | c.hand <= b < c.total :: b in c.free
    ensures Legal(c, Takes(n, threshold)) && HandedOut(c, Takes(n, threshold)) == From(c.hand, n)
    ensures Run(c, Takes(n, threshold)).wear == c.wear && Run(c, Takes(n, threshold)).hand == c.hand + n
    decreases n
  {
    hide Allocate;
    if n > 0 {
      assert c.hand in c.free;
      WhatARequestGets(c, threshold);
      StepSane(c, Take(threshold));
      RoundFrom(Allocate(c, threshold).0, threshold, n - 1);
      assert Takes(n, threshold)[1..] == Takes(n - 1, threshold);
    }
  }

  // ---- where the blocks lie ----

  /** The size of a block of a category, and how many fit in a page. */
  function BlockSize(category: nat): (size: nat)
    ensures size >= 64
  {
    (category + 1) * 64
  }

  function BlocksPerPage(category: nat): nat
    requires category < 64
  {
    4096 / ((category + 1) * 64)
  }

  lemma Quotient(a: nat, b: nat)
    requires b > 0
    ensures b * (a / b) <= a < b * (a / b) + b
  {
    assert a == b * (a / b) + a % b;
  }

  lemma PageHolds(category: nat)
    requires category < 64
    ensures 0 < BlocksPerPage(category) <= 64
    ensures BlockSize(category) * BlocksPerPage(category) <= 4096 < BlockSize(category) * (BlocksPerPage(category) + 1)
  {
    Quotient(4096, BlockSize(category));
  }

  /** Every block lies wholly inside the page. */
  lemma BlocksFit(category: nat, k: nat)
    requires category < 64 && k < BlocksPerPage(category)
    ensures k * BlockSize(category) + BlockSize(category) <= 4096
  {
    hide BlocksPerPage;
    PageHolds(category);
    Scaled(k + 1, BlocksPerPage(category), BlockSize(category));
  }

  lemma NoRoomForMore(size: int, d: int)
    requires 0 < size && 0 <= size * d < size
    ensures d == 0
  {
    assert d >= 1 ==> size * d >= size;
    assert d <= -1 ==> size * d <= -size;
  }

  /** Dividing the offset of a block by the block size gives its number back. */
  lemma IndexRecovered(k: nat, size: nat)
    requires size > 0
    ensures k * size / size == k
  {
    var q := k * size / size;
    Quotient(k * size, size);
    NoRoomForMore(size, k - q);
  }

  lemma FreshMap(total: nat)
    requires 0 < total <= 64
    ensures Bits(Shr(MASK, 64 - total)) == UpTo(total)
  {
    hide Shr, Bit;
    var w := Shr(MASK, 64 - total);
    FullMap(total, w);
    assert Bits(w) == UpTo(total);
  }

  // ---- the span itself ----

  class Span {
    var bitmap: Word
    var curPos: nat
    var lastPos: nat
    var totalBlockNum: nat
    var freeBlockNum: nat
    var wearCount: nat
    var spanCategory: nat
    var freeStart: nat

    ghost function Abs(): Clock
      reads this
    {
      Clock(Bits(bitmap), curPos, totalBlockNum, wearCount)
    }

    ghost predicate Valid()
      reads this
    {
      && Sane(Abs()) && spanCategory < 64
      && totalBlockNum == lastPos == BlocksPerPage(spanCategory)
      && freeBlockNum == |Bits(bitmap)|
    }

    /** The address of block k. */
    function Address(k: nat): nat
      reads this
    {
      freeStart + k * BlockSize(spanCategory)
    }

    /** span_init for a span of small blocks; the wear counter stays as it is. */
    method Init(index: nat, freeStart: nat)
      requires index < 64
      modifies this
      ensures Valid() && Abs() == Fresh(BlocksPerPage(index), old(wearCount))
      ensures spanCategory == index && this.freeStart == freeStart && freeBlockNum == totalBlockNum
      ensures curPos == 0 && wearCount == old(wearCount) && forall b: nat :: b in Bits(bitmap) <==> b < totalBlockNum
      ensures (index + 1) * 64 * totalBlockNum <= 4096 < (index + 1) * 64 * (totalBlockNum + 1)
    {
      hide Shr, Bits, BlocksPerPage, UpTo;
      PageHolds(index);
      spanCategory := index;
      totalBlockNum := BlocksPerPage(index);
      freeBlockNum := totalBlockNum;
      curPos := 0;
      lastPos := totalBlockNum;
      bitmap := Shr(MASK, 64 - totalBlockNum);
      this.freeStart := freeStart;
      FreshMap(totalBlockNum);
    }

    /** The search of span_clock_allocate: the first free block at or after `from`, by mask, isolation of
        the lowest bit and table lookup; counted from one. */
    method Lookup(from: nat) returns (pos: nat)
      requires from < 64 && exists b :: b in Bits(bitmap) && from <= b
      ensures 0 < pos <= 64 && pos - 1 in Bits(bitmap) && from <= pos - 1
      ensures forall b | b in Bits(bitmap) && from <= b :: pos - 1 <= b
    {
      hide And, Not, Inc, Shl, LowHalf, HighHalf, Low1Bit;
      var flag := Shl(MASK, from);
      var masked := And(bitmap, flag);
      MaskBits(bitmap, from);
      ghost var some :| some in Bits(bitmap) && from <= some;
      assert some in Bits(masked);
      ghost var b := LeastOf(masked);
      assert b in Bits(masked);
      forall c | c in Bits(bitmap) && from <= c
        ensures b <= c
      {
        assert c in Bits(masked);
      }
      LookupFindsLowest(masked, b);
      var low := And(masked, Inc(Not(masked)));
      if LowHalf(low) != 0 {
        pos := Low1Bit(LowHalf(low));
      } else {
        pos := Low1Bit(HighHalf(low)) + 32;
      }
    }

    /** The part of span_clock_allocate that hands out the first free block from `from` on. */
    method HandOut(from: nat) returns (k: nat)
      requires Sane(Abs()) && from < 64 && exists b :: b in Bits(bitmap) && from <= b
      modifies this`bitmap, this`curPos
      ensures k < totalBlockNum && FirstFree(old(Bits(bitmap)), totalBlockNum, from) == Some(k)
      ensures Bits(bitmap) == old(Bits(bitmap)) - {k} && curPos == k + 1
    {
      hide And, Not, Shl, One, Bits, FirstFree;
      var pos := Lookup(from);
      FirstFreeIs(Bits(bitmap), totalBlockNum, from, pos - 1);
      curPos := pos;
      ClearBits(bitmap, pos - 1);
      bitmap := And(bitmap, Not(One(pos - 1)));
      k := pos - 1;
    }

    /** span_clock_allocate: NULL when the wear threshold refuses the request, else the address of the block. */
    method ClockAllocate(threshold: nat) returns (addr: Option<nat>)
      requires Sane(Abs()) && lastPos == totalBlockNum && Bits(bitmap) != {}
      modifies this`bitmap, this`curPos, this`wearCount
      ensures Abs() == Allocate(old(Abs()), threshold).0
      ensures addr == AddressOf(Allocate(old(Abs()), threshold).1)
      ensures addr.Some? ==> addr.value == freeStart + Allocate(old(Abs()), threshold).1.value * ((spanCategory + 1) * 64)
    {
      hide And, Shl, Bits, FirstFree;
      var cur := curPos;
      if cur == lastPos || And(bitmap, Shl(MASK, cur)) == 0 {
        NothingFrom(bitmap, cur, lastPos);
        wearCount := wearCount + 1;
        if wearCount >= threshold {
          return None;
        }
        cur := 0;
        ghost var some :| some in Bits(bitmap);
      } else {
        SomethingFrom(bitmap, cur);
      }
      var k := HandOut(cur);
      addr := Some(Address(k));
    }

    function AddressOf(k: Option<nat>): Option<nat>
      reads this
    {
      match k case Some(b) => Some(Address(b)) case None => None
    }

    /** The part of small_malloc that serves a request from this span. */
    method Malloc(threshold: nat) returns (addr: Option<nat>)
      requires Valid() && freeBlockNum > 0
      modifies this`bitmap, this`curPos, this`wearCount, this`freeBlockNum
      ensures Valid() && Abs() == Step(old(Abs()), Take(threshold))
      ensures addr == AddressOf(Handed(old(Abs()), Take(threshold)))
      ensures addr.Some? ==> freeStart <= addr.value && addr.value + BlockSize(spanCategory) <= freeStart + 4096
    {
      hide Bits, Allocate, BlockSize, BlocksPerPage;
      ghost var c := Abs();
      assert c.free != {};
      StepSane(c, Take(threshold));
      RefusedOnlyAtThreshold(c, threshold);
      addr := ClockAllocate(threshold);
      if addr != None {
        freeBlockNum := freeBlockNum - 1;
        BlocksFit(spanCategory, Allocate(c, threshold).1.value);
      }
    }

    /** small_free of block k. When the last block comes back the span leaves for another list, to be set up
        anew before its next use; its map is not touched then. */
    method Free(ptr: nat, ghost k: nat) returns (leaves: bool)
      requires Valid() && k < totalBlockNum && k !in Bits(bitmap) && ptr == Address(k)
      modifies this`bitmap, this`freeBlockNum
      ensures leaves <==> |old(Bits(bitmap))| + 1 == totalBlockNum
      ensures freeBlockNum == old(freeBlockNum) + 1
      ensures !leaves ==> Valid() && Enabled(old(Abs()), Give(k)) && Abs() == Step(old(Abs()), Give(k))
      ensures leaves ==> Abs() == old(Abs())
    {
      hide Bits, BlockSize, BlocksPerPage, Or, One;
      PageHolds(spanCategory);
      IndexRecovered(k, BlockSize(spanCategory));
      SetBits(bitmap, k);
      AtMost(Bits(bitmap) + {k}, totalBlockNum);
      freeBlockNum := freeBlockNum + 1;
      leaves := freeBlockNum == totalBlockNum;
      if !leaves {
        var index := (ptr - freeStart) / BlockSize(spanCategory) + 1;
        bitmap := Or(bitmap, One(index - 1));
      }
    }
  }

  lemma AtMost(s: set<nat>, n: nat)
    requires forall b | b in s :: b < n
    ensures |s| <= n
  {
    assert s <= UpTo(n);
    SubsetIsSmaller(s, UpTo(n));
  }

  lemma {:induction false} SubsetIsSmaller(s: set<nat>, t: set<nat>)
    requires s <= t
    ensures |s| <= |t|
    decreases |s|
  {
    if s != {} {
      var b :| b in s;
      SubsetIsSmaller(s - {b}, t - {b});
    }
  }

  lemma FirstFreeIs(free: set<nat>, total: nat, from: nat, b: nat)
    requires b in free && from <= b < total && forall c | c in free && from <= c :: b <= c
    ensures FirstFree(free, total, from) == Some(b)
  {
  }

  lemma NothingFrom(w: Word, from: nat, total: nat)
    requires from == total || And(w, Shl(MASK, from)) == 0
    requires forall b | b in Bits(w) :: b < total
    ensures FirstFree(Bits(w), total, from) == None
  {
    hide And, Shl;
    MaskBits(w, from);
    if And(w, Shl(MASK, from)) == 0 {
      ZeroHasNoBits();
      assert forall b | b in Bits(w) && b >= from :: b in Bits(And(w, Shl(MASK, from)));
    }
  }

  lemma ZeroHasNoBits()
    ensures Bits(0) == {}
  {
    assert forall m: Word :: And(0, m) == 0;
  }

  lemma SomethingFrom(w: Word, from: nat)
    requires And(w, Shl(MASK, from)) != 0
    ensures exists b :: b in Bits(w) && from <= b
  {
    hide And, Shl;
    MaskBits(w, from);
    var masked := And(w, Shl(MASK, from));
    if Bits(masked) == {} {
      NoBitsIsZero(masked);
    }
    var b :| b in Bits(masked);
    assert b in Bits(w) && from <= b;
  }

  lemma LeastOf(w: Word) returns (b: nat)
    requires Bits(w) != {}
    ensures IsLowest(w, b)
  {
    hide And, One;
    var c: nat :| c in Bits(w);
    b := 0;
    while !Bit(w, b)
      invariant b <= c && forall j: nat | j < b :: !Bit(w, j)
      decreases c - b
    {
      b := b + 1;
    }
  }
}
