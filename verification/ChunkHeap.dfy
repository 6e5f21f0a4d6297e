/** The chunk heap of TCNVMalloc, for one thread: chunks of equal blocks, one foreground chunk per size
    class, background lists, and a free list.

    A chunk is known by its number in the order the chunks were carved from the global pool. */
module ChunkHeap {
  import opened Basics

  const CLASSES := 48

  /** NAVA is left out: the test that would lead to it never succeeds. */
  datatype State = FORG | BACK | FULL

  datatype Chunk = Chunk(
    state: State,
    sizeCls: nat,
    blkCnt: nat,
    freeMemCnt: nat,   // the blocks not handed out yet lie at the end
    freeTotCnt: nat,
    dlist: seq<nat>,   // the recycled blocks, the next to leave last
    wearCount: nat)

  // ---- size classes ----

  /** cls2size, as maps_init fills it in for the 47 classes in use. */
  function ClassSize(cls: nat): (size: nat)
    requires cls < 47
    ensures size > 0
  {
    if cls <= 30 then 16 + 8 * cls
    else
      var base := 256 * Pow2((cls - 31) / 2);
      if (cls - 31) % 2 == 0 then base + base / 2 else 2 * base
  }

  lemma ClassSizeBounded(cls: nat)
    requires cls < 47
    ensures 16 <= ClassSize(cls) <= 65536
  {
    if cls > 30 {
      Pow2Grows((cls - 31) / 2, 7);
      assert Pow2(7) == 128;
    }
  }

  /** The number of blocks of a class in the 16 pages of a chunk. */
  function BlocksOf(cls: nat): (n: nat)
    requires cls < 47
    ensures n > 0
  {
    ClassSizeBounded(cls);
    AtLeastOne(65536, ClassSize(cls));
    65536 / ClassSize(cls)
  }

  /** As many blocks as fit, and no more. */
  lemma ChunkHolds(cls: nat)
    requires cls < 47
    ensures BlocksOf(cls) * ClassSize(cls) <= 65536 < (BlocksOf(cls) + 1) * ClassSize(cls)
  {
    hide ClassSize;
    var size := ClassSize(cls);
    assert 65536 == size * (65536 / size) + 65536 % size;
    assert (BlocksOf(cls) + 1) * size == BlocksOf(cls) * size + size;
  }

  lemma AtLeastOne(a: nat, b: nat)
    requires 0 < b <= a
    ensures a / b >= 1
  {
    assert a == b * (a / b) + a % b;
  }

  // ---- one chunk ----

  /** The counters agree with each other: every block is either in the untouched part, recycled or live. */
  ghost predicate ChunkOk(ch: Chunk)
  {
    && ch.sizeCls < 47 && ch.blkCnt == BlocksOf(ch.sizeCls) && ch.freeMemCnt <= ch.blkCnt
    && ch.freeTotCnt == ch.freeMemCnt + |ch.dlist|
    && NoDup(ch.dlist) && forall k | k in ch.dlist :: k < ch.blkCnt - ch.freeMemCnt
  }

  /** The blocks in use. */
  function LiveBlocks(ch: Chunk): (live: set<nat>)
    ensures forall k: nat :: k in live <==> k < ch.blkCnt - ch.freeMemCnt && k !in ch.dlist
  {
    UpTo(if ch.freeMemCnt <= ch.blkCnt then ch.blkCnt - ch.freeMemCnt else 0) - Members(ch.dlist)
  }

  function Members(s: seq<nat>): (r: set<nat>)
    ensures forall k: nat :: k in r <==> k in s
  {
    set k | k in s
  }

  lemma {:induction false} NoDupSize(s: seq<nat>)
    requires NoDup(s)
    ensures |Members(s)| == |s|
    decreases |s|
  {
    if s != [] {
      NoDupSize(s[1..]);
      assert s == [s[0]] + s[1..];
      assert s[0] !in s[1..];
      assert Members(s) == {s[0]} + Members(s[1..]);
    }
  }

  /** Live and free blocks together are all the blocks of the chunk. */
  lemma LiveAndFree(ch: Chunk)
    requires ChunkOk(ch)
    ensures |LiveBlocks(ch)| + ch.freeTotCnt == ch.blkCnt
  {
    hide BlocksOf, NoDup;
    NoDupSize(ch.dlist);
    Complement(ch.blkCnt - ch.freeMemCnt, Members(ch.dlist));
  }

  lemma Complement(n: nat, s: set<nat>)
    requires forall k | k in s :: k < n
    ensures |UpTo(n) - s| == n - |s|
  {
    var all := UpTo(n);
    assert s <= all;
    assert all == (all - s) + s;
    assert |all| == |all - s| + |s|;
  }

  /** chunk_init */
  function Fresh(cls: nat): (ch: Chunk)
    requires cls < 47
  {
    Chunk(FORG, cls, BlocksOf(cls), BlocksOf(cls), BlocksOf(cls), [], 0)
  }

  /** chunk_alloc_obj, and the count small_malloc takes off: the untouched part first, then the block that
      was freed the longest time ago. */
  function TakeBlock(ch: Chunk): (r: (Chunk, nat))
    requires ChunkOk(ch) && ch.freeTotCnt > 0
  {
    if ch.freeMemCnt > 0 then
      (ch.(freeMemCnt := ch.freeMemCnt - 1, freeTotCnt := ch.freeTotCnt - 1), ch.blkCnt - ch.freeMemCnt)
    else
      (ch.(dlist := ch.dlist[..|ch.dlist| - 1], freeTotCnt := ch.freeTotCnt - 1), ch.dlist[|ch.dlist| - 1])
  }

  /** The first two lines of chunk_free_small. */
  function PutBlock(ch: Chunk, k: nat): Chunk
  {
    ch.(dlist := [k] + ch.dlist, freeTotCnt := ch.freeTotCnt + 1)
  }

  lemma TakeBlockKeeps(ch: Chunk)
    requires ChunkOk(ch) && ch.freeTotCnt > 0
    ensures var (r, k) := TakeBlock(ch);
      ChunkOk(r) && k < ch.blkCnt && k !in LiveBlocks(ch) && LiveBlocks(r) == LiveBlocks(ch) + {k}
  {
    hide BlocksOf, UpTo;
    if ch.freeMemCnt == 0 {
      TakeRecycled(ch);
    } else {
      var (r, k) := TakeBlock(ch);
      SameMembers(LiveBlocks(r), LiveBlocks(ch) + {k});
    }
  }

  lemma TakeRecycled(ch: Chunk)
    requires ChunkOk(ch) && ch.freeMemCnt == 0 && ch.dlist != []
    ensures var (r, k) := TakeBlock(ch);
      ChunkOk(r) && k < ch.blkCnt && k !in LiveBlocks(ch) && LiveBlocks(r) == LiveBlocks(ch) + {k}
  {
    hide BlocksOf, UpTo;
    var (r, k) := TakeBlock(ch);
    assert ch.dlist == r.dlist + [k];
    assert k in ch.dlist && k !in r.dlist;
    assert forall b | b in r.dlist :: b in ch.dlist;
    SameMembers(LiveBlocks(r), LiveBlocks(ch) + {k});
  }

  lemma SameMembers(s: set<nat>, t: set<nat>)
    requires forall k: nat :: k in s <==> k in t
    ensures s == t
  {
  }

  // ---- a chunk is a first-in first-out queue of blocks ----

  function UpFrom(a: nat, b: nat): (r: seq<nat>)
    requires a <= b
    ensures |r| == b - a && forall j | 0 <= j < |r| :: r[j] == a + j
  {
    seq(b - a, j requires 0 <= j => a + j)
  }

  function Reversed(s: seq<nat>): (r: seq<nat>)
    ensures |r| == |s| && forall j | 0 <= j < |s| :: r[j] == s[|s| - 1 - j]
  {
    if s == [] then [] else Reversed(s[1..]) + [s[0]]
  }

  /** The free blocks in the order in which they will leave. */
  ghost function FreeQueue(ch: Chunk): (q: seq<nat>)
    requires ChunkOk(ch)
  {
    UpFrom(ch.blkCnt - ch.freeMemCnt, ch.blkCnt) + Reversed(ch.dlist)
  }

  lemma ReversedEnds(s: seq<nat>, x: nat)
    ensures Reversed([x] + s) == Reversed(s) + [x] && Reversed(s + [x]) == [x] + Reversed(s)
  {
  }

  lemma UpFromSteps(a: nat, b: nat)
    requires a < b
    ensures UpFrom(a, b) == [a] + UpFrom(a + 1, b)
  {
  }

  /** The untouched part, then the recycled blocks, longest free first: a block that comes back is handed
      out again only after every block that was free at that moment. */
  lemma ChunkIsQueue(ch: Chunk, k: nat)
    requires ChunkOk(ch)
    ensures |FreeQueue(ch)| == ch.freeTotCnt
    ensures ch.freeTotCnt > 0 ==> ChunkOk(TakeBlock(ch).0)
    ensures ch.freeTotCnt > 0 ==> FreeQueue(ch) == [TakeBlock(ch).1] + FreeQueue(TakeBlock(ch).0)
    ensures k in LiveBlocks(ch) ==> ChunkOk(PutBlock(ch, k)) && FreeQueue(PutBlock(ch, k)) == FreeQueue(ch) + [k]
  {
    hide BlocksOf, UpTo, UpFrom, Reversed, LiveBlocks, NoDup;
    if ch.freeTotCnt > 0 {
      QueueLosesHead(ch);
    }
    if k in LiveBlocks(ch) {
      PutBlockKeeps(ch, k);
      ReversedEnds(ch.dlist, k);
    }
  }

  lemma QueueLosesHead(ch: Chunk)
    requires ChunkOk(ch) && ch.freeTotCnt > 0
    ensures ChunkOk(TakeBlock(ch).0) && FreeQueue(ch) == [TakeBlock(ch).1] + FreeQueue(TakeBlock(ch).0)
  {
    hide BlocksOf, UpTo, UpFrom, Reversed, LiveBlocks, NoDup;
    TakeBlockKeeps(ch);
    if ch.freeMemCnt > 0 {
      UpFromSteps(ch.blkCnt - ch.freeMemCnt, ch.blkCnt);
    } else {
      var d := TakeBlock(ch).0.dlist;
      assert ch.dlist == d + [TakeBlock(ch).1];
      ReversedEnds(d, TakeBlock(ch).1);
    }
  }

  lemma PutBlockKeeps(ch: Chunk, k: nat)
    requires ChunkOk(ch) && k in LiveBlocks(ch)
    ensures var r := PutBlock(ch, k); ChunkOk(r) && LiveBlocks(r) == LiveBlocks(ch) - {k}
    ensures ch.freeTotCnt < ch.blkCnt
  {
    hide BlocksOf, UpTo;
    LiveAndFree(ch);
    var r := PutBlock(ch, k);
    SameMembers(LiveBlocks(r), LiveBlocks(ch) - {k});
  }

  // ---- the local heap ----

  const DUMMY: int := -1

  datatype LHeap = LHeap(
    chunks: seq<Chunk>,
    fore: seq<int>,          // a chunk, or DUMMY
    back: seq<seq<nat>>,
    free: seq<nat>)

  ghost predicate Shape(h: LHeap)
  {
    && |h.fore| == CLASSES && |h.back| == CLASSES
    && forall i | 0 <= i < |h.chunks| :: ChunkOk(h.chunks[i])
  }

  ghost predicate InSlot(h: LHeap, i: int, s: int)
    requires |h.fore| == CLASSES
  {
    0 <= s < CLASSES && h.fore[s] == i
  }

  /** Every slot but `open` holds the dummy or a chunk of its own that has a free block. */
  ghost predicate SlotsOk(h: LHeap, open: int)
    requires Shape(h)
  {
    && (forall s | 0 <= s < CLASSES && s != open && h.fore[s] != DUMMY ::
          0 <= h.fore[s] < |h.chunks| && h.chunks[h.fore[s]].state == FORG)
    && (forall s, t | 0 <= s < t < CLASSES && s != open && t != open && h.fore[s] != DUMMY :: h.fore[s] != h.fore[t])
    && (forall i | 0 <= i < |h.chunks| && h.chunks[i].state == FORG :: exists s :: InSlot(h, i, s) && s != open)
  }

  /** The background lists hold chunks of their own class, the free list chunks without live blocks. */
  ghost predicate ListsOk(h: LHeap)
    requires Shape(h)
  {
    && (forall c, i {:trigger i in h.back[c]} | 0 <= c < CLASSES && i in h.back[c] ::
          i < |h.chunks| && h.chunks[i].state == BACK && h.chunks[i].sizeCls == c && i !in h.free)
    && (forall i | i in h.free :: i < |h.chunks| && h.chunks[i].state == BACK && h.chunks[i].freeTotCnt == h.chunks[i].blkCnt)
    && (forall c | 0 <= c < CLASSES :: NoDup(h.back[c])) && NoDup(h.free)
    && (forall i: nat | i < |h.chunks| && h.chunks[i].state == BACK :: i in h.back[h.chunks[i].sizeCls] || i in h.free)
  }

  ghost predicate Held(h: LHeap, open: int)
  {
    && Shape(h) && SlotsOk(h, open) && ListsOk(h)
    && forall i | 0 <= i < |h.chunks| :: h.chunks[i].state == FULL <==> h.chunks[i].freeTotCnt == 0
  }

  ghost predicate Inv(h: LHeap)
  {
    Held(h, -1)
  }

  datatype Home = Slot(s: nat) | Background(c: nat) | Spare

  /** Every place a chunk is reached from. */
  ghost function Homes(h: LHeap, i: nat): (r: set<Home>)
    requires Shape(h)
  {
    (set s | 0 <= s < CLASSES && h.fore[s] == i :: Slot(s)) + (set c | 0 <= c < CLASSES && i in h.back[c] :: Background(c))
    + (if i in h.free then {Spare} else {})
  }

  /** A chunk is in one place only: a foreground slot, the background list of its own class or the free list;
      or nowhere, exactly when all its blocks are in use. */
  lemma OneHome(h: LHeap, i: nat)
    requires Inv(h) && i < |h.chunks|
    ensures h.chunks[i].state == FORG ==> exists s: nat :: Homes(h, i) == {Slot(s)}
    ensures h.chunks[i].state == BACK ==> Homes(h, i) == {Background(h.chunks[i].sizeCls)} || Homes(h, i) == {Spare}
    ensures Homes(h, i) == {} <==> h.chunks[i].freeTotCnt == 0
  {
    hide ChunkOk;
    if h.chunks[i].state == FORG {
      var s: nat :| InSlot(h, i, s);
      assert Homes(h, i) == {Slot(s)};
    } else if h.chunks[i].state == BACK {
      assert h.chunks[i].sizeCls < CLASSES by { Classes(h); }
      assert i in h.free ==> Homes(h, i) == {Spare};
      assert i !in h.free ==> Homes(h, i) == {Background(h.chunks[i].sizeCls)};
    } else {
      assert Homes(h, i) == {};
    }
  }

  lemma Classes(h: LHeap)
    requires Shape(h)
    ensures forall i | 0 <= i < |h.chunks| :: h.chunks[i].sizeCls < 47
  {
  }

  /** lheap_replace_foreground. A chunk taken from the free list is not initialised again. */
  function Replace(h: LHeap, s: nat): LHeap
    requires Held(h, s) && s < 47
  {
    if h.back[s] != [] then
      assert h.back[s][0] in h.back[s];
      Promote(h.(back := h.back[s := h.back[s][1..]]), s, h.back[s][0])
    else if h.free != [] then
      assert h.free[0] in h.free;
      Promote(h.(free := h.free[1..]), s, h.free[0])
    else
      h.(chunks := h.chunks + [Fresh(s)], fore := h.fore[s := |h.chunks|])
  }

  function Promote(h: LHeap, s: nat, i: nat): LHeap
    requires s < |h.fore| && i < |h.chunks|
  {
    h.(chunks := h.chunks[i := h.chunks[i].(state := FORG)], fore := h.fore[s := i])
  }

  ghost predicate SameBlocks(h: LHeap, r: LHeap)
  {
    && |h.chunks| <= |r.chunks|
    && (forall i | 0 <= i < |h.chunks| :: r.chunks[i].(state := FULL) == h.chunks[i].(state := FULL))
    && (forall i | |h.chunks| <= i < |r.chunks| :: r.chunks[i].freeTotCnt == r.chunks[i].blkCnt && r.chunks[i].wearCount == 0)
  }

  lemma ReplaceKeeps(h: LHeap, s: nat)
    requires Held(h, s) && s < 47
    ensures var r := Replace(h, s);
      && Inv(r) && SameBlocks(h, r) && r.fore[s] != DUMMY && (forall t | 0 <= t < CLASSES && t != s :: r.fore[t] == h.fore[t])
      && (forall i | 0 <= i < |h.chunks| && h.chunks[i].state == FULL :: r.chunks[i] == h.chunks[i])
    ensures Refilled(h, Replace(h, s), s, 1)
  {
    NotRefilled(h, s);
    RefillOnce(h, h, s, 0);
    if h.back[s] != [] {
      ReplaceFromBackground(h, s);
    } else if h.free != [] {
      ReplaceFromFree(h, s);
    } else {
      ReplaceFromPool(h, s);
    }
  }

  lemma ReplaceFromPool(h: LHeap, s: nat)
    requires Held(h, s) && s < 47 && h.back[s] == [] && h.free == []
    ensures Inv(Replace(h, s)) && SameBlocks(h, Replace(h, s))
  {
    hide BlocksOf, NoDup;
    var r := Replace(h, s);
    assert InSlot(r, |h.chunks|, s);
    forall i | 0 <= i < |r.chunks| && r.chunks[i].state == FORG
      ensures exists t :: InSlot(r, i, t)
    {
      if i < |h.chunks| {
        var t :| InSlot(h, i, t) && t != s;
        assert InSlot(r, i, t);
      }
    }
  }

  lemma PromotedSlots(h: LHeap, m: LHeap, s: nat, i: nat)
    requires Shape(h) && SlotsOk(h, s) && s < 47 && i < |h.chunks| && h.chunks[i].state == BACK
    requires m == h.(back := m.back, free := m.free) && |m.back| == CLASSES
    ensures Shape(Promote(m, s, i)) && SlotsOk(Promote(m, s, i), -1)
  {
    var r := Promote(m, s, i);
    assert InSlot(r, i, s);
    forall j | 0 <= j < |r.chunks| && r.chunks[j].state == FORG
      ensures exists t :: InSlot(r, j, t)
    {
      if j != i {
        var t :| InSlot(h, j, t) && t != s;
        assert InSlot(r, j, t);
      }
    }
  }

  lemma NoDupTail(t: seq<nat>)
    requires NoDup(t) && t != []
    ensures NoDup(t[1..]) && t[0] !in t[1..] && forall i :: i in t <==> i == t[0] || i in t[1..]
  {
    assert t == [t[0]] + t[1..];
  }

  lemma PulledLists(h: LHeap, s: nat, i: nat)
    requires Shape(h) && ListsOk(h) && s < 47 && h.back[s] != [] && i == h.back[s][0]
    ensures i in h.back[s] && i < |h.chunks| && h.chunks[i].state == BACK && h.chunks[i].sizeCls == s
    ensures var r := Promote(h.(back := h.back[s := h.back[s][1..]]), s, i); Shape(r) && ListsOk(r)
  {
    hide ChunkOk, NoDup;
    assert i in h.back[s];
    NoDupTail(h.back[s]);
    var r := Promote(h.(back := h.back[s := h.back[s][1..]]), s, i);
    forall c, j {:trigger j in r.back[c]} | 0 <= c < CLASSES && j in r.back[c]
      ensures j < |r.chunks| && r.chunks[j].state == BACK && r.chunks[j].sizeCls == c && j !in r.free
    {
      assert j in h.back[c];
    }
    PulledShape(h, s, i);
    Classes(r);
    forall j: nat | j < |r.chunks| && r.chunks[j].state == BACK
      ensures j in r.back[r.chunks[j].sizeCls] || j in r.free
    {
      assert j != i && (j in h.back[h.chunks[j].sizeCls] || j in h.free);
    }
  }

  lemma PulledShape(h: LHeap, s: nat, i: nat)
    requires Shape(h) && i < |h.chunks| && s < 47 && h.back[s] != []
    ensures Shape(Promote(h.(back := h.back[s := h.back[s][1..]]), s, i))
  {
  }

  lemma ReplaceFromBackground(h: LHeap, s: nat)
    requires Held(h, s) && s < 47 && h.back[s] != []
    ensures Inv(Replace(h, s)) && SameBlocks(h, Replace(h, s))
  {
    hide NoDup, ListsOk, SlotsOk;
    var i := h.back[s][0];
    PulledLists(h, s, i);
    PromotedSlots(h, h.(back := h.back[s := h.back[s][1..]]), s, i);
  }

  lemma SparedLists(h: LHeap, s: nat, i: nat)
    requires Shape(h) && ListsOk(h) && s < 47 && h.free != [] && i == h.free[0]
    ensures i < |h.chunks| && h.chunks[i].state == BACK
    ensures var r := Promote(h.(free := h.free[1..]), s, i); Shape(r) && ListsOk(r)
  {
    hide ChunkOk, NoDup;
    assert i in h.free;
    NoDupTail(h.free);
    var r := Promote(h.(free := h.free[1..]), s, i);
    forall c, j {:trigger j in r.back[c]} | 0 <= c < CLASSES && j in r.back[c]
      ensures j < |r.chunks| && r.chunks[j].state == BACK && r.chunks[j].sizeCls == c && j !in r.free
    {
      assert j in h.back[c] && j != i;
    }
    SparedShape(h, s, i);
    Classes(r);
    forall j: nat | j < |r.chunks| && r.chunks[j].state == BACK
      ensures j in r.back[r.chunks[j].sizeCls] || j in r.free
    {
      assert j != i && (j in h.back[h.chunks[j].sizeCls] || j in h.free);
    }
  }

  lemma SparedShape(h: LHeap, s: nat, i: nat)
    requires Shape(h) && i < |h.chunks| && s < 47 && h.free != []
    ensures Shape(Promote(h.(free := h.free[1..]), s, i))
  {
  }

  lemma ReplaceFromFree(h: LHeap, s: nat)
    requires Held(h, s) && s < 47 && h.back[s] == [] && h.free != []
    ensures Inv(Replace(h, s)) && SameBlocks(h, Replace(h, s))
  {
    hide NoDup, ListsOk, SlotsOk;
    var i := h.free[0];
    SparedLists(h, s, i);
    PromotedSlots(h, h.(free := h.free[1..]), s, i);
  }

  /** The foreground slot is filled if it still holds the dummy. */
  function Ready(h: LHeap, s: nat): LHeap
    requires Inv(h) && s < 47
  {
    if h.fore[s] == DUMMY then Replace(h, s) else h
  }

  lemma ReadyKeeps(h: LHeap, s: nat)
    requires Inv(h) && s < 47
    ensures var r := Ready(h, s); Inv(r) && SameBlocks(h, r) && 0 <= r.fore[s] < |r.chunks|
    ensures var r := Ready(h, s); r.chunks[r.fore[s]].freeTotCnt > 0
  {
    hide ChunkOk;
    if h.fore[s] == DUMMY {
      OpenSlot(h, s);
      ReplaceKeeps(h, s);
    }
  }

  lemma OpenSlot(h: LHeap, s: nat)
    requires Inv(h) && s < 47 && h.fore[s] == DUMMY
    ensures Held(h, s)
  {
    forall i | 0 <= i < |h.chunks| && h.chunks[i].state == FORG
      ensures exists t :: InSlot(h, i, t) && t != s
    {
      var t :| InSlot(h, i, t) && t != -1;
    }
  }

  function With(h: LHeap, i: nat, ch: Chunk): LHeap
    requires i < |h.chunks|
  {
    h.(chunks := h.chunks[i := ch])
  }

  lemma SameState(h: LHeap, i: nat, ch: Chunk)
    requires Inv(h) && i < |h.chunks| && ChunkOk(ch)
    requires ch.state == h.chunks[i].state && ch.sizeCls == h.chunks[i].sizeCls
    requires (ch.state == FULL <==> ch.freeTotCnt == 0) && (i in h.free ==> ch.freeTotCnt == ch.blkCnt)
    ensures Inv(With(h, i, ch))
  {
    var r := With(h, i, ch);
    SlotsMoved(h, r, -1);
  }

  /** The slots only depend on which chunks are in the foreground. */
  lemma SlotsMoved(h: LHeap, r: LHeap, s: int)
    requires Shape(h) && Shape(r) && SlotsOk(h, -1)
    requires r.fore == h.fore && |r.chunks| == |h.chunks|
    requires -1 <= s < CLASSES
    requires forall i | 0 <= i < |h.chunks| ::
      r.chunks[i].state == FORG <==> h.chunks[i].state == FORG && !(s != -1 && h.fore[s] == i)
    ensures SlotsOk(r, s)
  {
    hide ChunkOk;
    forall i | 0 <= i < |r.chunks| && r.chunks[i].state == FORG
      ensures exists t :: InSlot(r, i, t) && t != s
    {
      var t :| InSlot(h, i, t) && t != -1;
      assert InSlot(r, i, t);
    }
  }

  /** The chunk gave its last block away and leaves the foreground. */
  function Filled(h: LHeap, s: nat, ch: Chunk): LHeap
    requires s < |h.fore| && 0 <= h.fore[s] < |h.chunks|
  {
    With(h, h.fore[s], ch.(state := FULL))
  }

  lemma FilledKeeps(h: LHeap, s: nat, ch: Chunk)
    requires Inv(h) && s < 47 && 0 <= h.fore[s] < |h.chunks| && ChunkOk(ch) && ch.freeTotCnt == 0
    ensures Held(Filled(h, s, ch), s)
  {
    SlotsMoved(h, Filled(h, s, ch), s);
  }

  /** small_malloc. The retry after the dummy is the first line: it happens once at most, because the slot
      then holds a chunk with a free block. */
  function Malloc(h: LHeap, s: nat): (r: (LHeap, nat, nat))
    requires Inv(h) && s < 47
  {
    ReadyKeeps(h, s);
    var m := Ready(h, s);
    var i: nat := m.fore[s];
    (Counted(Draw(m, s), i), i, TakeBlock(m.chunks[i]).1)
  }

  /** The foreground chunk gives a block; when it was the last one, the slot gets another chunk. */
  function Draw(m: LHeap, s: nat): (r: LHeap)
    requires Inv(m) && s < 47 && m.fore[s] != DUMMY
    ensures |r.chunks| >= |m.chunks|
  {
    TakeBlockKeeps(m.chunks[m.fore[s]]);
    Taken(m, s, TakeBlock(m.chunks[m.fore[s]]).0)
  }

  function Taken(m: LHeap, s: nat, ch: Chunk): (r: LHeap)
    requires Inv(m) && s < 47 && 0 <= m.fore[s] < |m.chunks| && ChunkOk(ch)
    ensures |r.chunks| >= |m.chunks|
  {
    if ch.freeTotCnt == 0 then
      FilledKeeps(m, s, ch);
      ReplaceKeeps(Filled(m, s, ch), s);
      Replace(Filled(m, s, ch), s)
    else With(m, m.fore[s], ch)
  }

  function Counted(h: LHeap, i: nat): LHeap
    requires i < |h.chunks|
  {
    With(h, i, h.chunks[i].(wearCount := h.chunks[i].wearCount + 1))
  }

  lemma TakenKeeps(m: LHeap, s: nat, ch: Chunk)
    requires Inv(m) && s < 47 && 0 <= m.fore[s] < |m.chunks| && ChunkOk(ch)
    requires ch.state == FORG && ch.sizeCls == m.chunks[m.fore[s]].sizeCls
    ensures var r := Taken(m, s, ch);
      && Inv(r) && SameBlocks(With(m, m.fore[s], ch), r)
      && r.fore[s] != DUMMY && forall t | 0 <= t < CLASSES && t != s :: r.fore[t] == m.fore[t]
  {
    hide ChunkOk, ListsOk, SlotsOk;
    if ch.freeTotCnt == 0 {
      FilledKeeps(m, s, ch);
      ReplaceKeeps(Filled(m, s, ch), s);
    } else {
      NotSpare(m, s);
      SameState(m, m.fore[s], ch);
    }
  }

  lemma NotSpare(m: LHeap, s: nat)
    requires Inv(m) && s < 47 && 0 <= m.fore[s] < |m.chunks|
    ensures m.fore[s] !in m.free && m.chunks[m.fore[s]].state == FORG
  {
  }

  /** small_malloc keeps every chunk in its one place, and always has a block to give. */
  lemma MallocKeeps(h: LHeap, s: nat)
    requires Inv(h) && s < 47
    ensures var (r, i, k) := Malloc(h, s);
      && Inv(r) && |h.chunks| <= |r.chunks| && i < |r.chunks| && r.fore[s] != DUMMY
  {
    hide ChunkOk, ListsOk, SlotsOk, BlocksOf;
    ReadyKeeps(h, s);
    var m := Ready(h, s);
    var i: nat := m.fore[s];
    NotSpare(m, s);
    var (ch, k) := TakeBlock(m.chunks[i]);
    TakeBlockKeeps(m.chunks[i]);
    TakenKeeps(m, s, ch);
    var r := Taken(m, s, ch);
    CountedKeeps(r, i);
  }

  lemma CountedKeeps(h: LHeap, i: nat)
    requires Inv(h) && i < |h.chunks|
    ensures Inv(Counted(h, i))
  {
    hide BlocksOf;
    SameState(h, i, h.chunks[i].(wearCount := h.chunks[i].wearCount + 1));
  }

  // ---- free ----

  function Remove(t: seq<nat>, i: nat): (r: seq<nat>)
  {
    if t == [] then [] else if t[0] == i then t[1..] else [t[0]] + Remove(t[1..], i)
  }

  lemma {:induction false} RemoveMembers(t: seq<nat>, i: nat)
    requires NoDup(t)
    ensures NoDup(Remove(t, i)) && forall j :: j in Remove(t, i) <==> j in t && j != i
    decreases |t|
  {
    if t != [] {
      NoDupTail(t);
      RemoveMembers(t[1..], i);
      if t[0] != i {
        var r := Remove(t[1..], i);
        assert t[0] !in r;
      }
    }
  }

  /** chunk_free_small */
  function Free(h: LHeap, i: nat, k: nat): LHeap
    requires Inv(h) && i < |h.chunks| && k in LiveBlocks(h.chunks[i])
  {
    var ch := PutBlock(h.chunks[i], k);
    var c := ch.sizeCls;
    match ch.state
    case FORG => With(h, i, ch)
    case FULL => With(h, i, ch.(state := BACK)).(back := h.back[c := h.back[c] + [i]])
    case BACK =>
      if ch.freeTotCnt == ch.blkCnt then
        With(h, i, ch).(back := h.back[c := Remove(h.back[c], i)], free := h.free + [i])
      else With(h, i, ch)
  }

  lemma FreeKeeps(h: LHeap, i: nat, k: nat)
    requires Inv(h) && i < |h.chunks| && k in LiveBlocks(h.chunks[i])
    ensures Inv(Free(h, i, k))
  {
    var ch := PutBlock(h.chunks[i], k);
    PutBlockKeeps(h.chunks[i], k);
    if ch.state == FULL {
      FreeOfFull(h, i, ch.(state := BACK));
    } else if ch.state == BACK && ch.freeTotCnt == ch.blkCnt {
      FreeOfLast(h, i, ch);
    } else {
      SameState(h, i, ch);
    }
  }

  lemma FreeOfFull(h: LHeap, i: nat, ch: Chunk)
    requires Inv(h) && i < |h.chunks| && h.chunks[i].state == FULL
    requires ChunkOk(ch) && ch.state == BACK && ch.sizeCls == h.chunks[i].sizeCls && ch.freeTotCnt > 0
    ensures Inv(With(h, i, ch).(back := h.back[ch.sizeCls := h.back[ch.sizeCls] + [i]]))
  {
    hide BlocksOf;
    var r := With(h, i, ch).(back := h.back[ch.sizeCls := h.back[ch.sizeCls] + [i]]);
    assert Shape(r);
    SlotsMoved(h, r, -1);
    forall c, j {:trigger j in r.back[c]} | 0 <= c < CLASSES && j in r.back[c]
      ensures j < |r.chunks| && r.chunks[j].state == BACK && r.chunks[j].sizeCls == c && j !in r.free
    {
      assert j != i ==> j in h.back[c];
    }
    assert i !in h.back[ch.sizeCls] && NoDup(r.back[ch.sizeCls]);
    assert i in r.back[ch.sizeCls];
    forall j: nat | j < |r.chunks| && r.chunks[j].state == BACK
      ensures j in r.back[r.chunks[j].sizeCls] || j in r.free
    {
      assert j != i ==> j in h.back[h.chunks[j].sizeCls] || j in h.free;
    }
  }

  lemma FreeOfLast(h: LHeap, i: nat, ch: Chunk)
    requires Inv(h) && i < |h.chunks| && h.chunks[i].state == BACK && h.chunks[i].freeTotCnt < ch.blkCnt
    requires ChunkOk(ch) && ch.state == BACK && ch.sizeCls == h.chunks[i].sizeCls && ch.freeTotCnt == ch.blkCnt > 0
    ensures Inv(With(h, i, ch).(back := h.back[ch.sizeCls := Remove(h.back[ch.sizeCls], i)], free := h.free + [i]))
  {
    hide BlocksOf;
    var r := With(h, i, ch).(back := h.back[ch.sizeCls := Remove(h.back[ch.sizeCls], i)], free := h.free + [i]);
    assert Shape(r);
    RemoveMembers(h.back[ch.sizeCls], i);
    SlotsMoved(h, r, -1);
    forall c, j {:trigger j in r.back[c]} | 0 <= c < CLASSES && j in r.back[c]
      ensures j < |r.chunks| && r.chunks[j].state == BACK && r.chunks[j].sizeCls == c && j !in r.free
    {
      assert j in h.back[c];
    }
  }

  // ---- the callers' view ----

  /** The blocks in use: chunk and number in the chunk. */
  ghost function Live(h: LHeap): set<(nat, nat)>
  {
    set i: nat, k: nat | i < |h.chunks| && k in LiveBlocks(h.chunks[i]) :: (i, k)
  }

  lemma LiveSame(h: LHeap, r: LHeap)
    requires Shape(h) && Shape(r) && SameBlocks(h, r)
    ensures Live(r) == Live(h)
  {
    hide BlocksOf, ChunkOk;
    forall i: nat | i < |r.chunks|
      ensures LiveBlocks(r.chunks[i]) == if i < |h.chunks| then LiveBlocks(h.chunks[i]) else {}
    {
      if i < |h.chunks| {
        assert r.chunks[i].(state := FULL) == h.chunks[i].(state := FULL);
        SameMembers(LiveBlocks(r.chunks[i]), LiveBlocks(h.chunks[i]));
      } else {
        LiveAndFree(r.chunks[i]);
      }
    }
    forall i: nat, k: nat
      ensures (i, k) in Live(r) <==> (i, k) in Live(h)
    {
    }
  }

  lemma LiveWith(h: LHeap, i: nat, ch: Chunk)
    requires i < |h.chunks|
    ensures forall j: nat, k: nat :: (j, k) in Live(With(h, i, ch)) <==> if j == i then k in LiveBlocks(ch) else (j, k) in Live(h)
  {
    hide LiveBlocks;
  }

  /** The block handed out was not in use, and nothing else changes hands. No chunk changes its class. */
  lemma MallocIsSafe(h: LHeap, s: nat)
    requires Inv(h) && s < 47
    ensures var (r, i, k) := Malloc(h, s);
      && Inv(r) && (i, k) !in Live(h) && Live(r) == Live(h) + {(i, k)}
      && i < |r.chunks| && k < r.chunks[i].blkCnt && r.fore[s] != DUMMY
      && forall j | 0 <= j < |h.chunks| :: j < |r.chunks| && r.chunks[j].sizeCls == h.chunks[j].sizeCls
  {
    hide ListsOk, SlotsOk, BlocksOf, LiveBlocks, Live, Draw, TakeBlock, Replace;
    MallocKeeps(h, s);
    ReadyKeeps(h, s);
    var m := Ready(h, s);
    LiveSame(h, m);
    DrawIsSafe(m, s);
    CountedLive(Draw(m, s), m.fore[s]);
  }

  lemma DrawIsSafe(m: LHeap, s: nat)
    requires Inv(m) && s < 47 && 0 <= m.fore[s] < |m.chunks|
    ensures var r := Draw(m, s);
      var i: nat := m.fore[s];
      var k := TakeBlock(m.chunks[i]).1;
      && Inv(r) && (i, k) !in Live(m) && Live(r) == Live(m) + {(i, k)} && k < r.chunks[i].blkCnt
      && forall j | 0 <= j < |m.chunks| :: r.chunks[j].sizeCls == m.chunks[j].sizeCls
  {
    hide ListsOk, SlotsOk, BlocksOf, LiveBlocks;
    var i: nat := m.fore[s];
    NotSpare(m, s);
    var (ch, k) := TakeBlock(m.chunks[i]);
    TakeBlockKeeps(m.chunks[i]);
    TakenKeeps(m, s, ch);
    LiveSame(With(m, i, ch), Taken(m, s, ch));
    LiveWith(m, i, ch);
  }

  lemma CountedLive(h: LHeap, i: nat)
    requires i < |h.chunks|
    ensures Live(Counted(h, i)) == Live(h)
  {
    hide LiveBlocks;
    LiveWith(h, i, h.chunks[i].(wearCount := h.chunks[i].wearCount + 1));
    SameLive(h.chunks[i]);
  }

  lemma SameLive(ch: Chunk)
    ensures LiveBlocks(ch.(wearCount := ch.wearCount + 1)) == LiveBlocks(ch)
  {
    SameMembers(LiveBlocks(ch.(wearCount := ch.wearCount + 1)), LiveBlocks(ch));
  }

  /** The wear count of a chunk; a chunk still in the pool has none. */
  function WearOf(h: LHeap, i: nat): nat
  {
    if i < |h.chunks| then h.chunks[i].wearCount else 0
  }

  /** A wear count goes up exactly when the chunk hands out a block; no other operation touches it. */
  lemma WearCountsHandOuts(h: LHeap, s: nat, j: nat)
    requires Inv(h) && s < 47
    ensures var (r, i, _) := Malloc(h, s); WearOf(r, j) == WearOf(h, j) + if j == i then 1 else 0
    ensures forall i, k | Inv(h) && (i, k) in Live(h) :: WearOf(Free(h, i, k), j) == WearOf(h, j)
  {
    hide ListsOk, SlotsOk, ChunkOk, BlocksOf, LiveBlocks, Replace;
    ReadyKeeps(h, s);
    var m := Ready(h, s);
    var i: nat := m.fore[s];
    NotSpare(m, s);
    TakeBlockKeeps(m.chunks[i]);
    TakenKeeps(m, s, TakeBlock(m.chunks[i]).0);
    SameWear(h, m, j);
    SameWear(With(m, i, TakeBlock(m.chunks[i]).0), Draw(m, s), j);
  }

  lemma SameWear(h: LHeap, r: LHeap, j: nat)
    requires SameBlocks(h, r)
    ensures WearOf(r, j) == WearOf(h, j)
  {
    if j < |h.chunks| {
      assert r.chunks[j].(state := FULL) == h.chunks[j].(state := FULL);
    }
  }

  lemma FreeIsSafe(h: LHeap, i: nat, k: nat)
    requires Inv(h) && (i, k) in Live(h)
    ensures var r := Free(h, i, k); Inv(r) && Live(r) == Live(h) - {(i, k)}
    ensures var r := Free(h, i, k);
      && |r.chunks| == |h.chunks|
      && forall j | 0 <= j < |h.chunks| :: r.chunks[j].sizeCls == h.chunks[j].sizeCls
  {
    hide ListsOk, SlotsOk, BlocksOf, LiveBlocks;
    FreeKeeps(h, i, k);
    PutBlockKeeps(h.chunks[i], k);
    var r := Free(h, i, k);
    LiveWith(h, i, r.chunks[i]);
    SameMembers(LiveBlocks(r.chunks[i]), LiveBlocks(PutBlock(h.chunks[i], k)));
  }

  // ---- which chunk serves ----

  function Drop(q: seq<nat>, k: int): seq<nat>
  {
    if k <= 0 then q else if k >= |q| then [] else q[k..]
  }

  /** The slot was filled f times: first with the chunks of the background list of its class, the longest
      there first, then with those of the free list, then with new ones from the pool. */
  ghost predicate Refilled(h: LHeap, r: LHeap, s: nat, f: nat)
    requires |h.fore| == CLASSES == |h.back| && s < CLASSES
  {
    var w := h.back[s] + h.free;
    && r.fore == (if f == 0 then h.fore
                  else h.fore[s := if f <= |w| then w[f - 1] else |h.chunks| + (f - |w| - 1)])
    && |r.chunks| == |h.chunks| + (if f > |w| then f - |w| else 0)
    && r.back == h.back[s := Drop(h.back[s], f)] && r.free == Drop(h.free, f - |h.back[s]|)
  }

  lemma NotRefilled(h: LHeap, s: nat)
    requires |h.fore| == CLASSES == |h.back| && s < CLASSES
    ensures Refilled(h, h, s, 0)
  {
  }

  /** Only the four things that Refilled looks at matter. */
  lemma SameLists(h: LHeap, m: LHeap, r: LHeap, s: nat, f: nat)
    requires |h.fore| == CLASSES == |h.back| && s < CLASSES && Refilled(h, m, s, f)
    requires r.fore == m.fore && |r.chunks| == |m.chunks| && r.back == m.back && r.free == m.free
    ensures Refilled(h, r, s, f)
  {
  }

  lemma HeadsInside(h: LHeap, s: nat)
    requires Held(h, s) && s < 47
    ensures |h.back| == CLASSES && |h.fore| == CLASSES
    ensures h.back[s] != [] ==> h.back[s][0] < |h.chunks|
    ensures h.free != [] ==> h.free[0] < |h.chunks|
  {
    assert h.back[s] != [] ==> h.back[s][0] in h.back[s];
    assert h.free != [] ==> h.free[0] in h.free;
  }

  lemma RefillOnce(h: LHeap, m: LHeap, s: nat, f: nat)
    requires |h.fore| == CLASSES == |h.back| && s < 47 && Refilled(h, m, s, f) && Held(m, s)
    ensures Refilled(h, Replace(m, s), s, f + 1)
  {
    hide Held, BlocksOf;
    HeadsInside(m, s);
    var r := Replace(m, s);
    var b := h.back[s];
    if f < |b| {
      assert m.back[s] == b[f..] && m.back[s][0] == b[f] == (b + h.free)[f];
      assert r.back[s] == b[f..][1..] == Drop(b, f + 1);
      assert r.back == h.back[s := Drop(b, f + 1)];
    } else if f < |b + h.free| {
      assert m.back[s] == [] && m.free == h.free[f - |b|..];
      assert m.free[0] == h.free[f - |b|] == (b + h.free)[f];
      assert r.free == h.free[f - |b|..][1..] == Drop(h.free, f + 1 - |b|);
    } else {
      assert m.back[s] == [] && m.free == [];
    }
  }

  /** The chunk that serves: the one in the slot, or the first that the slot is filled with. */
  function Serving(h: LHeap, s: nat): (i: nat)
    requires Inv(h) && s < 47
  {
    if h.fore[s] != DUMMY then h.fore[s]
    else if h.back[s] + h.free != [] then (h.back[s] + h.free)[0]
    else |h.chunks|
  }

  /** The free blocks in it; a new chunk is all free. */
  function FreeIn(h: LHeap, i: nat, s: nat): nat
    requires s < 47
  {
    if i < |h.chunks| then h.chunks[i].freeTotCnt else BlocksOf(s)
  }

  /** How often small_malloc fills the slot: once if it holds the dummy, and once if the serving chunk gives
      its last block. */
  function Refills(h: LHeap, s: nat): nat
    requires Inv(h) && s < 47
  {
    (if h.fore[s] == DUMMY then 1 else 0) + (if FreeIn(h, Serving(h, s), s) == 1 then 1 else 0)
  }

  lemma ReadyRefills(h: LHeap, s: nat)
    requires Inv(h) && s < 47
    ensures var m := Ready(h, s);
      && Refilled(h, m, s, if h.fore[s] == DUMMY then 1 else 0)
      && m.fore[s] == Serving(h, s) < |m.chunks|
  {
    hide SlotsOk, ListsOk, Replace, ChunkOk;
    NotRefilled(h, s);
    ReadyKeeps(h, s);
    if h.fore[s] == DUMMY {
      OpenSlot(h, s);
      RefillOnce(h, h, s, 0);
    }
  }

  lemma ReadyFree(h: LHeap, s: nat)
    requires Inv(h) && s < 47
    ensures var m := Ready(h, s);
      Serving(h, s) < |m.chunks| && m.chunks[Serving(h, s)].freeTotCnt == FreeIn(h, Serving(h, s), s)
    ensures var m := Ready(h, s);
      Serving(h, s) < |h.chunks| ==> m.chunks[Serving(h, s)].(state := FULL) == h.chunks[Serving(h, s)].(state := FULL)
  {
    hide SlotsOk, ListsOk, Replace, BlocksOf, NoDup;
    ReadyRefills(h, s);
    ReadyKeeps(h, s);
    var i := Serving(h, s);
    var m := Ready(h, s);
    if i < |h.chunks| {
      assert m.chunks[i].(state := FULL) == h.chunks[i].(state := FULL);
    } else {
      NewIsOfClass(h, s);
      assert ChunkOk(m.chunks[i]);
    }
  }

  lemma NewIsOfClass(h: LHeap, s: nat)
    requires Inv(h) && s < 47 && Serving(h, s) >= |h.chunks|
    ensures var m := Ready(h, s); |h.chunks| < |m.chunks| && m.chunks[|h.chunks|] == Fresh(s) && Serving(h, s) == |h.chunks|
  {
    hide BlocksOf;
    ServingOld(h, s);
    if h.fore[s] == DUMMY {
      OpenSlot(h, s);
    }
  }

  lemma ServingOld(h: LHeap, s: nat)
    requires Inv(h) && s < 47
    ensures h.fore[s] != DUMMY || h.back[s] != [] || h.free != [] ==> Serving(h, s) < |h.chunks|
  {
    if h.back[s] != [] {
      assert h.back[s][0] in h.back[s];
    } else if h.free != [] {
      assert h.free[0] in h.free;
    }
  }

  lemma DrawRefills(h: LHeap, m: LHeap, s: nat, f: nat)
    requires |h.fore| == CLASSES == |h.back| && s < 47 && Inv(m) && 0 <= m.fore[s] < |m.chunks|
    requires m.chunks[m.fore[s]].freeTotCnt > 0 && Refilled(h, m, s, f)
    ensures Refilled(h, Draw(m, s), s, f + if m.chunks[m.fore[s]].freeTotCnt == 1 then 1 else 0)
  {
    hide SlotsOk, ListsOk, Replace, ChunkOk, BlocksOf, Refilled;
    NotSpare(m, s);
    TakeBlockKeeps(m.chunks[m.fore[s]]);
    var ch := TakeBlock(m.chunks[m.fore[s]]).0;
    if ch.freeTotCnt == 0 {
      FilledKeeps(m, s, ch);
      SameLists(h, m, Filled(m, s, ch), s, f);
      RefillOnce(h, Filled(m, s, ch), s, f);
    } else {
      SameLists(h, m, Draw(m, s), s, f);
    }
  }

  /** small_malloc takes its block from the serving chunk, and fills the slot from the background list of its
      class, the free list and the pool, in this order. The other lists and slots stay. */
  lemma MallocRefills(h: LHeap, s: nat)
    requires Inv(h) && s < 47
    ensures var (r, i, _) := Malloc(h, s);
      i == Serving(h, s) && Refilled(h, r, s, Refills(h, s))
  {
    hide SlotsOk, ListsOk, Replace, ChunkOk, BlocksOf, Refilled, Serving, FreeIn, Ready, Draw, TakeBlock;
    ReadyRefills(h, s);
    ReadyKeeps(h, s);
    ReadyFree(h, s);
    var m := Ready(h, s);
    DrawRefills(h, m, s, if h.fore[s] == DUMMY then 1 else 0);
    SameLists(h, Draw(m, s), Counted(Draw(m, s), m.fore[s]), s, Refills(h, s));
  }

  /** The block handed out is the one longest free in the serving chunk. */
  lemma MallocTakesOldest(h: LHeap, s: nat)
    requires Inv(h) && s < 47
    ensures var (r, i, k) := Malloc(h, s);
      var was := if i < |h.chunks| then h.chunks[i] else Fresh(s);
      i < |r.chunks| && ChunkOk(was) && ChunkOk(r.chunks[i]) && FreeQueue(was) == [k] + FreeQueue(r.chunks[i])
  {
    hide SlotsOk, ListsOk, Replace, BlocksOf, Refilled, FreeIn, Ready, FreeQueue, NoDup;
    MallocKeeps(h, s);
    ReadyRefills(h, s);
    ReadyKeeps(h, s);
    ReadyFree(h, s);
    var m := Ready(h, s);
    var i: nat := m.fore[s];
    if i >= |h.chunks| {
      NewIsOfClass(h, s);
    }
    var was := if i < |h.chunks| then h.chunks[i] else Fresh(s);
    NotSpare(m, s);
    ChunkIsQueue(m.chunks[i], 0);
    TakeBlockKeeps(m.chunks[i]);
    TakenKeeps(m, s, TakeBlock(m.chunks[i]).0);
    SameQueue(was, m.chunks[i]);
    assert Draw(m, s).chunks[i].(state := FULL) == With(m, i, TakeBlock(m.chunks[i]).0).chunks[i].(state := FULL);
    SameQueue(TakeBlock(m.chunks[i]).0, Draw(m, s).chunks[i]);
    SameQueue(Draw(m, s).chunks[i], Counted(Draw(m, s), i).chunks[i]);
  }

  lemma SameQueue(ch: Chunk, r: Chunk)
    requires ChunkOk(ch) && r.(state := FULL, wearCount := 0) == ch.(state := FULL, wearCount := 0)
    ensures ChunkOk(r) && FreeQueue(r) == FreeQueue(ch)
  {
  }

  /** The pool gives a chunk exactly when the background list of the class and the free list do not last for
      the refills. Then both are empty, and every chunk of that class with a free block is in a slot. */
  lemma PoolIsLast(h: LHeap, s: nat)
    requires Inv(h) && s < 47
    ensures var (r, i, _) := Malloc(h, s);
      |r.chunks| > |h.chunks| <==> Refills(h, s) > |h.back[s]| + |h.free|
    ensures var (r, i, _) := Malloc(h, s);
      |r.chunks| > |h.chunks| ==>
        && r.back[s] == [] && r.free == []
        && forall j | 0 <= j < |r.chunks| && r.chunks[j].sizeCls == s && r.chunks[j].freeTotCnt > 0 ::
             exists t :: InSlot(r, j, t)
  {
    hide Malloc, Serving, Refills, ChunkOk;
    MallocIsSafe(h, s);
    MallocRefills(h, s);
    var (r, i, _) := Malloc(h, s);
    if |r.chunks| > |h.chunks| {
      forall j: nat | j < |r.chunks| && r.chunks[j].sizeCls == s && r.chunks[j].freeTotCnt > 0
        ensures exists t :: InSlot(r, j, t)
      {
        InForeground(r, s, j);
      }
    }
  }

  lemma InForeground(h: LHeap, s: nat, j: nat)
    requires Inv(h) && s < 47 && j < |h.chunks| && h.back[s] == [] && h.free == []
    requires h.chunks[j].sizeCls == s && h.chunks[j].freeTotCnt > 0
    ensures exists t :: InSlot(h, j, t)
  {
    hide ChunkOk;
    assert h.chunks[j].state == FORG;
  }

  /** A freed block goes behind the free ones of its chunk. A chunk that was all in use goes behind those in
      the background list of its class; a chunk of that list with no live block left goes behind those in the
      free list. Nothing else moves. */
  lemma WhereFreed(h: LHeap, i: nat, k: nat)
    requires Inv(h) && (i, k) in Live(h)
    ensures ChunkOk(h.chunks[i]) && h.chunks[i].sizeCls < CLASSES
    ensures var r := Free(h, i, k);
      |r.chunks| == |h.chunks| && ChunkOk(r.chunks[i]) && FreeQueue(r.chunks[i]) == FreeQueue(h.chunks[i]) + [k]
    ensures var r := Free(h, i, k);
      var c := h.chunks[i].sizeCls;
      && r.fore == h.fore && (forall j | 0 <= j < |h.chunks| && j != i :: r.chunks[j] == h.chunks[j])
      && if h.chunks[i].freeTotCnt == 0 then r.back == h.back[c := h.back[c] + [i]] && r.free == h.free
         else if i in h.back[c] && h.chunks[i].freeTotCnt + 1 == h.chunks[i].blkCnt then
           && r.free == h.free + [i]
           && exists x, y :: h.back[c] == x + [i] + y && r.back == h.back[c := x + y]
         else r.back == h.back && r.free == h.free
  {
    hide SlotsOk, NoDup, BlocksOf, FreeQueue, LiveBlocks;
    Classes(h);
    assert k in LiveBlocks(h.chunks[i]);
    ChunkIsQueue(h.chunks[i], k);
    PutBlockKeeps(h.chunks[i], k);
    var r := Free(h, i, k);
    SameQueue(PutBlock(h.chunks[i], k), r.chunks[i]);
    var c := h.chunks[i].sizeCls;
    StateTells(h, i);
    if i in h.back[c] && h.chunks[i].freeTotCnt + 1 == h.chunks[i].blkCnt {
      var x, y := RemoveSplits(h.back[c], i);
      assert h.back[c] == x + [i] + y && r.back == h.back[c := x + y];
    }
  }

  /** Where a chunk is tells its state. */
  lemma StateTells(h: LHeap, i: nat)
    requires Inv(h) && i < |h.chunks|
    ensures h.chunks[i].sizeCls < CLASSES
    ensures h.chunks[i].state == FULL <==> h.chunks[i].freeTotCnt == 0
    ensures i in h.back[h.chunks[i].sizeCls] ==> h.chunks[i].state == BACK
    ensures h.chunks[i].state == BACK && h.chunks[i].freeTotCnt < h.chunks[i].blkCnt ==> i in h.back[h.chunks[i].sizeCls]
  {
    hide SlotsOk, NoDup, BlocksOf;
    Classes(h);
  }

  lemma {:induction false} RemoveSplits(t: seq<nat>, i: nat) returns (x: seq<nat>, y: seq<nat>)
    requires i in t
    ensures t == x + [i] + y && Remove(t, i) == x + y
    decreases |t|
  {
    if t[0] == i {
      x, y := [], t[1..];
    } else {
      x, y := RemoveSplits(t[1..], i);
      x := [t[0]] + x;
    }
  }

  // ---- runs ----

  datatype Op = Get(cls: nat) | Put(i: nat, k: nat)

  ghost predicate Enabled(h: LHeap, op: Op)
  {
    match op
    case Get(cls) => cls < 47
    case Put(i, k) => (i, k) in Live(h)
  }

  ghost function Step(h: LHeap, op: Op): (r: LHeap)
    requires Inv(h) && Enabled(h, op)
    ensures Inv(r)
  {
    match op
    case Get(cls) => MallocIsSafe(h, cls); Malloc(h, cls).0
    case Put(i, k) => FreeIsSafe(h, i, k); Free(h, i, k)
  }

  ghost predicate Legal(h: LHeap, ops: seq<Op>)
    requires Inv(h)
    decreases |ops|
  {
    ops == [] || (Enabled(h, ops[0]) && Legal(Step(h, ops[0]), ops[1..]))
  }

  ghost function Run(h: LHeap, ops: seq<Op>): (r: LHeap)
    requires Inv(h) && Legal(h, ops)
    ensures Inv(r)
    decreases |ops|
  {
    if ops == [] then h else Run(Step(h, ops[0]), ops[1..])
  }

  /** What the callers were given and have not returned. */
  ghost function Ledger(held: set<(nat, nat)>, h: LHeap, ops: seq<Op>): set<(nat, nat)>
    requires Inv(h) && Legal(h, ops)
    decreases |ops|
  {
    if ops == [] then held
    else
      var next := match ops[0]
        case Get(cls) => var (_, i, k) := Malloc(h, cls); held + {(i, k)}
        case Put(i, k) => held - {(i, k)};
      Ledger(next, Step(h, ops[0]), ops[1..])
  }

  /** Over every run the blocks in use are exactly what the callers hold. */
  lemma {:induction false} LiveBlocksAreTheLedger(h: LHeap, ops: seq<Op>)
    requires Inv(h) && Legal(h, ops)
    ensures Live(Run(h, ops)) == Ledger(Live(h), h, ops)
    decreases |ops|
  {
    hide Inv, Live, Malloc, Free;
    if ops != [] {
      match ops[0] {
        case Get(cls) => MallocIsSafe(h, cls);
        case Put(i, k) => FreeIsSafe(h, i, k);
      }
      LiveBlocksAreTheLedger(Step(h, ops[0]), ops[1..]);
    }
  }

  /** When the pool has grown over a run, some request found fewer chunks in the background list of its class
      and in the free list than it had to fill its slot with. */
  lemma {:induction false} RunGrows(h: LHeap, ops: seq<Op>) returns (n: nat, g: LHeap)
    requires Inv(h) && Legal(h, ops) && |Run(h, ops).chunks| > |h.chunks|
    ensures n < |ops| && ops[n].Get? && ops[n].cls < 47
    ensures Legal(h, ops[..n]) && g == Run(h, ops[..n])
    ensures Refills(g, ops[n].cls) > |g.back[ops[n].cls]| + |g.free|
    decreases |ops|
  {
    hide Inv, Malloc, Free, Refills, Live;
    var s := Step(h, ops[0]);
    if |s.chunks| > |h.chunks| {
      n, g := 0, h;
      match ops[0] {
        case Get(cls) => PoolIsLast(h, cls);
        case Put(i, k) => FreeIsSafe(h, i, k);
      }
      assert ops[..0] == [];
    } else {
      var m;
      m, g := RunGrows(s, ops[1..]);
      n := m + 1;
      assert ops[..n][0] == ops[0] && ops[..n][1..] == ops[1..][..m];
    }
  }

  /** acquire_lheap */
  function Start(): LHeap
  {
    LHeap([], seq(CLASSES, _ => DUMMY), seq(CLASSES, _ => []), [])
  }

  lemma StartKeeps()
    ensures Inv(Start()) && Live(Start()) == {}
  {
  }

  // ---- the size of a block ----

  /** The block comes from the chunk of this class. */
  function ServingClass(h: LHeap, s: nat): (c: nat)
    requires Inv(h) && s < 47
  {
    if h.fore[s] != DUMMY then h.chunks[h.fore[s]].sizeCls
    else if h.back[s] != [] then s
    else if h.free != [] then assert h.free[0] in h.free; h.chunks[h.free[0]].sizeCls
    else s
  }

  lemma {:induction false} ClassSizeGrows(c: nat, d: nat)
    requires c < d < 47
    ensures ClassSize(c) < ClassSize(d)
    decreases d - c
  {
    if c + 1 < d {
      ClassSizeGrows(c, d - 1);
    }
    NextClass(d - 1);
  }

  /** From 16 to 65536 bytes, each class is larger than the one before, by half at most. */
  lemma NextClass(c: nat)
    requires c < 46
    ensures ClassSize(0) == 16 && ClassSize(46) == 65536
    ensures ClassSize(c) < ClassSize(c + 1) && 2 * ClassSize(c + 1) <= 3 * ClassSize(c)
  {
    assert Pow2(7) == 128;
    if c == 30 {
      assert Pow2(0) == 1;
    } else if c > 30 && (c - 31) % 2 == 1 {
      assert (c + 1 - 31) / 2 == (c - 31) / 2 + 1;
    } else if c > 30 {
      assert (c + 1 - 31) / 2 == (c - 31) / 2;
    }
  }

  /** The slot holds a chunk of a smaller class, or it is empty like the background list and the free list
      begins with such a chunk: a chunk from the free list keeps the class it had. */
  predicate ServedTooSmall(h: LHeap, s: nat)
    requires Inv(h) && s < 47
  {
    if h.fore[s] != DUMMY then h.chunks[h.fore[s]].sizeCls < s
    else h.back[s] == [] && h.free != [] && (assert h.free[0] in h.free; h.chunks[h.free[0]].sizeCls < s)
  }

  /** The block is smaller than its class promises exactly then. */
  lemma LargeEnoughIff(h: LHeap, s: nat)
    requires Inv(h) && s < 47
    ensures var (r, i, _) := Malloc(h, s);
      && i < |r.chunks| && r.chunks[i].sizeCls < 47
      && (ClassSize(r.chunks[i].sizeCls) >= ClassSize(s) <==> !ServedTooSmall(h, s))
  {
    hide ListsOk, SlotsOk, ChunkOk, BlocksOf, ClassSize;
    Served(h, s);
    var c := ServingClass(h, s);
    if c < s {
      ClassSizeGrows(c, s);
    } else if s < c {
      ClassSizeGrows(s, c);
    }
  }

  lemma Served(h: LHeap, s: nat)
    requires Inv(h) && s < 47
    ensures var (r, i, _) := Malloc(h, s);
      && i < |r.chunks| && r.chunks[i].sizeCls == ServingClass(h, s) < 47
  {
    hide BlocksOf, ListsOk, SlotsOk;
    MallocIsSafe(h, s);
    ReadyKeeps(h, s);
    var m := Ready(h, s);
    ReadyClass(h, s);
    Classes(m);
    TakeBlockKeeps(m.chunks[m.fore[s]]);
    NotSpare(m, s);
    TakenKeeps(m, s, TakeBlock(m.chunks[m.fore[s]]).0);
  }

  lemma ReadyClass(h: LHeap, s: nat)
    requires Inv(h) && s < 47
    ensures var m := Ready(h, s); 0 <= m.fore[s] < |m.chunks| && m.chunks[m.fore[s]].sizeCls == ServingClass(h, s)
  {
    hide BlocksOf, NoDup;
    if h.fore[s] == DUMMY && h.back[s] != [] {
      OpenSlot(h, s);
      assert h.back[s][0] in h.back[s];
    } else if h.fore[s] == DUMMY && h.free != [] {
      OpenSlot(h, s);
      assert h.free[0] in h.free;
    }
  }

  /** Two blocks of 32768 bytes are taken and returned. */
  function TwoOfClass44(): seq<Op>
  {
    [Get(44), Get(44), Put(0, 0), Put(0, 1)]
  }

  /** The heap after the first n steps. */
  function After(n: nat): LHeap
    requires n <= 4
  {
    var c := Chunk(FORG, 44, 2, 2, 2, [], 0);
    var h := Start();
    var full := h.(chunks := [Chunk(FULL, 44, 2, 0, 0, [], 2), c], fore := h.fore[44 := 1]);
    if n == 0 then h
    else if n == 1 then h.(chunks := [Chunk(FORG, 44, 2, 1, 1, [], 1)], fore := h.fore[44 := 0])
    else if n == 2 then full
    else if n == 3 then full.(chunks := [Chunk(BACK, 44, 2, 0, 1, [0], 2), c], back := full.back[44 := [0]])
    else full.(chunks := [Chunk(BACK, 44, 2, 0, 2, [1, 0], 2), c], free := [0])
  }

  lemma Sizes()
    ensures ClassSize(44) == 32768 && ClassSize(46) == 65536 && BlocksOf(44) == 2
  {
    assert Pow2(7) == 128 && Pow2(6) == 64;
  }

  lemma FirstGet()
    ensures Inv(After(0)) && Malloc(After(0), 44).0 == After(1)
  {
    StartKeeps();
    Sizes();
    ReadyKeeps(After(0), 44);
    assert Ready(After(0), 44) == After(0).(chunks := [Fresh(44)], fore := After(0).fore[44 := 0]);
  }

  lemma SecondGet()
    requires Inv(After(1))
    ensures Malloc(After(1), 44).0 == After(2)
  {
    Sizes();
    var h := After(1);
    ReadyKeeps(h, 44);
    var ch := TakeBlock(h.chunks[0]).0;
    FilledKeeps(h, 44, ch);
    var f := Filled(h, 44, ch);
    assert Replace(f, 44) == f.(chunks := f.chunks + [Fresh(44)], fore := f.fore[44 := 1]);
  }

  lemma FirstPut()
    requires Inv(After(2))
    ensures (0, 0) in Live(After(2)) && Free(After(2), 0, 0) == After(3)
  {
    hide Inv, BlocksOf;
    var h := After(2);
    assert 0 in LiveBlocks(h.chunks[0]);
    assert PutBlock(h.chunks[0], 0).(state := BACK) == After(3).chunks[0];
    assert Free(h, 0, 0).chunks == After(3).chunks;
    assert h.back[44] + [0] == [0];
    assert Free(h, 0, 0).back == After(3).back;
  }

  lemma SecondPut()
    requires Inv(After(3))
    ensures (0, 1) in Live(After(3)) && Free(After(3), 0, 1) == After(4)
  {
    hide Inv, BlocksOf;
    var h := After(3);
    assert 1 in LiveBlocks(h.chunks[0]);
    assert PutBlock(h.chunks[0], 1) == After(4).chunks[0];
    assert Free(h, 0, 1).chunks == After(4).chunks;
    assert Remove([0], 0) == [];
    assert Free(h, 0, 1).back == After(4).back;
    assert h.free + [0] == [0];
  }

  /** The chunk of the returned blocks is on the free list; a request for 65536 bytes then gets a block of
      32768 from it. */
  lemma WrongClassIsReached()
    ensures Inv(Start()) && Legal(Start(), TwoOfClass44())
    ensures var h := Run(Start(), TwoOfClass44());
      var (r, i, _) := Malloc(h, 46);
      && i < |r.chunks| && r.chunks[i].sizeCls == 44 && ClassSize(44) == 32768 && ClassSize(46) == 65536
  {
    hide ServingClass, Inv, Live, Malloc, Free, After;
    var ops := TwoOfClass44();
    AfterAll();
    assert ops[1..][1..][1..][1..] == [];
    assert Legal(After(4), []) && Run(After(4), []) == After(4);
    assert Legal(After(3), [ops[3]]);
    assert ops[1..][1..][1..] == [ops[3]];
    assert Run(After(3), [ops[3]]) == After(4);
    Served(After(4), 46);
  }

  lemma AfterAll()
    ensures forall n: nat | n <= 4 :: Inv(After(n))
    ensures After(0) == Start() && Malloc(After(0), 44).0 == After(1) && Malloc(After(1), 44).0 == After(2)
    ensures (0, 0) in Live(After(2)) && Free(After(2), 0, 0) == After(3)
    ensures (0, 1) in Live(After(3)) && Free(After(3), 0, 1) == After(4)
    ensures ServingClass(After(4), 46) == 44 && ClassSize(44) == 32768 && ClassSize(46) == 65536
  {
    hide Inv, Live, Malloc, Free;
    FirstGet();
    MallocIsSafe(After(0), 44);
    SecondGet();
    MallocIsSafe(After(1), 44);
    FirstPut();
    FreeIsSafe(After(2), 0, 0);
    SecondPut();
    FreeIsSafe(After(3), 0, 1);
    Sizes();
  }
}
