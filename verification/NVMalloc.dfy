/** NVMalloc itself: the bitmap, the in-band headers, the hint lists and the linked quarantine queue,
    each operation proved to do what HeapSpec says. */
module NVMalloc {
  import opened Words
  import opened Checksum
  import opened Tiling
  import opened HeapSpec
  import opened Headers
  import opened HeapLaws
  import opened HeapRuns
  import opened HeapQueue
  import Bitmap

  const NIL := 0xFFFF_FFFF_FFFF_FFFF

  /** The first words of a unit of memory, laid out as header_dna: the size word, the link of the
      quarantine queue and the time the block was freed. */
  datatype Cell = Cell(size: Word, next: nat, timeAdded: nat)

  /** Every block except those in `hole` has its header written. */
  ghost predicate Headed(mem: seq<Cell>, tiles: Tiles, hole: set<nat>)
  {
    forall s | s in tiles && s !in hole :: HeadedAt(mem, s, tiles[s])
  }

  ghost predicate HeadedAt(mem: seq<Cell>, s: nat, t: Tile)
  {
    && s < |mem| && s <= MAX_UNITS && t.len <= MAX_UNITS
    && mem[s].size == WordOf(s, t)
    && (t.Quarantined? ==> mem[s].timeAdded == t.time)
  }

  /** The quarantine queue is a linked list threaded through the blocks. */
  ghost predicate Linked(mem: seq<Cell>, dna: seq<nat>, head: nat, tail: nat)
  {
    if dna == [] then head == NIL && tail == NIL
    else
      && head == dna[0] && tail == dna[|dna| - 1]
      && (forall i | 0 <= i < |dna| :: dna[i] < |mem| && dna[i] < NIL)
      && (forall i | 0 <= i < |dna| - 1 :: dna[i] < |mem| && mem[dna[i]].next == dna[i + 1])
  }

  /** getBestFit on a size in bytes. */
  function GetBestFit(size: nat): int
  {
    if size > 4096 then NR_SIZES
    else size / 64 - 1 + if size % 64 != 0 then 1 else 0
  }

  /** One step of a walk through a free run: it ends at the run's end or at another block, and meets
      location + n exactly if a block starts there. */
  lemma WalkStep(tiles: Tiles, zone: nat, a: nat, m: nat, n: nat, p: nat)
    requires Tiled(tiles, zone) && Boundary(tiles, zone, a + m) && 0 < n <= m
    requires p in tiles && a <= p < a + m && p + tiles[p].len <= a + m
    ensures 0 < tiles[p].len
    ensures var q := p + tiles[p].len; q < a + m ==> q in tiles
    ensures p < a + n < p + tiles[p].len ==> !ExactFit(tiles, a, m, n)
    ensures p + tiles[p].len == a + n ==> ExactFit(tiles, a, m, n)
  {
    assert EndsWell(tiles, zone, p);
  }

  /** The memory after a free header covering units units is written at u. */
  function FreeHeaderAt(mem: seq<Cell>, u: nat, units: nat): seq<Cell>
    requires u < |mem| && u <= MAX_UNITS && units <= MAX_UNITS
  {
    mem[u := mem[u].(size := Neg(HeaderOf(u, 64 * units)))]
  }

  lemma FreeHeaderWritten(mem: seq<Cell>, u: nat, units: nat)
    requires u < |mem| && u <= MAX_UNITS && units <= MAX_UNITS
    ensures HeadedAt(FreeHeaderAt(mem, u, units), u, Free(units))
    ensures forall s, t | s != u && HeadedAt(mem, s, t) :: HeadedAt(FreeHeaderAt(mem, u, units), s, t)
  {
  }

  lemma CarvedHeaders(mem: seq<Cell>, tiles: Tiles, used: set<nat>, zone: nat, a: nat, m: nat, n: nat)
    requires Tiled(tiles, zone) && Coloured(tiles, used, zone) && IsRun(used, zone, a, a + m) && 0 < n <= m
    requires Headed(mem, tiles, {}) && zone <= MAX_UNITS && zone <= |mem|
    ensures Headed(if ExactFit(tiles, a, m, n) then mem else FreeHeaderAt(mem, a + n, m - n),
                   CarvedTiles(tiles, a, m, n), {a})
  {
    hide CarvedTiles, FreeHeaderAt, HeadedAt, Tiled, Coloured, IsRun;
    var r := CarvedTiles(tiles, a, m, n);
    if !ExactFit(tiles, a, m, n) {
      RunEnds(used, zone, a, a + m);
      FreeHeaderWritten(mem, a + n, m - n);
    }
    forall s | s in r && s != a
      ensures HeadedAt(if ExactFit(tiles, a, m, n) then mem else FreeHeaderAt(mem, a + n, m - n), s, r[s])
    {
      CarvedKeepsOrAdds(tiles, used, zone, a, m, n, s);
    }
  }

  lemma RunEnds(used: set<nat>, zone: nat, a: nat, b: nat)
    requires IsRun(used, zone, a, b)
    ensures b <= zone
  {
  }

  /** Free blocks lie end to end in [a, b). */
  ghost predicate FreeBlocksTile(tiles: Tiles, zone: nat, a: nat, b: nat)
  {
    && a in tiles && Boundary(tiles, zone, b)
    && forall s | s in tiles && a <= s < b :: tiles[s].Free? && s + tiles[s].len <= b
  }

  /** What SplitRun needs to know about the run it splits, and what it leaves. */
  ghost predicate CarveReady(mem: seq<Cell>, tiles: Tiles, zone: nat, a: nat, m: nat, n: nat)
    requires 0 < n <= m
  {
    && a + m <= zone <= |mem| && zone <= MAX_UNITS
    && FreeBlocksTile(tiles, zone, a, a + m)
    && Headed(if ExactFit(tiles, a, m, n) then mem else FreeHeaderAt(mem, a + n, m - n), CarvedTiles(tiles, a, m, n), {a})
  }

  lemma RunIsCarveReady(mem: seq<Cell>, tiles: Tiles, used: set<nat>, zone: nat, a: nat, m: nat, n: nat)
    requires Tiled(tiles, zone) && Coloured(tiles, used, zone) && IsRun(used, zone, a, a + m) && 0 < n <= m
    requires Headed(mem, tiles, {}) && zone <= MAX_UNITS && zone <= |mem|
    ensures CarveReady(mem, tiles, zone, a, m, n)
  {
    hide Tiled, Coloured, IsRun, Headed, CarvedTiles;
    RunEnds(used, zone, a, a + m);
    RunIsTiled(tiles, used, zone, a, a + m);
    CarvedHeaders(mem, tiles, used, zone, a, m, n);
  }

  lemma SplitKeepsLinks(mem: seq<Cell>, after: seq<Cell>, u: nat, units: nat, dna: seq<nat>, head: nat, tail: nat)
    requires Linked(mem, dna, head, tail)
    requires after == mem || (u < |mem| && u <= MAX_UNITS && units <= MAX_UNITS && after == FreeHeaderAt(mem, u, units))
    ensures Linked(after, dna, head, tail)
  {
  }

  lemma GrowKeepsLinks(mem: seq<Cell>, after: seq<Cell>, dna: seq<nat>, head: nat, tail: nat)
    requires Linked(mem, dna, head, tail) && mem <= after
    ensures Linked(after, dna, head, tail)
  {
  }

  lemma ExtendKeepsHeaders(mem: seq<Cell>, after: seq<Cell>, tiles: Tiles, zone: nat, n: nat)
    requires Headed(mem, tiles, {}) && mem <= after
    ensures Headed(after, tiles[zone := Live(n)], {zone})
  {
  }

  // ---- the quarantine queue in memory ----

  /** The memory after the block at p is marked quarantined and linked behind the tail. */
  function QuarantinedMem(mem: seq<Cell>, p: nat, len: nat, now: nat, tail: nat): seq<Cell>
    requires p < |mem| && p <= MAX_UNITS && len <= MAX_UNITS && (tail == NIL || tail < |mem|)
  {
    var marked := mem[p := mem[p].(size := Neg(HeaderOf(p, 64 * len + 1)), timeAdded := now)];
    if tail == NIL then marked else marked[tail := marked[tail].(next := p)]
  }

  lemma QuarantineKeepsHeaders(mem: seq<Cell>, tiles: Tiles, p: nat, now: nat, tail: nat)
    requires Headed(mem, tiles, {}) && p in tiles && p < |mem| && p <= MAX_UNITS && tiles[p].len <= MAX_UNITS
    requires tail == NIL || tail < |mem|
    ensures Headed(QuarantinedMem(mem, p, tiles[p].len, now, tail), tiles[p := Quarantined(tiles[p].len, now)], {})
  {
    hide HeaderOf, Neg;
    var after := QuarantinedMem(mem, p, tiles[p].len, now, tail);
    var t: Tiles := tiles[p := Quarantined(tiles[p].len, now)];
    forall s | s in t
      ensures HeadedAt(after, s, t[s])
    {
      assert s != p ==> HeadedAt(mem, s, tiles[s]);
    }
  }

  lemma QuarantineKeepsLinks(mem: seq<Cell>, dna: seq<nat>, head: nat, tail: nat, p: nat, len: nat, now: nat)
    requires Linked(mem, dna, head, tail) && p !in dna && p < |mem| && p <= MAX_UNITS && len <= MAX_UNITS
    requires forall i, j | 0 <= i < j < |dna| :: dna[i] != dna[j]
    ensures tail == NIL || tail < |mem|
    ensures (tail == NIL) == (dna == [])
    ensures Linked(QuarantinedMem(mem, p, len, now, tail), dna + [p], if tail == NIL then p else head, p)
  {
    hide HeaderOf, Neg;
  }

  /** All that putInDNAList relies on and leaves behind. */
  lemma QuarantineStores(h: Heap, mem: seq<Cell>, head: nat, tail: nat, p: nat, now: nat)
    requires Inv(h) && h.zone <= MAX_UNITS && h.zone <= |mem| && h.clock <= now && p in h.tiles && h.tiles[p].Live?
    requires Headed(mem, h.tiles, {}) && Linked(mem, h.dna, head, tail)
    ensures p < |mem| && p <= MAX_UNITS && h.tiles[p].len <= MAX_UNITS && (tail == NIL || tail < |mem|)
    ensures HeadedAt(mem, p, h.tiles[p]) && Inv(Quarantine(h, p, now))
    ensures var after := QuarantinedMem(mem, p, h.tiles[p].len, now, tail);
      && Headed(after, Quarantine(h, p, now).tiles, {})
      && Linked(after, h.dna + [p], if tail == NIL then p else head, p)
  {
    assert p + h.tiles[p].len <= h.zone && p !in h.dna && HeadedAt(mem, p, h.tiles[p]);
    QuarantineKeeps(h, p, now);
    QuarantineKeepsLinks(mem, h.dna, head, tail, p, h.tiles[p].len, now);
    QuarantineKeepsHeaders(mem, h.tiles, p, now, tail);
  }

  /** Taking the head off the queue. */
  lemma UnlinkHead(mem: seq<Cell>, dna: seq<nat>, head: nat, tail: nat)
    requires Linked(mem, dna, head, tail) && dna != []
    requires forall i, j | 0 <= i < j < |dna| :: dna[i] != dna[j]
    ensures head < |mem| && head == dna[0]
    ensures head == tail <==> |dna| == 1
    ensures if head == tail then Linked(mem, dna[1..], NIL, NIL) else Linked(mem, dna[1..], mem[head].next, tail)
  {
    if |dna| > 1 {
      assert mem[dna[0]].next == dna[1];
      assert dna[0] != dna[|dna| - 1];
    }
  }

  /** Writing size words leaves the links alone. */
  lemma ResizeKeepsLinks(mem: seq<Cell>, u: nat, w: Word, dna: seq<nat>, head: nat, tail: nat)
    requires Linked(mem, dna, head, tail) && u < |mem|
    ensures Linked(mem[u := mem[u].(size := w)], dna, head, tail)
  {
  }

  lemma FoldKeepsHeaders(mem: seq<Cell>, tiles: Tiles, a: nat, p: nat)
    requires Headed(mem, tiles, {}) && a <= p < |mem|
    ensures Headed(mem[p := mem[p].(size := 0)], Truncate(tiles, a), {})
  {
    hide Truncate, WordOf;
    var after := mem[p := mem[p].(size := 0)];
    forall s | s in Truncate(tiles, a)
      ensures HeadedAt(after, s, Truncate(tiles, a)[s])
    {
      assert HeadedAt(mem, s, tiles[s]);
    }
  }

  lemma JoinKeepsHeaders(mem: seq<Cell>, tiles: Tiles, p: nat, b: nat)
    requires Headed(mem, tiles, {}) && p < b && p < |mem| && b <= MAX_UNITS
    ensures Headed(FreeHeaderAt(mem, p, b - p), Put(tiles, p, b, Free(b - p)), {})
  {
    hide Put, FreeHeaderAt, HeadedAt;
    FreeHeaderWritten(mem, p, b - p);
    var r := Put(tiles, p, b, Free(b - p));
    forall s | s in r
      ensures HeadedAt(FreeHeaderAt(mem, p, b - p), s, r[s])
    {
      assert s != p ==> HeadedAt(mem, s, tiles[s]);
    }
  }

  /** The time stored in the head of the queue decides as Tick does. */
  lemma HeadTime(h: Heap, mem: seq<Cell>, head: nat, tail: nat)
    requires Inv(h) && Headed(mem, h.tiles, {}) && Linked(mem, h.dna, head, tail)
    ensures head == NIL <==> h.dna == []
    ensures h.dna != [] ==> head < |mem| && h.dna[0] in h.tiles && h.tiles[h.dna[0]].Quarantined?
                            && mem[head].timeAdded == h.tiles[h.dna[0]].time
  {
    assert h.dna != [] ==> h.dna[0] in h.dna && HeadedAt(mem, h.dna[0], h.tiles[h.dna[0]]);
  }

  /** What taking the head off the queue relies on. */
  lemma ReleaseReady(h: Heap, mem: seq<Cell>, head: nat, tail: nat)
    requires Inv(h) && h.dna != [] && h.zone <= MAX_UNITS && h.zone <= |mem|
    requires Headed(mem, h.tiles, {}) && Linked(mem, h.dna, head, tail)
    ensures var p := h.dna[0];
      && head == p && p in h.tiles && h.tiles[p].Quarantined? && HeadedAt(mem, p, h.tiles[p])
      && 0 < h.tiles[p].len && p + h.tiles[p].len <= h.zone && |h.lists| == NR_SIZES + 1
    ensures if head == tail then Linked(mem, h.dna[1..], NIL, NIL) else Linked(mem, h.dna[1..], mem[head].next, tail)
  {
    UnlinkHead(mem, h.dna, head, tail);
    assert h.dna[0] in h.dna;
  }

  /** The memory after the stores of insertFreeLocation for the block at p in the run up to b. */
  function InsertedMem(mem: seq<Cell>, zone: nat, p: nat, b: nat): seq<Cell>
    requires p < |mem| && p < b <= zone <= MAX_UNITS
  {
    if b >= zone then mem[p := mem[p].(size := 0)] else FreeHeaderAt(mem, p, b - p)
  }

  /** a and b are what the two scans of extendFreeLocation find around the head of the queue. */
  ghost predicate Measured(h: Heap, a: nat, b: nat)
  {
    && h.dna != [] && h.dna[0] in h.tiles
    && var p := h.dna[0];
       var after := h.used - Span(p, p + h.tiles[p].len);
       a == p - Backward(after, h.zone, p) && b == p + Forward(after, h.zone, p)
  }

  lemma ScansJoin(h: Heap, a: nat, b: nat)
    requires Joins(h, a, b)
    ensures Measured(h, a, b)
  {
  }

  /** The heap after the head of the queue joined the run [a, b). */
  ghost function Released(h: Heap, a: nat, b: nat): Heap
    requires h.dna != [] && h.dna[0] in h.tiles && a <= h.dna[0] < b && |h.lists| == NR_SIZES + 1
  {
    var p := h.dna[0];
    var freed := h.(used := h.used - Span(p, p + h.tiles[p].len), dna := h.dna[1..]);
    if b == h.zone then freed.(zone := a, tiles := Truncate(h.tiles, a))
    else freed.(tiles := Put(h.tiles, p, b, Free(b - p)), lists := PushBoth(h.lists, a, p, b))
  }

  /** What the stores of a release leave behind. */
  lemma ReleaseStores(h: Heap, mem: seq<Cell>, head: nat, tail: nat) returns (a: nat, b: nat)
    requires Inv(h) && h.dna != [] && h.zone <= MAX_UNITS && h.zone <= |mem|
    requires Headed(mem, h.tiles, {}) && Linked(mem, h.dna[1..], head, tail)
    ensures Inv(Release(h)) && a <= h.dna[0] < b <= h.zone && Measured(h, a, b) && |h.lists| == NR_SIZES + 1
    ensures Release(h) == Released(h, a, b)
    ensures Headed(InsertedMem(mem, h.zone, h.dna[0], b), Release(h).tiles, {})
    ensures Linked(InsertedMem(mem, h.zone, h.dna[0], b), h.dna[1..], head, tail)
  {
    hide Headed, Linked, HeaderOf, Neg, Inv, Release, Joins, Truncate, Put, FreeHeaderAt;
    ReleaseKeeps(h);
    a, b := HeadJoins(h);
    ListsLong(h);
    JoinsInside(h, a, b);
    ScansJoin(h, a, b);
    if b == h.zone {
      ReleaseIsFold(h, a);
      FoldKeepsHeaders(mem, h.tiles, a, h.dna[0]);
      ResizeKeepsLinks(mem, h.dna[0], 0, h.dna[1..], head, tail);
    } else {
      ReleaseIsJoin(h, a, b);
      JoinKeepsHeaders(mem, h.tiles, h.dna[0], b);
      SplitKeepsLinks(mem, FreeHeaderAt(mem, h.dna[0], b - h.dna[0]), h.dna[0], b - h.dna[0], h.dna[1..], head, tail);
    }
  }

  lemma LiveHeaderWritten(mem: seq<Cell>, tiles: Tiles, a: nat, w: Word)
    requires Headed(mem, tiles, {a}) && a in tiles && tiles[a].Live? && a < |mem|
    requires a <= MAX_UNITS && tiles[a].len <= MAX_UNITS && w == WordOf(a, tiles[a])
    ensures Headed(mem[a := mem[a].(size := w)], tiles, {})
  {
    hide WordOf;
    forall s | s in tiles
      ensures HeadedAt(mem[a := mem[a].(size := w)], s, tiles[s])
    {
      assert s != a ==> HeadedAt(mem, s, tiles[s]);
    }
  }

  // ---- what nvfree can tell from a header ----

  /** nvfree gives up on this word. */
  predicate Refused(u: nat, w: Word)
    requires u <= MAX_UNITS
  {
    !Positive(w) || !Sound(u, w)
  }

  lemma LiveIsAccepted(h: Heap, mem: seq<Cell>, u: nat)
    requires Inv(h) && h.zone <= MAX_UNITS && h.zone <= |mem| && Headed(mem, h.tiles, {}) && u < h.zone
    ensures u in h.tiles && h.tiles[u].Live? ==> !Refused(u, mem[u].size) && SizeOf(mem[u].size) == 64 * h.tiles[u].len
  {
    hide HeaderOf, Positive, Sound, SizeOf, Neg;
    if u in h.tiles && h.tiles[u].Live? {
      assert HeadedAt(mem, u, h.tiles[u]);
      WrittenWord(u, 64 * h.tiles[u].len);
    }
  }

  /** A block freed before is refused, as long as its header is still there. */
  lemma DoubleFreeRefused(h: Heap, mem: seq<Cell>, u: nat)
    requires Inv(h) && h.zone <= MAX_UNITS && h.zone <= |mem| && Headed(mem, h.tiles, {})
    requires u in h.tiles && !h.tiles[u].Live?
    ensures u < h.zone && Refused(u, mem[u].size)
  {
    hide HeaderOf, Positive, Negative, Sound, SizeOf, Neg;
    assert HeadedAt(mem, u, h.tiles[u]);
    WrittenWord(u, 64 * h.tiles[u].len);
    WrittenWord(u, 64 * h.tiles[u].len + 1);
    SignsExclude(mem[u].size);
  }

  // ---- the program's own stores ----

  lemma BlockInside(h: Heap, s: nat)
    requires Inv(h) && s in h.tiles
    ensures s + h.tiles[s].len <= h.zone
  {
  }

  lemma StoreInside(h: Heap, mem: seq<Cell>, head: nat, tail: nat, s: nat, u: nat, cell: Cell)
    requires Inv(h) && h.zone <= |mem| && Headed(mem, h.tiles, {}) && Linked(mem, h.dna, head, tail)
    requires s in h.tiles && h.tiles[s].Live? && s <= u < s + h.tiles[s].len
    requires u < |mem| && (u == s ==> cell.size == mem[u].size)
    ensures Headed(mem[u := cell], h.tiles, {}) && Linked(mem[u := cell], h.dna, head, tail)
  {
    hide WordOf, Linked, Coloured, HintsCover, TopInUse;
    forall t | t in h.tiles
      ensures HeadedAt(mem[u := cell], t, h.tiles[t])
    {
      assert HeadedAt(mem, t, h.tiles[t]);
    }
    StoreMissesQueue(h, s, u);
    StoreKeepsLinks(mem, h.dna, head, tail, u, cell);
  }

  lemma StoreMissesQueue(h: Heap, s: nat, u: nat)
    requires Inv(h) && s in h.tiles && h.tiles[s].Live? && s <= u < s + h.tiles[s].len
    ensures u !in h.dna
  {
  }

  lemma StoreKeepsLinks(mem: seq<Cell>, dna: seq<nat>, head: nat, tail: nat, u: nat, cell: Cell)
    requires Linked(mem, dna, head, tail) && u < |mem| && u !in dna
    ensures Linked(mem[u := cell], dna, head, tail)
  {
  }

  function SizeWords(mem: seq<Cell>): (w: seq<Word>)
    ensures |w| == |mem| && forall i | 0 <= i < |mem| :: w[i] == mem[i].size
  {
    seq(|mem|, i requires 0 <= i < |mem| => mem[i].size)
  }

  /** In bytes and in units, a size belongs to the same class. */
  lemma BestFitIsClass(size: nat)
    requires size > 0
    ensures GetBestFit(size) == Class((size + 64 - 1) / 64)
  {
  }

  /** One bit for every 64 bytes of the pages. */
  function BitmapBytes(pages: nat): (b: nat)
    ensures b == 8 * pages
  {
    pages * 4096 / 64 / 8
  }

  class NVMalloc {
    var bitmap: array<bv8>
    var mem: array<Cell>
    var freeZone: nat
    var endAddress: nat
    var nrPages: nat
    var freeLists: seq<seq<nat>>
    var dontAllocateHead: nat
    var dontAllocateTail: nat
    var dontAllocateWait: nat
    ghost var tiles: Tiles
    ghost var dna: seq<nat>
    ghost var clock: nat

    ghost function Used(): set<nat>
      reads this`bitmap, bitmap
    {
      Bitmap.UsedOf(bitmap[..])
    }

    ghost function Abs(): Heap
      reads this, bitmap
    {
      Heap(freeZone, endAddress, Used(), tiles, freeLists, dna, dontAllocateWait, clock)
    }

    ghost predicate Sized()
      reads this
    {
      && 8 * bitmap.Length == endAddress && mem.Length == endAddress && endAddress == 64 * nrPages
      && freeZone <= endAddress && freeZone <= MAX_UNITS
    }

    ghost predicate Valid()
      reads this, bitmap, mem
    {
      && Sized() && Inv(Abs())
      && Headed(mem[..], tiles, {}) && Linked(mem[..], dna, dontAllocateHead, dontAllocateTail)
    }

    // ---- the search ----

    /** The inner loop of getFreeLocation. */
    method PopHints(index: nat, n: nat) returns (location: nat, freeSpace: nat)
      requires Sized() && index < |freeLists| && freeLists[index] != []
      modifies this`freeLists
      ensures |freeLists| == |old(freeLists)|
      ensures freeLists == old(freeLists)[index := freeLists[index]]
      ensures (freeLists[index], location, freeSpace) == PopClass(old(freeLists)[index], Used(), freeZone, n)
    {
      hide PopClass, Forward, Backward, Bitmap.UsedOf;
      ghost var used := Used();
      ghost var goal := PopClass(freeLists[index], used, freeZone, n);
      location, freeSpace := 0, 0;
      var list := freeLists[index];
      var more := true;
      while more
        invariant Used() == used && |freeLists| == |old(freeLists)|
        invariant freeLists == old(freeLists)[index := list]
        invariant more ==> list != [] && PopClass(list, used, freeZone, n) == goal
        invariant !more ==> (list, location, freeSpace) == goal
        decreases |list| + if more then 1 else 0
      {
        var hint := list[0];
        assert list == [hint] + list[1..];
        list := list[1..];
        freeLists := freeLists[index := list];
        var forward := Bitmap.IsFreeForward(bitmap, hint, freeZone);
        var backSpace := Bitmap.IsFreeBackward(bitmap, hint, freeZone);
        freeSpace := forward + backSpace;
        location := hint - backSpace;
        PopClassUnfolds([hint] + list, used, freeZone, n);
        more := freeSpace < n && list != [];
      }
    }

    /** The outer loop of getFreeLocation, up to the point where a run is found. */
    method FindRun(first: nat, n: nat) returns (found: bool, location: nat, freeSpace: nat)
      requires Sized() && |freeLists| == NR_SIZES + 1
      modifies this`freeLists
      ensures |freeLists| == NR_SIZES + 1
      ensures Search(old(freeLists), Used(), freeZone, n, first)
           == if found then Found(freeLists, location, freeSpace) else Nothing(freeLists)
    {
      ghost var goal := Search(freeLists, Used(), freeZone, n, first);
      found, location, freeSpace := false, 0, 0;
      var index: nat := first;
      while !found && index <= NR_SIZES
        invariant |freeLists| == NR_SIZES + 1
        invariant !found ==> Search(freeLists, Used(), freeZone, n, index) == goal
        invariant found ==> goal == Found(freeLists, location, freeSpace)
        decreases !found, NR_SIZES + 1 - index, if index < |freeLists| then |freeLists[index]| else 0
      {
        if freeLists[index] == [] {
          index := index + 1;
          continue;
        }
        location, freeSpace := PopHints(index, n);
        if freeSpace >= n {
          found := true;
        }
      }
    }

    // ---- the headers of a free run ----

    /** Read and check the header of the free block at ptr. It reports unsound when the word has the
        wrong sign (a message in the source) or fails its checksum (an exit): neither can happen. */
    method ReadFreeHeader(ptr: nat) returns (sound: bool, crtSize: nat)
      requires Sized() && Headed(mem[..], tiles, {}) && ptr in tiles && tiles[ptr].Free? && tiles[ptr].len > 0
      ensures sound && crtSize == 64 * tiles[ptr].len
    {
      hide XorWord, XorGetSize, OffsetOf, Neg, Negative;
      var word := mem[ptr].size;
      assert word == mem[..][ptr].size;
      WrittenWord(ptr, 64 * tiles[ptr].len);
      sound, crtSize := true, 0;
      if !Negative(word) {
        sound := false;
      }
      var stored := XorGetSize(Neg(word));
      var check := XorCompute(OffsetOf(ptr), stored);
      if check != Neg(word) {
        sound := false;
        return;
      }
      crtSize := stored as int;
    }

    /** The header walk of getFreeLocation: it takes no corruption exit and its byte count never goes
        below zero. */
    method WalkHeaders(location: nat, freeSpace: nat, n: nat) returns (sound: bool, exactFit: bool)
      requires Sized() && Headed(mem[..], tiles, {}) && Tiled(tiles, freeZone) && 0 < n <= freeSpace
      requires FreeBlocksTile(tiles, freeZone, location, location + freeSpace)
      ensures sound && exactFit == ExactFit(tiles, location, freeSpace, n)
    {
      hide Headed, Tiled;
      var left: nat := 64 * freeSpace;
      var ptr: nat := location;
      sound, exactFit := true, false;
      while left > 0
        invariant sound && location <= ptr <= location + freeSpace && left == 64 * (location + freeSpace - ptr)
        invariant left > 0 ==> ptr in tiles
        invariant exactFit <==> location + n <= ptr && ExactFit(tiles, location, freeSpace, n)
      {
        WalkStep(tiles, freeZone, location, freeSpace, n, ptr);
        var ok, crtSize := ReadFreeHeader(ptr);
        if !ok {
          sound := false;
          return;
        }
        left := left - crtSize;
        ptr := ptr + crtSize / 64;
        if 64 * freeSpace - left == 64 * n {
          exactFit := true;
        }
      }
    }

    // ---- taking a block ----

    /** Append a hint to the list of its class. */
    method AddHint(units: nat, hint: nat)
      requires |freeLists| == NR_SIZES + 1 && units > 0
      modifies this`freeLists
      ensures freeLists == Push(old(freeLists), units, hint)
    {
      var index := GetBestFit(64 * units);
      freeLists := freeLists[index := freeLists[index] + [hint]];
    }

    method WriteFreeHeader(u: nat, units: nat)
      requires u < mem.Length && u <= MAX_UNITS && units <= MAX_UNITS
      modifies mem
      ensures mem[..] == FreeHeaderAt(old(mem[..]), u, units)
    {
      hide XorWord, OffsetOf, Neg;
      var word := XorCompute(OffsetOf(u), Bits32(64 * units));
      mem[u] := mem[u].(size := Neg(word));
    }

    /** The part of getFreeLocation that splits the run it found. */
    method SplitRun(location: nat, freeSpace: nat, n: nat)
      requires Sized() && Headed(mem[..], tiles, {}) && Tiled(tiles, freeZone) && 0 < n <= freeSpace
      requires location + freeSpace <= freeZone && |freeLists| == NR_SIZES + 1
      requires FreeBlocksTile(tiles, freeZone, location, location + freeSpace)
      modifies this`freeLists, this`tiles, mem
      ensures tiles == CarvedTiles(old(tiles), location, freeSpace, n)
      ensures freeLists == if freeSpace > n then Push(old(freeLists), freeSpace - n, location + n) else old(freeLists)
      ensures mem[..] == if ExactFit(old(tiles), location, freeSpace, n) then old(mem[..])
                         else FreeHeaderAt(old(mem[..]), location + n, freeSpace - n)
    {
      hide Headed, Tiled, CarvedTiles, Push, FreeHeaderAt, FreeBlocksTile;
      var sound, exactFit := WalkHeaders(location, freeSpace, n);
      if freeSpace > n {
        if !exactFit {
          WriteFreeHeader(location + n, freeSpace - n);
        }
        AddHint(freeSpace - n, location + n);
      }
      tiles := CarvedTiles(tiles, location, freeSpace, n);
    }

    /** Map more memory behind the end and grow the bitmap with zero bytes. */
    method GetMoreMemory(size: nat)
      requires Sized() && size % 64 == 0
      modifies this`bitmap, this`mem, this`endAddress, this`nrPages
      ensures Sized() && fresh(bitmap) && fresh(mem)
      ensures endAddress == old(endAddress) + 64 * NewPages(size / 64)
      ensures Used() == old(Used()) && old(mem[..]) <= mem[..]
    {
      hide Bitmap.UsedOf;
      var newPages := PagesFor(size);
      var grownMem := Remap(mem, 64 * newPages);
      var grownBitmap := Realloc(bitmap, BitmapBytes(newPages));
      mem := grownMem;
      bitmap := grownBitmap;
      nrPages := nrPages + newPages;
      endAddress := endAddress + 64 * newPages;
    }

    method TakeFromRun(location: nat, freeSpace: nat, n: nat)
      requires Sized() && 0 < n <= freeSpace && |freeLists| == NR_SIZES + 1 && Tiled(tiles, freeZone)
      requires Headed(mem[..], tiles, {}) && Linked(mem[..], dna, dontAllocateHead, dontAllocateTail)
      requires CarveReady(mem[..], tiles, freeZone, location, freeSpace, n)
      modifies this`freeLists, this`tiles, bitmap, mem
      ensures Sized() && Abs() == Carve(old(Abs()), old(freeLists), location, freeSpace, n)
      ensures Headed(mem[..], tiles, {location}) && Linked(mem[..], dna, dontAllocateHead, dontAllocateTail)
    {
      hide Bitmap.UsedOf, Headed, Tiled, CarvedTiles, Push, FreeBlocksTile, Linked, FreeHeaderAt, Span;
      ghost var before := mem[..];
      SplitRun(location, freeSpace, n);
      SplitKeepsLinks(before, mem[..], location + n, freeSpace - n, dna, dontAllocateHead, dontAllocateTail);
      Bitmap.MakeOne(bitmap, location, n);
    }

    method TakeFromTop(n: nat) returns (location: nat)
      requires Sized() && Tiled(tiles, freeZone) && n > 0 && freeZone + n <= MAX_UNITS
      requires Headed(mem[..], tiles, {}) && Linked(mem[..], dna, dontAllocateHead, dontAllocateTail)
      modifies this`freeZone, this`endAddress, this`nrPages, this`bitmap, this`mem, this`tiles, bitmap
      ensures Sized() && Abs() == Extend(old(Abs()), freeLists, n) && location == old(freeZone)
      ensures Headed(mem[..], tiles, {location}) && Linked(mem[..], dna, dontAllocateHead, dontAllocateTail)
      ensures bitmap == old(bitmap) || fresh(bitmap)
      ensures mem == old(mem) || fresh(mem)
    {
      hide Bitmap.UsedOf, Tiled, Linked, Headed, NewPages, Span;
      ghost var before := mem[..];
      location := freeZone;
      if freeZone + n > endAddress {
        GetMoreMemory(64 * n);
      }
      assert before <= mem[..];
      ExtendKeepsHeaders(before, mem[..], tiles, location, n);
      GrowKeepsLinks(before, mem[..], dna, dontAllocateHead, dontAllocateTail);
      freeZone := freeZone + n;
      tiles := tiles[location := Live(n)];
      Bitmap.MakeOne(bitmap, location, n);
      assert Used() == old(Used()) + Span(location, location + n);
    }

    /** The part of getFreeLocation after the sizes are known. */
    method TakeUnits(index: nat, n: nat) returns (location: nat)
      requires Sized() && Tiled(tiles, freeZone) && Coloured(tiles, Used(), freeZone) && TopInUse(Used(), freeZone)
      requires Headed(mem[..], tiles, {}) && Linked(mem[..], dna, dontAllocateHead, dontAllocateTail)
      requires |freeLists| == NR_SIZES + 1 && n > 0 && index == Class(n) && freeZone + n <= MAX_UNITS
      modifies this`freeLists, this`freeZone, this`endAddress, this`nrPages, this`bitmap, this`mem, this`tiles, bitmap, mem
      ensures (Abs(), location) == Take(old(Abs()), n) && Sized()
      ensures Headed(mem[..], tiles, {location}) && Linked(mem[..], dna, dontAllocateHead, dontAllocateTail)
      ensures bitmap == old(bitmap) || fresh(bitmap)
      ensures mem == old(mem) || fresh(mem)
    {
      hide Bitmap.UsedOf, Headed, Linked, Tiled, Coloured, TopInUse, Search, Carve, Extend, CarveReady, IsRun, Take;
      ghost var h := Abs();
      SearchYieldsRun(freeLists, Used(), freeZone, n, index);
      var found, run, freeSpace := FindRun(index, n);
      assert Abs() == h.(lists := freeLists);
      TakeCases(h, n);
      if found {
        RunIsCarveReady(mem[..], tiles, Used(), freeZone, run, freeSpace, n);
        location := run;
        TakeFromRun(run, freeSpace, n);
      } else {
        location := TakeFromTop(n);
      }
    }

    /** The sizes getFreeLocation works with: the class of the request and the size it takes up. */
    method RoundUp(size: nat) returns (index: nat, actSize: nat)
      requires size > 0
      ensures actSize % 64 == 0 && size <= actSize < size + 64
      ensures index == Class(actSize / 64)
    {
      index := GetBestFit(size);
      if index < NR_SIZES {
        actSize := (index + 1) * 64;
      } else if size % 64 != 0 {
        actSize := size / 64 * 64 + 64;
      } else {
        actSize := size;
      }
    }

    /** getFreeLocation on a size in bytes, header included. */
    method GetFreeLocation(size: nat) returns (location: nat, actSize: nat)
      requires Valid() && size > 0 && freeZone + (size + 64 - 1) / 64 <= MAX_UNITS
      modifies this`freeLists, this`freeZone, this`endAddress, this`nrPages, this`bitmap, this`mem, this`tiles, bitmap, mem
      ensures actSize % 64 == 0 && size <= actSize < size + 64
      ensures (Abs(), location) == Take(old(Abs()), actSize / 64) && Inv(Abs()) && Sized()
      ensures Headed(mem[..], tiles, {location}) && Linked(mem[..], dna, dontAllocateHead, dontAllocateTail)
      ensures bitmap == old(bitmap) || fresh(bitmap)
      ensures mem == old(mem) || fresh(mem)
    {
      hide Take, Bitmap.UsedOf, Headed, Linked, Class;
      var index;
      index, actSize := RoundUp(size);
      TakeKeeps(Abs(), actSize / 64);
      location := TakeUnits(index, actSize / 64);
    }

    // ---- giving a block back ----

    /** The stores of putInDNAList. */
    method MarkAndLink(location: nat, ghost len: nat, size: nat, now: nat)
      requires location < mem.Length && location <= MAX_UNITS && len <= MAX_UNITS && size == 64 * len
      requires dontAllocateTail == NIL || dontAllocateTail < mem.Length
      modifies this`dontAllocateHead, this`dontAllocateTail, mem
      ensures mem[..] == QuarantinedMem(old(mem[..]), location, len, now, old(dontAllocateTail))
      ensures dontAllocateHead == if old(dontAllocateTail) == NIL then location else old(dontAllocateHead)
      ensures dontAllocateTail == location
    {
      hide XorWord, OffsetOf, Neg;
      var marked := XorCompute(OffsetOf(location), Bits32(size + 1));
      mem[location] := mem[location].(size := Neg(marked), timeAdded := now);
      if dontAllocateTail == NIL {
        dontAllocateHead := location;
        dontAllocateTail := location;
      } else {
        mem[dontAllocateTail] := mem[dontAllocateTail].(next := location);
        dontAllocateTail := location;
      }
    }

    /** The header of the live block at u says what it should. */
    method CheckLive(u: nat, size: nat) returns (sound: bool)
      requires u in tiles && tiles[u].Live? && size == 64 * tiles[u].len && HeadedAt(mem[..], u, tiles[u])
      ensures sound
    {
      hide XorWord, OffsetOf;
      assert mem[..][u] == mem[u];
      var check := XorCompute(OffsetOf(u), Bits32(size));
      sound := mem[u].size == check;
    }

    /** putInDNAList: mark the block and link it behind the tail. It reports unsound when the header of the
        live block does not check out (a message in the source), which cannot happen. */
    method PutInDNAList(location: nat, size: nat, now: nat) returns (sound: bool)
      requires Valid() && clock <= now
      requires location in tiles && tiles[location].Live? && size == 64 * tiles[location].len
      modifies this`dontAllocateHead, this`dontAllocateTail, this`tiles, this`dna, this`clock, mem
      ensures sound && Valid() && Abs() == Quarantine(old(Abs()), location, now)
    {
      hide Inv, Headed, Linked, Bitmap.UsedOf, HeadedAt, QuarantinedMem;
      ghost var before := mem[..];
      ghost var len := tiles[location].len;
      QuarantineStores(Abs(), before, dontAllocateHead, dontAllocateTail, location, now);
      sound := CheckLive(location, size);
      MarkAndLink(location, len, size, now);
      tiles := tiles[location := Quarantined(len, now)];
      dna := dna + [location];
      clock := now;
    }

    /** extendFreeLocation: clear the block's bits and measure the free run it lies in. */
    method ExtendFreeLocation(location: nat, len: nat) returns (forward: nat, total: nat)
      requires Sized() && location + len <= freeZone
      modifies bitmap
      ensures Used() == old(Used()) - Span(location, location + len)
      ensures forward == Forward(Used(), freeZone, location)
      ensures total == forward + Backward(Used(), freeZone, location)
    {
      hide Bitmap.UsedOf, Forward, Backward;
      Bitmap.MakeZero(bitmap, location, len);
      forward := Bitmap.IsFreeForward(bitmap, location, freeZone);
      var back := Bitmap.IsFreeBackward(bitmap, location, freeZone);
      total := forward + back;
    }

    /** insertFreeLocation: fold the run into the top, or write one header for the block and what lies in
        front of it and leave hints. */
    method InsertFreeLocation(location: nat, forward: nat, total: nat)
      requires Sized() && |freeLists| == NR_SIZES + 1 && location < freeZone
      requires 0 < forward <= total <= location + forward && location + forward <= MAX_UNITS
      modifies this`freeZone, this`freeLists, mem
      ensures location + forward >= old(freeZone) ==>
        && freeZone == location + forward - total && freeLists == old(freeLists)
        && mem[..] == old(mem[..])[location := old(mem[location]).(size := 0)]
      ensures location + forward < old(freeZone) ==>
        && freeZone == old(freeZone)
        && freeLists == PushBoth(old(freeLists), location + forward - total, location, location + forward)
        && mem[..] == FreeHeaderAt(old(mem[..]), location, forward)
    {
      hide FreeHeaderAt, Push;
      if location + forward >= freeZone && location < freeZone {
        freeZone := location + forward - total;
        mem[location] := mem[location].(size := 0);
        return;
      }
      WriteFreeHeader(location, forward);
      AddHint(total, location + forward - total);
      if forward != total {
        AddHint(forward, location);
      }
    }

    /** Read and check the header of a quarantined block: it stores the size plus one. */
    method ReadQuarantined(u: nat) returns (sound: bool, size: nat)
      requires u in tiles && tiles[u].Quarantined? && tiles[u].len > 0 && HeadedAt(mem[..], u, tiles[u])
      ensures sound && size == 64 * tiles[u].len
    {
      hide XorWord, XorGetSize, OffsetOf, Neg;
      var word := mem[u].size;
      assert word == mem[..][u].size;
      WrittenWord(u, 64 * tiles[u].len + 1);
      var stored := XorGetSize(Neg(word));
      var check := XorCompute(OffsetOf(u), stored);
      sound := word == Neg(check);
      size := stored as int - 1;
    }

    /** Take the head off the queue. */
    method UnlinkHeadBlock() returns (location: nat)
      requires dontAllocateHead < mem.Length
      modifies this`dontAllocateHead, this`dontAllocateTail
      ensures location == old(dontAllocateHead)
      ensures if location == old(dontAllocateTail) then dontAllocateHead == NIL && dontAllocateTail == NIL
              else dontAllocateHead == mem[..][location].next && dontAllocateTail == old(dontAllocateTail)
    {
      location := dontAllocateHead;
      if dontAllocateHead == dontAllocateTail {
        dontAllocateHead := NIL;
        dontAllocateTail := NIL;
      } else {
        dontAllocateHead := mem[location].next;
      }
    }

    /** Unlink the head of the queue, read its size, clear its bits and measure the run it joins. */
    method MeasureHead() returns (sound: bool, location: nat, forward: nat, total: nat)
      requires Valid() && dna != []
      modifies this`dontAllocateHead, this`dontAllocateTail, bitmap
      ensures sound && location == dna[0] && location in tiles
      ensures Linked(mem[..], dna[1..], dontAllocateHead, dontAllocateTail)
      ensures Used() == old(Used()) - Span(location, location + tiles[location].len)
      ensures forward == Forward(Used(), freeZone, location)
      ensures total == forward + Backward(Used(), freeZone, location)
    {
      hide Inv, Headed, Linked, HeadedAt, Bitmap.UsedOf, Forward, Backward;
      ReleaseReady(Abs(), mem[..], dontAllocateHead, dontAllocateTail);
      location := UnlinkHeadBlock();
      var size;
      sound, size := ReadQuarantined(location);
      forward, total := ExtendFreeLocation(location, size / 64);
    }

    /** The part of incrementTime that releases the head of the queue. */
    method ReleaseHead() returns (sound: bool)
      requires Valid() && dna != []
      modifies this`dontAllocateHead, this`dontAllocateTail, this`freeZone, this`freeLists, this`tiles, this`dna, bitmap, mem
      ensures sound && Valid() && Abs() == Release(old(Abs()))
    {
      hide Inv, Headed, Linked, Bitmap.UsedOf, FreeHeaderAt, PushBoth, Release, Truncate, Put, Forward, Backward;
      ghost var h := Abs();
      ghost var before := mem[..];
      var location, forward, total;
      sound, location, forward, total := MeasureHead();
      assert mem[..] == before;
      ghost var a, b := ReleaseStores(h, before, dontAllocateHead, dontAllocateTail);
      InsertFreeLocation(location, forward, total);
      tiles := Released(h, a, b).tiles;
      dna := dna[1..];
      assert mem[..] == InsertedMem(before, h.zone, location, b);
    }

    /** incrementTime, when the tick counter reads `now`. */
    method IncrementTime(now: nat) returns (sound: bool)
      requires Valid() && clock <= now
      modifies this`dontAllocateHead, this`dontAllocateTail, this`freeZone, this`freeLists, this`tiles, this`dna, this`clock
      modifies bitmap, mem
      ensures sound && Valid() && Abs() == Tick(old(Abs()), now)
      ensures old(dna) != [] ==> old(dna)[0] in old(tiles) && old(tiles)[old(dna)[0]].Quarantined?
      ensures dna == if old(dna) != [] && old(tiles)[old(dna)[0]].time + dontAllocateWait <= now then old(dna)[1..]
                     else old(dna)
    {
      hide Inv, Headed, Linked, Bitmap.UsedOf, Release;
      ghost var h := Abs();
      HeadIsQuarantined(h);
      TickReleases(h, now);
      HeadTime(h, mem[..], dontAllocateHead, dontAllocateTail);
      LaterKeeps(h, now);
      clock := now;
      sound := true;
      if dontAllocateHead == NIL {
        return;
      }
      if now >= mem[dontAllocateHead].timeAdded + dontAllocateWait {
        sound := ReleaseHead();
      }
    }

    // ---- the interface ----

    /** nvmalloc: the byte offset handed out, past the header. */
    method Malloc(size: nat, now: nat) returns (addr: nat)
      requires Valid() && clock <= now && freeZone + UnitsFor(size) <= MAX_UNITS
      modifies this, bitmap, mem
      ensures Valid() && (bitmap == old(bitmap) || fresh(bitmap)) && (mem == old(mem) || fresh(mem))
      ensures (Abs(), addr / 64) == MallocStep(old(Abs()), size, now) && addr % 64 == 8
    {
      hide Inv, Take, Tick, Headed, Linked, Bitmap.UsedOf;
      var location, actualSize := GetFreeLocation(size + 8);
      assert actualSize / 64 == UnitsFor(size);
      TakenBlock(old(Abs()), UnitsFor(size));
      WriteLiveHeader(location, actualSize);
      ghost var h := Abs();
      var sound := IncrementTime(now);
      addr := 64 * location + 8;
    }

    method WriteLiveHeader(location: nat, size: nat)
      requires Sized() && Headed(mem[..], tiles, {location}) && Linked(mem[..], dna, dontAllocateHead, dontAllocateTail)
      requires location < freeZone && location in tiles && size % 64 == 0 && tiles[location] == Live(size / 64)
      requires size <= 64 * MAX_UNITS
      modifies mem
      ensures Headed(mem[..], tiles, {}) && Linked(mem[..], dna, dontAllocateHead, dontAllocateTail)
    {
      hide Headed, Linked, XorWord, OffsetOf;
      ghost var before := mem[..];
      var word := XorCompute(OffsetOf(location), Bits32(size));
      mem[location] := mem[location].(size := word);
      assert mem[..] == before[location := before[location].(size := word)];
      LiveHeaderWritten(before, tiles, location, word);
      ResizeKeepsLinks(before, location, word, dna, dontAllocateHead, dontAllocateTail);
    }

    /** The checks of nvfree on the word in front of the address, and the size it stores. */
    method CheckHeader(u: nat) returns (ok: bool, size: nat)
      requires u < mem.Length && u <= MAX_UNITS
      ensures ok <==> !Refused(u, mem[u].size)
      ensures ok ==> size == SizeOf(mem[u].size)
    {
      hide XorWord, XorGetSize, OffsetOf, Positive;
      ok, size := true, 0;
      var word := mem[u].size;
      if !Positive(word) {
        ok := false;
        return;
      }
      var stored := XorGetSize(word);
      size := stored as int;
      var check := XorCompute(OffsetOf(u), stored);
      if check != word {
        ok := false;
      }
    }

    /** nvfree. It gives up (an exit in the source) on a header that does not check out. The caller may pass
        a live block, or any address whose header gives it away. */
    method Free(addr: nat, t1: nat, t2: nat) returns (ok: bool)
      requires Valid() && clock <= t1 <= t2 && addr % 64 == 8 && addr / 64 < freeZone
      requires (addr / 64 in tiles && tiles[addr / 64].Live?) || Refused(addr / 64, mem[addr / 64].size)
      modifies this`dontAllocateHead, this`dontAllocateTail, this`freeZone, this`freeLists, this`tiles, this`dna, this`clock
      modifies bitmap, mem
      ensures Valid() && (ok <==> addr / 64 in old(tiles) && old(tiles)[addr / 64].Live?)
      ensures !ok ==> Abs() == old(Abs()) && mem[..] == old(mem[..])
      ensures ok ==> Abs() == FreeStep(old(Abs()), addr / 64, t1, t2)
    {
      hide Inv, Headed, Linked, Bitmap.UsedOf, Tick, Refused, SizeOf, HeadedAt;
      var location := addr / 64;
      LiveIsAccepted(Abs(), mem[..], location);
      var size;
      ok, size := CheckHeader(location);
      if ok {
        var sound := PutInDNAList(location, size, t1);
        sound := IncrementTime(t2);
      }
    }

    // ---- around the allocator ----

    /** nvmalloc_init */
    constructor (nrPages: nat, freeWait: nat, now: nat)
      ensures Valid() && fresh(bitmap) && fresh(mem)
      ensures Abs() == Empty(nrPages, freeWait, now)
      ensures freeZone == 0 && endAddress == 64 * nrPages && dontAllocateWait == freeWait && dna == [] && Used() == {}
      ensures |freeLists| == 65 && forall i | 0 <= i < 65 :: freeLists[i] == []
    {
      bitmap := new bv8[8 * nrPages](_ => 0);
      mem := new Cell[64 * nrPages];
      freeZone, endAddress, this.nrPages := 0, 64 * nrPages, nrPages;
      freeLists := seq(NR_SIZES + 1, _ => []);
      dontAllocateHead, dontAllocateTail, dontAllocateWait := NIL, NIL, freeWait;
      tiles, dna, clock := map[], [], now;
      new;
      Bitmap.GrowBitmap([], bitmap[..]);
      EmptyKeeps(nrPages, freeWait, now);
    }

    /** The program writes to a live block it owns: anything but the header word. */
    method Store(s: nat, u: nat, cell: Cell)
      requires Valid() && s in tiles && tiles[s].Live? && s <= u < s + tiles[s].len
      requires u == s ==> cell.size == mem[u].size
      modifies mem
      ensures Valid() && Abs() == old(Abs()) && mem[..] == old(mem[..])[u := cell]
    {
      hide Inv, Headed, Linked, Bitmap.UsedOf;
      BlockInside(Abs(), s);
      StoreInside(Abs(), mem[..], dontAllocateHead, dontAllocateTail, s, u, cell);
      ghost var before := mem[..];
      mem[u] := cell;
      assert mem[..] == before[u := cell];
    }

    /** Whatever the program did to its blocks, the header words alone rebuild the bitmap and account for
        every unit below free_zone. */
    lemma HeadersRebuildBitmap()
      requires Valid()
      ensures var r := Scan(SizeWords(mem[..]), 0, freeZone);
        r.Recovered? && r.used == Used() && Totals(r, tiles, 0, freeZone)
    {
      hide WordOf;
      forall s | s in tiles
        ensures SizeWords(mem[..])[s] == WordOf(s, tiles[s])
      {
        assert HeadedAt(mem[..], s, tiles[s]);
      }
      ScanRebuildsBitmap(SizeWords(mem[..]), tiles, Used(), freeZone);
    }
  }

  method PagesFor(size: nat) returns (newPages: nat)
    requires size % 64 == 0
    ensures newPages == NewPages(size / 64)
  {
    newPages := NEW_ALLOC_PAGES;
    while size > newPages * 4096
      invariant NEW_ALLOC_PAGES <= newPages <= NewPages(size / 64)
    {
      newPages := newPages + 1;
    }
  }

  /** The mapping in place of `more` units behind the old ones; the new memory holds anything. */
  method Remap(mem: array<Cell>, more: nat) returns (grown: array<Cell>)
    ensures fresh(grown) && grown.Length == mem.Length + more && mem[..] <= grown[..]
  {
    grown := new Cell[mem.Length + more];
    forall i | 0 <= i < mem.Length {
      grown[i] := mem[i];
    }
  }

  method Realloc(bitmap: array<bv8>, more: nat) returns (grown: array<bv8>)
    ensures fresh(grown) && grown.Length == bitmap.Length + more
    ensures Bitmap.UsedOf(grown[..]) == Bitmap.UsedOf(bitmap[..])
  {
    hide Bitmap.UsedOf;
    grown := new bv8[bitmap.Length + more];
    forall i | 0 <= i < bitmap.Length {
      grown[i] := bitmap[i];
    }
    forall i | bitmap.Length <= i < grown.Length {
      grown[i] := 0;
    }
    Bitmap.GrowBitmap(bitmap[..], grown[..]);
  }
}
