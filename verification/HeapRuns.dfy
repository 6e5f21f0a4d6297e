/** Whole runs of NVMalloc: any sequence of requests and frees from the empty heap. */
module HeapRuns {
  import opened Tiling
  import opened HeapSpec
  import opened HeapLaws

  /** The number of units a request of `size` bytes takes, its 8-byte header included. */
  function UnitsFor(size: nat): (n: nat)
    ensures 64 * n >= size + 8 && 64 * n < size + 8 + 64
  {
    (size + 8 + 63) / 64
  }

  /** nvmalloc, when the tick counter then reads `now`: the new heap and the unit of the block. */
  function MallocStep(h: Heap, size: nat, now: nat): (Heap, nat)
    requires Inv(h) && h.clock <= now
  {
    TakeKeeps(h, UnitsFor(size));
    TakenBlock(h, UnitsFor(size));
    var (r, a) := Take(h, UnitsFor(size));
    (Tick(r, now), a)
  }

  /** nvfree of the live block at p; the tick counter reads t1 when the block is queued and t2 after. */
  function FreeStep(h: Heap, p: nat, t1: nat, t2: nat): Heap
    requires Inv(h) && h.clock <= t1 <= t2 && p in h.tiles && h.tiles[p].Live?
  {
    QuarantineKeeps(h, p, t1);
    Tick(Quarantine(h, p, t1), t2)
  }

  // ---- what one call does to the blocks in use ----

  function InUse(tiles: Tiles): (r: Tiles)
    ensures forall s :: s in r <==> s in tiles && !tiles[s].Free?
    ensures forall s | s in r :: r[s] == tiles[s]
  {
    map s | s in tiles && !tiles[s].Free? :: tiles[s]
  }

  function LiveBlocks(tiles: Tiles): (r: map<nat, nat>)
    ensures forall s :: s in r <==> s in tiles && tiles[s].Live?
    ensures forall s | s in r :: r[s] == tiles[s].len
  {
    map s | s in tiles && tiles[s].Live? :: tiles[s].len
  }

  /** Taking a block adds it to the blocks in use and changes no other. */
  lemma TakeAdds(h: Heap, n: nat)
    requires Inv(h) && n > 0
    ensures var (r, a) := Take(h, n);
      a !in InUse(h.tiles) && InUse(r.tiles) == InUse(h.tiles)[a := Live(n)]
  {
    hide IsRun, CarvedTiles, Coloured, Search, Class;
    var f := Search(h.lists, h.used, h.zone, n, Class(n));
    SearchYieldsRun(h.lists, h.used, h.zone, n, Class(n));
    if f.Found? {
      CarveAdds(h.tiles, h.used, h.zone, f.start, f.len, n);
    }
  }

  lemma CarveAdds(tiles: Tiles, used: set<nat>, zone: nat, a: nat, m: nat, n: nat)
    requires 0 < n <= m
    requires Tiled(tiles, zone) && Coloured(tiles, used, zone) && IsRun(used, zone, a, a + m)
    ensures a !in InUse(tiles) && InUse(CarvedTiles(tiles, a, m, n)) == InUse(tiles)[a := Live(n)]
  {
    hide CarvedTiles, Tiled, Coloured, IsRun;
    var r := CarvedTiles(tiles, a, m, n);
    RunIsTiled(tiles, used, zone, a, a + m);
    forall s: nat
      ensures s in InUse(r) <==> s in InUse(tiles) || s == a
      ensures s in InUse(r) && s != a ==> r[s] == tiles[s]
    {
      CarvedBlocks(tiles, used, zone, a, m, n, s);
    }
    CarvedBlocks(tiles, used, zone, a, m, n, a);
  }

  /** Releasing the head of the queue takes that block, and no other, out of the blocks in use. */
  lemma ReleaseRemoves(h: Heap)
    requires Inv(h) && h.dna != []
    ensures InUse(Release(h).tiles) == InUse(h.tiles) - {h.dna[0]}
    ensures Release(h).clock == h.clock && Release(h).wait == h.wait && Release(h).dna == h.dna[1..]
  {
    hide Inv, Release, Joins, Put, Truncate;
    var a, b := HeadJoins(h);
    JoinedRun(h, a, b);
    if b == h.zone {
      ReleaseIsFold(h, a);
    } else {
      ReleaseIsJoin(h, a, b);
    }
  }

  /** The part of JoinedBlocks a release needs. */
  lemma JoinedRun(h: Heap, a: nat, b: nat)
    requires Inv(h) && Joins(h, a, b)
    ensures a <= h.dna[0] < b <= h.zone && h.dna[0] in h.tiles && h.tiles[h.dna[0]].Quarantined?
    ensures forall s | s in h.tiles && a <= s < b && s != h.dna[0] :: h.tiles[s].Free?
    ensures forall s | s in h.tiles :: s < h.zone
  {
    JoinedBlocks(h, a, b);
  }

  /** The clock moves on, and the head of the queue leaves it exactly when its time is up. */
  lemma TickRemoves(h: Heap, now: nat)
    requires Inv(h) && h.clock <= now
    ensures h.dna != [] ==> h.dna[0] in h.tiles && h.tiles[h.dna[0]].Quarantined?
    ensures var r := Tick(h, now);
      && r.clock == now && r.wait == h.wait
      && InUse(r.tiles) == (if h.dna != [] && h.tiles[h.dna[0]].time + h.wait <= now then InUse(h.tiles) - {h.dna[0]}
                            else InUse(h.tiles))
  {
    var later := h.(clock := now);
    LaterKeeps(h, now);
    HeadIsQuarantined(h);
    if h.dna != [] && now >= h.tiles[h.dna[0]].time + h.wait {
      ReleaseRemoves(later);
    }
  }

  // ---- runs ----

  datatype Op = Malloc(size: nat, now: nat) | Return(p: nat, t1: nat, t2: nat)

  /** The clock never goes back, and only live blocks are freed. */
  predicate Enabled(h: Heap, op: Op)
  {
    match op
    case Malloc(_, now) => h.clock <= now
    case Return(p, t1, t2) => h.clock <= t1 <= t2 && p in h.tiles && h.tiles[p].Live?
  }

  function Step(h: Heap, op: Op): (r: Heap)
    requires Inv(h) && Enabled(h, op)
    ensures Inv(r)
  {
    match op
    case Malloc(size, now) =>
      TakeKeeps(h, UnitsFor(size));
      TakenBlock(h, UnitsFor(size));
      TickKeeps(Take(h, UnitsFor(size)).0, now);
      MallocStep(h, size, now).0
    case Return(p, t1, t2) =>
      QuarantineKeeps(h, p, t1);
      TickKeeps(Quarantine(h, p, t1), t2);
      FreeStep(h, p, t1, t2)
  }

  ghost predicate Legal(h: Heap, ops: seq<Op>)
    requires Inv(h)
    decreases |ops|
  {
    ops == [] || (Enabled(h, ops[0]) && Legal(Step(h, ops[0]), ops[1..]))
  }

  function Run(h: Heap, ops: seq<Op>): (r: Heap)
    requires Inv(h) && Legal(h, ops)
    ensures Inv(r)
    decreases |ops|
  {
    if ops == [] then h else Run(Step(h, ops[0]), ops[1..])
  }

  // ---- allocation safety ----

  /** Every request gets a block of its own: big enough, inside the heap, apart from every block that is
      live or still quarantined. The live blocks are the old ones and the new one. */
  lemma MallocIsSafe(h: Heap, size: nat, now: nat)
    requires Inv(h) && h.clock <= now
    ensures var (r, a) := MallocStep(h, size, now);
      var n := UnitsFor(size);
      && (forall s | s in InUse(h.tiles) :: s + h.tiles[s].len <= a || a + n <= s)
      && a !in LiveBlocks(h.tiles) && LiveBlocks(r.tiles) == LiveBlocks(h.tiles)[a := n]
      && size + 8 <= 64 * n && a + n <= r.zone <= r.end
  {
    hide Take, Tick, Inv;
    ListsLong(h);
    var n := UnitsFor(size);
    var (t, a) := Take(h, n);
    TakeKeeps(h, n);
    TakeAdds(h, n);
    TakenBlock(h, n);
    BlocksApart(t, a);
    TickRemoves(t, now);
    TickKeeps(t, now);
    TickKeepsLive(t, now);
    LiveOfInUse(h.tiles, t.tiles, a, n);
    assert a in LiveBlocks(Tick(t, now).tiles) && LiveBlocks(Tick(t, now).tiles)[a] == n;
    BlocksApart(Tick(t, now), a);
    assert forall s | s in InUse(h.tiles) :: s in InUse(t.tiles) && t.tiles[s] == h.tiles[s] && s != a;
  }

  lemma BlocksApart(h: Heap, a: nat)
    requires Inv(h) && a in InUse(h.tiles)
    ensures forall s | s in InUse(h.tiles) && s != a :: s + h.tiles[s].len <= a || a + h.tiles[a].len <= s
    ensures a + h.tiles[a].len <= h.zone <= h.end
  {
  }

  lemma LiveOfInUse(tiles: Tiles, r: Tiles, a: nat, n: nat)
    requires InUse(r) == InUse(tiles)[a := Live(n)]
    ensures LiveBlocks(r) == LiveBlocks(tiles)[a := n]
  {
    assert forall s :: s in LiveBlocks(r) <==> s in InUse(r) && InUse(r)[s].Live?;
    assert forall s :: s in LiveBlocks(tiles) <==> s in InUse(tiles) && InUse(tiles)[s].Live?;
  }

  lemma TickKeepsLive(h: Heap, now: nat)
    requires Inv(h) && h.clock <= now
    ensures LiveBlocks(Tick(h, now).tiles) == LiveBlocks(h.tiles)
  {
    hide Inv, Tick;
    TickRemoves(h, now);
    HeadIsQuarantined(h);
    LiveAfterRemoval(h.tiles, Tick(h, now).tiles, h.dna);
  }

  lemma HeadIsQuarantined(h: Heap)
    requires Inv(h)
    ensures h.dna != [] ==> h.dna[0] in h.tiles && h.tiles[h.dna[0]].Quarantined?
  {
    assert h.dna != [] ==> h.dna[0] in h.dna;
  }

  lemma LiveAfterRemoval(tiles: Tiles, r: Tiles, dna: seq<nat>)
    requires dna != [] ==> dna[0] in tiles && tiles[dna[0]].Quarantined?
    requires InUse(r) == InUse(tiles) || (dna != [] && InUse(r) == InUse(tiles) - {dna[0]})
    ensures LiveBlocks(r) == LiveBlocks(tiles)
  {
    forall s: nat
      ensures s in LiveBlocks(r) <==> s in LiveBlocks(tiles)
      ensures s in LiveBlocks(r) ==> r[s] == tiles[s]
    {
      assert s in LiveBlocks(r) <==> s in InUse(r) && InUse(r)[s].Live?;
      assert s in LiveBlocks(tiles) <==> s in InUse(tiles) && InUse(tiles)[s].Live?;
    }
  }

  /** A free takes that block, and no other, out of the live ones. */
  lemma FreeIsSafe(h: Heap, p: nat, t1: nat, t2: nat)
    requires Inv(h) && h.clock <= t1 <= t2 && p in h.tiles && h.tiles[p].Live?
    ensures LiveBlocks(FreeStep(h, p, t1, t2).tiles) == LiveBlocks(h.tiles) - {p}
  {
    hide Tiled, Coloured, HintsCover, Tick;
    QuarantineKeeps(h, p, t1);
    TickKeepsLive(Quarantine(h, p, t1), t2);
  }

  /** The ledger a caller could keep of its own blocks: what it was given and has not returned. */
  function Ledger(owned: map<nat, nat>, h: Heap, ops: seq<Op>): map<nat, nat>
    requires Inv(h) && Legal(h, ops)
    decreases |ops|
  {
    if ops == [] then owned
    else
      var next := match ops[0]
        case Malloc(size, now) => owned[MallocStep(h, size, now).1 := UnitsFor(size)]
        case Return(p, _, _) => owned - {p};
      Ledger(next, Step(h, ops[0]), ops[1..])
  }

  /** Over every run the allocator's live blocks are exactly the callers' ledger. */
  lemma {:induction false} LiveBlocksAreTheLedger(h: Heap, ops: seq<Op>)
    requires Inv(h) && Legal(h, ops)
    ensures LiveBlocks(Run(h, ops).tiles) == Ledger(LiveBlocks(h.tiles), h, ops)
    decreases |ops|
  {
    if ops != [] {
      match ops[0] {
        case Malloc(size, now) => MallocIsSafe(h, size, now);
        case Return(p, t1, t2) => FreeIsSafe(h, p, t1, t2);
      }
      LiveBlocksAreTheLedger(Step(h, ops[0]), ops[1..]);
    }
  }

  // ---- quarantine over runs ----

  lemma StepKeepsQuarantine(h: Heap, op: Op, p: nat)
    requires Inv(h) && Enabled(h, op) && p in h.tiles && h.tiles[p].Quarantined?
    ensures var r := Step(h, op);
      && h.clock <= r.clock && r.wait == h.wait
      && (r.clock >= h.tiles[p].time + h.wait || (p in r.tiles && r.tiles[p] == h.tiles[p]))
  {
    hide Inv, Take, Tick;
    ListsLong(h);
    match op
    case Malloc(size, now) =>
      var t := Take(h, UnitsFor(size)).0;
      TakeKeeps(h, UnitsFor(size));
      TakenBlock(h, UnitsFor(size));
      TakeAdds(h, UnitsFor(size));
      TakeKeepsWait(h, UnitsFor(size));
      assert p in InUse(t.tiles) && t.tiles[p] == h.tiles[p];
      TickRemoves(t, now);
      assert p in InUse(Tick(t, now).tiles) ==> p in Tick(t, now).tiles && Tick(t, now).tiles[p] == h.tiles[p];
    case Return(q, t1, t2) =>
      var t := Quarantine(h, q, t1);
      QuarantineKeeps(h, q, t1);
      assert p in InUse(t.tiles) && t.tiles[p] == h.tiles[p];
      TickRemoves(t, t2);
      assert p in InUse(Tick(t, t2).tiles) ==> p in Tick(t, t2).tiles && Tick(t, t2).tiles[p] == h.tiles[p];
  }

  lemma TakeKeepsWait(h: Heap, n: nat)
    requires Inv(h) && n > 0
    ensures Take(h, n).0.wait == h.wait
  {
  }

  lemma {:induction false} RunKeepsQuarantine(h: Heap, ops: seq<Op>, p: nat)
    requires Inv(h) && Legal(h, ops) && p in h.tiles && h.tiles[p].Quarantined?
    ensures var r := Run(h, ops);
      && h.clock <= r.clock && r.wait == h.wait
      && (r.clock >= h.tiles[p].time + h.wait || (p in r.tiles && r.tiles[p] == h.tiles[p]))
    decreases |ops|
  {
    if ops != [] {
      StepKeepsQuarantine(h, ops[0], p);
      var s := Step(h, ops[0]);
      if p in s.tiles && s.tiles[p] == h.tiles[p] {
        RunKeepsQuarantine(s, ops[1..], p);
      } else {
        ClockAdvances(s, ops[1..]);
      }
    }
  }

  lemma {:induction false} ClockAdvances(h: Heap, ops: seq<Op>)
    requires Inv(h) && Legal(h, ops)
    ensures h.clock <= Run(h, ops).clock && Run(h, ops).wait == h.wait
    decreases |ops|
  {
    if ops != [] {
      StepAdvances(h, ops[0]);
      ClockAdvances(Step(h, ops[0]), ops[1..]);
    }
  }

  lemma StepAdvances(h: Heap, op: Op)
    requires Inv(h) && Enabled(h, op)
    ensures h.clock <= Step(h, op).clock && Step(h, op).wait == h.wait
  {
    hide Inv, Take, Tick;
    ListsLong(h);
    match op
    case Malloc(size, now) =>
      TakeKeeps(h, UnitsFor(size));
      TakenBlock(h, UnitsFor(size));
      TakeKeepsWait(h, UnitsFor(size));
      TickRemoves(Take(h, UnitsFor(size)).0, now);
    case Return(q, t1, t2) =>
      QuarantineKeeps(h, q, t1);
      TickRemoves(Quarantine(h, q, t1), t2);
  }

  /** No block handed out overlaps one that was freed less than the waiting time before the last reading of
      the clock, whatever happened in between; the request itself may be followed by a reading of any age. */
  lemma NoEarlyReuse(h: Heap, p: nat, t1: nat, t2: nat, ops: seq<Op>, size: nat, now: nat)
    requires Inv(h) && Enabled(h, Return(p, t1, t2))
    requires Legal(Step(h, Return(p, t1, t2)), ops)
    requires Run(Step(h, Return(p, t1, t2)), ops).clock < t1 + h.wait
    requires Run(Step(h, Return(p, t1, t2)), ops).clock <= now
    ensures var (_, a) := MallocStep(Run(Step(h, Return(p, t1, t2)), ops), size, now);
      p + h.tiles[p].len <= a || a + UnitsFor(size) <= p
  {
    hide Inv, Take, Tick;
    var q := Quarantine(h, p, t1);
    QuarantineKeeps(h, p, t1);
    TickRemoves(q, t2);
    var s := Step(h, Return(p, t1, t2));
    var r := Run(s, ops);
    ClockAdvances(s, ops);
    assert s.clock == t2;
    QuarantinedStays(q, s, p, t2);
    RunKeepsQuarantine(s, ops, p);
    MallocIsSafe(r, size, now);
    assert p in InUse(r.tiles);
  }

  lemma QuarantinedStays(q: Heap, s: Heap, p: nat, t2: nat)
    requires Inv(q) && q.clock <= t2 && s == Tick(q, t2)
    requires p in q.tiles && q.tiles[p].Quarantined? && t2 < q.tiles[p].time + q.wait
    ensures p in s.tiles && s.tiles[p] == q.tiles[p]
  {
    TickRemoves(q, t2);
    assert p in InUse(q.tiles) && (q.dna != [] && p == q.dna[0] ==> t2 < q.tiles[q.dna[0]].time + q.wait);
    assert p in InUse(s.tiles);
  }

  // ---- when free space is reused ----

  /** The request is served from a free run exactly when a hint in its class or a larger one leads to
      enough space; otherwise free_zone moves up. */
  lemma ReuseIff(h: Heap, n: nat)
    requires Inv(h) && n > 0
    ensures Take(h, n).0.zone == h.zone
       <==> exists i :: Class(n) <= i <= NR_SIZES && LeadsTo(h.lists[i], h.used, h.zone, n)
    ensures Take(h, n).0.zone == h.zone || Take(h, n).0.zone == h.zone + n
  {
    SearchFinds(h.lists, h.used, h.zone, n, Class(n));
  }

  /** A run with a hint at its first unit, in the list of its class, is enough. */
  lemma HintedRunReused(h: Heap, n: nat, x: nat, y: nat)
    requires Inv(h) && n > 0 && IsRun(h.used, h.zone, x, y) && n <= y - x
    requires x in h.lists[Class(y - x)]
    ensures Take(h, n).0.zone == h.zone
  {
    HintFindsRun(h.used, h.zone, x, y);
    var list := h.lists[Class(y - x)];
    var k :| 0 <= k < |list| && list[k] == x;
    assert LeadsTo(list, h.used, h.zone, n);
    ReuseIff(h, n);
  }

  /** Up to 4096 bytes nothing is ever lost: free_zone advances only if no free run of the size of the
      request up to 4096 bytes exists. */
  lemma SmallRunsReused(h: Heap, n: nat, x: nat, y: nat)
    requires Inv(h) && n > 0 && IsRun(h.used, h.zone, x, y) && n <= y - x <= NR_SIZES
    ensures Take(h, n).0.zone == h.zone
  {
    assert x in h.lists[y - x - 1];
    HintedRunReused(h, n, x, y);
  }

  /** Above 4096 bytes a request that finds nothing drains the only list such runs are hinted in: every
      later large request moves free_zone up, whatever free runs there are. */
  lemma LargeRunsForgotten(h: Heap, n: nat, k: nat)
    requires Inv(h) && n > NR_SIZES && k > NR_SIZES
    requires Take(h, n).0.zone != h.zone
    ensures Inv(Take(h, n).0) && Take(Take(h, n).0, k).0.zone == Take(h, n).0.zone + k
  {
    TakeKeeps(h, n);
    NothingDrainsLists(h.lists, h.used, h.zone, n, Class(n));
    ReuseIff(Take(h, n).0, k);
  }

  /** A heap of one free run of 65 units below a block of one unit, with the run's hint in place. */
  function LargeHole(): Heap
  {
    Heap(66, 65536, {65}, map[0 := Free(65), 65 := Live(1)],
         seq(NR_SIZES + 1, i => if i == NR_SIZES then [0] else []), [], 0, 0)
  }

  /** Asking for 66 units there and then for 65 leaves the run of 65 unused: the second request moves
      free_zone up although the run would do. */
  lemma LargeRunLost()
    ensures var h := LargeHole();
      && Inv(h) && IsRun(h.used, h.zone, 0, 65) && Take(h, 65).0.zone == h.zone
      && var r := Take(h, 66).0;
         Inv(r) && IsRun(r.used, r.zone, 0, 65) && Take(r, 65).0.zone == r.zone + 65
  {
    hide Inv, Take, IsRun, LargeHole;
    LargeHoleInv();
    ListsLong(LargeHole());
    HintedRunReused(LargeHole(), 65, 0, 65);
    OnlyHintTooSmall(LargeHole(), 66, 0, 65);
    TakeKeeps(LargeHole(), 66);
    LargeRunsForgotten(LargeHole(), 66, 65);
  }

  /** A large request whose only hint leads to a smaller run takes the hint and leaves the run. */
  lemma OnlyHintTooSmall(h: Heap, n: nat, x: nat, y: nat)
    requires Inv(h) && n > NR_SIZES && IsRun(h.used, h.zone, x, y) && y - x < n && h.lists[NR_SIZES] == [x]
    ensures Take(h, n).0.zone != h.zone && IsRun(Take(h, n).0.used, Take(h, n).0.zone, x, y)
  {
    hide Take, Search, Resolve, Tiled, Coloured, Queue;
    HintFindsRun(h.used, h.zone, x, y);
    assert !LeadsTo(h.lists[NR_SIZES], h.used, h.zone, n);
    ReuseIff(h, n);
    TakenAtTop(h, n);
    ExtendKeepsRun(h.used, h.zone, n, x, y);
  }

  lemma TakenAtTop(h: Heap, n: nat)
    requires Inv(h) && n > 0 && Take(h, n).0.zone != h.zone
    ensures Take(h, n).0.zone == h.zone + n && Take(h, n).0.used == h.used + Span(h.zone, h.zone + n)
  {
    hide Search, CarvedTiles;
    ReuseIff(h, n);
  }

  lemma ExtendKeepsRun(used: set<nat>, zone: nat, n: nat, x: nat, y: nat)
    requires IsRun(used, zone, x, y) && TopInUse(used, zone)
    ensures IsRun(used + Span(zone, zone + n), zone + n, x, y)
  {
    assert y == zone ==> y - 1 in used;
  }

  lemma LargeHoleInv()
    ensures var h := LargeHole(); Inv(h) && IsRun(h.used, h.zone, 0, 65) && h.lists[Class(65)] == [0]
  {
    var h := LargeHole();
    assert IsRun(h.used, h.zone, 0, 65);
    forall a: nat, b: nat {:trigger IsRun(h.used, h.zone, a, b)} | IsRun(h.used, h.zone, a, b)
      ensures b - a == 65
    {
      RunsAgree(h.used, h.zone, a, b, 0, 65);
    }
  }

  /** With empty lists and an empty queue a request is served from the top and nothing else happens. */
  lemma FreshMalloc(h: Heap, size: nat)
    requires Inv(h) && h.dna == [] && (forall i | 0 <= i <= NR_SIZES :: h.lists[i] == [])
    ensures Step(h, Malloc(size, h.clock)) == Extend(h, h.lists, UnitsFor(size))
  {
    hide Inv, Extend;
    TakeFromFresh(h, UnitsFor(size));
    TakenBlock(h, UnitsFor(size));
    TakeKeeps(h, UnitsFor(size));
  }

  /** The heap with the hole is one a program reaches: two requests and a free. */
  lemma LargeHoleIsReached()
    ensures var h := Empty(1024, 0, 0);
      var ops := [Malloc(4152, 0), Malloc(56, 0), Return(0, 0, 0)];
      Inv(h) && Legal(h, ops) && Run(h, ops) == LargeHole()
  {
    hide Inv, Step;
    var h := Empty(1024, 0, 0);
    EmptyKeeps(1024, 0, 0);
    FreshMalloc(h, 4152);
    var h1 := Step(h, Malloc(4152, 0));
    FreshMalloc(h1, 56);
    var h2 := Step(h1, Malloc(56, 0));
    assert h2.tiles == map[0 := Live(65), 65 := Live(1)];
    HoleAppears(h2);
    var ops := [Malloc(4152, 0), Malloc(56, 0), Return(0, 0, 0)];
    assert ops[1..] == [Malloc(56, 0), Return(0, 0, 0)];
    assert ops[1..][1..] == [Return(0, 0, 0)];
    assert Legal(h2, [Return(0, 0, 0)]) && Run(h2, [Return(0, 0, 0)]) == LargeHole();
    assert Legal(h1, ops[1..]) && Run(h1, ops[1..]) == LargeHole();
  }

  lemma HoleAppears(h: Heap)
    requires Inv(h) && h.tiles == map[0 := Live(65), 65 := Live(1)] && h.zone == 66 && h.end == 65536
    requires h.lists == Empty(1024, 0, 0).lists && h.dna == [] && h.wait == 0 && h.clock == 0
    ensures Step(h, Return(0, 0, 0)) == LargeHole()
  {
    hide Inv, Release, IsRun, Push, PushBoth, Joins, Span, Forward, Backward;
    var q := Quarantine(h, 0, 0);
    QuarantineKeeps(h, 0, 0);
    HoleJoins(h, q);
    ReleaseIsJoin(q, 0, 65);
    HoleLists(h.lists);
    assert Put(q.tiles, 0, 65, Free(65)) == LargeHole().tiles;
  }

  lemma HoleLists(lists: seq<seq<nat>>)
    requires lists == Empty(1024, 0, 0).lists
    ensures PushBoth(lists, 0, 0, 65) == LargeHole().lists
  {
    var r := PushBoth(lists, 0, 0, 65);
    assert lists[NR_SIZES] == [] && r[NR_SIZES] == [0];
    assert forall i | 0 <= i < |r| :: r[i] == LargeHole().lists[i];
  }

  lemma HoleJoins(h: Heap, q: Heap)
    requires Inv(h) && h.tiles == map[0 := Live(65), 65 := Live(1)] && h.zone == 66 && h.dna == []
    requires q == Quarantine(h, 0, 0)
    ensures Joins(q, 0, 65) && q.used - Span(0, 65) == {65}
  {
    var after := h.used - Span(0, 65);
    assert 65 in h.used && forall u | u in h.used :: u < 66;
    assert after == {65};
    assert IsRun(after, 66, 0, 65);
    HintFindsRun(after, 66, 0, 65);
    assert Backward(after, 66, 0) == 0 && Forward(after, 66, 0) == 65;
    assert q.dna == [0] && q.tiles[0] == Quarantined(65, 0);
  }

  /** With empty lists a request is served from the top. */
  lemma TakeFromFresh(h: Heap, n: nat)
    requires Inv(h) && n > 0 && (forall i | 0 <= i <= NR_SIZES :: h.lists[i] == [])
    ensures Take(h, n) == (Extend(h, h.lists, n), h.zone)
  {
    ReuseIff(h, n);
    NothingDrainsLists(h.lists, h.used, h.zone, n, Class(n));
    SearchFinds(h.lists, h.used, h.zone, n, Class(n));
    assert Search(h.lists, h.used, h.zone, n, Class(n)).lists == h.lists;
  }
}
