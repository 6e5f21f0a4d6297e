/** What NVMalloc computes, as functions on values: the free-space search over stale hints,
    carving, growing at the top, quarantine and coalescing.

    Positions and lengths count units of 64 bytes from the start of the heap. */
module HeapSpec {
  import opened Tiling

  const NR_SIZES := 64
  const NEW_ALLOC_PAGES := 1024

  datatype Heap = Heap(
    zone: nat,             // free_zone
    end: nat,              // end_address
    used: set<nat>,        // the units whose bitmap bit is set
    tiles: Tiles,          // the blocks, as the headers describe them
    lists: seq<seq<nat>>,  // free_lists: 65 queues of hints
    dna: seq<nat>,         // the don't-allocate queue, oldest first
    wait: nat,             // dont_allocate_wait
    clock: nat             // the last value read from the tick counter
  )

  // ---- the invariant ----

  /** A non-empty heap ends in a block that is in use: free space at the top is always folded back. */
  ghost predicate TopInUse(used: set<nat>, zone: nat)
  {
    zone > 0 ==> zone - 1 in used
  }

  ghost predicate Views(h: Heap)
  {
    Tiled(h.tiles, h.zone) && Coloured(h.tiles, h.used, h.zone) && TopInUse(h.used, h.zone)
  }

  /** Every maximal free run of at most 64 units has a hint at its first unit in the list of its class. */
  ghost predicate HintsCover(h: Heap)
  {
    && |h.lists| == NR_SIZES + 1
    && forall a: nat, b: nat {:trigger IsRun(h.used, h.zone, a, b)} |
         IsRun(h.used, h.zone, a, b) && b - a <= NR_SIZES :: a in h.lists[b - a - 1]
  }

  /** The queue holds the quarantined blocks, each once, in the order they were freed. */
  ghost predicate Queue(dna: seq<nat>, tiles: Tiles, clock: nat)
  {
    && (forall p | p in dna :: p in tiles && tiles[p].Quarantined? && tiles[p].time <= clock)
    && (forall p | p in tiles && tiles[p].Quarantined? :: p in dna)
    && (forall i, j | 0 <= i < j < |dna| :: dna[i] != dna[j] && tiles[dna[i]].time <= tiles[dna[j]].time)
  }

  ghost predicate Inv(h: Heap)
  {
    h.zone <= h.end && Views(h) && HintsCover(h) && Queue(h.dna, h.tiles, h.clock)
  }

  // ---- looking at the bitmap ----

  /** isFreeForward: how many units from u on are free, up to zone. */
  function Forward(used: set<nat>, zone: nat, u: nat): (n: nat)
    ensures u <= zone ==> u + n <= zone
    ensures forall v | u <= v < u + n :: v !in used
    ensures u + n < zone ==> u + n in used
    decreases zone - u
  {
    if u < zone && u !in used then 1 + Forward(used, zone, u + 1) else 0
  }

  /** How many units just below u are free. */
  function Below(used: set<nat>, u: nat): (n: nat)
    ensures n <= u
    ensures forall v | u - n <= v < u :: v !in used
    ensures u - n > 0 ==> u - n - 1 in used
  {
    if u > 0 && u - 1 !in used then 1 + Below(used, u - 1) else 0
  }

  /** isFreeBackward. */
  function Backward(used: set<nat>, zone: nat, u: nat): (n: nat)
    ensures n <= u
  {
    if u > zone then 0 else Below(used, u)
  }

  /** The start and length of the free space a hint leads to. */
  function Resolve(used: set<nat>, zone: nat, hint: nat): (r: (nat, nat))
    ensures r.0 <= hint
  {
    var back := Backward(used, zone, hint);
    (hint - back, Forward(used, zone, hint) + back)
  }

  /** Whatever left the hint behind, it leads to nothing or to a whole maximal run. */
  lemma StaleHint(used: set<nat>, zone: nat, hint: nat)
    requires TopInUse(used, zone)
    ensures var (a, m) := Resolve(used, zone, hint); m == 0 || IsRun(used, zone, a, a + m)
  {
    var back := Backward(used, zone, hint);
    if hint == zone {
      assert back == 0;
    }
  }

  /** A hint that starts a run leads to that run. */
  lemma HintFindsRun(used: set<nat>, zone: nat, a: nat, b: nat)
    requires IsRun(used, zone, a, b)
    ensures Resolve(used, zone, a) == (a, b - a)
  {
    var n := Forward(used, zone, a);
    assert a + n < zone ==> a + n in used;
    assert b < zone ==> b in used;
    assert n > b - a ==> b !in used;
    assert Below(used, a) == 0;
  }

  // ---- the search ----

  /** getBestFit, for a size of k units. */
  function Class(k: nat): (i: nat)
    requires k > 0
  {
    if k > NR_SIZES then NR_SIZES else k - 1
  }

  /** The inner loop: take hints off one list until one leads to n units or the list is empty.
      Yields what is left of the list and where the last hint led. */
  function PopClass(list: seq<nat>, used: set<nat>, zone: nat, n: nat): (r: (seq<nat>, nat, nat))
    requires list != []
    ensures |r.0| < |list|
    ensures r.2 < n ==> r.0 == []
  {
    var (a, m) := Resolve(used, zone, list[0]);
    if m >= n || |list| == 1 then (list[1..], a, m) else PopClass(list[1..], used, zone, n)
  }

  datatype Found = Found(lists: seq<seq<nat>>, start: nat, len: nat) | Nothing(lists: seq<seq<nat>>)

  /** The outer loop, from class `index` on. */
  function Search(lists: seq<seq<nat>>, used: set<nat>, zone: nat, n: nat, index: nat): (r: Found)
    requires |lists| == NR_SIZES + 1
    ensures |r.lists| == NR_SIZES + 1
    ensures r.Found? ==> r.len >= n
    decreases NR_SIZES + 1 - index, if index < |lists| then |lists[index]| else 0
  {
    if index > NR_SIZES then Nothing(lists)
    else if lists[index] == [] then Search(lists, used, zone, n, index + 1)
    else
      var (rest, a, m) := PopClass(lists[index], used, zone, n);
      var left := lists[index := rest];
      if m >= n then Found(left, a, m) else Search(left, used, zone, n, index)
  }

  // ---- taking a block ----

  function Push(lists: seq<seq<nat>>, k: nat, hint: nat): (r: seq<seq<nat>>)
    requires |lists| == NR_SIZES + 1 && k > 0
    ensures |r| == NR_SIZES + 1
  {
    lists[Class(k) := lists[Class(k)] + [hint]]
  }

  /** Is there a header at a + n, so that the rest of the run needs no new one? */
  predicate ExactFit(tiles: Tiles, a: nat, m: nat, n: nat)
  {
    n == m || a + n in tiles
  }

  /** The blocks after a live one of n units is put at the front of the run of m units at a. */
  function CarvedTiles(tiles: Tiles, a: nat, m: nat, n: nat): Tiles
    requires 0 < n <= m
  {
    if ExactFit(tiles, a, m, n) then Put(tiles, a, a + n, Live(n))
    else Cut(Put(tiles, a, a + m, Free(m)), a, a + n, Live(n), Free(m - n))
  }

  /** Take n units at the front of the free run of m units at a. */
  function Carve(h: Heap, lists: seq<seq<nat>>, a: nat, m: nat, n: nat): Heap
    requires 0 < n <= m && |lists| == NR_SIZES + 1
  {
    h.(used := h.used + Span(a, a + n),
       tiles := CarvedTiles(h.tiles, a, m, n),
       lists := if m > n then Push(lists, m - n, a + n) else lists)
  }

  /** getMoreMemory: at least 1024 pages, and enough for k units. */
  function NewPages(k: nat): (pages: nat)
    ensures 64 * pages >= k
  {
    var pages := (k + 64 - 1) / 64;
    if pages > NEW_ALLOC_PAGES then pages else NEW_ALLOC_PAGES
  }

  /** Take n units from the untouched memory at the top. */
  function Extend(h: Heap, lists: seq<seq<nat>>, n: nat): Heap
  {
    h.(zone := h.zone + n,
       end := if h.zone + n > h.end then h.end + 64 * NewPages(n) else h.end,
       used := h.used + Span(h.zone, h.zone + n),
       tiles := h.tiles[h.zone := Live(n)],
       lists := lists)
  }

  /** getFreeLocation, with the header of the new block already written. */
  function Take(h: Heap, n: nat): (r: (Heap, nat))
    requires n > 0 && |h.lists| == NR_SIZES + 1
  {
    match Search(h.lists, h.used, h.zone, n, Class(n))
    case Found(left, a, m) => (Carve(h, left, a, m, n), a)
    case Nothing(left) => (Extend(h, left, n), h.zone)
  }

  // ---- giving a block back ----

  /** putInDNAList */
  function Quarantine(h: Heap, p: nat, now: nat): Heap
    requires p in h.tiles
  {
    h.(tiles := h.tiles[p := Quarantined(h.tiles[p].len, now)], dna := h.dna + [p], clock := now)
  }

  /** The hints left for a block at p in the run [a, b): one for the run and one, if that differs, for
      what lies in front of the block. */
  function PushBoth(lists: seq<seq<nat>>, a: nat, p: nat, b: nat): (r: seq<seq<nat>>)
    requires |lists| == NR_SIZES + 1 && a <= p < b
    ensures |r| == NR_SIZES + 1
  {
    var hinted := Push(lists, b - a, a);
    if a == p then hinted else Push(hinted, b - p, p)
  }

  /** extendFreeLocation and insertFreeLocation on the head of the queue. */
  function Release(h: Heap): Heap
    requires Inv(h) && h.dna != []
  {
    var p := h.dna[0];
    var used := h.used - Span(p, p + h.tiles[p].len);
    var forward := Forward(used, h.zone, p);
    var back := Backward(used, h.zone, p);
    if p + forward >= h.zone && p < h.zone then
      h.(zone := p - back, used := used, tiles := Truncate(h.tiles, p - back), dna := h.dna[1..])
    else
      h.(used := used, tiles := Put(h.tiles, p, p + forward, Free(forward)), dna := h.dna[1..],
         lists := PushBoth(h.lists, p - back, p, p + forward))
  }

  /** incrementTime, when the tick counter reads `now`. */
  function Tick(h: Heap, now: nat): Heap
    requires Inv(h) && h.clock <= now
  {
    var later := h.(clock := now);
    if h.dna != [] && now >= h.tiles[h.dna[0]].time + h.wait then Release(later) else later
  }

  /** nvmalloc_init */
  function Empty(nrPages: nat, wait: nat, now: nat): Heap
  {
    Heap(0, 64 * nrPages, {}, map[], seq(NR_SIZES + 1, _ => []), [], wait, now)
  }
}
