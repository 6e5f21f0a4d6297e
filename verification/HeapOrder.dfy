/** Which free run NVMalloc serves a request from: the 65 lists of hints are queues. */
module HeapOrder {
  import opened Tiling
  import opened HeapSpec
  import opened HeapLaws

  // ---- where a hint leads ----

  /** A hint leads to the one maximal run it touches, and to nothing if it touches none. */
  lemma HintTouches(used: set<nat>, zone: nat, hint: nat)
    requires TopInUse(used, zone)
    ensures var (a, m) := Resolve(used, zone, hint);
      if m > 0 then IsRun(used, zone, a, a + m) && a <= hint <= a + m
      else forall x: nat, y: nat | x <= hint <= y :: !IsRun(used, zone, x, y)
  {
    StaleHint(used, zone, hint);
    var back := Backward(used, zone, hint);
    var m := Resolve(used, zone, hint).1;
    forall x: nat, y: nat | x <= hint <= y && IsRun(used, zone, x, y)
      ensures m > 0
    {
      if hint < y {
        assert hint !in used && hint < zone;
      } else {
        assert hint - 1 !in used && hint <= zone;
      }
    }
  }

  // ---- the hint that serves ----

  /** The j-th hint of list i is the first one, in the lists from `index` on, to lead to n units. */
  ghost predicate First(lists: seq<seq<nat>>, used: set<nat>, zone: nat, n: nat, index: nat, i: nat, j: nat)
    requires |lists| == NR_SIZES + 1
  {
    && index <= i <= NR_SIZES && j < |lists[i]| && Resolve(used, zone, lists[i][j]).1 >= n
    && (forall c, k | index <= c < i && 0 <= k < |lists[c]| :: Resolve(used, zone, lists[c][k]).1 < n)
    && (forall k | 0 <= k < j :: Resolve(used, zone, lists[i][k]).1 < n)
  }

  /** What the search leaves of the lists when it ends there. */
  ghost predicate TakenUpTo(lists: seq<seq<nat>>, left: seq<seq<nat>>, index: nat, i: nat, j: nat)
    requires |lists| == NR_SIZES + 1 && i <= NR_SIZES && j < |lists[i]|
  {
    && |left| == NR_SIZES + 1
    && forall c | 0 <= c <= NR_SIZES ::
         left[c] == if index <= c < i then [] else if c == i then lists[i][j + 1..] else lists[c]
  }

  lemma {:induction false} SearchServes(lists: seq<seq<nat>>, used: set<nat>, zone: nat, n: nat, index: nat, i: nat, j: nat)
    requires |lists| == NR_SIZES + 1 && First(lists, used, zone, n, index, i, j)
    ensures var r := Search(lists, used, zone, n, index);
      && r.Found? && (r.start, r.len) == Resolve(used, zone, lists[i][j])
      && TakenUpTo(lists, r.lists, index, i, j)
    decreases NR_SIZES + 1 - index, if index < |lists| then |lists[index]| else 0
  {
    hide PopClass, Resolve;
    if lists[index] == [] {
      assert index < i;
      SearchServes(lists, used, zone, n, index + 1, i, j);
    } else {
      var j0 := PopClassStops(lists[index], used, zone, n);
      if index < i {
        var left := lists[index := PopClass(lists[index], used, zone, n).0];
        SearchServes(left, used, zone, n, index, i, j);
      } else {
        assert j0 == j;
      }
    }
  }

  /** If any hint leads to n units, one of them is the first. */
  lemma {:induction false} SomeFirst(lists: seq<seq<nat>>, used: set<nat>, zone: nat, n: nat, index: nat) returns (i: nat, j: nat)
    requires |lists| == NR_SIZES + 1
    requires exists c :: index <= c <= NR_SIZES && LeadsTo(lists[c], used, zone, n)
    ensures First(lists, used, zone, n, index, i, j)
    decreases NR_SIZES + 1 - index
  {
    if LeadsTo(lists[index], used, zone, n) {
      i := index;
      j := FirstIn(lists[index], used, zone, n);
    } else {
      i, j := SomeFirst(lists, used, zone, n, index + 1);
    }
  }

  lemma {:induction false} FirstIn(list: seq<nat>, used: set<nat>, zone: nat, n: nat) returns (j: nat)
    requires LeadsTo(list, used, zone, n)
    ensures j < |list| && Resolve(used, zone, list[j]).1 >= n
    ensures forall k | 0 <= k < j :: Resolve(used, zone, list[k]).1 < n
    decreases |list|
  {
    var k :| 0 <= k < |list| && Resolve(used, zone, list[k]).1 >= n;
    if LeadsTo(list[..k], used, zone, n) {
      j := FirstIn(list[..k], used, zone, n);
    } else {
      j := k;
    }
  }

  // ---- taking ----

  /** The number of the list for a run of k units: one for every size up to 4096 bytes, one for the rest. */
  lemma ClassIs(k: nat)
    requires k > 0
    ensures Class(k) <= NR_SIZES
    ensures k <= 64 ==> Class(k) == k - 1
    ensures k > 64 ==> Class(k) == 64
  {
  }

  /** The request is served from the front of the run that the first hint leads to, in the least class that
      has one. The hints up to it are gone, the others stay in order, and the rest of the run, if any, gets
      one hint behind those of its class. */
  lemma TakeServes(h: Heap, n: nat, i: nat, j: nat)
    requires Inv(h) && n > 0 && First(h.lists, h.used, h.zone, n, Class(n), i, j)
    ensures var (a, m) := Resolve(h.used, h.zone, h.lists[i][j]);
      var (r, p) := Take(h, n);
      && p == a && r.zone == h.zone && r.end == h.end && r.used == h.used + Span(a, a + n)
      && |r.lists| == NR_SIZES + 1
      && forall c | 0 <= c <= NR_SIZES ::
           r.lists[c] == (if Class(n) <= c < i then [] else if c == i then h.lists[i][j + 1..] else h.lists[c])
                         + (if m > n && c == Class(m - n) then [a + n] else [])
  {
    hide Inv, Search, Resolve, CarvedTiles, First, Span;
    ListsLong(h);
    SearchServes(h.lists, h.used, h.zone, n, Class(n), i, j);
    FirstFits(h.lists, h.used, h.zone, n, Class(n), i, j);
    TakeCases(h, n);
  }

  lemma FirstFits(lists: seq<seq<nat>>, used: set<nat>, zone: nat, n: nat, index: nat, i: nat, j: nat)
    requires |lists| == NR_SIZES + 1 && First(lists, used, zone, n, index, i, j)
    ensures i <= NR_SIZES && j < |lists[i]| && Resolve(used, zone, lists[i][j]).1 >= n
  {
  }

  /** With no such hint the request is served at free_zone; the lists from its class on are empty, and memory
      is mapped only if the block does not fit below the end: 1024 pages, or just as many as it takes. */
  lemma TakeServesTop(h: Heap, n: nat)
    requires Inv(h) && n > 0
    requires forall c | Class(n) <= c <= NR_SIZES :: !LeadsTo(h.lists[c], h.used, h.zone, n)
    ensures var (r, p) := Take(h, n);
      && p == h.zone && r.zone == h.zone + n && r.used == h.used + Span(h.zone, h.zone + n)
      && r.tiles == h.tiles[h.zone := Live(n)]
      && (h.zone + n <= h.end ==> r.end == h.end)
      && (h.zone + n > h.end ==>
            exists pages: nat :: && r.end == h.end + 64 * pages && pages >= 1024 && 64 * pages >= n
                                 && (pages == 1024 || 64 * (pages - 1) < n))
      && |r.lists| == NR_SIZES + 1
      && forall c | 0 <= c <= NR_SIZES :: r.lists[c] == if c < Class(n) then h.lists[c] else []
  {
    hide Inv, Search, LeadsTo, Span, NewPages;
    ListsLong(h);
    SearchFinds(h.lists, h.used, h.zone, n, Class(n));
    NothingDrainsLists(h.lists, h.used, h.zone, n, Class(n));
    TakeCases(h, n);
    FewPages(n);
    var pages := NewPages(n);
    assert h.zone + n > h.end ==> Take(h, n).0.end == h.end + 64 * pages;
  }

  lemma FewPages(n: nat)
    ensures NewPages(n) >= 1024 && 64 * NewPages(n) >= n
    ensures NewPages(n) == 1024 || 64 * (NewPages(n) - 1) < n
  {
  }

  /** The headers of the run: when a free block starts where the request ends, it and those behind it stay;
      else the whole rest becomes one free block. Everything outside the run stays. */
  lemma TakeHeaders(h: Heap, n: nat, i: nat, j: nat, s: nat)
    requires Inv(h) && n > 0 && First(h.lists, h.used, h.zone, n, Class(n), i, j)
    ensures var (a, m) := Resolve(h.used, h.zone, h.lists[i][j]);
      var r := Take(h, n).0.tiles;
      && a in r && r[a] == Live(n)
      && (s < a || a + m <= s ==> (s in r <==> s in h.tiles) && (s in r ==> r[s] == h.tiles[s]))
      && (a < s < a + n ==> s !in r)
      && (a + n <= s < a + m ==>
            if a + n in h.tiles then (s in r <==> s in h.tiles) && (s in r ==> r[s] == h.tiles[s])
            else (s in r <==> s == a + n) && (s in r ==> r[s] == Free(m - n)))
  {
    hide Search, Resolve, First, Span, HintsCover, Queue, TopInUse, CarvedTiles;
    ListsLong(h);
    SearchServes(h.lists, h.used, h.zone, n, Class(n), i, j);
    FirstFits(h.lists, h.used, h.zone, n, Class(n), i, j);
    TakeCases(h, n);
    var (a, m) := Resolve(h.used, h.zone, h.lists[i][j]);
    SearchYields(h, n);
    CarvedHeaders(h.tiles, h.used, h.zone, a, m, n, s);
  }

  lemma SearchYields(h: Heap, n: nat)
    requires Inv(h) && n > 0 && |h.lists| == NR_SIZES + 1
    ensures var f := Search(h.lists, h.used, h.zone, n, Class(n));
      f.Found? ==> IsRun(h.used, h.zone, f.start, f.start + f.len)
  {
    SearchYieldsRun(h.lists, h.used, h.zone, n, Class(n));
  }

  lemma CarvedHeaders(tiles: Tiles, used: set<nat>, zone: nat, a: nat, m: nat, n: nat, s: nat)
    requires 0 < n <= m
    requires Tiled(tiles, zone) && Coloured(tiles, used, zone) && IsRun(used, zone, a, a + m)
    ensures var r := CarvedTiles(tiles, a, m, n);
      && a in r && r[a] == Live(n)
      && (s < a || a + m <= s ==> (s in r <==> s in tiles) && (s in r ==> r[s] == tiles[s]))
      && (a < s < a + n ==> s !in r)
      && (a + n <= s < a + m ==>
            if a + n in tiles then (s in r <==> s in tiles) && (s in r ==> r[s] == tiles[s])
            else (s in r <==> s == a + n) && (s in r ==> r[s] == Free(m - n)))
  {
    hide Tiled, Coloured, IsRun, CarvedTiles;
    CarvedBlocks(tiles, used, zone, a, m, n, a);
    CarvedBlocks(tiles, used, zone, a, m, n, s);
    if s in CarvedTiles(tiles, a, m, n) && s != a {
      CarvedKeepsOrAdds(tiles, used, zone, a, m, n, s);
    }
  }

  // ---- giving back ----

  /** A block folded into the top leaves no hint. Any other leaves one for its run, behind the hints of that
      class, and then one for itself if the run starts before it. */
  lemma ReleaseHints(h: Heap, a: nat, b: nat)
    requires Inv(h) && Joins(h, a, b)
    ensures a <= h.dna[0] < b <= h.zone && |h.lists| == NR_SIZES + 1
    ensures var p := h.dna[0];
      var r := Release(h);
      && |r.lists| == NR_SIZES + 1
      && forall c | 0 <= c <= NR_SIZES ::
           r.lists[c] == h.lists[c] + (if b < h.zone && c == Class(b - a) then [a] else [])
                                    + (if b < h.zone && a < p && c == Class(b - p) then [p] else [])
  {
    hide Inv, Release, Joins, Truncate, Put, Span;
    JoinsInside(h, a, b);
    ListsLong(h);
    if b == h.zone {
      ReleaseIsFold(h, a);
    } else {
      ReleaseIsJoin(h, a, b);
    }
  }

  /** The run that a released block joins is the maximal run around it. */
  lemma JoinsWholeRun(h: Heap)
    requires Inv(h) && h.dna != []
    ensures exists a: nat, b: nat :: Joins(h, a, b)
    ensures forall a: nat, b: nat {:trigger Joins(h, a, b)} | Joins(h, a, b) ::
      && h.dna[0] in h.tiles && a <= h.dna[0] < b
      && IsRun(h.used - Span(h.dna[0], h.dna[0] + h.tiles[h.dna[0]].len), h.zone, a, b)
  {
    var a, b := HeadJoins(h);
    assert Joins(h, a, b);
  }

  /** Either way, old hints stay in front and in order. */
  lemma ReleaseKeepsOrder(h: Heap)
    requires Inv(h) && h.dna != []
    ensures |h.lists| == |Release(h).lists| && forall c | 0 <= c < |h.lists| :: h.lists[c] <= Release(h).lists[c]
  {
    hide Inv, Release, Joins;
    ListsLong(h);
    var a, b := HeadJoins(h);
    ReleaseHints(h, a, b);
  }
}
