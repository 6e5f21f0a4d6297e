/** The central page pool of HPNMalloc: a bump region that grows 2560 pages at a time, and size-segregated
    lists of spans that are split on demand.

    Pages are counted from the start of the pool; a span is known by its first page. In the arrangement of
    spans a live tile is a span handed out, a free tile a span in a list, and a quarantined tile the tail of a
    region that growing has left behind for good. */
module CentralPool {
  import opened Basics
  import opened Tiling

  const LARGE_BLOCK_NUM := 257

  datatype Pool = Pool(
    freeStart: nat,        // the bump pointer
    freeEnd: nat,          // the end of the current region, also pool_end
    tiles: Tiles,          // the spans below freeStart
    lists: seq<seq<nat>>)  // lb_free_list

  // ---- the invariant ----

  /** A span lies within one region of 2560 pages and has at most 256 pages; a stranded tail ends its
      region. */
  predicate InRegion(p: nat, t: Tile)
  {
    && 0 < t.len <= 256 && p / 2560 == (p + t.len - 1) / 2560
    && (t.Quarantined? ==> (p + t.len) % 2560 == 0)
  }

  ghost predicate Pieces(tiles: Tiles)
  {
    forall p | p in tiles :: InRegion(p, tiles[p])
  }

  predicate InList(lists: seq<seq<nat>>, n: nat, p: nat)
  {
    0 < n <= |lists| && p in lists[n - 1]
  }

  /** List k holds spans of k + 1 pages, each once, and no listed span is missing. */
  ghost predicate Listed(tiles: Tiles, lists: seq<seq<nat>>)
  {
    && |lists| == LARGE_BLOCK_NUM
    && (forall n, p | InList(lists, n, p) :: p in tiles && tiles[p] == Free(n))
    && (forall p | p in tiles && tiles[p].Free? :: InList(lists, tiles[p].len, p))
    && (forall k | 0 <= k < LARGE_BLOCK_NUM :: NoDup(lists[k]))
  }

  ghost predicate Inv(s: Pool)
  {
    && s.freeEnd % 2560 == 0 && s.freeEnd - 2560 <= s.freeStart < s.freeEnd
    && Tiled(s.tiles, s.freeStart) && Pieces(s.tiles) && Listed(s.tiles, s.lists)
  }

  // ---- the operations on values ----

  /** The first list from i on that is not empty. */
  function FirstNonEmpty(lists: seq<seq<nat>>, i: nat): (k: nat)
    requires i <= |lists|
    ensures i <= k <= |lists|
    ensures forall j | i <= j < k :: lists[j] == []
    ensures k < |lists| ==> lists[k] != []
    decreases |lists| - i
  {
    if i == |lists| || lists[i] != [] then i else FirstNonEmpty(lists, i + 1)
  }

  /** The list a span of n pages belongs to. */
  function ListOf(n: nat): nat
    requires n > 0
  {
    if n <= 256 then n - 1 else 256
  }

  function PopHead(lists: seq<seq<nat>>, k: nat): (r: seq<seq<nat>>)
    requires k < |lists| && lists[k] != []
    ensures |r| == |lists|
  {
    lists[k := lists[k][1..]]
  }

  function PushTail(lists: seq<seq<nat>>, k: nat, p: nat): (r: seq<seq<nat>>)
    requires k < |lists|
    ensures |r| == |lists|
  {
    lists[k := lists[k] + [p]]
  }

  /** Take n pages from the untouched part of the region. */
  function Bump(s: Pool, n: nat): Pool
  {
    s.(freeStart := s.freeStart + n, tiles := s.tiles[s.freeStart := Live(n)])
  }

  /** central_pool_grow: the rest of the region is left behind. */
  function Grow(s: Pool): Pool
    requires s.freeStart <= s.freeEnd
  {
    s.(freeStart := s.freeEnd, freeEnd := s.freeEnd + 2560,
       tiles := s.tiles[s.freeStart := Quarantined(s.freeEnd - s.freeStart, 0)])
  }

  /** Take the head of list k whole. */
  function TakeHead(s: Pool, k: nat): Pool
    requires k < |s.lists| && s.lists[k] != [] && s.lists[k][0] in s.tiles
  {
    s.(tiles := s.tiles[s.lists[k][0] := Live(s.tiles[s.lists[k][0]].len)], lists := PopHead(s.lists, k))
  }

  /** Take the first n pages of the head of list k and list the rest. */
  function SplitHead(s: Pool, k: nat, n: nat): Pool
    requires |s.lists| == LARGE_BLOCK_NUM && k < LARGE_BLOCK_NUM && s.lists[k] != []
    requires s.lists[k][0] in s.tiles && 0 < n < s.tiles[s.lists[k][0]].len
  {
    var p := s.lists[k][0];
    var rest := s.tiles[p].len - n;
    s.(tiles := Cut(s.tiles, p, p + n, Live(n), Free(rest)),
       lists := PopHead(PushTail(s.lists, ListOf(rest), p + n), k))
  }

  /** acquire_span for index + 1 pages: the new pool and the first page. */
  function Acquire(s: Pool, index: nat): (Pool, nat)
    requires Inv(s) && index < 256
  {
    if s.freeStart + index + 1 < s.freeEnd then (Bump(s, index + 1), s.freeStart)
    else
      var k := FirstNonEmpty(s.lists, index);
      if k == LARGE_BLOCK_NUM then (Bump(Grow(s), index + 1), s.freeEnd)
      else
        HeadOfList(s, k);
        if k == index then (TakeHead(s, k), s.lists[k][0])
        else (SplitHead(s, k, index + 1), s.lists[k][0])
  }

  lemma HeadOfList(s: Pool, k: nat)
    requires Inv(s) && k < LARGE_BLOCK_NUM && s.lists[k] != []
    ensures s.lists[k][0] in s.tiles && s.tiles[s.lists[k][0]] == Free(k + 1)
  {
    assert InList(s.lists, k + 1, s.lists[k][0]);
  }

  /** span_back_to_centralpool */
  function Return(s: Pool, p: nat): Pool
    requires Inv(s) && p in s.tiles && s.tiles[p].Live?
  {
    LiveSpanLong(s, p);
    s.(tiles := s.tiles[p := Free(s.tiles[p].len)], lists := PushTail(s.lists, ListOf(s.tiles[p].len), p))
  }

  lemma LiveSpanLong(s: Pool, p: nat)
    requires Inv(s) && p in s.tiles
    ensures 0 < s.tiles[p].len <= 256 && |s.lists| == LARGE_BLOCK_NUM && p + s.tiles[p].len <= s.freeStart < s.freeEnd
  {
    assert InRegion(p, s.tiles[p]);
  }

  // ---- the invariant over every operation ----

  lemma AddPiece(tiles: Tiles, p: nat, t: Tile)
    requires Pieces(tiles) && InRegion(p, t)
    ensures Pieces(tiles[p := t])
  {
    hide InRegion;
  }

  /** A span that is in no list may change as long as it stays in none. */
  lemma KeepLists(tiles: Tiles, lists: seq<seq<nat>>, p: nat, t: Tile)
    requires Listed(tiles, lists) && !t.Free? && (p in tiles ==> !tiles[p].Free?)
    ensures Listed(tiles[p := t], lists)
  {
    hide InList;
    var r: Tiles := tiles[p := t];
    forall n, q | InList(lists, n, q)
      ensures q in r && r[q] == Free(n)
    {
    }
  }

  lemma BumpInRegion(start: nat, end: nat, n: nat)
    requires end % 2560 == 0 && end - 2560 <= start && 0 < n <= 256 && start + n < end
    ensures InRegion(start, Live(n))
  {
  }

  lemma TopIsFresh(s: Pool)
    requires Inv(s)
    ensures s.freeStart !in s.tiles
  {
    hide Pieces, Listed;
  }

  lemma BumpKeeps(s: Pool, n: nat)
    requires Inv(s) && 0 < n <= 256 && s.freeStart + n < s.freeEnd
    ensures Inv(Bump(s, n))
  {
    hide Tiled, Pieces, Listed, InRegion;
    TopIsFresh(s);
    AppendTiled(s.tiles, s.freeStart, Live(n));
    BumpInRegion(s.freeStart, s.freeEnd, n);
    AddPiece(s.tiles, s.freeStart, Live(n));
    KeepLists(s.tiles, s.lists, s.freeStart, Live(n));
  }

  lemma TailInRegion(start: nat, end: nat)
    requires end % 2560 == 0 && end - 2560 <= start < end && end - start <= 256
    ensures InRegion(start, Quarantined(end - start, 0)) && (end + 2560) % 2560 == 0
  {
  }

  lemma GrowKeeps(s: Pool)
    requires Inv(s) && s.freeEnd - s.freeStart <= 256
    ensures Inv(Grow(s))
  {
    hide Tiled, Pieces, Listed, InRegion;
    TopIsFresh(s);
    var tail := Quarantined(s.freeEnd - s.freeStart, 0);
    AppendTiled(s.tiles, s.freeStart, tail);
    TailInRegion(s.freeStart, s.freeEnd);
    AddPiece(s.tiles, s.freeStart, tail);
    KeepLists(s.tiles, s.lists, s.freeStart, tail);
  }

  lemma SameRegion(p: nat, t: Tile, r: Tile)
    requires InRegion(p, t) && r.len == t.len && !r.Quarantined?
    ensures InRegion(p, r)
  {
  }

  lemma PopLists(tiles: Tiles, lists: seq<seq<nat>>, k: nat, t: Tile)
    requires Listed(tiles, lists) && k < LARGE_BLOCK_NUM && lists[k] != [] && !t.Free?
    ensures Listed(tiles[lists[k][0] := t], PopHead(lists, k))
  {
    var p := lists[k][0];
    var r: Tiles := tiles[p := t];
    var left := PopHead(lists, k);
    assert InList(lists, k + 1, p);
    forall n, q | InList(left, n, q)
      ensures q in r && r[q] == Free(n)
    {
      assert InList(lists, n, q);
      assert n == k + 1 ==> q in lists[k][1..];
    }
    forall q | q in r && r[q].Free?
      ensures InList(left, r[q].len, q)
    {
      assert InList(lists, tiles[q].len, q);
    }
  }

  lemma TakeHeadKeeps(s: Pool, k: nat)
    requires Inv(s) && k < LARGE_BLOCK_NUM == |s.lists| && s.lists[k] != [] && s.lists[k][0] in s.tiles
    ensures Inv(TakeHead(s, k))
  {
    hide Tiled, Pieces, Listed, InRegion;
    var p := s.lists[k][0];
    var t := Live(s.tiles[p].len);
    PieceAt(s.tiles, p);
    RetagTiled(s.tiles, s.freeStart, p, t);
    SameRegion(p, s.tiles[p], t);
    AddPiece(s.tiles, p, t);
    PopLists(s.tiles, s.lists, k, t);
  }

  lemma PieceAt(tiles: Tiles, p: nat)
    requires Pieces(tiles) && p in tiles
    ensures InRegion(p, tiles[p])
  {
  }

  lemma PushLists(tiles: Tiles, lists: seq<seq<nat>>, p: nat, n: nat)
    requires Listed(tiles, lists) && 0 < n <= 256 && (p in tiles ==> !tiles[p].Free?)
    ensures Listed(tiles[p := Free(n)], PushTail(lists, ListOf(n), p))
  {
    var r: Tiles := tiles[p := Free(n)];
    var after := PushTail(lists, n - 1, p);
    forall m, q | InList(after, m, q)
      ensures q in r && r[q] == Free(m)
    {
      assert q == p || InList(lists, m, q);
      assert q == p ==> m == n || InList(lists, m, q);
    }
    forall q | q in r && r[q].Free?
      ensures InList(after, r[q].len, q)
    {
      if q != p {
        assert InList(lists, tiles[q].len, q);
      }
    }
    assert !InList(lists, n, p);
  }

  lemma HalvesInRegion(p: nat, len: nat, n: nat)
    requires InRegion(p, Free(len)) && 0 < n < len
    ensures InRegion(p, Live(n)) && InRegion(p + n, Free(len - n))
  {
  }

  lemma InsideIsNoStart(tiles: Tiles, zone: nat, p: nat, q: nat)
    requires Tiled(tiles, zone) && p in tiles && p < q < p + tiles[p].len
    ensures q !in tiles
  {
  }

  /** Adding to one list and taking the head of another can be done in either order. */
  lemma PushPop(lists: seq<seq<nat>>, c: nat, k: nat, q: nat)
    requires c < |lists| && k < |lists| && lists[k] != [] && c != k
    ensures PopHead(lists, k)[c] == lists[c] && PushTail(lists, c, q)[k] == lists[k]
    ensures PopHead(PushTail(lists, c, q), k) == PushTail(PopHead(lists, k), c, q)
  {
  }

  lemma SplitHeadKeeps(s: Pool, k: nat, n: nat)
    requires Inv(s) && k < LARGE_BLOCK_NUM == |s.lists| && s.lists[k] != []
    requires s.lists[k][0] in s.tiles && s.tiles[s.lists[k][0]] == Free(k + 1) && 0 < n < k + 1 <= 256
    ensures Inv(SplitHead(s, k, n))
  {
    hide Tiled, Pieces, Listed, InRegion, Cut, PopHead, PushTail;
    var p := s.lists[k][0];
    var rest := k + 1 - n;
    PieceAt(s.tiles, p);
    HalvesInRegion(p, k + 1, n);
    CutTiled(s.tiles, s.freeStart, p, p + n, Live(n), Free(rest));
    InsideIsNoStart(s.tiles, s.freeStart, p, p + n);
    var first: Tiles := s.tiles[p := Live(n)];
    AddPiece(s.tiles, p, Live(n));
    AddPiece(first, p + n, Free(rest));
    CutIsTwoUpdates(s.tiles, p, p + n, Live(n), Free(rest));
    PopLists(s.tiles, s.lists, k, Live(n));
    PushLists(first, PopHead(s.lists, k), p + n, rest);
    PushPop(s.lists, ListOf(rest), k, p + n);
  }

  lemma CutIsTwoUpdates(tiles: Tiles, p: nat, q: nat, t: Tile, r: Tile)
    requires p < q
    ensures Cut(tiles, p, q, t, r) == tiles[p := t][q := r]
  {
  }

  lemma ReturnKeeps(s: Pool, p: nat)
    requires Inv(s) && p in s.tiles && s.tiles[p].Live?
    ensures Inv(Return(s, p))
  {
    hide Tiled, Pieces, Listed, InRegion;
    LiveSpanLong(s, p);
    var t := Free(s.tiles[p].len);
    PieceAt(s.tiles, p);
    RetagTiled(s.tiles, s.freeStart, p, t);
    SameRegion(p, s.tiles[p], t);
    AddPiece(s.tiles, p, t);
    PushLists(s.tiles, s.lists, p, t.len);
  }

  /** A listed span has at most 256 pages: the last list stays empty. */
  lemma LastListEmpty(s: Pool)
    requires Inv(s)
    ensures |s.lists| == LARGE_BLOCK_NUM && s.lists[256] == []
  {
    if s.lists[256] != [] {
      var p := s.lists[256][0];
      HeadOfList(s, 256);
      PieceAt(s.tiles, p);
    }
  }

  lemma AcquireKeeps(s: Pool, index: nat)
    requires Inv(s) && index < 256
    ensures Inv(Acquire(s, index).0)
  {
    hide Tiled, Pieces, Listed, Bump, Grow, TakeHead, SplitHead;
    LastListEmpty(s);
    if s.freeStart + index + 1 < s.freeEnd {
      BumpKeeps(s, index + 1);
    } else {
      var k := FirstNonEmpty(s.lists, index);
      if k == LARGE_BLOCK_NUM {
        GrowKeeps(s);
        GrowShape(s);
        BumpKeeps(Grow(s), index + 1);
      } else {
        HeadOfList(s, k);
        if k == index {
          TakeHeadKeeps(s, k);
        } else {
          SplitHeadKeeps(s, k, index + 1);
        }
      }
    }
  }

  lemma GrowShape(s: Pool)
    requires s.freeStart <= s.freeEnd
    ensures Grow(s).freeStart == s.freeEnd && Grow(s).freeEnd == s.freeEnd + 2560
  {
  }

  // ---- what one call does ----

  function LiveSpans(tiles: Tiles): (r: map<nat, nat>)
    ensures forall p :: p in r <==> p in tiles && tiles[p].Live?
    ensures forall p | p in r :: r[p] == tiles[p].len
  {
    map p | p in tiles && tiles[p].Live? :: tiles[p].len
  }

  function StrandedTails(tiles: Tiles): (r: map<nat, nat>)
    ensures forall p :: p in r <==> p in tiles && tiles[p].Quarantined?
    ensures forall p | p in r :: r[p] == tiles[p].len
  {
    map p | p in tiles && tiles[p].Quarantined? :: tiles[p].len
  }

  /** One more span of n pages is handed out, at p; all others are as before. */
  ghost predicate Adds(s: Pool, r: Pool, p: nat, n: nat)
  {
    p !in LiveSpans(s.tiles) && LiveSpans(r.tiles) == LiveSpans(s.tiles)[p := n]
  }

  /** Neither the region nor a list has n pages to give. The region has to keep at least one page. */
  predicate MustGrow(s: Pool, n: nat)
  {
    s.freeEnd <= s.freeStart + n && forall k | 0 <= k < |s.lists| && n <= k + 1 :: s.lists[k] == []
  }

  /** The pages left behind by a request for n pages: the rest of the region if the pool must grow, else none. */
  ghost predicate Strands(s: Pool, r: Pool, n: nat)
  {
    if MustGrow(s, n) then
      && s.freeStart < s.freeEnd && r.freeEnd == s.freeEnd + 2560
      && StrandedTails(r.tiles) == StrandedTails(s.tiles)[s.freeStart := s.freeEnd - s.freeStart]
    else
      StrandedTails(r.tiles) == StrandedTails(s.tiles) && r.freeEnd == s.freeEnd
  }

  /** An acquired span is new, has exactly the pages asked for, lies below the bump pointer and apart from
      every other span handed out; pages are left behind exactly when the pool must grow. */
  lemma AcquireIsSafe(s: Pool, index: nat)
    requires Inv(s) && index < 256
    ensures var (r, p) := Acquire(s, index);
      && Adds(s, r, p, index + 1) && Strands(s, r, index + 1) && p + index + 1 <= r.freeStart
      && (forall q | q in LiveSpans(s.tiles) :: q + s.tiles[q].len <= p || p + index + 1 <= q)
  {
    hide Inv, Acquire, Strands;
    AcquireKeeps(s, index);
    AcquireAdds(s, index);
    var (r, p) := Acquire(s, index);
    SpansApart(r, p);
    assert LiveSpans(r.tiles)[p] == index + 1;
    assert forall q | q in LiveSpans(s.tiles) :: q in LiveSpans(r.tiles) && LiveSpans(r.tiles)[q] == LiveSpans(s.tiles)[q];
  }

  /** Pages are lost exactly when the region has no more than the pages asked for and no list has that many;
      what is lost is the rest of the region, between 1 and index + 1 pages. */
  lemma PagesLostIff(s: Pool, index: nat)
    requires Inv(s) && index < 256
    ensures var r := Acquire(s, index).0;
      StrandedTails(r.tiles) != StrandedTails(s.tiles) <==> MustGrow(s, index + 1)
    ensures var r := Acquire(s, index).0;
      MustGrow(s, index + 1) ==>
        && 0 < s.freeEnd - s.freeStart <= index + 1 && s.freeStart !in StrandedTails(s.tiles)
        && StrandedTails(r.tiles) == StrandedTails(s.tiles)[s.freeStart := s.freeEnd - s.freeStart]
  {
    hide Inv, Acquire, Adds;
    AcquireAdds(s, index);
    TopIsFresh(s);
    assert s.freeStart !in StrandedTails(s.tiles);
  }

  /** Where the pages come from. The untouched region serves while it keeps a page; then the shortest listed
      span that is long enough, the one longest in its list, whose rest goes behind its own list; then a
      new region. Nothing else moves. */
  lemma WhereFrom(s: Pool, index: nat)
    requires Inv(s) && index < 256
    ensures |s.lists| == LARGE_BLOCK_NUM
    ensures var (r, p) := Acquire(s, index);
      if s.freeStart + index + 1 < s.freeEnd then
        p == s.freeStart && r.freeStart == p + index + 1 && r.freeEnd == s.freeEnd && r.lists == s.lists
      else if forall k | index <= k < LARGE_BLOCK_NUM :: s.lists[k] == [] then
        p == s.freeEnd && r.freeStart == p + index + 1 && r.freeEnd == s.freeEnd + 2560 && r.lists == s.lists
      else r.freeStart == s.freeStart && r.freeEnd == s.freeEnd
    ensures var (r, p) := Acquire(s, index);
      s.freeStart + index + 1 >= s.freeEnd ==>
        forall k | index <= k < LARGE_BLOCK_NUM && s.lists[k] != [] && (forall j | index <= j < k :: s.lists[j] == []) ::
          p == s.lists[k][0] && ListsAfter(s, r, index, k)
  {
    hide Inv, Bump, Grow, TakeHead, SplitHead, ListsAfter;
    LastListEmpty(s);
    NextRegionIsFresh(s);
    GrowShape(s);
    BumpIs(s, index + 1);
    BumpIs(Grow(s), index + 1);
    GrowIs(s);
    if s.freeStart + index + 1 >= s.freeEnd {
      var k := FirstNonEmpty(s.lists, index);
      if k < LARGE_BLOCK_NUM {
        HeadOfList(s, k);
        if k == index {
          TakeHeadLists(s, k);
        } else {
          SplitHeadLists(s, index, k);
        }
        forall m | index <= m < LARGE_BLOCK_NUM && s.lists[m] != [] && (forall j | index <= j < m :: s.lists[j] == [])
          ensures m == k
        {
        }
      }
    }
  }

  /** The lists after a span of list k served a request: its head is gone, and the rest, if it was longer, is
      last in the list of the spans of its length. */
  ghost predicate ListsAfter(s: Pool, r: Pool, index: nat, k: nat)
    requires index <= k < |s.lists| && s.lists[k] != []
  {
    && |r.lists| == |s.lists|
    && forall c | 0 <= c < |s.lists| ::
         r.lists[c] == (if c == k then s.lists[c][1..] else s.lists[c])
                       + (if index < k && c == k - index - 1 then [s.lists[k][0] + index + 1] else [])
  }

  lemma BumpIs(s: Pool, n: nat)
    ensures Bump(s, n).freeStart == s.freeStart + n
    ensures Bump(s, n).freeEnd == s.freeEnd && Bump(s, n).lists == s.lists
  {
  }

  lemma GrowIs(s: Pool)
    requires s.freeStart <= s.freeEnd
    ensures Grow(s).lists == s.lists
  {
  }

  lemma TakeHeadLists(s: Pool, k: nat)
    requires k < |s.lists| && s.lists[k] != [] && s.lists[k][0] in s.tiles
    ensures var r := TakeHead(s, k); ListsAfter(s, r, k, k) && r.freeStart == s.freeStart && r.freeEnd == s.freeEnd
  {
  }

  lemma SplitHeadLists(s: Pool, index: nat, k: nat)
    requires index < k < |s.lists| == LARGE_BLOCK_NUM && s.lists[k] != [] && s.lists[k][0] in s.tiles
    requires s.tiles[s.lists[k][0]] == Free(k + 1)
    ensures var r := SplitHead(s, k, index + 1);
      ListsAfter(s, r, index, k) && r.freeStart == s.freeStart && r.freeEnd == s.freeEnd
  {
    hide Cut;
    PushPop(s.lists, ListOf(k - index), k, s.lists[k][0] + index + 1);
  }

  /** A returned span goes behind every span in the list of its length, and nothing else moves. */
  lemma WhereTo(s: Pool, p: nat)
    requires Inv(s) && p in s.tiles && s.tiles[p].Live?
    ensures var r := Return(s, p);
      var len := s.tiles[p].len;
      && r.freeStart == s.freeStart && r.freeEnd == s.freeEnd && |r.lists| == |s.lists| == LARGE_BLOCK_NUM
      && 0 < len <= 256
      && forall c | 0 <= c < LARGE_BLOCK_NUM :: r.lists[c] == s.lists[c] + (if c == len - 1 then [p] else [])
  {
    hide Inv;
    LiveSpanLong(s, p);
  }

  lemma SpansApart(s: Pool, p: nat)
    requires Inv(s) && p in LiveSpans(s.tiles)
    ensures p + s.tiles[p].len <= s.freeStart
    ensures forall q | q in LiveSpans(s.tiles) && q != p :: q + s.tiles[q].len <= p || p + s.tiles[p].len <= q
  {
    hide Pieces, Listed;
  }

  lemma BumpAdds(s: Pool, n: nat)
    requires s.freeStart !in s.tiles
    ensures Adds(s, Bump(s, n), s.freeStart, n) && StrandedTails(Bump(s, n).tiles) == StrandedTails(s.tiles)
  {
  }

  lemma GrowAdds(s: Pool)
    requires s.freeStart !in s.tiles && s.freeStart <= s.freeEnd
    ensures LiveSpans(Grow(s).tiles) == LiveSpans(s.tiles)
    ensures StrandedTails(Grow(s).tiles) == StrandedTails(s.tiles)[s.freeStart := s.freeEnd - s.freeStart]
  {
  }

  lemma RetagAdds(tiles: Tiles, p: nat, n: nat)
    requires p in tiles && tiles[p].Free?
    ensures p !in LiveSpans(tiles) && LiveSpans(tiles[p := Live(n)]) == LiveSpans(tiles)[p := n]
    ensures StrandedTails(tiles[p := Live(n)]) == StrandedTails(tiles)
  {
  }

  lemma ListAdds(tiles: Tiles, q: nat, n: nat)
    requires q !in tiles
    ensures LiveSpans(tiles[q := Free(n)]) == LiveSpans(tiles) && StrandedTails(tiles[q := Free(n)]) == StrandedTails(tiles)
  {
  }

  lemma TakeHeadAdds(s: Pool, k: nat)
    requires k < LARGE_BLOCK_NUM == |s.lists| && s.lists[k] != [] && s.lists[k][0] in s.tiles
    requires s.tiles[s.lists[k][0]] == Free(k + 1)
    ensures Adds(s, TakeHead(s, k), s.lists[k][0], k + 1) && Strands(s, TakeHead(s, k), k + 1)
  {
    hide LiveSpans, StrandedTails, PopHead;
    RetagAdds(s.tiles, s.lists[k][0], k + 1);
  }

  lemma SplitHeadAdds(s: Pool, k: nat, n: nat)
    requires k < LARGE_BLOCK_NUM == |s.lists| && s.lists[k] != [] && s.lists[k][0] in s.tiles
    requires s.tiles[s.lists[k][0]] == Free(k + 1) && 0 < n < k + 1 && s.lists[k][0] + n !in s.tiles
    ensures Adds(s, SplitHead(s, k, n), s.lists[k][0], n) && Strands(s, SplitHead(s, k, n), n)
  {
    hide LiveSpans, StrandedTails, PopHead, PushTail, Cut;
    var p := s.lists[k][0];
    RetagAdds(s.tiles, p, n);
    CutIsTwoUpdates(s.tiles, p, p + n, Live(n), Free(k + 1 - n));
    ListAdds(s.tiles[p := Live(n)], p + n, k + 1 - n);
  }

  lemma GrowThenBumpAdds(s: Pool, n: nat)
    requires s.freeStart !in s.tiles && s.freeEnd !in s.tiles && s.freeStart < s.freeEnd <= s.freeStart + n
    requires forall k | 0 <= k < |s.lists| && n <= k + 1 :: s.lists[k] == []
    ensures Adds(s, Bump(Grow(s), n), s.freeEnd, n) && Strands(s, Bump(Grow(s), n), n)
  {
    hide LiveSpans, StrandedTails;
    GrowAdds(s);
    BumpAdds(Grow(s), n);
  }

  lemma AcquireAdds(s: Pool, index: nat)
    requires Inv(s) && index < 256
    ensures var (r, p) := Acquire(s, index); Adds(s, r, p, index + 1) && Strands(s, r, index + 1)
  {
    hide Inv, Adds, Bump, Grow, TakeHead, SplitHead;
    TopIsFresh(s);
    LastListEmpty(s);
    NextRegionIsFresh(s);
    if s.freeStart + index + 1 < s.freeEnd {
      BumpAdds(s, index + 1);
      BumpIs(s, index + 1);
    } else {
      var k := FirstNonEmpty(s.lists, index);
      if k == LARGE_BLOCK_NUM {
        GrowThenBumpAdds(s, index + 1);
      } else {
        HeadOfList(s, k);
        if k == index {
          TakeHeadAdds(s, k);
        } else {
          InsideIsFresh(s, s.lists[k][0], index + 1);
          SplitHeadAdds(s, k, index + 1);
        }
      }
    }
  }

  /** What span_split relies on. */
  lemma SplitReady(s: Pool, i: nat, n: nat)
    requires Inv(s) && 0 < n <= i < LARGE_BLOCK_NUM == |s.lists| && s.lists[i] != []
    ensures var p := s.lists[i][0];
      && i != 256 && p in s.tiles && s.tiles[p] == Free(i + 1) && p + n !in s.tiles
      && p + i + 1 <= s.freeStart < s.freeEnd && Inv(SplitHead(s, i, n))
  {
    hide Inv, SplitHead;
    LastListEmpty(s);
    HeadOfList(s, i);
    LiveSpanLong(s, s.lists[i][0]);
    InsideIsFresh(s, s.lists[i][0], n);
    SplitHeadKeeps(s, i, n);
  }

  lemma NextRegionIsFresh(s: Pool)
    requires Inv(s)
    ensures s.freeEnd !in s.tiles && s.freeEnd > s.freeStart
  {
    hide Pieces, Listed;
  }

  lemma InsideIsFresh(s: Pool, p: nat, n: nat)
    requires Inv(s) && p in s.tiles && 0 < n
    ensures n < s.tiles[p].len ==> p + n !in s.tiles
  {
    hide Pieces, Listed;
  }

  /** A returned span, and no other, leaves the ones handed out. */
  lemma ReturnIsSafe(s: Pool, p: nat)
    requires Inv(s) && p in s.tiles && s.tiles[p].Live?
    ensures LiveSpans(Return(s, p).tiles) == LiveSpans(s.tiles) - {p}
    ensures StrandedTails(Return(s, p).tiles) == StrandedTails(s.tiles)
  {
    hide Inv, PushTail;
  }

  // ---- runs ----

  datatype Op = Get(index: nat) | Put(page: nat)

  predicate Enabled(s: Pool, op: Op)
  {
    match op
    case Get(index) => index < 256
    case Put(p) => p in s.tiles && s.tiles[p].Live?
  }

  function Step(s: Pool, op: Op): (r: Pool)
    requires Inv(s) && Enabled(s, op)
    ensures Inv(r)
  {
    match op
    case Get(index) =>
      AcquireKeeps(s, index);
      Acquire(s, index).0
    case Put(p) =>
      ReturnKeeps(s, p);
      Return(s, p)
  }

  ghost predicate Legal(s: Pool, ops: seq<Op>)
    requires Inv(s)
    decreases |ops|
  {
    ops == [] || (Enabled(s, ops[0]) && Legal(Step(s, ops[0]), ops[1..]))
  }

  function Run(s: Pool, ops: seq<Op>): (r: Pool)
    requires Inv(s) && Legal(s, ops)
    ensures Inv(r)
    decreases |ops|
  {
    if ops == [] then s else Run(Step(s, ops[0]), ops[1..])
  }

  /** central_pool_init */
  function Start(): Pool
  {
    Pool(0, 2560, map[], seq(LARGE_BLOCK_NUM, _ => []))
  }

  lemma StartKeeps()
    ensures Inv(Start())
  {
  }

  /** What the callers hold: the spans they were given and have not returned. */
  function Ledger(held: map<nat, nat>, s: Pool, ops: seq<Op>): map<nat, nat>
    requires Inv(s) && Legal(s, ops)
    decreases |ops|
  {
    if ops == [] then held
    else
      var next := match ops[0]
        case Get(index) => held[Acquire(s, index).1 := index + 1]
        case Put(p) => held - {p};
      Ledger(next, Step(s, ops[0]), ops[1..])
  }

  /** Over every run the spans handed out are exactly what the callers hold. */
  lemma {:induction false} LiveSpansAreTheLedger(s: Pool, ops: seq<Op>)
    requires Inv(s) && Legal(s, ops)
    ensures LiveSpans(Run(s, ops).tiles) == Ledger(LiveSpans(s.tiles), s, ops)
    decreases |ops|
  {
    if ops != [] {
      match ops[0] {
        case Get(index) => AcquireIsSafe(s, index);
        case Put(p) => ReturnIsSafe(s, p);
      }
      LiveSpansAreTheLedger(Step(s, ops[0]), ops[1..]);
    }
  }

  /** n requests for 256 pages. */
  function Gets(n: nat): (ops: seq<Op>)
    ensures |ops| == n
  {
    if n == 0 then [] else [Get(255)] + Gets(n - 1)
  }

  lemma {:induction false} FillAndGrow(s: Pool, n: nat)
    requires Inv(s) && s.freeStart + 256 * n < s.freeEnd <= s.freeStart + 256 * (n + 1)
    requires forall k | 0 <= k < LARGE_BLOCK_NUM :: s.lists[k] == []
    ensures Legal(s, Gets(n + 1))
    ensures StrandedTails(Run(s, Gets(n + 1)).tiles)
         == StrandedTails(s.tiles)[s.freeStart + 256 * n := s.freeEnd - (s.freeStart + 256 * n)]
    decreases n
  {
    hide Inv, StrandedTails, Acquire, Gets;
    GetsUnfolds(s, n);
    AcquireKeeps(s, 255);
    AcquireOf256(s);
    if n == 0 {
      assert Gets(0) == [];
    } else {
      FillAndGrow(Acquire(s, 255).0, n - 1);
    }
  }

  lemma GetsUnfolds(s: Pool, n: nat)
    requires Inv(s)
    ensures Gets(n + 1) == [Get(255)] + Gets(n) && Gets(n + 1)[0] == Get(255) && Gets(n + 1)[1..] == Gets(n)
    ensures Gets(0) == []
  {
  }

  lemma AcquireOf256(s: Pool)
    requires Inv(s) && forall k | 0 <= k < LARGE_BLOCK_NUM :: s.lists[k] == []
    ensures var r := Acquire(s, 255).0;
      if s.freeStart + 256 < s.freeEnd then
        && r.freeStart == s.freeStart + 256 && r.freeEnd == s.freeEnd && r.lists == s.lists
        && StrandedTails(r.tiles) == StrandedTails(s.tiles)
      else s.freeStart < s.freeEnd && StrandedTails(r.tiles) == StrandedTails(s.tiles)[s.freeStart := s.freeEnd - s.freeStart]
  {
    hide Inv, Adds;
    AcquireAdds(s, 255);
  }

  /** Ten requests for 256 pages to a new pool of 2560: the tenth leaves 256 pages behind, although they are
      just what it asks for. */
  lemma TenthRequestLoses()
    ensures Inv(Start()) && Legal(Start(), Gets(10))
    ensures StrandedTails(Run(Start(), Gets(10)).tiles) == map[2304 := 256]
  {
    hide Inv, Legal, Run;
    StartKeeps();
    FillAndGrow(Start(), 9);
    assert StrandedTails(Start().tiles) == map[];
  }

  /** Of every region of 2560 pages at most one tail is left behind, of at most 256 pages. */
  lemma OneTailPerRegion(s: Pool, p: nat, q: nat)
    requires Inv(s) && p in StrandedTails(s.tiles) && q in StrandedTails(s.tiles) && p / 2560 == q / 2560
    ensures p == q && StrandedTails(s.tiles)[p] <= 256
  {
    hide Listed, InRegion, LiveSpans;
    PieceAt(s.tiles, p);
    PieceAt(s.tiles, q);
    TailsEndTogether(p, s.tiles[p], q, s.tiles[q]);
  }

  lemma TailsEndTogether(p: nat, t: Tile, q: nat, r: Tile)
    requires InRegion(p, t) && InRegion(q, r) && t.Quarantined? && r.Quarantined? && p / 2560 == q / 2560
    ensures p + t.len == q + r.len && t.len <= 256 && 0 < r.len
  {
    TailEndsRegion(p, t);
    TailEndsRegion(q, r);
  }

  lemma TailEndsRegion(p: nat, t: Tile)
    requires InRegion(p, t) && t.Quarantined?
    ensures p + t.len == 2560 * (p / 2560 + 1)
  {
    var e := p + t.len;
    assert e == 2560 * (e / 2560);
    assert e - 1 == 2560 * (p / 2560) + (e - 1) % 2560;
  }

  // ---- the two-level index ----

  /** The address of the header of the span that starts at page p. */
  function HeadAddr(base: nat, spanSize: nat, p: nat): nat
  {
    base + p * spanSize
  }

  lemma Distributes(a: int, b: int, c: int)
    ensures (a + b) * c == a * c + b * c
  {
  }

  lemma Larger(p: nat, q: nat, size: nat)
    requires p < q && size > 0
    ensures p * size < q * size
  {
    Distributes(p, q - p, size);
    assert (q - p) * size > 0;
  }

  /** Different pages have their headers at different addresses, and stepping headers steps pages. */
  lemma HeadAddrInjective(base: nat, spanSize: nat, p: nat, q: nat)
    requires spanSize > 0
    ensures HeadAddr(base, spanSize, p) == HeadAddr(base, spanSize, q) <==> p == q
    ensures HeadAddr(base, spanSize, p) + q * spanSize == HeadAddr(base, spanSize, p + q)
  {
    Distributes(p, q, spanSize);
    if p < q {
      Larger(p, q, spanSize);
    } else if q < p {
      Larger(q, p, spanSize);
    }
  }

  /** The region of a byte offset, and its page within the region. */
  function MemoryIndex(offset: nat): nat
  {
    offset / (10 * 1024 * 1024)
  }

  function SpanIndex(offset: nat): nat
  {
    offset / 4096 % 2560
  }

  /** Any address inside page p has the indices of page p. */
  lemma IndexOfPage(p: nat, d: nat)
    requires d < 4096
    ensures MemoryIndex(4096 * p + d) == p / 2560 && SpanIndex(4096 * p + d) == p % 2560
  {
  }

  datatype SpanHeader = SpanHeader(pageNum: nat, spanCategory: nat, freeStart: nat)

  class PagePool {
    const headBase: nat
    const spanSize: nat
    var freeStart: nat
    var freeEnd: nat
    var lbFreeList: seq<seq<nat>>
    var heads: seq<SpanHeader>    // span_head_pool, one header for every page
    var spanMap: seq<seq<nat>>    // 512 regions, each an array of 2560 header addresses once mapped
    ghost var tiles: Tiles
    ghost var ready: set<nat>     // the spans handed out and set up by span_init

    ghost function Abs(): Pool
      reads this
    {
      Pool(freeStart, freeEnd, tiles, lbFreeList)
    }

    ghost predicate Mapped()
      reads this
    {
      && spanSize > 0 && |heads| == freeEnd && freeEnd % 2560 == 0 && freeEnd <= 512 * 2560
      && |spanMap| == 512 && (forall r | 0 <= r < 512 :: |spanMap[r]| == if r < freeEnd / 2560 then 2560 else 0)
    }

    /** The header at page p describes the span that starts there. */
    ghost predicate HeadOk(p: nat)
      requires p in tiles
      reads this
    {
      && p < |heads| && heads[p].freeStart == p
      && (tiles[p].Free? ==> heads[p].pageNum == tiles[p].len)
      && (p in ready ==> if heads[p].spanCategory == 256 then heads[p].pageNum == tiles[p].len else tiles[p].len == 1)
    }

    /** The index leads from page p to the header of the span that starts there. */
    ghost predicate Indexed(p: nat)
      reads this`spanMap
    {
      p / 2560 < |spanMap| && p % 2560 < |spanMap[p / 2560]|
      && spanMap[p / 2560][p % 2560] == HeadAddr(headBase, spanSize, p)
    }

    ghost predicate Valid()
      reads this
    {
      && Mapped() && Inv(Abs())
      && (forall p | p in tiles && !tiles[p].Quarantined? :: HeadOk(p))
      && (forall p | p in ready :: p in tiles && tiles[p].Live? && Indexed(p))
    }

    /** span_extract_header: the header address found for a byte offset into the pool. */
    method ExtractHeader(offset: nat) returns (addr: nat)
      requires Valid() && offset < 4096 * freeEnd
      ensures forall p | p in ready && 4096 * p <= offset < 4096 * p + 4096 :: addr == HeadAddr(headBase, spanSize, p)
    {
      hide Inv, HeadOk;
      IndexOfPage(offset / 4096, offset % 4096);
      var memoryIndex := MemoryIndex(offset);
      var spanIndex := SpanIndex(offset);
      addr := spanMap[memoryIndex][spanIndex];
      assert forall p | p in ready && 4096 * p <= offset < 4096 * p + 4096 :: p == offset / 4096 && Indexed(p);
    }

    // ---- setting spans up ----

    /** reset_span_map: enter the span at page p in the index. */
    method ResetSpanMap(p: nat)
      requires Mapped() && p < freeEnd
      modifies this`spanMap
      ensures Mapped() && Indexed(p)
      ensures forall q | q != p && old(Indexed(q)) :: Indexed(q)
    {
      IndexOfPage(p, 0);
      var memoryIndex := MemoryIndex(4096 * p);
      var spanIndex := SpanIndex(4096 * p);
      var addr: nat := HeadAddr(headBase, spanSize, p);
      var region: seq<nat> := spanMap[memoryIndex][spanIndex := addr];
      spanMap := spanMap[memoryIndex := region];
    }

    /** span_init on a span just acquired. A small span keeps no page count: its header holds block counts
        in that place. */
    method SpanInit(p: nat, index: nat, category: nat)
      requires Valid() && p in tiles && tiles[p].Live? && p !in ready
      requires if category == 256 then tiles[p].len == index + 1 else tiles[p].len == 1
      modifies this`heads, this`spanMap, this`ready
      ensures Valid() && ready == old(ready) + {p} && heads[p].spanCategory == category
      ensures |heads| == |old(heads)| && forall q | 0 <= q < |heads| && q != p :: heads[q] == old(heads)[q]
      ensures forall q | q != p && old(Indexed(q)) :: Indexed(q)
    {
      hide Inv, Indexed, HeadAddr;
      LiveSpanLong(Abs(), p);
      var pages := if category == 256 then index + 1 else 0;
      heads := heads[p := heads[p].(spanCategory := category, pageNum := pages)];
      ResetSpanMap(p);
      ready := ready + {p};
    }

    /** span_back_to_centralpool */
    method SpanBack(p: nat)
      requires Valid() && p in ready
      modifies this`heads, this`lbFreeList, this`tiles, this`ready
      ensures Valid() && p in old(tiles) && old(tiles)[p].Live?
      ensures Inv(old(Abs())) && Abs() == Return(old(Abs()), p) && ready == old(ready) - {p}
      ensures forall q | q in ready :: q < |old(heads)| && q < |heads| && heads[q] == old(heads)[q]
    {
      hide Inv;
      ReturnKeeps(Abs(), p);
      LiveSpanLong(Abs(), p);
      if heads[p].spanCategory != 256 {
        heads := heads[p := heads[p].(pageNum := 1)];
      }
      var pageNum := heads[p].pageNum;
      var index := if pageNum <= 256 then pageNum - 1 else 256;
      lbFreeList := PushTail(lbFreeList, index, p);
      ghost var len := tiles[p].len;
      tiles := tiles[p := Free(len)];
      ready := ready - {p};
    }

    // ---- acquiring ----

    /** The end of acquire_span: take the pages at the bump pointer. */
    method BumpSpan(n: nat) returns (p: nat)
      requires Valid() && 0 < n <= 256 && freeStart + n < freeEnd
      modifies this`freeStart, this`heads, this`tiles
      ensures Valid() && Abs() == Bump(old(Abs()), n) && p == old(freeStart)
      ensures forall q | q in ready :: q < |old(heads)| && q < |heads| && heads[q] == old(heads)[q]
    {
      hide Inv, Indexed;
      BumpKeeps(Abs(), n);
      TopIsFresh(Abs());
      p := freeStart;
      heads := heads[p := heads[p].(freeStart := p)];
      freeStart := freeStart + n;
      tiles := tiles[p := Live(n)];
    }

    /** central_pool_grow */
    method CentralPoolGrow()
      requires Valid() && freeStart <= freeEnd <= freeStart + 256 && freeEnd < 512 * 2560
      modifies this`freeStart, this`freeEnd, this`heads, this`spanMap, this`tiles
      ensures Valid() && Abs() == Grow(old(Abs())) && old(heads) <= heads
      ensures forall q | q in ready :: q < |old(heads)| && q < |heads| && heads[q] == old(heads)[q]
      ensures |spanMap| == |old(spanMap)| && forall r | 0 <= r < old(freeEnd) / 2560 :: r < 512 && spanMap[r] == old(spanMap)[r]
    {
      hide Inv, HeadAddr;
      GrowKeeps(Abs());
      TopIsFresh(Abs());
      tiles := tiles[freeStart := Quarantined(freeEnd - freeStart, 0)];
      heads := heads + seq(2560, _ => SpanHeader(0, 0, 0));
      spanMap := spanMap[freeEnd / 2560 := seq(2560, _ => 0)];
      freeStart := freeEnd;
      freeEnd := freeEnd + 2560;
    }

    /** Take the head of a list of spans of the size asked for. */
    method TakeFirst(index: nat) returns (p: nat)
      requires Valid() && index < 256 && |lbFreeList| == LARGE_BLOCK_NUM && lbFreeList[index] != []
      modifies this`lbFreeList, this`tiles
      ensures Valid() && p == old(lbFreeList)[index][0]
      ensures p in old(tiles) && Abs() == TakeHead(old(Abs()), index)
      ensures forall q | q in ready :: q < |old(heads)| && q < |heads| && heads[q] == old(heads)[q]
    {
      hide Inv, Indexed, PopHead;
      HeadOfList(Abs(), index);
      TakeHeadKeeps(Abs(), index);
      p := lbFreeList[index][0];
      lbFreeList := PopHead(lbFreeList, index);
      tiles := tiles[p := Live(index + 1)];
    }

    /** span_init on the rest that a split leaves. */
    method InitRest(q: nat, index: nat, start: nat)
      requires Mapped() && q < freeEnd
      modifies this`heads, this`spanMap
      ensures Mapped() && heads == old(heads)[q := SpanHeader(index + 1, 256, start)]
      ensures forall r | r != q && old(Indexed(r)) :: Indexed(r)
    {
      heads := heads[q := SpanHeader(index + 1, 256, start)];
      ResetSpanMap(q);
    }

    /** span_split, and the removal of the span it splits from its list. */
    method SplitFirst(i: nat, index: nat) returns (p: nat)
      requires Valid() && index < i < LARGE_BLOCK_NUM == |lbFreeList| && lbFreeList[i] != []
      modifies this`lbFreeList, this`heads, this`spanMap, this`tiles
      ensures Valid() && p == old(lbFreeList)[i][0]
      ensures p in old(tiles) && index + 1 < old(tiles)[p].len && Abs() == SplitHead(old(Abs()), i, index + 1)
      ensures forall q | q in ready :: q < |old(heads)| && q < |heads| && heads[q] == old(heads)[q]
    {
      hide Inv, Indexed, PopHead, PushTail, Cut, HeadAddr;
      SplitReady(Abs(), i, index + 1);
      p := lbFreeList[i][0];
      var pageNum := heads[p].pageNum;
      var curIndex := if i == 256 then pageNum - 1 else i;
      var rest := p + index + 1;
      var listIndex := curIndex - index - 1;
      PushPop(lbFreeList, ListOf(listIndex + 1), i, rest);
      InitRest(rest, listIndex, heads[p].freeStart + index + 1);
      lbFreeList := PopHead(PushTail(lbFreeList, ListOf(listIndex + 1), rest), i);
      tiles := Cut(tiles, p, rest, Live(index + 1), Free(listIndex + 1));
    }

    /** acquire_span; there has to be room for one more region if the pool must grow. No span handed out
        before loses its header. */
    method AcquireSpan(index: nat) returns (p: nat)
      requires Valid() && index < 256 && (freeEnd < 512 * 2560 || !MustGrow(Abs(), index + 1))
      modifies this`freeStart, this`freeEnd, this`lbFreeList, this`heads, this`spanMap, this`tiles
      ensures Valid() && Inv(old(Abs())) && (Abs(), p) == Acquire(old(Abs()), index)
      ensures forall q | q in ready :: q < |old(heads)| && q < |heads| && heads[q] == old(heads)[q]
    {
      hide Inv, Bump, Grow, TakeHead, SplitHead, Indexed, HeadOk;
      ghost var s := Abs();
      LastListEmpty(s);
      NextRegionIsFresh(s);
      if freeStart + index + 1 < freeEnd {
        p := BumpSpan(index + 1);
        return;
      }
      if lbFreeList[index] != [] {
        p := TakeFirst(index);
        return;
      }
      for i := index + 1 to LARGE_BLOCK_NUM
        invariant Valid() && Abs() == s && forall j | index <= j < i :: lbFreeList[j] == []
      {
        if lbFreeList[i] != [] {
          FirstIs(lbFreeList, index, i);
          p := SplitFirst(i, index);
          return;
        }
      }
      FirstIs(lbFreeList, index, LARGE_BLOCK_NUM);
      GrowShape(s);
      CentralPoolGrow();
      p := BumpSpan(index + 1);
    }

    /** acquire_span_from_centralpool1: a large span of index + 1 pages, set up. */
    method AcquireLarge(index: nat) returns (p: nat)
      requires Valid() && index < 256 && (freeEnd < 512 * 2560 || !MustGrow(Abs(), index + 1))
      modifies this
      ensures Valid() && Inv(old(Abs())) && (Abs(), p) == Acquire(old(Abs()), index) && ready == old(ready) + {p}
      ensures forall q | q in old(ready) :: q < |old(heads)| && q < |heads| && heads[q] == old(heads)[q]
    {
      hide Inv, Acquire, Indexed, HeadOk;
      AcquireIsSafe(Abs(), index);
      assert forall q | q in ready :: q in LiveSpans(tiles);
      p := AcquireSpan(index);
      assert p in LiveSpans(tiles) && LiveSpans(tiles)[p] == index + 1;
      SpanInit(p, index, 256);
    }

    /** The first span of acquire_span_from_centralpool: one page, set up for blocks of one category. */
    method AcquireSmall(category: nat) returns (p: nat)
      requires Valid() && category < 64 && (freeEnd < 512 * 2560 || !MustGrow(Abs(), 1))
      modifies this
      ensures Valid() && Inv(old(Abs())) && (Abs(), p) == Acquire(old(Abs()), 0) && ready == old(ready) + {p}
      ensures forall q | q in old(ready) :: q < |old(heads)| && q < |heads| && heads[q] == old(heads)[q]
    {
      hide Inv, Acquire, Indexed, HeadOk;
      AcquireIsSafe(Abs(), 0);
      assert forall q | q in ready :: q in LiveSpans(tiles);
      p := AcquireSpan(0);
      assert p in LiveSpans(tiles) && LiveSpans(tiles)[p] == 1;
      SpanInit(p, category, category);
    }

    /** central_pool_init, init_head_pool and init_span_map */
    constructor (headBase: nat, spanSize: nat)
      requires spanSize > 0
      ensures Valid() && Abs() == Start() && ready == {}
    {
      this.headBase, this.spanSize := headBase, spanSize;
      freeStart, freeEnd := 0, 2560;
      lbFreeList := seq(LARGE_BLOCK_NUM, _ => []);
      heads := seq(2560, _ => SpanHeader(0, 0, 0));
      spanMap := seq(512, r => if r == 0 then seq(2560, _ => 0) else []);
      tiles, ready := map[], {};
      new;
      StartKeeps();
    }
  }

  lemma FirstIs(lists: seq<seq<nat>>, i: nat, k: nat)
    requires i <= k <= |lists| && (forall j | i <= j < k :: lists[j] == []) && (k < |lists| ==> lists[k] != [])
    ensures FirstNonEmpty(lists, i) == k
  {
  }
}
