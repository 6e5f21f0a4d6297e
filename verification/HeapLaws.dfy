/** What the specification of NVMalloc guarantees: the three views of the heap stay in agreement,
    small free runs are never lost, and quarantined memory is not handed out early. */
module HeapLaws {
  import opened Tiling
  import opened HeapSpec

  // ---- the search ----

  ghost predicate LeadsTo(list: seq<nat>, used: set<nat>, zone: nat, n: nat)
  {
    exists k :: 0 <= k < |list| && Resolve(used, zone, list[k]).1 >= n
  }

  lemma PopClassUnfolds(list: seq<nat>, used: set<nat>, zone: nat, n: nat)
    requires list != []
    ensures var back := Backward(used, zone, list[0]);
      var m := Forward(used, zone, list[0]) + back;
      PopClass(list, used, zone, n)
        == if m >= n || list[1..] == [] then (list[1..], list[0] - back, m) else PopClass(list[1..], used, zone, n)
  {
  }

  /** The inner loop stops at the first hint that leads to n units. */
  lemma {:induction false} PopClassStops(list: seq<nat>, used: set<nat>, zone: nat, n: nat) returns (j: nat)
    requires list != []
    ensures j < |list|
    ensures PopClass(list, used, zone, n) == (list[j + 1..], Resolve(used, zone, list[j]).0, Resolve(used, zone, list[j]).1)
    ensures forall k | 0 <= k < j :: Resolve(used, zone, list[k]).1 < n
    ensures Resolve(used, zone, list[j]).1 >= n || j == |list| - 1
    decreases |list|
  {
    var (a, m) := Resolve(used, zone, list[0]);
    if m >= n || |list| == 1 {
      j := 0;
    } else {
      var i := PopClassStops(list[1..], used, zone, n);
      j := i + 1;
      assert list[1..][i + 1..] == list[j + 1..];
      forall k | 0 <= k < j
        ensures Resolve(used, zone, list[k]).1 < n
      {
        if k > 0 {
          assert list[k] == list[1..][k - 1];
        }
      }
    }
  }

  /** A block is reused exactly when some hint, in the class of the request or a larger one, leads to
      enough space. */
  lemma {:induction false} SearchFinds(lists: seq<seq<nat>>, used: set<nat>, zone: nat, n: nat, index: nat)
    requires |lists| == NR_SIZES + 1
    ensures Search(lists, used, zone, n, index).Found?
       <==> exists i :: index <= i <= NR_SIZES && LeadsTo(lists[i], used, zone, n)
    decreases NR_SIZES + 1 - index, if index < |lists| then |lists[index]| else 0
  {
    hide PopClass, Resolve;
    if index > NR_SIZES {
    } else if lists[index] == [] {
      SearchFinds(lists, used, zone, n, index + 1);
    } else {
      var j := PopClassStops(lists[index], used, zone, n);
      var (rest, a, m) := PopClass(lists[index], used, zone, n);
      if m >= n {
        assert LeadsTo(lists[index], used, zone, n);
      } else {
        var left := lists[index := rest];
        assert rest == [];
        SearchFinds(left, used, zone, n, index);
        assert !LeadsTo(lists[index], used, zone, n);
        assert !LeadsTo(left[index], used, zone, n);
        assert forall i | 0 <= i <= NR_SIZES && i != index :: left[i] == lists[i];
      }
    }
  }

  /** What the search hands back is a whole maximal run. */
  lemma {:induction false} SearchYieldsRun(lists: seq<seq<nat>>, used: set<nat>, zone: nat, n: nat, index: nat)
    requires |lists| == NR_SIZES + 1 && n > 0 && TopInUse(used, zone)
    ensures var r := Search(lists, used, zone, n, index);
      r.Found? ==> r.len >= n && IsRun(used, zone, r.start, r.start + r.len)
    decreases NR_SIZES + 1 - index, if index < |lists| then |lists[index]| else 0
  {
    hide PopClass, Resolve, IsRun;
    if index > NR_SIZES {
    } else if lists[index] == [] {
      SearchYieldsRun(lists, used, zone, n, index + 1);
    } else {
      var j := PopClassStops(lists[index], used, zone, n);
      StaleHint(used, zone, lists[index][j]);
      var (rest, a, m) := PopClass(lists[index], used, zone, n);
      if m < n {
        SearchYieldsRun(lists[index := rest], used, zone, n, index);
      }
    }
  }

  /** The search never loses the hint of a small run it does not hand back, and comes back empty-handed
      only if the run is too small. */
  lemma {:induction false} SearchKeepsHint(lists: seq<seq<nat>>, used: set<nat>, zone: nat, n: nat, index: nat,
                                           x: nat, y: nat)
    requires |lists| == NR_SIZES + 1 && n > 0 && Class(n) <= index
    requires IsRun(used, zone, x, y) && y - x <= NR_SIZES && x in lists[y - x - 1]
    ensures var r := Search(lists, used, zone, n, index);
      x in r.lists[y - x - 1] || (r.Found? && r.start == x && r.len == y - x)
    ensures Search(lists, used, zone, n, index).Nothing? ==> y - x < n || y - x - 1 < index
    decreases NR_SIZES + 1 - index, if index < |lists| then |lists[index]| else 0
  {
    hide PopClass, Resolve;
    if index > NR_SIZES {
    } else if lists[index] == [] {
      SearchKeepsHint(lists, used, zone, n, index + 1, x, y);
    } else {
      var list := lists[index];
      var j := PopClassStops(list, used, zone, n);
      var (rest, a, m) := PopClass(list, used, zone, n);
      HintFindsRun(used, zone, x, y);
      var left := lists[index := rest];
      if index == y - x - 1 {
        var k :| 0 <= k < |list| && list[k] == x;
        assert y - x >= n;
        assert k >= j;
        if k > j {
          assert rest[k - j - 1] == x;
        }
      }
      if m < n {
        SearchKeepsHint(left, used, zone, n, index, x, y);
      }
    }
  }

  /** After an unsuccessful search every list it went through is empty: the hints are gone for good. */
  lemma {:induction false} NothingDrainsLists(lists: seq<seq<nat>>, used: set<nat>, zone: nat, n: nat, index: nat)
    requires |lists| == NR_SIZES + 1
    ensures var r := Search(lists, used, zone, n, index);
      r.Nothing? ==> forall i | 0 <= i <= NR_SIZES :: r.lists[i] == if i < index then lists[i] else []
    decreases NR_SIZES + 1 - index, if index < |lists| then |lists[index]| else 0
  {
    if index > NR_SIZES {
    } else if lists[index] == [] {
      NothingDrainsLists(lists, used, zone, n, index + 1);
    } else {
      var (rest, a, m) := PopClass(lists[index], used, zone, n);
      if m < n {
        NothingDrainsLists(lists[index := rest], used, zone, n, index);
      }
    }
  }

  // ---- carving a free run ----

  ghost predicate SmallRunsHinted(used: set<nat>, zone: nat, lists: seq<seq<nat>>, a: nat, b: nat)
    requires |lists| == NR_SIZES + 1
  {
    forall x: nat, y: nat {:trigger IsRun(used, zone, x, y)} |
      IsRun(used, zone, x, y) && y - x <= NR_SIZES && !(x == a && y == b) :: x in lists[y - x - 1]
  }

  /** Filling the first n units of a run leaves the other runs as they were. */
  lemma CarveRuns(used: set<nat>, zone: nat, a: nat, b: nat, c: nat, x: nat, y: nat)
    requires IsRun(used, zone, a, b) && a < c <= b
    requires IsRun(used + Span(a, c), zone, x, y)
    ensures (x == c && y == b) || (IsRun(used, zone, x, y) && (x != a || y != b))
  {
    var after := used + Span(a, c);
    if x == c {
      assert x !in used && x < b;
      assert c - 1 in Span(a, c);
      assert c - 1 in after;
      assert IsRun(after, zone, c, b);
      RunsAgree(after, zone, x, y, c, b);
    } else {
      assert x !in Span(a, c);
      assert y < zone && y !in used ==> y - 1 !in Span(a, c);
    }
  }

  lemma CarveHints(h: Heap, lists: seq<seq<nat>>, a: nat, m: nat, n: nat)
    requires 0 < n <= m && |lists| == NR_SIZES + 1
    requires IsRun(h.used, h.zone, a, a + m) && SmallRunsHinted(h.used, h.zone, lists, a, a + m)
    ensures HintsCover(Carve(h, lists, a, m, n))
  {
    var r := Carve(h, lists, a, m, n);
    forall x: nat, y: nat {:trigger IsRun(r.used, r.zone, x, y)} | IsRun(r.used, r.zone, x, y) && y - x <= NR_SIZES
      ensures x in r.lists[y - x - 1]
    {
      CarveRuns(h.used, h.zone, a, a + m, a + n, x, y);
    }
  }

  lemma CarveTiled(tiles: Tiles, used: set<nat>, zone: nat, a: nat, m: nat, n: nat)
    requires 0 < n <= m
    requires Tiled(tiles, zone) && Coloured(tiles, used, zone) && IsRun(used, zone, a, a + m)
    ensures Tiled(CarvedTiles(tiles, a, m, n), zone)
  {
    hide Put, Cut, Tiled;
    RunIsTiled(tiles, used, zone, a, a + m);
    if ExactFit(tiles, a, m, n) {
      PutTiled(tiles, zone, a, a + n, Live(n));
    } else {
      PutTiled(tiles, zone, a, a + m, Free(m));
      CutTiled(Put(tiles, a, a + m, Free(m)), zone, a, a + n, Live(n), Free(m - n));
    }
  }

  /** Which blocks there are after carving. */
  lemma CarvedBlocks(tiles: Tiles, used: set<nat>, zone: nat, a: nat, m: nat, n: nat, s: nat)
    requires 0 < n <= m
    requires Tiled(tiles, zone) && Coloured(tiles, used, zone) && IsRun(used, zone, a, a + m)
    ensures var r := CarvedTiles(tiles, a, m, n);
      s in r <==> s == a || (s in tiles && !(a <= s < a + m))
                  || (if ExactFit(tiles, a, m, n) then s in tiles && a + n <= s < a + m else s == a + n)
    ensures var r := CarvedTiles(tiles, a, m, n);
      && r[a] == Live(n)
      && (s in r && s != a && s in tiles && !(a <= s < a + m) ==> r[s] == tiles[s])
      && (s in r && a < s < a + m ==> r[s].Free? && a + n <= s && s + r[s].len <= a + m)
  {
    hide Put, Cut;
    RunIsTiled(tiles, used, zone, a, a + m);
  }

  lemma CarvedKeepsOrAdds(tiles: Tiles, used: set<nat>, zone: nat, a: nat, m: nat, n: nat, s: nat)
    requires 0 < n <= m
    requires Tiled(tiles, zone) && Coloured(tiles, used, zone) && IsRun(used, zone, a, a + m)
    requires s in CarvedTiles(tiles, a, m, n) && s != a
    ensures var r := CarvedTiles(tiles, a, m, n);
      (s in tiles && r[s] == tiles[s] && (ExactFit(tiles, a, m, n) || s != a + n))
      || (!ExactFit(tiles, a, m, n) && s == a + n && r[s] == Free(m - n))
  {
    hide Put, Cut;
    RunIsTiled(tiles, used, zone, a, a + m);
  }

  lemma CarveColoured(tiles: Tiles, used: set<nat>, zone: nat, a: nat, m: nat, n: nat)
    requires 0 < n <= m
    requires Tiled(tiles, zone) && Coloured(tiles, used, zone) && IsRun(used, zone, a, a + m)
    ensures Coloured(CarvedTiles(tiles, a, m, n), used + Span(a, a + n), zone)
  {
    hide CarvedTiles, Put, Cut;
    var r := CarvedTiles(tiles, a, m, n);
    var after := used + Span(a, a + n);
    RunIsTiled(tiles, used, zone, a, a + m);
    EndsBefore(tiles, zone, a);
    forall s, u | s in r && s <= u < s + r[s].len
      ensures u in after <==> !r[s].Free?
    {
      CarvedBlocks(tiles, used, zone, a, m, n, s);
    }
  }

  lemma CarveQueue(h: Heap, lists: seq<seq<nat>>, a: nat, m: nat, n: nat)
    requires 0 < n <= m && |lists| == NR_SIZES + 1
    requires Views(h) && IsRun(h.used, h.zone, a, a + m) && Queue(h.dna, h.tiles, h.clock)
    ensures Queue(h.dna, CarvedTiles(h.tiles, a, m, n), h.clock)
  {
    hide CarvedTiles, Put, Cut;
    var r := CarvedTiles(h.tiles, a, m, n);
    RunIsTiled(h.tiles, h.used, h.zone, a, a + m);
    forall p | p in h.dna
      ensures p in r && r[p] == h.tiles[p]
    {
      CarvedBlocks(h.tiles, h.used, h.zone, a, m, n, p);
    }
    forall p | p in r && r[p].Quarantined?
      ensures p in h.dna
    {
      CarvedBlocks(h.tiles, h.used, h.zone, a, m, n, p);
    }
  }

  lemma CarveKeeps(h: Heap, lists: seq<seq<nat>>, a: nat, m: nat, n: nat)
    requires 0 < n <= m && |lists| == NR_SIZES + 1
    requires Inv(h) && IsRun(h.used, h.zone, a, a + m) && SmallRunsHinted(h.used, h.zone, lists, a, a + m)
    ensures Inv(Carve(h, lists, a, m, n))
  {
    hide CarvedTiles, Tiled, Coloured, Queue, Push, HintsCover;
    CarveTiled(h.tiles, h.used, h.zone, a, m, n);
    CarveColoured(h.tiles, h.used, h.zone, a, m, n);
    CarveQueue(h, lists, a, m, n);
    CarveHints(h, lists, a, m, n);
  }

  // ---- growing at the top ----

  lemma ExtendRuns(used: set<nat>, zone: nat, n: nat, x: nat, y: nat)
    requires n > 0 && TopInUse(used, zone) && (forall u | u in used :: u < zone)
    requires IsRun(used + Span(zone, zone + n), zone + n, x, y)
    ensures IsRun(used, zone, x, y)
  {
    assert y - 1 !in Span(zone, zone + n);
    assert y == zone ==> y - 1 in used;
  }

  lemma ExtendKeeps(h: Heap, lists: seq<seq<nat>>, n: nat)
    requires n > 0 && |lists| == NR_SIZES + 1
    requires Inv(h) && HintsCover(h.(lists := lists))
    ensures Inv(Extend(h, lists, n))
  {
    hide Tiled;
    var r := Extend(h, lists, n);
    AppendTiled(h.tiles, h.zone, Live(n));
    assert Coloured(r.tiles, r.used, r.zone) && h.zone !in h.tiles by {
      assert Tiled(h.tiles, h.zone);
      ExtendColoured(h.tiles, h.used, h.zone, n);
    }
    forall x: nat, y: nat {:trigger IsRun(r.used, r.zone, x, y)} | IsRun(r.used, r.zone, x, y) && y - x <= NR_SIZES
      ensures x in r.lists[y - x - 1]
    {
      ExtendRuns(h.used, h.zone, n, x, y);
    }
  }

  lemma ExtendColoured(tiles: Tiles, used: set<nat>, zone: nat, n: nat)
    requires Tiled(tiles, zone) && Coloured(tiles, used, zone)
    ensures Coloured(tiles[zone := Live(n)], used + Span(zone, zone + n), zone + n) && zone !in tiles
  {
  }

  /** getFreeLocation keeps the views in agreement. */
  lemma TakeKeeps(h: Heap, n: nat)
    requires Inv(h) && n > 0
    ensures Inv(Take(h, n).0)
  {
    var r := Search(h.lists, h.used, h.zone, n, Class(n));
    SearchYieldsRun(h.lists, h.used, h.zone, n, Class(n));
    forall x: nat, y: nat {:trigger IsRun(h.used, h.zone, x, y)} | IsRun(h.used, h.zone, x, y) && y - x <= NR_SIZES
      ensures x in r.lists[y - x - 1] || (r.Found? && r.start == x && r.len == y - x)
    {
      SearchKeepsHint(h.lists, h.used, h.zone, n, Class(n), x, y);
    }
    match r
    case Found(left, a, m) => CarveKeeps(h, left, a, m, n);
    case Nothing(left) => ExtendKeeps(h, left, n);
  }

  /** Take starts from the lists as the search left them. */
  lemma TakeCases(h: Heap, n: nat)
    requires n > 0 && |h.lists| == NR_SIZES + 1
    ensures var r := Search(h.lists, h.used, h.zone, n, Class(n));
      && (r.Found? ==> Take(h, n) == (Carve(h.(lists := r.lists), r.lists, r.start, r.len, n), r.start))
      && (r.Nothing? ==> Take(h, n) == (Extend(h.(lists := r.lists), r.lists, n), h.zone))
  {
  }

  /** The block Take hands out: n units, in use, below the new free_zone. */
  lemma TakenBlock(h: Heap, n: nat)
    requires Inv(h) && n > 0
    ensures var (r, a) := Take(h, n);
      a in r.tiles && r.tiles[a] == Live(n) && a + n <= r.zone && r.dna == h.dna && r.clock == h.clock
  {
    var s := Search(h.lists, h.used, h.zone, n, Class(n));
    SearchYieldsRun(h.lists, h.used, h.zone, n, Class(n));
    if s.Found? {
      CarvedBlocks(h.tiles, h.used, h.zone, s.start, s.len, n, s.start);
    }
  }

  // ---- quarantine and release ----

  lemma RetagColoured(tiles: Tiles, used: set<nat>, zone: nat, p: nat, t: Tile)
    requires Coloured(tiles, used, zone) && p in tiles && t.len == tiles[p].len && t.Free? == tiles[p].Free?
    ensures Coloured(tiles[p := t], used, zone)
  {
    var r: Tiles := tiles[p := t];
    forall s, u | s in r && s <= u < s + r[s].len
      ensures u in used <==> !r[s].Free?
    {
      assert s in tiles && s <= u < s + tiles[s].len;
    }
  }

  lemma SameHints(h: Heap, r: Heap)
    requires HintsCover(h) && r.used == h.used && r.zone == h.zone && r.lists == h.lists
    ensures HintsCover(r)
  {
  }

  lemma QuarantineKeeps(h: Heap, p: nat, now: nat)
    requires Inv(h) && h.clock <= now && p in h.tiles && h.tiles[p].Live?
    ensures Inv(Quarantine(h, p, now))
  {
    hide Tiled, HintsCover;
    RetagTiled(h.tiles, h.zone, p, Quarantined(h.tiles[p].len, now));
    RetagColoured(h.tiles, h.used, h.zone, p, Quarantined(h.tiles[p].len, now));
    SameHints(h, Quarantine(h, p, now));
  }

  /** Clearing a block's bits leaves it inside one maximal run, which the two scans measure. */
  lemma ReleasedRun(tiles: Tiles, used: set<nat>, zone: nat, p: nat)
    requires Tiled(tiles, zone) && Coloured(tiles, used, zone) && p in tiles
    ensures var after := used - Span(p, p + tiles[p].len);
      var forward := Forward(after, zone, p);
      && IsRun(after, zone, p - Backward(after, zone, p), p + forward)
      && tiles[p].len <= forward
  {
    hide Span, Forward, Below, Backward, Coloured;
    assert EndsWell(tiles, zone, p);
    ClearedRun(used, zone, p, tiles[p].len);
  }

  lemma ClearedRun(used: set<nat>, zone: nat, p: nat, len: nat)
    requires 0 < len && p + len <= zone
    ensures var after := used - Span(p, p + len);
      var forward := Forward(after, zone, p);
      && IsRun(after, zone, p - Backward(after, zone, p), p + forward)
      && len <= forward
  {
    hide Span, Forward, Below;
    var after := used - Span(p, p + len);
    var forward := Forward(after, zone, p);
    assert forward < len ==> p + forward !in after;
  }

  /** Once its bits are clear, the block counts as free: the views agree again. */
  lemma FreedBlock(tiles: Tiles, used: set<nat>, zone: nat, p: nat)
    requires Tiled(tiles, zone) && Coloured(tiles, used, zone) && p in tiles
    ensures var r: Tiles := tiles[p := Free(tiles[p].len)];
      Tiled(r, zone) && Coloured(r, used - Span(p, p + tiles[p].len), zone)
  {
    hide Span, EndsWell;
    var r: Tiles := tiles[p := Free(tiles[p].len)];
    var after := used - Span(p, p + tiles[p].len);
    RetagTiled(tiles, zone, p, Free(tiles[p].len));
    forall s, u | s in r && s <= u < s + r[s].len
      ensures u in after <==> !r[s].Free?
    {
      assert s in tiles && s <= u < s + tiles[s].len;
    }
  }

  /** A run that appears when a block's bits are cleared is the block's own run or was there before. */
  lemma ReleaseRuns(used: set<nat>, zone: nat, p: nat, q: nat, a: nat, b: nat, x: nat, y: nat)
    requires a <= p < q <= b && IsRun(used - Span(p, q), zone, a, b)
    requires IsRun(used - Span(p, q), zone, x, y)
    ensures (x == a && y == b) || IsRun(used, zone, x, y)
  {
    var after := used - Span(p, q);
    RunsAgree(after, zone, a, b, x, y);
    if !(x == a && y == b) {
      forall u | x <= u < y
        ensures u !in used
      {
        assert u !in after && u !in Span(p, q);
      }
      assert x > 0 ==> x - 1 in after;
      assert y < zone ==> y in after;
    }
  }

  /** A run below a zone lowered to the start a of a run is a run of the old heap. */
  lemma FoldRuns(used: set<nat>, zone: nat, a: nat, x: nat, y: nat)
    requires IsRun(used, zone, a, zone) && IsRun(used, a, x, y)
    ensures IsRun(used, zone, x, y)
  {
    assert y == a ==> y - 1 !in used;
  }

  lemma QueueTail(dna: seq<nat>, tiles: Tiles, clock: nat)
    requires Queue(dna, tiles, clock) && dna != []
    ensures forall p | p in tiles && tiles[p].Quarantined? && p != dna[0] :: p in dna[1..]
    ensures dna[0] !in dna[1..]
    ensures forall i, j | 0 <= i < j < |dna[1..]| :: dna[1..][i] != dna[1..][j]
              && dna[1..][i] in tiles && dna[1..][j] in tiles
              && tiles[dna[1..][i]].time <= tiles[dna[1..][j]].time
  {
  }

  /** The block at the head of the queue, with the two ends of the run it joins. */
  ghost predicate Joins(h: Heap, a: nat, b: nat)
  {
    && h.dna != [] && h.dna[0] in h.tiles && h.tiles[h.dna[0]].Quarantined?
    && var p := h.dna[0];
       var after := h.used - Span(p, p + h.tiles[p].len);
    && IsRun(after, h.zone, a, b)
    && a == p - Backward(after, h.zone, p) && b == p + Forward(after, h.zone, p)
    && p < p + h.tiles[p].len <= b
  }

  /** In the run a released block joins there are only free headers, apart from its own. */
  lemma JoinedBlocks(h: Heap, a: nat, b: nat)
    requires Views(h) && Joins(h, a, b)
    ensures a in h.tiles && Boundary(h.tiles, h.zone, b)
    ensures forall s | s in h.tiles && a <= s < b && s != h.dna[0] :: h.tiles[s].Free?
  {
    hide Span, Forward, Backward, TopInUse;
    var p := h.dna[0];
    var freed: Tiles := h.tiles[p := Free(h.tiles[p].len)];
    FreedBlock(h.tiles, h.used, h.zone, p);
    RunIsTiled(freed, h.used - Span(p, p + h.tiles[p].len), h.zone, a, b);
    assert forall s | s in h.tiles :: s in freed;
  }

  /** Folding into the top: everything from the start of the run on is untouched memory again. */
  lemma FoldKeepsViews(h: Heap, a: nat)
    requires Views(h) && Joins(h, a, h.zone)
    ensures var p := h.dna[0];
      var after := h.used - Span(p, p + h.tiles[p].len);
      Tiled(Truncate(h.tiles, a), a) && Coloured(Truncate(h.tiles, a), after, a) && TopInUse(after, a)
  {
    hide Truncate;
    var p := h.dna[0];
    var after := h.used - Span(p, p + h.tiles[p].len);
    JoinedBlocks(h, a, h.zone);
    TruncateTiled(h.tiles, h.zone, a);
    EndsBefore(h.tiles, h.zone, a);
    var r := Truncate(h.tiles, a);
    forall s, u | s in r && s <= u < s + r[s].len
      ensures u in after <==> !r[s].Free?
    {
      assert u in h.used <==> !h.tiles[s].Free?;
    }
  }

  lemma FoldKeepsQueue(h: Heap, a: nat)
    requires Views(h) && Queue(h.dna, h.tiles, h.clock) && Joins(h, a, h.zone)
    ensures Queue(h.dna[1..], Truncate(h.tiles, a), h.clock)
  {
    hide Truncate, Span, Forward, Backward, TopInUse, Coloured;
    JoinedBlocks(h, a, h.zone);
    QueueTail(h.dna, h.tiles, h.clock);
    var r := Truncate(h.tiles, a);
    forall p | p in h.dna[1..]
      ensures p in r && r[p] == h.tiles[p]
    {
      assert p in h.dna;
    }
  }

  lemma FoldKeepsHints(h: Heap, a: nat)
    requires HintsCover(h) && Joins(h, a, h.zone)
    ensures var p := h.dna[0];
      HintsCover(h.(zone := a, used := h.used - Span(p, p + h.tiles[p].len)))
  {
    var p := h.dna[0];
    var q := p + h.tiles[p].len;
    var after := h.used - Span(p, q);
    forall x: nat, y: nat {:trigger IsRun(after, a, x, y)} | IsRun(after, a, x, y) && y - x <= NR_SIZES
      ensures x in h.lists[y - x - 1]
    {
      FoldRuns(after, h.zone, a, x, y);
      ReleaseRuns(h.used, h.zone, p, q, a, h.zone, x, y);
    }
  }

  /** Coalescing: one header for the block and the free space in front of it. */
  lemma JoinKeepsTiled(h: Heap, a: nat, b: nat)
    requires Views(h) && Joins(h, a, b)
    ensures Tiled(Put(h.tiles, h.dna[0], b, Free(b - h.dna[0])), h.zone)
  {
    hide Put, Tiled;
    JoinedBlocks(h, a, b);
    PutTiled(h.tiles, h.zone, h.dna[0], b, Free(b - h.dna[0]));
  }

  lemma JoinKeepsColoured(h: Heap, a: nat, b: nat)
    requires Views(h) && Joins(h, a, b)
    ensures var p := h.dna[0];
      Coloured(Put(h.tiles, p, b, Free(b - p)), h.used - Span(p, p + h.tiles[p].len), h.zone)
  {
    hide Put, Span, Forward, Backward, TopInUse;
    var p := h.dna[0];
    var after := h.used - Span(p, p + h.tiles[p].len);
    EndsBefore(h.tiles, h.zone, p);
    var r := Put(h.tiles, p, b, Free(b - p));
    forall s, u | s in r && s <= u < s + r[s].len
      ensures u in after <==> !r[s].Free?
    {
      if s != p {
        assert u in h.used <==> !h.tiles[s].Free?;
      }
    }
  }

  lemma JoinKeepsQueue(h: Heap, a: nat, b: nat)
    requires Views(h) && Queue(h.dna, h.tiles, h.clock) && Joins(h, a, b)
    ensures Queue(h.dna[1..], Put(h.tiles, h.dna[0], b, Free(b - h.dna[0])), h.clock)
  {
    hide Put, Span, Forward, Backward, TopInUse, Coloured;
    JoinedBlocks(h, a, b);
    QueueTail(h.dna, h.tiles, h.clock);
    var r := Put(h.tiles, h.dna[0], b, Free(b - h.dna[0]));
    forall p | p in h.dna[1..]
      ensures p in r && r[p] == h.tiles[p]
    {
      assert p in h.dna;
    }
  }

  lemma JoinKeepsHints(h: Heap, a: nat, b: nat, lists: seq<seq<nat>>)
    requires HintsCover(h) && Joins(h, a, b)
    requires |lists| == NR_SIZES + 1 && a in lists[Class(b - a)]
    requires forall i, x | 0 <= i <= NR_SIZES && x in h.lists[i] :: x in lists[i]
    ensures var p := h.dna[0];
      HintsCover(h.(used := h.used - Span(p, p + h.tiles[p].len), lists := lists))
  {
    var p := h.dna[0];
    var q := p + h.tiles[p].len;
    var after := h.used - Span(p, q);
    forall x: nat, y: nat {:trigger IsRun(after, h.zone, x, y)} | IsRun(after, h.zone, x, y) && y - x <= NR_SIZES
      ensures x in lists[y - x - 1]
    {
      ReleaseRuns(h.used, h.zone, p, q, a, b, x, y);
      if !(x == a && y == b) {
        assert x in h.lists[y - x - 1];
      }
    }
  }

  /** The head of the queue joins a run. */
  lemma HeadJoins(h: Heap) returns (a: nat, b: nat)
    requires Inv(h) && h.dna != []
    ensures Joins(h, a, b)
  {
    hide Span, Forward, Backward, HintsCover, TopInUse;
    var p := h.dna[0];
    assert p in h.dna;
    ReleasedRun(h.tiles, h.used, h.zone, p);
    var after := h.used - Span(p, p + h.tiles[p].len);
    a := p - Backward(after, h.zone, p);
    b := p + Forward(after, h.zone, p);
  }

  /** A release keeps the views in agreement, whether the block is folded into the top or coalesced. */
  lemma ReleaseKeeps(h: Heap)
    requires Inv(h) && h.dna != []
    ensures Inv(Release(h))
  {
    hide Inv, Release, IsRun, Forward, Backward;
    var a, b := HeadJoins(h);
    if b >= h.zone {
      JoinsInside(h, a, b);
      ReleaseFolds(h, a);
    } else {
      ReleaseJoins(h, a, b);
    }
  }

  lemma JoinsInside(h: Heap, a: nat, b: nat)
    requires Joins(h, a, b)
    ensures a <= h.dna[0] < b <= h.zone
  {
  }

  lemma ReleaseFolds(h: Heap, a: nat)
    requires Inv(h) && Joins(h, a, h.zone)
    ensures Inv(Release(h))
  {
    hide Tiled, Coloured, TopInUse, Queue, HintsCover, Truncate, Forward, Backward, IsRun;
    FoldKeepsViews(h, a);
    FoldKeepsQueue(h, a);
    FoldKeepsHints(h, a);
    ReleaseIsFold(h, a);
    SameHints(h.(zone := a, used := h.used - Span(h.dna[0], h.dna[0] + h.tiles[h.dna[0]].len)), Release(h));
  }

  lemma PushBothKeeps(lists: seq<seq<nat>>, a: nat, p: nat, b: nat)
    requires |lists| == NR_SIZES + 1 && a <= p < b
    ensures forall i, x | 0 <= i <= NR_SIZES && x in lists[i] :: x in PushBoth(lists, a, p, b)[i]
    ensures a in PushBoth(lists, a, p, b)[Class(b - a)]
  {
  }

  /** Release in the terms of the run the block joins. */
  lemma ReleaseIsFold(h: Heap, a: nat)
    requires Inv(h) && Joins(h, a, h.zone)
    ensures Release(h) == h.(zone := a, used := h.used - Span(h.dna[0], h.dna[0] + h.tiles[h.dna[0]].len),
                             tiles := Truncate(h.tiles, a), dna := h.dna[1..])
  {
  }

  lemma ReleaseIsJoin(h: Heap, a: nat, b: nat)
    requires Inv(h) && Joins(h, a, b) && b < h.zone
    ensures a <= h.dna[0] < b && |h.lists| == NR_SIZES + 1
    ensures Release(h) == h.(used := h.used - Span(h.dna[0], h.dna[0] + h.tiles[h.dna[0]].len),
                             tiles := Put(h.tiles, h.dna[0], b, Free(b - h.dna[0])), dna := h.dna[1..],
                             lists := PushBoth(h.lists, a, h.dna[0], b))
  {
    hide Forward, Backward, IsRun, Put, PushBoth, Tiled, Coloured, Queue;
  }

  lemma ReleaseJoins(h: Heap, a: nat, b: nat)
    requires Inv(h) && Joins(h, a, b) && b < h.zone
    ensures Inv(Release(h))
  {
    hide Tiled, Coloured, Queue, HintsCover, Put, PushBoth, Release, Forward, Backward, IsRun;
    ReleaseIsJoin(h, a, b);
    JoinKeepsTiled(h, a, b);
    JoinKeepsColoured(h, a, b);
    JoinKeepsQueue(h, a, b);
    PushBothKeeps(h.lists, a, h.dna[0], b);
    JoinKeepsHints(h, a, b, Release(h).lists);
    SameHints(h.(used := Release(h).used, lists := Release(h).lists), Release(h));
    TopStays(h, a, b);
  }

  lemma TopStays(h: Heap, a: nat, b: nat)
    requires Joins(h, a, b) && b < h.zone && TopInUse(h.used, h.zone)
    ensures TopInUse(h.used - Span(h.dna[0], h.dna[0] + h.tiles[h.dna[0]].len), h.zone)
  {
  }

  lemma ListsLong(h: Heap)
    requires Inv(h)
    ensures |h.lists| == NR_SIZES + 1
  {
  }

  lemma LaterKeeps(h: Heap, now: nat)
    requires Inv(h) && h.clock <= now
    ensures Inv(h.(clock := now))
  {
  }

  lemma TickKeeps(h: Heap, now: nat)
    requires Inv(h) && h.clock <= now
    ensures Inv(Tick(h, now))
  {
    var later := h.(clock := now);
    SameHints(h, later);
    assert Inv(later);
    if h.dna != [] && now >= h.tiles[h.dna[0]].time + h.wait {
      ReleaseKeeps(later);
    }
  }

  // ---- the empty heap ----

  lemma EmptyKeeps(nrPages: nat, wait: nat, now: nat)
    ensures Inv(Empty(nrPages, wait, now))
  {
  }
}
