/** The chunk headers and the local heap of TCNVMalloc, updated in place.

    A pointer to a chunk is the number of the chunk in the pool; its address is a multiple of CHUNK_SIZE. */
module TCNVMalloc {
  import opened Basics
  import opened ChunkHeap

  const HEADER := 96          // sizeof(chunkh_t)
  const CHUNK_SIZE := 65632   // 16 pages and the header
  const ALLOC_UNIT := 1073741824
  const DUMMY_CLASS := 101

  // ---- addresses ----

  function ChunkAddr(start: nat, i: nat): (a: nat)
  {
    start + i * CHUNK_SIZE
  }

  function BlockAddr(chunk: nat, size: nat, k: nat): (a: nat)
    ensures a > chunk
  {
    chunk + HEADER + k * size
  }

  /** chunk_extract_header */
  function ExtractHeader(ptr: nat): (a: nat)
  {
    ptr - ptr % CHUNK_SIZE
  }

  lemma BlocksFit(cls: nat, k: nat)
    requires cls < 47 && k < BlocksOf(cls)
    ensures (k + 1) * ClassSize(cls) <= 65536
  {
    var size := ClassSize(cls);
    assert BlocksOf(cls) * size <= 65536 by { DivTimes(65536, size); }
    Scaled(k + 1, BlocksOf(cls), size);
  }

  lemma DivTimes(a: nat, b: nat)
    requires b > 0
    ensures a / b * b <= a
  {
  }

  lemma OffsetInChunk(start: nat, i: nat, r: nat)
    requires start % CHUNK_SIZE == 0 && r < CHUNK_SIZE
    ensures (ChunkAddr(start, i) + r) % CHUNK_SIZE == r && (ChunkAddr(start, i) - start) / CHUNK_SIZE == i
  {
    var q := start / CHUNK_SIZE;
    assert ChunkAddr(start, i) + r == CHUNK_SIZE * (q + i) + r;
  }

  /** From any byte of a block the header of its chunk is found. */
  lemma HeaderFound(start: nat, i: nat, cls: nat, k: nat, off: nat)
    requires start % CHUNK_SIZE == 0 && cls < 47 && k < BlocksOf(cls) && off < ClassSize(cls)
    ensures var ptr := BlockAddr(ChunkAddr(start, i), ClassSize(cls), k) + off;
      && ExtractHeader(ptr) == ChunkAddr(start, i)
      && ChunkAddr(start, i) + HEADER <= ptr < ChunkAddr(start, i + 1)
  {
    hide BlocksOf, ClassSize;
    var size := ClassSize(cls);
    BlocksFit(cls, k);
    assert (k + 1) * size == k * size + size;
    OffsetInChunk(start, i, HEADER + k * size + off);
  }

  /** Two blocks in use never share a byte. */
  lemma BlocksApart(h: LHeap, start: nat, b: (nat, nat), c: (nat, nat))
    requires Inv(h) && start % CHUNK_SIZE == 0 && b in Live(h) && c in Live(h) && b != c
    requires b.0 < c.0 || (b.0 == c.0 && b.1 < c.1)
    ensures h.chunks[b.0].sizeCls < 47 && h.chunks[c.0].sizeCls < 47
    ensures var size := ClassSize(h.chunks[b.0].sizeCls);
      BlockAddr(ChunkAddr(start, b.0), size, b.1) + size
      <= BlockAddr(ChunkAddr(start, c.0), ClassSize(h.chunks[c.0].sizeCls), c.1)
  {
    hide SlotsOk, ListsOk, BlocksOf, ClassSize;
    Classes(h);
    var cls := h.chunks[b.0].sizeCls;
    if b.0 < c.0 {
      BlocksFit(cls, b.1);
      assert (b.1 + 1) * ClassSize(cls) == b.1 * ClassSize(cls) + ClassSize(cls);
    } else {
      Scaled(b.1 + 1, c.1, ClassSize(cls));
      assert (b.1 + 1) * ClassSize(cls) == b.1 * ClassSize(cls) + ClassSize(cls);
    }
  }

  lemma NextBlock(chunk: nat, size: nat, k: nat)
    ensures BlockAddr(chunk, size, k) + size == BlockAddr(chunk, size, k + 1)
  {
    assert (k + 1) * size == k * size + size;
  }

  /** The block that leaves the chunk in the slot. */
  ghost predicate HandedOut(h: LHeap, s: nat, i: nat, k: nat)
    requires Inv(h) && s < 47
  {
    i < |h.chunks| && h.fore[s] == i && h.chunks[i].sizeCls < 47 && h.chunks[i].freeTotCnt > 0 && TakeBlock(h.chunks[i]).1 == k
  }

  function Settled(ch: Chunk): Chunk
  {
    if ch.freeTotCnt == 0 then ch.(state := FULL) else ch
  }

  lemma ForegroundGives(h: LHeap, s: nat)
    requires Inv(h) && s < 47 && h.fore[s] != DUMMY
    ensures 0 <= h.fore[s] < |h.chunks| && ChunkOk(h.chunks[h.fore[s]]) && HandedOut(h, s, h.fore[s], TakeBlock(h.chunks[h.fore[s]]).1)
    ensures h.chunks[h.fore[s]].state == FORG
    ensures var ch := TakeBlock(h.chunks[h.fore[s]]).0;
      && ChunkOk(ch) && Inv(Draw(h, s)) && h.fore[s] < |Draw(h, s).chunks|
      && Draw(h, s).chunks[h.fore[s]].sizeCls == h.chunks[h.fore[s]].sizeCls && (ch.freeTotCnt == 0 ==> Held(Filled(h, s, ch), s))
  {
    hide ListsOk, BlocksOf;
    var ch := h.chunks[h.fore[s]];
    TakeBlockKeeps(ch);
    TakenKeeps(h, s, TakeBlock(ch).0);
    if TakeBlock(ch).0.freeTotCnt == 0 {
      FilledKeeps(h, s, TakeBlock(ch).0);
    }
  }

  // ---- one chunk header ----

  class ChunkHeader {
    const self: nat
    var state: State
    var sizeCls: nat
    var blkSize: nat
    var blkCnt: nat
    var freeMemCnt: nat
    var freeTotCnt: nat
    var freeMem: nat
    var dlist: seq<nat>         // addresses
    var wearCount: nat
    ghost var blocks: seq<nat>  // the numbers of the blocks in dlist

    ghost predicate Valid()
      reads this
    {
      && sizeCls < 47 && blkSize == ClassSize(sizeCls)
      && |dlist| == |blocks| && (forall j | 0 <= j < |dlist| :: dlist[j] == BlockAddr(self, blkSize, blocks[j]))
      && freeMemCnt <= blkCnt && freeMem == BlockAddr(self, blkSize, blkCnt - freeMemCnt)
    }

    ghost function Value(): Chunk
      reads this
    {
      Chunk(state, sizeCls, blkCnt, freeMemCnt, freeTotCnt, blocks, wearCount)
    }

    /** The dummy holds no block; its count is one, so that taking from it looks like taking the last block. */
    ghost predicate Idle()
      reads this
    {
      sizeCls == DUMMY_CLASS && freeMemCnt == 0 && freeTotCnt == 1 && dlist == []
    }

    constructor (address: nat)
      ensures self == address
    {
      self := address;
    }

    constructor Dummy()
      ensures Idle()
    {
      self := 0;
      state := FORG;
      sizeCls, blkSize, blkCnt, freeMemCnt, freeTotCnt, freeMem := DUMMY_CLASS, 0, 0, 0, 1, 0;
      dlist, blocks := [], [];
    }

    /** chunk_init */
    method Init(cls: nat)
      requires cls < 47
      modifies this
      ensures Valid() && Value() == Fresh(cls).(state := old(state))
    {
      sizeCls := cls;
      blkSize := ClassSize(cls);
      blkCnt := BlocksOf(cls);
      freeTotCnt, freeMemCnt := blkCnt, blkCnt;
      freeMem := self + HEADER;
      dlist, blocks := [], [];
      wearCount := 0;
    }

    /** chunk_alloc_obj; null when the chunk has no block. */
    method AllocObj() returns (ret: nat, ghost k: nat)
      requires Idle() || (Valid() && ChunkOk(Value()) && freeTotCnt > 0)
      modifies this
      ensures old(Idle()) ==> Idle() && ret == 0
      ensures !old(Idle()) ==> Valid() && k == TakeBlock(old(Value())).1 && ret == BlockAddr(self, blkSize, k)
      ensures !old(Idle()) ==> Value() == TakeBlock(old(Value())).0.(freeTotCnt := old(freeTotCnt))
    {
      ret := 0;
      k := 0;
      if freeMemCnt > 0 {
        ret := freeMem;
        k := blkCnt - freeMemCnt;
        NextBlock(self, blkSize, k);
        freeMem := freeMem + blkSize;
        freeMemCnt := freeMemCnt - 1;
      } else if dlist != [] {
        ret := dlist[|dlist| - 1];
        k := blocks[|blocks| - 1];
        dlist := dlist[..|dlist| - 1];
        blocks := blocks[..|blocks| - 1];
      }
    }

    method PutFree(ptr: nat, ghost k: nat)
      requires Valid() && ptr == BlockAddr(self, blkSize, k)
      modifies this
      ensures Valid() && Value() == PutBlock(old(Value()), k)
    {
      dlist := [ptr] + dlist;
      blocks := [k] + blocks;
      freeTotCnt := freeTotCnt + 1;
    }

    /** A block leaves for good: small_malloc takes it off the count, and notices the last one. */
    method Give() returns (ret: nat, ghost k: nat)
      requires Valid() && ChunkOk(Value()) && freeTotCnt > 0
      modifies this
      ensures Valid() && sizeCls == old(sizeCls) && Value() == Settled(TakeBlock(old(Value())).0)
      ensures k == TakeBlock(old(Value())).1 && ret == BlockAddr(self, blkSize, k)
    {
      ret, k := AllocObj();
      freeTotCnt := freeTotCnt - 1;
      if freeTotCnt == 0 {
        state := FULL;
      }
    }
  }

  // ---- the local heap, and the pool its chunks are carved from ----

  class LocalHeap {
    const foreground: array<int>
    const background: array<seq<nat>>
    const dummy: ChunkHeader
    var freeList: seq<nat>
    var headers: seq<ChunkHeader>
    const poolStart: nat
    var poolEnd: nat
    var freeStart: nat
    ghost var view: LHeap

    ghost predicate HeaderOk(i: nat)
      requires i < |headers| && |headers| == |view.chunks|
      reads this, headers
    {
      headers[i].Valid() && headers[i].self == ChunkAddr(poolStart, i) && headers[i].Value() == view.chunks[i]
    }

    ghost predicate Matches()
      reads this, foreground, background, headers
    {
      && foreground.Length == CLASSES && background.Length == CLASSES
      && foreground[..] == view.fore && background[..] == view.back && freeList == view.free
      && |headers| == |view.chunks| && (forall i | 0 <= i < |headers| :: headers[i] != dummy && HeaderOk(i))
      && (forall i, j | 0 <= i < j < |headers| :: headers[i] != headers[j])
      && poolStart % CHUNK_SIZE == 0 && freeStart == ChunkAddr(poolStart, |headers|) <= poolEnd
    }

    ghost predicate Valid()
      reads this, foreground, background, dummy, headers
    {
      Matches() && Inv(view) && dummy.Idle()
    }

    /** acquire_lheap, with the pool as gpool_init leaves it: the first multiple of CHUNK_SIZE in the mapping. */
    constructor (mapped: nat)
      ensures Valid() && view == Start() && fresh(foreground) && fresh(background) && fresh(dummy)
      ensures mapped <= poolStart < mapped + CHUNK_SIZE && freeStart == poolStart && poolEnd == mapped + ALLOC_UNIT
    {
      foreground := new int[CLASSES](_ => DUMMY);
      background := new seq<nat>[CLASSES](_ => []);
      dummy := new ChunkHeader.Dummy();
      freeList := [];
      headers := [];
      var start := (mapped + CHUNK_SIZE - 1) / CHUNK_SIZE * CHUNK_SIZE;
      poolStart := start;
      poolEnd := mapped + ALLOC_UNIT;
      freeStart := start;
      view := Start();
      new;
      StartKeeps();
      assert foreground[..] == view.fore;
      assert background[..] == view.back;
    }

    /** gpool_acquire_chunk; the pool grows when the chunk no longer fits. */
    method AcquireChunk() returns (addr: nat)
      requires freeStart <= poolEnd
      modifies this`freeStart, this`poolEnd
      ensures addr == old(freeStart) && freeStart == addr + CHUNK_SIZE <= poolEnd
      ensures poolEnd == old(poolEnd) || (old(freeStart) + CHUNK_SIZE > old(poolEnd) && poolEnd == old(poolEnd) + ALLOC_UNIT)
    {
      addr := freeStart;
      if freeStart + CHUNK_SIZE > poolEnd {
        poolEnd := poolEnd + ALLOC_UNIT;
      }
      freeStart := freeStart + CHUNK_SIZE;
    }

    method Install(i: nat, cls: nat)
      requires Matches() && i < |headers| && cls < CLASSES
      modifies headers[i], foreground, this`view
      ensures Matches() && view == Promote(old(view), cls, i)
    {
      foreground[cls] := i;
      headers[i].state := FORG;
      view := Promote(view, cls, i);
    }

    /** lheap_replace_foreground */
    method ReplaceForeground(cls: nat)
      requires Matches() && Held(view, cls) && cls < 47
      modifies this, foreground, background, headers
      ensures Matches() && view == Replace(old(view), cls)
      ensures old(headers) <= headers && fresh(headers[|old(headers)|..])
    {
      hide BlockAddr, ChunkAddr, ClassSize, BlocksOf, SlotsOk, NoDup;
      if background[cls] != [] {
        var i := background[cls][0];
        assert i in view.back[cls];
        background[cls] := background[cls][1..];
        view := view.(back := view.back[cls := view.back[cls][1..]]);
        Install(i, cls);
      } else if freeList != [] {
        var i := freeList[0];
        assert i in view.free;
        freeList := freeList[1..];
        view := view.(free := view.free[1..]);
        Install(i, cls);
      } else {
        FromPool(cls);
      }
    }

    method NewChunk(cls: nat) returns (ch: ChunkHeader)
      requires freeStart <= poolEnd && cls < 47
      modifies this`freeStart, this`poolEnd
      ensures fresh(ch) && ch.Valid() && ch.Value() == Fresh(cls) && ch.self == old(freeStart)
      ensures freeStart == old(freeStart) + CHUNK_SIZE <= poolEnd
    {
      var addr := AcquireChunk();
      ch := new ChunkHeader(addr);
      ch.Init(cls);
      ch.state := FORG;
    }

    method FromPool(cls: nat)
      requires Matches() && cls < 47
      modifies this, foreground
      ensures Matches() && |old(headers)| + 1 == |headers| && headers[..|old(headers)|] == old(headers)
      ensures fresh(headers[|old(headers)|])
      ensures view == old(view).(chunks := old(view).chunks + [Fresh(cls)], fore := old(view).fore[cls := |old(headers)|])
    {
      hide BlockAddr, ClassSize, BlocksOf, Fresh;
      var ch := NewChunk(cls);
      foreground[cls] := |headers|;
      view := view.(chunks := view.chunks + [Fresh(cls)], fore := view.fore[cls := |headers|]);
      headers := headers + [ch];
    }

    /** One round of small_malloc: with the dummy in the slot nothing is handed out, but the slot is filled. */
    method TryForeground(cls: nat) returns (again: bool, ret: nat, i: nat, ghost k: nat)
      requires Valid() && cls < 47
      modifies this, foreground, background, dummy, headers
      ensures Valid() && again == (old(view).fore[cls] == DUMMY)
      ensures old(headers) <= headers && fresh(headers[|old(headers)|..])
      ensures again ==> view == Ready(old(view), cls)
      ensures !again ==> HandedOut(old(view), cls, i, k)
      ensures !again ==> view == Draw(old(view), cls) && i < |headers| == |view.chunks| && view.chunks[i].sizeCls < 47
      ensures !again ==> ret == BlockAddr(ChunkAddr(poolStart, i), ClassSize(view.chunks[i].sizeCls), k)
    {
      hide BlockAddr, ChunkAddr, ClassSize, BlocksOf, SlotsOk, ListsOk, Draw, Replace;
      again := foreground[cls] == DUMMY;
      if again {
        OpenSlot(view, cls);
        ret, k := dummy.AllocObj();
        i := 0;
        dummy.freeTotCnt := dummy.freeTotCnt - 1;
        dummy.state := FULL;
        ReplaceForeground(cls);
        dummy.freeTotCnt := 1;
        ReadyKeeps(old(view), cls);
      } else {
        ForegroundGives(view, cls);
        i := foreground[cls];
        ret, k := TakeForeground(cls, i);
      }
    }

    method TakeForeground(cls: nat, i: nat) returns (ret: nat, ghost k: nat)
      requires Valid() && cls < 47 && i == view.fore[cls] < |headers|
      modifies this, foreground, background, headers
      ensures Valid() && old(headers) <= headers && fresh(headers[|old(headers)|..])
      ensures HandedOut(old(view), cls, i, k) && view == Draw(old(view), cls) && i < |headers| == |view.chunks|
      ensures view.chunks[i].sizeCls < 47 && ret == BlockAddr(ChunkAddr(poolStart, i), ClassSize(view.chunks[i].sizeCls), k)
    {
      ForegroundGives(view, cls);
      ret, k := TakeFrom(i);
      if headers[i].freeTotCnt == 0 {
        ReplaceForeground(cls);
      }
    }

    method TakeFrom(i: nat) returns (ret: nat, ghost k: nat)
      requires Matches() && i < |headers| && ChunkOk(view.chunks[i]) && view.chunks[i].freeTotCnt > 0
      modifies headers[i], this`view
      ensures Matches() && k == TakeBlock(old(view).chunks[i]).1
      ensures view == With(old(view), i, Settled(TakeBlock(old(view).chunks[i]).0))
      ensures ret == BlockAddr(ChunkAddr(poolStart, i), ClassSize(old(view).chunks[i].sizeCls), k)
    {
      hide TakeBlock, ChunkOk, BlockAddr, ChunkAddr, ClassSize;
      assert HeaderOk(i);
      ret, k := headers[i].Give();
      view := With(view, i, headers[i].Value());
    }

    /** small_malloc. It never returns null, and goes round once, or twice when the slot holds the dummy. */
    method Malloc(cls: nat) returns (ret: nat, ghost i: nat, ghost k: nat, ghost rounds: nat)
      requires Valid() && cls < 47
      modifies this, foreground, background, dummy, headers
      ensures Valid() && (view, i, k) == ChunkHeap.Malloc(old(view), cls) && ret > 0
      ensures i < |headers| && ret == BlockAddr(ChunkAddr(poolStart, i), ClassSize(view.chunks[i].sizeCls), k)
      ensures rounds == if old(view).fore[cls] == DUMMY then 2 else 1
      ensures old(headers) <= headers && fresh(headers[|old(headers)|..])
    {
      hide SlotsOk, ListsOk, Shape, ClassSize, BlocksOf, Draw, TakeBlock, Replace, Taken, LocalHeap.HeaderOk, BlockAddr;
      ReadyKeeps(view, cls);
      var again, n: nat := true, 0;
      ret, k, rounds := 0, 0, 0;
      while again
        invariant Valid() && old(headers) <= headers && fresh(headers[|old(headers)|..])
        invariant again ==> rounds <= 1 && if rounds == 0 then view == old(view)
                            else old(view).fore[cls] == DUMMY && view.fore[cls] != DUMMY && view == Ready(old(view), cls)
        invariant !again ==> rounds == if old(view).fore[cls] == DUMMY then 2 else 1
        invariant !again ==> n < |headers| == |view.chunks| && view.chunks[n].sizeCls < 47
        invariant !again ==> HandedOut(Ready(old(view), cls), cls, n, k)
        invariant !again ==> view == Draw(Ready(old(view), cls), cls)
        invariant !again ==> ret == BlockAddr(ChunkAddr(poolStart, n), ClassSize(view.chunks[n].sizeCls), k)
        decreases again, if foreground[cls] == DUMMY then 1 else 0
      {
        again, ret, n, k := TryForeground(cls);
        rounds := rounds + 1;
      }
      i := n;
      assert n < |old(headers)| ==> headers[n] == old(headers)[n];
      assert n >= |old(headers)| ==> headers[n] == headers[|old(headers)|..][n - |old(headers)|];
      CountHandOut(n);
      MallocKeeps(old(view), cls);
    }

    method CountHandOut(i: nat)
      requires Matches() && i < |headers|
      modifies headers[i], this`view
      ensures Matches() && view == Counted(old(view), i)
    {
      headers[i].wearCount := headers[i].wearCount + 1;
      view := Counted(view, i);
    }

    /** wa_free of null or a small block: the header is found from the address, chunk_free_small does the rest. */
    method Free(ptr: nat, ghost i: nat, ghost k: nat)
      requires Valid()
      requires ptr != 0 ==> (i, k) in Live(view)
      requires ptr != 0 ==> ptr == BlockAddr(ChunkAddr(poolStart, i), ClassSize(view.chunks[i].sizeCls), k)
      modifies this, background, headers
      ensures Valid() && view == if ptr == 0 then old(view) else ChunkHeap.Free(old(view), i, k)
    {
      if ptr == 0 {
        return;
      }
      var n := (ExtractHeader(ptr) - poolStart) / CHUNK_SIZE;
      HeaderFound(poolStart, i, view.chunks[i].sizeCls, k, 0);
      OffsetInChunk(poolStart, i, 0);
      FreeSmall(n, ptr, k);
    }

    /** chunk_free_small */
    method FreeSmall(n: nat, ptr: nat, ghost k: nat)
      requires Valid() && n < |headers| && k in LiveBlocks(view.chunks[n])
      requires ptr == BlockAddr(headers[n].self, headers[n].blkSize, k)
      modifies this, background, headers[n]
      ensures Valid() && view == ChunkHeap.Free(old(view), n, k)
    {
      hide TakeBlock, BlockAddr, ChunkAddr, ClassSize, LiveBlocks, BlocksOf, SlotsOk, ListsOk;
      FreeKeeps(view, n, k);
      Classes(view);
      PutBack(n, ptr, k);
      var cls := headers[n].sizeCls;
      match headers[n].state
      case FORG =>
      case FULL =>
        background[cls] := background[cls] + [n];
        view := view.(back := view.back[cls := view.back[cls] + [n]]);
        MarkBack(n);
        assert view.chunks == ChunkHeap.Free(old(view), n, k).chunks;
      case BACK =>
        if headers[n].freeTotCnt == headers[n].blkCnt {
          background[cls] := Remove(background[cls], n);
          freeList := freeList + [n];
        }
      view := ChunkHeap.Free(old(view), n, k);
    }

    method PutBack(n: nat, ptr: nat, ghost k: nat)
      requires Matches() && n < |headers| && ptr == BlockAddr(headers[n].self, headers[n].blkSize, k)
      modifies headers[n], this`view
      ensures Matches() && view == With(old(view), n, PutBlock(old(view).chunks[n], k))
    {
      hide BlockAddr, ClassSize, PutBlock;
      assert HeaderOk(n);
      headers[n].PutFree(ptr, k);
      view := With(view, n, headers[n].Value());
    }

    method MarkBack(n: nat)
      requires Matches() && n < |headers|
      modifies headers[n], this`view
      ensures Matches() && view == With(old(view), n, old(view).chunks[n].(state := BACK))
    {
      headers[n].state := BACK;
      view := With(view, n, view.chunks[n].(state := BACK));
    }
  }
}
