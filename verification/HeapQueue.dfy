/** The quarantine queue of NVMalloc in time: who leaves it, when, and in which order. */
module HeapQueue {
  import opened Tiling
  import opened HeapSpec
  import opened HeapLaws
  import opened HeapRuns

  /** When the time of the head of the queue is up, that block leaves and its units are free again. Nothing
      happens otherwise. */
  lemma TickReleases(h: Heap, now: nat)
    requires Inv(h) && h.clock <= now
    ensures h.dna != [] ==> h.dna[0] in h.tiles && h.tiles[h.dna[0]].Quarantined?
    ensures var r := Tick(h, now);
      if h.dna != [] && h.tiles[h.dna[0]].time + h.wait <= now then
        && r.dna == h.dna[1..] && r.clock == now && r.wait == h.wait
        && r.used == h.used - Span(h.dna[0], h.dna[0] + h.tiles[h.dna[0]].len)
        && InUse(r.tiles) == InUse(h.tiles) - {h.dna[0]}
      else r == h.(clock := now)
  {
    hide Release, Span, InUse;
    HeadIsQuarantined(h);
    LaterKeeps(h, now);
    if h.dna != [] {
      ReleaseRemoves(h.(clock := now));
      ReleaseClears(h.(clock := now));
    }
  }

  lemma ReleaseClears(h: Heap)
    requires Inv(h) && h.dna != []
    ensures h.dna[0] in h.tiles
    ensures Release(h).used == h.used - Span(h.dna[0], h.dna[0] + h.tiles[h.dna[0]].len)
  {
    HeadIsQuarantined(h);
  }

  // ---- one operation ----

  /** What the tick counter reads when the operation ends. */
  function Reading(op: Op): nat
  {
    match op
    case Malloc(_, now) => now
    case Return(_, _, t2) => t2
  }

  /** The block that the operation frees, if any. */
  function Freed(op: Op): seq<nat>
  {
    match op
    case Malloc(_, _) => []
    case Return(p, _, _) => [p]
  }

  function AllFreed(ops: seq<Op>): seq<nat>
  {
    if ops == [] then [] else Freed(ops[0]) + AllFreed(ops[1..])
  }

  /** The time at which the head of the queue was freed, once the operation has queued its block. */
  function TimeOfHead(h: Heap, op: Op): nat
    requires Inv(h) && Enabled(h, op) && h.dna + Freed(op) != []
  {
    if h.dna != [] then HeadIsQuarantined(h); h.tiles[h.dna[0]].time
    else
      match op
      case Return(_, t1, _) => t1
  }

  /** A freed block goes to the end of the queue, and the head leaves if its time is up. The blocks that
      stay keep their times. */
  lemma StepQueue(h: Heap, op: Op)
    requires Inv(h) && Enabled(h, op)
    ensures var r := Step(h, op);
      var q := h.dna + Freed(op);
      && r.clock == Reading(op) && r.wait == h.wait
      && r.dna == (if q != [] && TimeOfHead(h, op) + h.wait <= Reading(op) then q[1..] else q)
      && (forall p | p in h.dna && p in r.dna :: p in h.tiles && p in r.tiles && r.tiles[p] == h.tiles[p])
  {
    hide Inv, Take, Tick, Quarantine;
    match op
    case Malloc(size, now) => StepMalloc(h, size, now);
    case Return(p, t1, t2) => StepReturn(h, p, t1, t2);
  }

  lemma QueuedInUse(h: Heap)
    requires Inv(h)
    ensures forall p | p in h.dna :: p in InUse(h.tiles) && h.tiles[p].Quarantined?
    ensures h.dna != [] ==> h.dna[0] !in h.dna[1..]
  {
  }

  lemma TickQueue(h: Heap, t: Heap, now: nat)
    requires Inv(t) && t.clock <= now && t.wait == h.wait
    requires forall p | p in h.dna :: p in h.tiles && p in InUse(t.tiles) && t.tiles[p] == h.tiles[p]
    ensures var r := Tick(t, now);
      && r.clock == now && r.wait == h.wait
      && (forall p | p in h.dna && p in r.dna :: p in r.tiles && r.tiles[p] == h.tiles[p])
      && (t.dna != [] ==> t.dna[0] in t.tiles && t.tiles[t.dna[0]].Quarantined?)
      && r.dna == if t.dna != [] && t.tiles[t.dna[0]].time + h.wait <= now then t.dna[1..] else t.dna
  {
    hide Inv, Tick;
    TickReleases(t, now);
    QueuedInUse(t);
    var r := Tick(t, now);
    forall p | p in h.dna && p in r.dna
      ensures p in r.tiles && r.tiles[p] == h.tiles[p]
    {
      assert p in InUse(r.tiles);
      assert InUse(r.tiles)[p] == InUse(t.tiles)[p];
    }
  }

  lemma StepMalloc(h: Heap, size: nat, now: nat)
    requires Inv(h) && h.clock <= now
    ensures var r := Step(h, Malloc(size, now));
      && r.clock == now && r.wait == h.wait
      && (h.dna != [] ==> h.dna[0] in h.tiles && h.tiles[h.dna[0]].Quarantined?)
      && r.dna == (if h.dna != [] && h.tiles[h.dna[0]].time + h.wait <= now then h.dna[1..] else h.dna)
      && (forall p | p in h.dna && p in r.dna :: p in h.tiles && p in r.tiles && r.tiles[p] == h.tiles[p])
  {
    hide Inv, Take, Tick;
    ListsLong(h);
    var n := UnitsFor(size);
    var t := Take(h, n).0;
    TakeKeeps(h, n);
    TakenBlock(h, n);
    TakeAdds(h, n);
    TakeKeepsWait(h, n);
    QueuedInUse(h);
    forall p | p in h.dna
      ensures p in InUse(t.tiles) && t.tiles[p] == h.tiles[p]
    {
      assert InUse(t.tiles)[p] == InUse(h.tiles)[p];
    }
    TickQueue(h, t, now);
  }

  lemma StepReturn(h: Heap, p: nat, t1: nat, t2: nat)
    requires Inv(h) && h.clock <= t1 <= t2 && p in h.tiles && h.tiles[p].Live?
    ensures var r := Step(h, Return(p, t1, t2));
      && r.clock == t2 && r.wait == h.wait
      && (h.dna != [] ==> h.dna[0] in h.tiles && h.tiles[h.dna[0]].Quarantined?)
      && r.dna == (if (if h.dna != [] then h.tiles[h.dna[0]].time else t1) + h.wait <= t2 then (h.dna + [p])[1..] else h.dna + [p])
      && (forall q | q in h.dna && q in r.dna :: q in h.tiles && q in r.tiles && r.tiles[q] == h.tiles[q])
      && (p in r.dna ==> p in r.tiles && r.tiles[p] == Quarantined(h.tiles[p].len, t1))
  {
    hide Inv, Tick;
    var t := Quarantine(h, p, t1);
    QuarantineKeeps(h, p, t1);
    QueuedInUse(h);
    QueuedInUse(t);
    TickQueue(h, t, t2);
    TickQueue(t, t, t2);
  }

  /** A freed block is queued with the time of the free; it leaves at once only if it is alone and the
      waiting time is over already. */
  lemma FreedIsQueued(h: Heap, p: nat, t1: nat, t2: nat)
    requires Inv(h) && Enabled(h, Return(p, t1, t2))
    ensures var r := Step(h, Return(p, t1, t2));
      if h.dna == [] && t1 + h.wait <= t2 then r.dna == []
      else r.dna != [] && r.dna[|r.dna| - 1] == p && p in r.tiles && r.tiles[p] == Quarantined(h.tiles[p].len, t1)
  {
    hide Inv, Step;
    StepReturn(h, p, t1, t2);
    var r := Step(h, Return(p, t1, t2));
    assert r.dna != [] ==> r.dna[|r.dna| - 1] in r.dna;
  }

  /** A free that releases nothing changes the block's state, the queue and the clock only. */
  lemma QuietFree(h: Heap, p: nat, t1: nat, t2: nat)
    requires Inv(h) && Enabled(h, Return(p, t1, t2)) && Step(h, Return(p, t1, t2)).dna == h.dna + [p]
    ensures Step(h, Return(p, t1, t2))
         == h.(tiles := h.tiles[p := Quarantined(h.tiles[p].len, t1)], dna := h.dna + [p], clock := t2)
  {
    hide Inv, Tick;
    QuarantineKeeps(h, p, t1);
    TickReleases(Quarantine(h, p, t1), t2);
  }

  // ---- runs ----

  lemma DropTwice(a: seq<nat>, b: seq<nat>, c: seq<nat>, d: nat, m: nat)
    requires d <= |a + b| && m <= |(a + b)[d..] + c|
    ensures d + m <= |a + (b + c)| && ((a + b)[d..] + c)[m..] == (a + (b + c))[d + m..]
  {
    assert (a + b)[d..] + c == (a + (b + c))[d..];
  }

  /** Blocks leave in the order in which they were freed, at most one with every operation. */
  lemma {:induction false} QueueIsFifo(h: Heap, ops: seq<Op>) returns (k: nat)
    requires Inv(h) && Legal(h, ops)
    ensures k <= |ops| && k <= |h.dna + AllFreed(ops)|
    ensures Run(h, ops).dna == (h.dna + AllFreed(ops))[k..]
    decreases |ops|
  {
    hide Inv, Step, Enabled, TimeOfHead, Freed;
    if ops == [] {
      k := 0;
    } else {
      StepQueue(h, ops[0]);
      var s := Step(h, ops[0]);
      var m := QueueIsFifo(s, ops[1..]);
      var q := h.dna + Freed(ops[0]);
      var d := if q != [] && TimeOfHead(h, ops[0]) + h.wait <= Reading(ops[0]) then 1 else 0;
      DropTwice(h.dna, Freed(ops[0]), AllFreed(ops[1..]), d, m);
      k := m + d;
    }
  }

  /** A block leaves in time: when the m-th block of the queue is due at the next operation, then m operations
      later the first m blocks have left, one with each, and behind the others are the blocks freed since. */
  lemma {:induction false} LeavesInTime(h: Heap, ops: seq<Op>)
    requires Inv(h) && Legal(h, ops) && 0 < |ops| <= |h.dna|
    requires h.dna[|ops| - 1] in h.tiles && h.tiles[h.dna[|ops| - 1]].Quarantined?
    requires h.tiles[h.dna[|ops| - 1]].time + h.wait <= Reading(ops[0])
    ensures Run(h, ops).dna == h.dna[|ops|..] + AllFreed(ops)
    decreases |ops|
  {
    hide Inv, Step, Freed, Reading, Enabled;
    var m := |ops|;
    var s := Step(h, ops[0]);
    var b := Freed(ops[0]);
    HeadIsDue(h, ops[0], m - 1);
    StepQueue(h, ops[0]);
    OneLess(h.dna, b, m);
    if m == 1 {
      assert ops[1..] == [];
      assert AllFreed(ops) == b;
    } else {
      assert h.dna[m - 1] in h.dna && s.dna[m - 2] == h.dna[m - 1];
      assert s.dna[m - 2] in s.dna;
      ReadsLater(s, ops[1..][0]);
      LeavesInTime(s, ops[1..]);
    }
  }

  lemma HeadIsDue(h: Heap, op: Op, j: nat)
    requires Inv(h) && Enabled(h, op) && j < |h.dna|
    ensures h.dna[j] in h.tiles && h.tiles[h.dna[j]].Quarantined?
    ensures h.tiles[h.dna[j]].time + h.wait <= Reading(op) ==> TimeOfHead(h, op) + h.wait <= Reading(op)
  {
    hide Inv;
    QueueSorted(h, 0, j);
  }

  lemma ReadsLater(h: Heap, op: Op)
    requires Inv(h) && Enabled(h, op)
    ensures h.clock <= Reading(op)
  {
  }

  /** When the head has left, one fewer has to leave. */
  lemma OneLess(a: seq<nat>, b: seq<nat>, m: nat)
    requires 0 < m <= |a|
    ensures (a + b)[1..] == a[1..] + b && (a + b)[1..][m - 1..] == a[m..] + b
    ensures m > 1 ==> (a + b)[1..][m - 2] == a[m - 1]
  {
  }

  lemma QueueSorted(h: Heap, i: nat, j: nat)
    requires Inv(h) && i <= j < |h.dna|
    ensures h.dna[i] in h.tiles && h.dna[j] in h.tiles
    ensures h.tiles[h.dna[i]].Quarantined? && h.tiles[h.dna[j]].Quarantined?
    ensures h.tiles[h.dna[i]].time <= h.tiles[h.dna[j]].time
  {
    assert h.dna[i] in h.dna && h.dna[j] in h.dna;
  }
}
