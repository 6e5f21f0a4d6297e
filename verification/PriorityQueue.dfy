/** The resizing binary heap of TCNVMalloc, which hands out the least worn chunk. */
module PriorityQueue {
  import opened Basics

  // ---- the order ----

  /** `comp(x, y)` says that x comes strictly before y. */
  ghost predicate StrictWeakOrder<T(!new)>(comp: (T, T) -> bool)
  {
    && (forall x, y :: comp(x, y) ==> !comp(y, x))
    && (forall x, y, z :: !comp(x, y) && !comp(y, z) ==> !comp(x, z))
  }

  ghost predicate Least<T(!new)>(comp: (T, T) -> bool, x: T, s: multiset<T>)
  {
    x in s && forall y | y in s :: !comp(y, x)
  }

  // ---- the array as a heap ----

  /** Slots 1..n hold the items; slot 0 is not used. */
  function Items<T>(a: seq<T>, n: nat): multiset<T>
    requires n < |a|
  {
    multiset(a[1..n + 1])
  }

  ghost predicate Below<T(!new)>(comp: (T, T) -> bool, a: seq<T>, i: nat, p: nat)
    requires i < |a| && p < |a|
  {
    !comp(a[i], a[p])
  }

  ghost predicate Ordered<T(!new)>(comp: (T, T) -> bool, a: seq<T>, n: nat)
    requires n < |a|
  {
    forall i: nat | 2 <= i <= n :: Below(comp, a, i, i / 2)
  }

  /** Heap order except between k and its parent; k's children are fine even below k's parent. */
  ghost predicate OrderedAbove<T(!new)>(comp: (T, T) -> bool, a: seq<T>, n: nat, k: nat)
    requires n < |a|
  {
    && (forall i: nat | 2 <= i <= n && i != k :: Below(comp, a, i, i / 2))
    && (forall i: nat | 2 <= i <= n && i / 2 == k && k >= 2 :: Below(comp, a, i, k / 2))
  }

  /** Heap order except between k and its children; they are fine below k's parent. */
  ghost predicate OrderedBelow<T(!new)>(comp: (T, T) -> bool, a: seq<T>, n: nat, k: nat)
    requires n < |a|
  {
    && (forall i: nat | 2 <= i <= n && i / 2 != k :: Below(comp, a, i, i / 2))
    && (forall i: nat | 2 <= i <= n && i / 2 == k && k >= 2 :: Below(comp, a, i, k / 2))
  }

  function Swap<T>(a: seq<T>, i: nat, j: nat): seq<T>
    requires i < |a| && j < |a|
  {
    a[i := a[j]][j := a[i]]
  }

  lemma SwapKeepsItems<T>(a: seq<T>, n: nat, i: nat, j: nat)
    requires 1 <= i <= n < |a| && 1 <= j <= n
    ensures Items(Swap(a, i, j), n) == Items(a, n)
  {
    var s := a[1..n + 1];
    assert Swap(a, i, j)[1..n + 1] == s[i - 1 := s[j - 1]][j - 1 := s[i - 1]];
  }

  /** The root of a heap is a least item. */
  lemma {:induction false} RootIsLeast<T(!new)>(comp: (T, T) -> bool, a: seq<T>, n: nat)
    requires StrictWeakOrder(comp) && 1 <= n < |a| && Ordered(comp, a, n)
    ensures Least(comp, a[1], Items(a, n))
  {
    assert a[1] == a[1..n + 1][0];
    forall y | y in Items(a, n)
      ensures !comp(y, a[1])
    {
      var k :| 0 <= k < n && a[1..n + 1][k] == y;
      PathToRoot(comp, a, n, k + 1);
    }
  }

  lemma {:induction false} PathToRoot<T(!new)>(comp: (T, T) -> bool, a: seq<T>, n: nat, i: nat)
    requires StrictWeakOrder(comp) && 1 <= i <= n < |a| && Ordered(comp, a, n)
    ensures !comp(a[i], a[1])
    decreases i
  {
    if i > 1 {
      PathToRoot(comp, a, n, i / 2);
      assert Below(comp, a, i, i / 2);
    }
  }

  // ---- the cost of resizing ----

  /** How many items there are and how many slots. */
  datatype Shape = Shape(n: nat, size: nat)

  predicate Roomy(s: Shape)
  {
    s.n < s.size
  }

  /** The shape after pq_insert, and the slots copied. */
  function InsertCost(s: Shape): (Shape, nat)
  {
    if s.n + 1 == s.size then (Shape(s.n + 1, s.size * 2), s.n + 1) else (Shape(s.n + 1, s.size), 0)
  }

  function DeleteCost(s: Shape): (r: (Shape, nat))
    requires Roomy(s)
  {
    if s.n == 0 then (s, 0)
    else if s.n - 1 > 0 && s.n - 1 <= (s.size - 1) / 4 then (Shape(s.n - 1, s.size / 2), s.n)
    else (Shape(s.n - 1, s.size), 0)
  }

  /** The number of slots copied over a sequence of operations, true for an insertion. */
  function TotalCopied(s: Shape, ops: seq<bool>): nat
    requires Roomy(s)
    decreases |ops|
  {
    if ops == [] then 0
    else
      CostKeepsRoom(s);
      var (r, c) := if ops[0] then InsertCost(s) else DeleteCost(s);
      c + TotalCopied(r, ops[1..])
  }

  /** There is always a free slot, so resize never meets a size too small for its items. */
  lemma CostKeepsRoom(s: Shape)
    requires Roomy(s)
    ensures Roomy(InsertCost(s).0) && Roomy(DeleteCost(s).0)
  {
  }

  /** How far the array is from half full: what has been saved up for the next resize. */
  function Potential(s: Shape): nat
  {
    if 2 * (s.n + 1) >= s.size then 2 * (s.n + 1) - s.size else s.size - 2 * (s.n + 1)
  }

  lemma InsertIsCheap(s: Shape)
    requires Roomy(s)
    ensures var (r, c) := InsertCost(s); c + Potential(r) <= Potential(s) + 2
  {
  }

  lemma DeleteIsCheap(s: Shape)
    requires Roomy(s)
    ensures var (r, c) := DeleteCost(s); c + Potential(r) <= Potential(s) + 6
  {
  }

  /** Resizing copies a constant number of slots per operation, and the initial capacity once. */
  lemma {:induction false} ResizingIsAmortized(s: Shape, ops: seq<bool>)
    requires Roomy(s)
    ensures TotalCopied(s, ops) <= 6 * |ops| + Potential(s)
    ensures s.n == 0 ==> TotalCopied(s, ops) <= 6 * |ops| + s.size
    decreases |ops|
  {
    if ops != [] {
      CostKeepsRoom(s);
      InsertIsCheap(s);
      DeleteIsCheap(s);
      var (r, c) := if ops[0] then InsertCost(s) else DeleteCost(s);
      ResizingIsAmortized(r, ops[1..]);
    }
  }

  // ---- the slots follow the items ----

  /** At most four slots for every item, and at most four when there is one item or none. */
  predicate Tight(s: Shape)
  {
    s.size <= 4 * if s.n > 0 then s.n else 1
  }

  /** Once tight, always tight; and a deletion that leaves items halves the slots while they are too many. */
  lemma StaysTight(s: Shape)
    requires Roomy(s)
    ensures Tight(s) ==> Tight(InsertCost(s).0) && Tight(DeleteCost(s).0)
    ensures s.n > 1 && !Tight(DeleteCost(s).0) ==> DeleteCost(s).0.size == s.size / 2
    ensures InsertCost(s).0.n == s.n + 1 && DeleteCost(s).0.n == if s.n > 0 then s.n - 1 else 0
    ensures InsertCost(s).0.size <= if s.n + 2 <= s.size then s.size else 2 * (s.n + 1)
  {
  }

  /** The shape after a sequence of operations, true for an insertion. */
  function ShapeAfter(s: Shape, ops: seq<bool>): Shape
    requires Roomy(s)
    decreases |ops|
  {
    if ops == [] then s
    else
      CostKeepsRoom(s);
      ShapeAfter(if ops[0] then InsertCost(s).0 else DeleteCost(s).0, ops[1..])
  }

  /** Over any sequence of operations the slots are no more than at the start, or four for every item. */
  lemma {:induction false} SlotsFollowItems(s: Shape, ops: seq<bool>, bound: nat)
    requires Roomy(s) && (s.size <= bound || Tight(s))
    ensures ShapeAfter(s, ops).size <= bound || Tight(ShapeAfter(s, ops))
    decreases |ops|
  {
    hide Tight;
    if ops != [] {
      CostKeepsRoom(s);
      StaysTight(s);
      GrowsTight(s);
      SlotsFollowItems(if ops[0] then InsertCost(s).0 else DeleteCost(s).0, ops[1..], bound);
    }
  }

  /** An insertion that grows the array leaves it tight; a deletion never grows it. */
  lemma GrowsTight(s: Shape)
    requires Roomy(s)
    ensures InsertCost(s).0.size > s.size ==> Tight(InsertCost(s).0)
    ensures DeleteCost(s).0.size <= s.size
  {
  }

  // ---- the queue ----

  class Queue<T(0,!new)> {
    const comp: (T, T) -> bool
    var pq: array<T>
    var nalloc: nat
    var size: nat
    ghost var copied: nat   // slots copied by resize so far

    ghost predicate Sized()
      reads this, pq
    {
      pq.Length == size && nalloc < size && StrictWeakOrder(comp)
    }

    ghost predicate Valid()
      reads this, pq
    {
      Sized() && Ordered(comp, pq[..], nalloc)
    }

    ghost function Contents(): multiset<T>
      requires pq.Length > nalloc
      reads this, pq
    {
      Items(pq[..], nalloc)
    }

    ghost function TheShape(): Shape
      reads this
    {
      Shape(nalloc, size)
    }

    /** pq_init */
    constructor (comp: (T, T) -> bool, size: nat)
      requires StrictWeakOrder(comp)
      ensures Valid() && fresh(pq) && Contents() == multiset{} && this.comp == comp
      ensures TheShape() == Shape(0, size + 1) && copied == 0
    {
      this.comp := comp;
      pq := new T[size + 1];
      nalloc := 0;
      this.size := size + 1;
      copied := 0;
    }

    method Exch(i: nat, j: nat)
      requires i < pq.Length && j < pq.Length
      modifies pq
      ensures pq[..] == Swap(old(pq[..]), i, j)
    {
      var tmp := pq[i];
      pq[i] := pq[j];
      pq[j] := tmp;
    }

    method Resize(newSize: nat)
      requires Sized() && nalloc < newSize
      modifies this`pq, this`size, this`copied
      ensures Sized() && fresh(pq) && size == newSize && copied == old(copied) + nalloc + 1
      ensures pq[..nalloc + 1] == old(pq[..nalloc + 1])
    {
      var newPtr := new T[newSize];
      forall i | 0 <= i <= nalloc {
        newPtr[i] := pq[i];
      }
      assert newPtr[..nalloc + 1] == pq[..nalloc + 1];
      pq := newPtr;
      size := newSize;
      copied := copied + nalloc + 1;
    }

    method Swim(from: nat)
      requires Sized() && 1 <= from <= nalloc && OrderedAbove(comp, pq[..], nalloc, from)
      modifies pq
      ensures Valid() && Contents() == old(Contents())
    {
      var k := from;
      while k > 1 && comp(pq[k], pq[k / 2])
        invariant 1 <= k <= nalloc && OrderedAbove(comp, pq[..], nalloc, k)
        invariant Contents() == old(Contents())
      {
        ghost var before := pq[..];
        SwapKeepsItems(before, nalloc, k, k / 2);
        SwimStep(comp, before, nalloc, k);
        Exch(k, k / 2);
        k := k / 2;
      }
    }

    method Sink(from: nat) returns (k: nat)
      requires Sized() && 1 <= from && OrderedBelow(comp, pq[..], nalloc, from)
      modifies pq
      ensures Valid() && Contents() == old(Contents())
      ensures from <= k
    {
      k := from;
      while 2 * k <= nalloc
        invariant from <= k && OrderedBelow(comp, pq[..], nalloc, k)
        invariant Contents() == old(Contents())
        decreases nalloc - k
      {
        var j := 2 * k;
        if j < nalloc && comp(pq[j + 1], pq[j]) {
          j := j + 1;
        }
        ghost var before := pq[..];
        if !comp(pq[j], pq[k]) {
          SinkStops(comp, before, nalloc, k, j);
          return;
        }
        SwapKeepsItems(before, nalloc, j, k);
        SinkStep(comp, before, nalloc, k, j);
        Exch(j, k);
        k := j;
      }
    }

    /** pq_min: NULL on an empty queue, else a least item. */
    method Min() returns (r: Option<T>)
      requires Valid()
      ensures if nalloc == 0 then r == None else r == Some(pq[1]) && Least(comp, pq[1], Contents())
    {
      if nalloc == 0 {
        return None;
      }
      RootIsLeast(comp, pq[..], nalloc);
      return Some(pq[1]);
    }

    /** pq_insert */
    method Insert(item: T)
      requires Valid()
      modifies this`pq, this`nalloc, this`size, this`copied, pq
      ensures Valid() && Contents() == old(Contents()) + multiset{item}
      ensures (TheShape(), copied - old(copied)) == InsertCost(old(TheShape()))
      ensures pq == old(pq) || fresh(pq)
    {
      hide Ordered, OrderedAbove, Items, StrictWeakOrder;
      ghost var before := pq[..];
      assert before[..nalloc + 1] == pq[..nalloc + 1];
      if nalloc + 1 == size {
        Resize(size * 2);
      }
      OrderedPrefix(comp, before, pq[..], nalloc);
      ghost var roomy := pq[..];
      nalloc := nalloc + 1;
      pq[nalloc] := item;
      AddLast(roomy, pq[..], nalloc - 1, item);
      LeafOpen(comp, roomy, pq[..], nalloc);
      Swim(nalloc);
    }

    /** pq_delmin: the item that pq_min returns, a least one, leaves and nothing else does. */
    method DelMin()
      requires Valid()
      modifies this`pq, this`nalloc, this`size, this`copied, pq
      ensures Valid() && (TheShape(), copied - old(copied)) == DeleteCost(old(TheShape()))
      ensures if old(nalloc) == 0 then Contents() == old(Contents())
              else Least(comp, old(pq[1]), old(Contents())) && Contents() == old(Contents()) - multiset{old(pq[1])}
      ensures pq == old(pq) || fresh(pq)
    {
      hide Ordered, OrderedBelow, Items, StrictWeakOrder, Swap, Least;
      if nalloc == 0 {
        return;
      }
      ghost var before := pq[..];
      RootIsLeast(comp, before, nalloc);
      RootLeaves(before, nalloc);
      SwapKeepsItems(before, nalloc, 1, nalloc);
      RootReplaced(comp, before, nalloc);
      DropLast(Swap(before, 1, nalloc), nalloc);
      Exch(1, nalloc);
      nalloc := nalloc - 1;
      var k := Sink(1);
      Shrink();
    }

    /** Give memory back when at most a quarter of the slots is in use. */
    method Shrink()
      requires Valid()
      modifies this`pq, this`size, this`copied
      ensures Valid() && Contents() == old(Contents()) && (pq == old(pq) || fresh(pq))
      ensures nalloc > 0 && nalloc <= (old(size) - 1) / 4 ==> size == old(size) / 2 && copied == old(copied) + nalloc + 1
      ensures !(nalloc > 0 && nalloc <= (old(size) - 1) / 4) ==> size == old(size) && copied == old(copied)
    {
      hide Ordered, Items, StrictWeakOrder;
      ghost var before := pq[..];
      if nalloc > 0 && nalloc <= (size - 1) / 4 {
        assert before[..nalloc + 1] == pq[..nalloc + 1];
        Resize(size / 2);
        OrderedPrefix(comp, before, pq[..], nalloc);
      }
    }
  }

  lemma RootLeaves<T>(a: seq<T>, n: nat)
    requires 1 <= n < |a|
    ensures |Swap(a, 1, n)| == |a| && Swap(a, 1, n)[n] == a[1]
  {
  }

  lemma LeafOpen<T(!new)>(comp: (T, T) -> bool, a: seq<T>, b: seq<T>, n: nat)
    requires 1 <= n < |a| && n < |b| && a[..n] == b[..n] && Ordered(comp, a, n - 1)
    ensures OrderedAbove(comp, b, n, n)
  {
    forall i: nat | 2 <= i <= n && i != n
      ensures Below(comp, b, i, i / 2)
    {
      assert Below(comp, a, i, i / 2);
      assert a[..n][i] == b[..n][i] && a[..n][i / 2] == b[..n][i / 2];
    }
  }

  /** Leaving the last slot out of the heap. */
  lemma DropLast<T>(a: seq<T>, n: nat)
    requires 1 <= n < |a|
    ensures Items(a, n - 1) == Items(a, n) - multiset{a[n]}
  {
    assert a[1..n + 1] == a[1..n] + [a[n]];
  }

  lemma AddLast<T>(a: seq<T>, b: seq<T>, n: nat, x: T)
    requires n < |a| && n + 1 < |b| && b[..n + 1] == a[..n + 1] && b[n + 1] == x
    ensures Items(b, n + 1) == Items(a, n) + multiset{x}
  {
    assert b[1..n + 2] == b[..n + 1][1..] + [x];
    assert a[1..n + 1] == a[..n + 1][1..];
  }

  /** Exchanging the root with the last item leaves only the root out of place. */
  lemma RootReplaced<T(!new)>(comp: (T, T) -> bool, a: seq<T>, n: nat)
    requires StrictWeakOrder(comp) && 1 <= n < |a| && Ordered(comp, a, n)
    ensures OrderedBelow(comp, Swap(a, 1, n), n - 1, 1)
  {
    var b := Swap(a, 1, n);
    forall i: nat | 2 <= i <= n - 1 && i / 2 != 1
      ensures Below(comp, b, i, i / 2)
    {
      assert Below(comp, a, i, i / 2);
    }
  }

  lemma OrderedPrefix<T(!new)>(comp: (T, T) -> bool, a: seq<T>, b: seq<T>, n: nat)
    requires n < |a| && n < |b| && a[..n + 1] == b[..n + 1] && Ordered(comp, a, n)
    ensures Ordered(comp, b, n) && Items(b, n) == Items(a, n)
  {
    forall i: nat | 2 <= i <= n
      ensures Below(comp, b, i, i / 2)
    {
      assert Below(comp, a, i, i / 2);
      assert a[..n + 1][i] == b[..n + 1][i] && a[..n + 1][i / 2] == b[..n + 1][i / 2];
    }
    assert a[1..n + 1] == a[..n + 1][1..] && b[1..n + 1] == b[..n + 1][1..];
  }

  // ---- draining ----

  /** No item comes before a lesser one. */
  ghost predicate Sorted<T(!new)>(comp: (T, T) -> bool, s: seq<T>)
  {
    forall i, j | 0 <= i < j < |s| :: !comp(s[j], s[i])
  }

  /** What has come out is sorted, and no lesser item is still inside. */
  ghost predicate Ahead<T(!new)>(comp: (T, T) -> bool, out: seq<T>, rest: multiset<T>)
  {
    Sorted(comp, out) && forall i, x | 0 <= i < |out| && x in rest :: !comp(x, out[i])
  }

  lemma AheadStep<T(!new)>(comp: (T, T) -> bool, out: seq<T>, rest: multiset<T>, x: T)
    requires Ahead(comp, out, rest) && Least(comp, x, rest)
    ensures Ahead(comp, out + [x], rest - multiset{x})
  {
    var all := out + [x];
    forall i, y | 0 <= i < |all| && y in rest - multiset{x}
      ensures !comp(y, all[i])
    {
      assert y in rest;
    }
  }

  /** Taking the least item until none is left: all the items come out, in order. */
  method Drain<T(0,!new)>(q: Queue<T>) returns (out: seq<T>)
    requires q.Valid()
    modifies q, q.pq
    ensures q.Valid() && q.nalloc == 0 && q.Contents() == multiset{}
    ensures multiset(out) == old(q.Contents()) && Sorted(q.comp, out)
  {
    hide Ordered, Items, StrictWeakOrder, Least, Ahead, Sorted;
    out := [];
    NothingAhead(q.comp, q.Contents());
    while q.nalloc > 0
      invariant q.Valid() && (q.pq == old(q.pq) || fresh(q.pq))
      invariant multiset(out) + q.Contents() == old(q.Contents())
      invariant Ahead(q.comp, out, q.Contents())
      decreases q.nalloc
    {
      var r := q.Min();
      AheadStep(q.comp, out, q.Contents(), r.value);
      LeastIsMember(q.comp, r.value, q.Contents());
      q.DelMin();
      out := out + [r.value];
    }
    NoItems(q.pq[..]);
    AheadIsSorted(q.comp, out, q.Contents());
  }

  lemma NothingAhead<T(!new)>(comp: (T, T) -> bool, rest: multiset<T>)
    ensures Ahead(comp, [], rest)
  {
  }

  lemma AheadIsSorted<T(!new)>(comp: (T, T) -> bool, out: seq<T>, rest: multiset<T>)
    requires Ahead(comp, out, rest)
    ensures Sorted(comp, out)
  {
  }

  lemma LeastIsMember<T(!new)>(comp: (T, T) -> bool, x: T, s: multiset<T>)
    requires Least(comp, x, s)
    ensures x in s
  {
  }

  lemma NoItems<T>(a: seq<T>)
    requires 0 < |a|
    ensures Items(a, 0) == multiset{}
  {
  }

  /** Moving the item at k up restores the order at k; only its new place is still open. */
  lemma SwimStep<T(!new)>(comp: (T, T) -> bool, a: seq<T>, n: nat, k: nat)
    requires StrictWeakOrder(comp) && 2 <= k <= n < |a| && OrderedAbove(comp, a, n, k) && comp(a[k], a[k / 2])
    ensures OrderedAbove(comp, Swap(a, k, k / 2), n, k / 2)
  {
    var b := Swap(a, k, k / 2);
    forall i: nat | 2 <= i <= n && i != k / 2
      ensures Below(comp, b, i, i / 2)
    {
      assert i != k ==> Below(comp, a, i, i / 2);
      assert i / 2 == k ==> Below(comp, a, i, k / 2);
    }
    forall i: nat | 2 <= i <= n && i / 2 == k / 2 && k / 2 >= 2
      ensures Below(comp, b, i, k / 2 / 2)
    {
      assert Below(comp, a, k / 2, k / 2 / 2);
      assert i != k ==> Below(comp, a, i, k / 2);
    }
  }

  /** j is the lesser child of k. */
  ghost predicate LesserChild<T(!new)>(comp: (T, T) -> bool, a: seq<T>, n: nat, k: nat, j: nat)
    requires n < |a|
  {
    j / 2 == k && 2 <= j <= n && forall i: nat | 2 <= i <= n && i / 2 == k :: Below(comp, a, i, j)
  }

  lemma SinkStops<T(!new)>(comp: (T, T) -> bool, a: seq<T>, n: nat, k: nat, j: nat)
    requires StrictWeakOrder(comp) && n < |a| && OrderedBelow(comp, a, n, k)
    requires LesserChild(comp, a, n, k, j) && !comp(a[j], a[k])
    ensures Ordered(comp, a, n)
  {
    forall i: nat | 2 <= i <= n
      ensures Below(comp, a, i, i / 2)
    {
      assert i / 2 == k ==> Below(comp, a, i, j);
    }
  }

  lemma SinkStep<T(!new)>(comp: (T, T) -> bool, a: seq<T>, n: nat, k: nat, j: nat)
    requires StrictWeakOrder(comp) && 1 <= k && n < |a| && OrderedBelow(comp, a, n, k)
    requires LesserChild(comp, a, n, k, j) && comp(a[j], a[k])
    ensures OrderedBelow(comp, Swap(a, j, k), n, j)
  {
    var b := Swap(a, j, k);
    forall i: nat | 2 <= i <= n && i / 2 != j
      ensures Below(comp, b, i, i / 2)
    {
      assert i / 2 == k ==> Below(comp, a, i, j);
      assert i == k ==> Below(comp, a, j, k / 2);
      assert i / 2 != k ==> Below(comp, a, i, i / 2);
    }
    forall i: nat | 2 <= i <= n && i / 2 == j
      ensures Below(comp, b, i, k)
    {
      assert Below(comp, a, i, j);
    }
  }
}
