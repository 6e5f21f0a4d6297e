/** Blocks laid end to end: the arrangement the in-band headers of NVMalloc describe.

    Positions and lengths count units of 64 bytes from the start of the heap. */
module Tiling {

  /** One block, as its header describes it. A quarantined block carries the time it was freed. */
  datatype Tile =
    | Live(len: nat)
    | Quarantined(len: nat, time: nat)
    | Free(len: nat)

  type Tiles = map<nat, Tile>

  predicate Boundary(tiles: Tiles, zone: nat, u: nat)
  {
    u in tiles || u == zone
  }

  /** Where the block at s ends, another one starts or the zone ends. Mentioning this predicate is
      what moves a proof from one block to the next. */
  predicate EndsWell(tiles: Tiles, zone: nat, s: nat)
    requires s in tiles
  {
    Boundary(tiles, zone, s + tiles[s].len)
  }

  ghost predicate Apart(tiles: Tiles)
  {
    forall s, t | s in tiles && t in tiles && s < t :: s + tiles[s].len <= t
  }

  /** The blocks cover [0, zone) without gap or overlap. */
  ghost predicate Tiled(tiles: Tiles, zone: nat)
  {
    && Boundary(tiles, zone, 0)
    && (forall s | s in tiles :: 0 < tiles[s].len && s + tiles[s].len <= zone)
    && (forall s {:trigger EndsWell(tiles, zone, s)} | s in tiles :: EndsWell(tiles, zone, s))
    && Apart(tiles)
  }

  /** A unit is in `used` exactly when it belongs to a live or quarantined block. */
  ghost predicate Coloured(tiles: Tiles, used: set<nat>, zone: nat)
  {
    && (forall s, u | s in tiles && s <= u < s + tiles[s].len :: u in used <==> !tiles[s].Free?)
    && (forall u | u in used :: u < zone)
  }

  function Span(a: nat, b: nat): (r: set<nat>)
    ensures forall u :: u in r <==> a <= u < b
    decreases b - a
  {
    if a < b then {a} + Span(a + 1, b) else {}
  }

  /** Replace whatever starts in [lo, hi) by the one block t at lo. */
  function Put(tiles: Tiles, lo: nat, hi: nat, t: Tile): (r: Tiles)
    ensures lo in r && r[lo] == t
    ensures forall s :: s in r <==> s == lo || (s in tiles && !(lo <= s < hi))
    ensures forall s | s in r && s != lo :: r[s] == tiles[s]
  {
    (map s | s in tiles && !(lo <= s < hi) :: tiles[s])[lo := t]
  }

  /** Cut the block at lo in two. */
  function Cut(tiles: Tiles, lo: nat, mid: nat, t: Tile, r: Tile): (q: Tiles)
    requires lo < mid
    ensures lo in q && q[lo] == t && mid in q && q[mid] == r
    ensures forall s :: s in q <==> s in tiles || s == lo || s == mid
    ensures forall s | s in tiles && s != lo && s != mid :: q[s] == tiles[s]
  {
    tiles[lo := t][mid := r]
  }

  /** Forget every block at or above z. */
  function Truncate(tiles: Tiles, z: nat): (r: Tiles)
    ensures forall s :: s in r <==> s in tiles && s < z
    ensures forall s | s in r :: r[s] == tiles[s]
  {
    map s | s in tiles && s < z :: tiles[s]
  }

  lemma {:induction false} Covered(tiles: Tiles, zone: nat, u: nat) returns (s: nat)
    requires Tiled(tiles, zone) && u < zone
    ensures s in tiles && s <= u < s + tiles[s].len
  {
    if u == 0 {
      s := 0;
    } else {
      s := Covered(tiles, zone, u - 1);
      if u == s + tiles[s].len {
        assert EndsWell(tiles, zone, s);
        s := u;
      }
    }
  }

  /** A block that starts below a boundary ends at or below it. */
  lemma EndsBefore(tiles: Tiles, zone: nat, b: nat)
    requires Tiled(tiles, zone) && Boundary(tiles, zone, b)
    ensures forall s | s in tiles && s < b :: s + tiles[s].len <= b
  {
  }

  lemma PutApart(tiles: Tiles, zone: nat, lo: nat, hi: nat, t: Tile)
    requires Tiled(tiles, zone) && lo < hi
    requires Boundary(tiles, zone, lo) && lo + t.len <= hi
    ensures Apart(Put(tiles, lo, hi, t))
  {
    EndsBefore(tiles, zone, lo);
    var r := Put(tiles, lo, hi, t);
    forall x, y | x in r && y in r && x < y
      ensures x + r[x].len <= y
    {
      if x != lo && y != lo {
        assert x in tiles && y in tiles;
      }
    }
  }

  lemma PutEnds(tiles: Tiles, zone: nat, lo: nat, hi: nat, t: Tile, s: nat)
    requires Tiled(tiles, zone) && lo < hi
    requires Boundary(tiles, zone, lo) && Boundary(tiles, zone, hi) && t.len == hi - lo
    requires s in Put(tiles, lo, hi, t)
    ensures EndsWell(Put(tiles, lo, hi, t), zone, s)
    ensures s + Put(tiles, lo, hi, t)[s].len <= zone
  {
    hide Put;
    if s != lo {
      EndsBefore(tiles, zone, lo);
      assert EndsWell(tiles, zone, s);
    }
  }

  lemma PutTiled(tiles: Tiles, zone: nat, lo: nat, hi: nat, t: Tile)
    requires Tiled(tiles, zone) && lo < hi
    requires Boundary(tiles, zone, lo) && Boundary(tiles, zone, hi) && t.len == hi - lo
    ensures Tiled(Put(tiles, lo, hi, t), zone)
  {
    hide Put;
    var r := Put(tiles, lo, hi, t);
    PutApart(tiles, zone, lo, hi, t);
    forall s {:trigger EndsWell(r, zone, s)} | s in r
      ensures EndsWell(r, zone, s) && s + r[s].len <= zone
    {
      PutEnds(tiles, zone, lo, hi, t, s);
    }
  }

  lemma CutApart(tiles: Tiles, zone: nat, lo: nat, mid: nat, t: Tile, r: Tile)
    requires Tiled(tiles, zone) && lo in tiles
    requires 0 < t.len && 0 < r.len && t.len + r.len == tiles[lo].len && mid == lo + t.len
    ensures Apart(Cut(tiles, lo, mid, t, r))
  {
    hide Cut;
    var q := Cut(tiles, lo, mid, t, r);
    forall x, y | x in q && y in q && x < y
      ensures x + q[x].len <= y
    {
      assert x == mid || x in tiles;
      assert y == mid || y in tiles;
    }
  }

  lemma CutEnds(tiles: Tiles, zone: nat, lo: nat, mid: nat, t: Tile, r: Tile, s: nat)
    requires Tiled(tiles, zone) && lo in tiles
    requires 0 < t.len && 0 < r.len && t.len + r.len == tiles[lo].len && mid == lo + t.len
    requires s in Cut(tiles, lo, mid, t, r)
    ensures EndsWell(Cut(tiles, lo, mid, t, r), zone, s)
    ensures s + Cut(tiles, lo, mid, t, r)[s].len <= zone
  {
    hide Cut;
    if s == mid {
      assert EndsWell(tiles, zone, lo);
    } else {
      assert EndsWell(tiles, zone, s);
    }
  }

  lemma CutTiled(tiles: Tiles, zone: nat, lo: nat, mid: nat, t: Tile, r: Tile)
    requires Tiled(tiles, zone) && lo in tiles
    requires 0 < t.len && 0 < r.len && t.len + r.len == tiles[lo].len && mid == lo + t.len
    ensures Tiled(Cut(tiles, lo, mid, t, r), zone)
  {
    hide Cut;
    var q := Cut(tiles, lo, mid, t, r);
    CutApart(tiles, zone, lo, mid, t, r);
    forall s {:trigger EndsWell(q, zone, s)} | s in q
      ensures EndsWell(q, zone, s) && s + q[s].len <= zone
    {
      CutEnds(tiles, zone, lo, mid, t, r, s);
    }
  }

  /** Changing what a block is, not how long, keeps the arrangement. */
  lemma RetagTiled(tiles: Tiles, zone: nat, p: nat, t: Tile)
    requires Tiled(tiles, zone) && p in tiles && t.len == tiles[p].len
    ensures Tiled(tiles[p := t], zone)
  {
    var r: Tiles := tiles[p := t];
    forall s {:trigger EndsWell(r, zone, s)} | s in r
      ensures EndsWell(r, zone, s)
    {
      assert EndsWell(tiles, zone, s);
    }
  }

  lemma TruncateTiled(tiles: Tiles, zone: nat, z: nat)
    requires Tiled(tiles, zone) && Boundary(tiles, zone, z)
    ensures Tiled(Truncate(tiles, z), z)
  {
    var r := Truncate(tiles, z);
    forall s {:trigger EndsWell(r, z, s)} | s in r
      ensures EndsWell(r, z, s)
    {
      assert EndsWell(tiles, zone, s);
    }
  }

  lemma AppendTiled(tiles: Tiles, zone: nat, t: Tile)
    requires Tiled(tiles, zone) && 0 < t.len
    ensures Tiled(tiles[zone := t], zone + t.len)
  {
    var r := tiles[zone := t];
    forall s {:trigger EndsWell(r, zone + t.len, s)} | s in r
      ensures EndsWell(r, zone + t.len, s)
    {
      if s != zone {
        assert EndsWell(tiles, zone, s);
      }
    }
  }

  // ---- maximal free runs ----

  /** [a, b) is a maximal run of free units below zone. */
  ghost predicate IsRun(used: set<nat>, zone: nat, a: nat, b: nat)
  {
    && a < b <= zone
    && (forall u | a <= u < b :: u !in used)
    && (a > 0 ==> a - 1 in used)
    && (b < zone ==> b in used)
  }

  /** Headers tile a free run exactly: a block starts where it starts, one ends where it ends,
      and every block in between is free and stays inside. */
  lemma RunIsTiled(tiles: Tiles, used: set<nat>, zone: nat, a: nat, b: nat)
    requires Tiled(tiles, zone) && Coloured(tiles, used, zone) && IsRun(used, zone, a, b)
    ensures a in tiles && Boundary(tiles, zone, b)
    ensures forall s | s in tiles && a <= s < b :: tiles[s].Free? && s + tiles[s].len <= b
  {
    if a > 0 {
      var s := Covered(tiles, zone, a - 1);
      assert EndsWell(tiles, zone, s);
      assert a !in used;
    }
    if b < zone {
      var s := Covered(tiles, zone, b);
      assert b - 1 !in used;
    }
    forall s | s in tiles && a <= s < b
      ensures tiles[s].Free? && s + tiles[s].len <= b
    {
      assert s !in used;
    }
  }

  /** Two maximal runs that share a unit, or that start at the same unit, are the same run. */
  lemma RunsAgree(used: set<nat>, zone: nat, a: nat, b: nat, c: nat, d: nat)
    requires IsRun(used, zone, a, b) && IsRun(used, zone, c, d)
    ensures (a == c && b == d) || b < c || d < a
  {
    if a < c <= b {
      assert false;
    }
    if c < a <= d {
      assert false;
    }
  }
}
