/** The words NVMalloc writes in front of its blocks, and what a reader of the words alone can recover. */
module Headers {
  import opened Words
  import opened Checksum
  import opened Tiling

  /** Heaps stay one page below 4 GiB, so that every byte offset and size fits in 32 bits. */
  const MAX_UNITS := 0x3FF_FFC0

  /** The byte offset of unit u, as the checksum sees it. */
  function OffsetOf(u: nat): Word
    requires u <= MAX_UNITS
  {
    Bits32(64 * u) as Word
  }

  /** The checksummed word for a size in bytes at unit u. */
  function HeaderOf(u: nat, size: nat): Word
    requires u <= MAX_UNITS && size <= 64 * MAX_UNITS + 1
  {
    XorWord(OffsetOf(u), Bits32(size))
  }

  /** xorGetSize as a number. */
  function SizeOf(w: Word): nat
  {
    XorGetSize(w) as int
  }

  predicate Sound(u: nat, w: Word)
    requires u <= MAX_UNITS
  {
    Accepted(OffsetOf(u), w)
  }

  /** The header word of a block: live blocks store the checksummed size, free ones its negation,
      quarantined ones the negation of the checksummed size plus one. */
  function WordOf(u: nat, t: Tile): Word
    requires u <= MAX_UNITS && t.len <= MAX_UNITS
  {
    match t
    case Live(len) => HeaderOf(u, 64 * len)
    case Free(len) => Neg(HeaderOf(u, 64 * len))
    case Quarantined(len, _) => Neg(HeaderOf(u, 64 * len + 1))
  }

  lemma WrittenWord(u: nat, size: nat)
    requires u <= MAX_UNITS && 0 < size <= 64 * MAX_UNITS + 1
    ensures var w := HeaderOf(u, size);
      && Positive(w) && Negative(Neg(w)) && Neg(Neg(w)) == w
      && Sound(u, w) && SizeOf(w) == size
  {
    hide XorWord, XorGetSize, OffsetOf, Positive, Negative, Neg, Accepted;
    RoundTrip(OffsetOf(u), Bits32(size));
    assert Bits32(size) != 0;
  }

  lemma SignsExclude(w: Word)
    ensures !(Positive(w) && Negative(w))
    ensures Positive(w) || Negative(w) || w == 0
  {
  }

  // ---- recovery from the headers alone ----

  datatype Decoded = Unreadable | Block(len: nat, inUse: bool, quarantined: bool)

  /** What the word at unit u says, without any other knowledge. */
  function Decode(u: nat, w: Word): Decoded
    requires u <= MAX_UNITS
  {
    if Positive(w) then
      var size := SizeOf(w);
      if Sound(u, w) && size % 64 == 0 && size > 0 then Block(size / 64, true, false) else Unreadable
    else if Negative(w) then
      var size := SizeOf(Neg(w));
      if !Sound(u, Neg(w)) then Unreadable
      else if size % 64 == 0 && size > 0 then Block(size / 64, false, false)
      else if size % 64 == 1 && size > 1 then Block(size / 64, true, true)
      else Unreadable
    else Unreadable
  }

  lemma DecodeWord(u: nat, t: Tile)
    requires u <= MAX_UNITS && 0 < t.len <= MAX_UNITS
    ensures Decode(u, WordOf(u, t)) == Block(t.len, !t.Free?, t.Quarantined?)
  {
    hide HeaderOf, SizeOf, Sound, Neg, Positive, Negative;
    WrittenWord(u, 64 * t.len);
    WrittenWord(u, 64 * t.len + 1);
    SignsExclude(WordOf(u, t));
  }

  /** The sign tells a live block from the others, and the size is that of the block, or one more while it
      waits. */
  lemma StoredSize(u: nat, t: Tile)
    requires u <= MAX_UNITS && 0 < t.len <= MAX_UNITS
    ensures var w := WordOf(u, t);
      && (Positive(w) <==> t.Live?) && (Negative(w) <==> !t.Live?)
      && SizeOf(if t.Live? then w else Neg(w)) == 64 * t.len + if t.Quarantined? then 1 else 0
  {
    hide HeaderOf, SizeOf, Sound, Neg, Positive, Negative;
    WrittenWord(u, 64 * t.len);
    WrittenWord(u, 64 * t.len + 1);
    SignsExclude(WordOf(u, t));
  }

  datatype Scanned = Broken | Recovered(used: set<nat>, live: nat, quarantined: nat, free: nat)

  /** Walk the headers from unit `from` up to zone and collect the units in use and the totals. */
  function Scan(words: seq<Word>, from: nat, zone: nat): Scanned
    requires zone <= |words| && zone <= MAX_UNITS
    decreases zone - from
  {
    if from == zone then Recovered({}, 0, 0, 0)
    else if from > zone then Broken
    else
      match Decode(from, words[from])
      case Unreadable => Broken
      case Block(len, inUse, quarantined) =>
        if len == 0 then Broken
        else
          match Scan(words, from + len, zone)
          case Broken => Broken
          case Recovered(used, l, q, f) =>
            if quarantined then Recovered(Span(from, from + len) + used, l, q + len, f)
            else if inUse then Recovered(Span(from, from + len) + used, l + len, q, f)
            else Recovered(used, l, q, f + len)
  }

  ghost predicate HeadersMatch(words: seq<Word>, tiles: Tiles, zone: nat)
    requires Tiled(tiles, zone) && zone <= MAX_UNITS
  {
    zone <= |words| && forall s | s in tiles :: words[s] == WordOf(s, tiles[s])
  }

  /** What the units of a block are used for. */
  datatype Use = Held | Waiting | Unused

  function UseOf(t: Tile): Use
  {
    match t
    case Live(_) => Held
    case Quarantined(_, _) => Waiting
    case Free(_) => Unused
  }

  predicate Holds(tiles: Tiles, s: nat, u: nat)
  {
    s in tiles && s <= u < s + tiles[s].len
  }

  ghost predicate IsOf(tiles: Tiles, u: nat, k: Use)
  {
    exists s :: Holds(tiles, s, u) && UseOf(tiles[s]) == k
  }

  /** The units from `from` on that belong to blocks of one kind. */
  ghost function UnitsOf(tiles: Tiles, from: nat, zone: nat, k: Use): set<nat>
  {
    set u: nat | from <= u < zone && IsOf(tiles, u, k)
  }

  lemma {:induction false} SpanSize(a: nat, b: nat)
    requires a <= b
    ensures |Span(a, b)| == b - a
    decreases b - a
  {
    if a < b {
      SpanSize(a + 1, b);
    }
  }

  lemma UseAt(tiles: Tiles, zone: nat, s: nat, u: nat, k: Use)
    requires Tiled(tiles, zone) && Holds(tiles, s, u)
    ensures IsOf(tiles, u, k) <==> UseOf(tiles[s]) == k
  {
    forall r | Holds(tiles, r, u)
      ensures r == s
    {
    }
  }

  lemma BlockEnds(tiles: Tiles, zone: nat, s: nat)
    requires Tiled(tiles, zone) && s in tiles
    ensures s + tiles[s].len <= zone && 0 < tiles[s].len
  {
    assert EndsWell(tiles, zone, s);
  }

  lemma UnitsStep(tiles: Tiles, from: nat, zone: nat, k: Use)
    requires Tiled(tiles, zone) && from in tiles
    ensures |UnitsOf(tiles, from, zone, k)|
         == (if UseOf(tiles[from]) == k then tiles[from].len else 0) + |UnitsOf(tiles, from + tiles[from].len, zone, k)|
  {
    hide Span, IsOf, UseOf, Tiled;
    var next := from + tiles[from].len;
    BlockEnds(tiles, zone, from);
    var own := if UseOf(tiles[from]) == k then Span(from, next) else {};
    SpanSize(from, next);
    forall u: nat | from <= u < next
      ensures IsOf(tiles, u, k) <==> UseOf(tiles[from]) == k
    {
      UseAt(tiles, zone, from, u, k);
    }
    assert UnitsOf(tiles, from, zone, k) == own + UnitsOf(tiles, next, zone, k);
  }

  /** The totals of a scan count the units of each kind, and those in use are the used ones. */
  ghost predicate Totals(r: Scanned, tiles: Tiles, from: nat, zone: nat)
  {
    && r.Recovered?
    && r.live == |UnitsOf(tiles, from, zone, Held)| && r.quarantined == |UnitsOf(tiles, from, zone, Waiting)|
    && r.free == |UnitsOf(tiles, from, zone, Unused)| && r.live + r.quarantined == |r.used|
    && r.live + r.quarantined + r.free == zone - from
  }

  ghost predicate AllFrom(used: set<nat>, from: nat)
  {
    forall u | u in used :: from <= u
  }

  lemma TotalsStep(words: seq<Word>, tiles: Tiles, from: nat, zone: nat)
    requires zone <= MAX_UNITS && zone <= |words| && Tiled(tiles, zone) && from in tiles
    requires Decode(from, words[from]) == Block(tiles[from].len, !tiles[from].Free?, tiles[from].Quarantined?)
    requires Totals(Scan(words, from + tiles[from].len, zone), tiles, from + tiles[from].len, zone)
    requires Scan(words, from + tiles[from].len, zone).Recovered?
    requires AllFrom(Scan(words, from + tiles[from].len, zone).used, from + tiles[from].len)
    ensures Totals(Scan(words, from, zone), tiles, from, zone)
  {
    hide Decode, Span, UnitsOf;
    var t := tiles[from];
    assert EndsWell(tiles, zone, from);
    UnitsStep(tiles, from, zone, Held);
    UnitsStep(tiles, from, zone, Waiting);
    UnitsStep(tiles, from, zone, Unused);
    SpanSize(from, from + t.len);
    var r := Scan(words, from + t.len, zone);
    assert Span(from, from + t.len) !! r.used;
    assert |Span(from, from + t.len) + r.used| == t.len + |r.used|;
  }

  lemma {:induction false} ScanFrom(words: seq<Word>, tiles: Tiles, used: set<nat>, zone: nat, from: nat)
    requires zone <= MAX_UNITS && Tiled(tiles, zone) && Coloured(tiles, used, zone)
    requires HeadersMatch(words, tiles, zone) && Boundary(tiles, zone, from)
    ensures var r := Scan(words, from, zone);
      && Totals(r, tiles, from, zone)
      && (forall u :: u in r.used <==> u in used && from <= u)
    decreases zone - from
  {
    hide WordOf, Decode, Totals;
    if from < zone {
      var t := tiles[from];
      DecodeWord(from, t);
      assert EndsWell(tiles, zone, from);
      ScanFrom(words, tiles, used, zone, from + t.len);
      TotalsRecovered(Scan(words, from + t.len, zone), tiles, from + t.len, zone);
      TotalsStep(words, tiles, from, zone);
      ScanUses(words, tiles, used, zone, from);
    } else {
      NothingLeft(words, tiles, zone);
    }
  }

  lemma NothingLeft(words: seq<Word>, tiles: Tiles, zone: nat)
    requires zone <= MAX_UNITS && zone <= |words|
    ensures Totals(Scan(words, zone, zone), tiles, zone, zone)
  {
    assert UnitsOf(tiles, zone, zone, Held) == {} && UnitsOf(tiles, zone, zone, Waiting) == {};
    assert UnitsOf(tiles, zone, zone, Unused) == {};
  }

  lemma ScanUses(words: seq<Word>, tiles: Tiles, used: set<nat>, zone: nat, from: nat)
    requires zone <= MAX_UNITS && zone <= |words| && Tiled(tiles, zone) && Coloured(tiles, used, zone) && from in tiles
    requires Decode(from, words[from]) == Block(tiles[from].len, !tiles[from].Free?, tiles[from].Quarantined?)
    requires var r := Scan(words, from + tiles[from].len, zone);
      r.Recovered? && forall u :: u in r.used <==> u in used && from + tiles[from].len <= u
    ensures var r := Scan(words, from, zone);
      r.Recovered? && forall u :: u in r.used <==> u in used && from <= u
  {
    hide Decode, Span;
    var t := tiles[from];
    assert EndsWell(tiles, zone, from);
    assert forall u | from <= u < from + t.len :: u in used <==> !t.Free?;
  }

  /** The headers alone determine the bitmap: a walk from the start lands exactly on free_zone, meets a
      readable header at every step, finds precisely the units in use, and accounts for every unit: the
      three totals are the units of live, quarantined and free blocks. */
  lemma ScanRebuildsBitmap(words: seq<Word>, tiles: Tiles, used: set<nat>, zone: nat)
    requires zone <= MAX_UNITS && Tiled(tiles, zone) && Coloured(tiles, used, zone)
    requires HeadersMatch(words, tiles, zone)
    ensures var r := Scan(words, 0, zone); r.Recovered? && r.used == used && Totals(r, tiles, 0, zone)
  {
    hide Totals, Scan;
    ScanFrom(words, tiles, used, zone, 0);
    TotalsRecovered(Scan(words, 0, zone), tiles, 0, zone);
  }

  lemma TotalsRecovered(r: Scanned, tiles: Tiles, from: nat, zone: nat)
    requires Totals(r, tiles, from, zone)
    ensures r.Recovered?
  {
  }
}
