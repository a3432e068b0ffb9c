/** The source records an index is built from, and the brute-force answers over them. */
module Sources {
  import opened Bytes
  import opened Words
  import opened Addresses
  import opened Cover

  /** A record's range and the CIDR blocks it is indexed under. An allocation or a geofeed has
      the blocks of its greedy cover; a route is one block. */
  datatype Source = Source(version: Version, start: nat, last: nat, blocks: seq<Block>)

  ghost predicate ValidSource(s: Source) {
    && s.start <= s.last < Pow2(Width(s.version))
    && Tiles(s.blocks, s.start, s.last) && AllAligned(s.blocks)
    && forall i :: 0 <= i < |s.blocks| ==> s.blocks[i].exp <= Width(s.version)
  }

  /** Record IDs are one-based positions and fit a word. */
  ghost predicate ValidSources(ss: seq<Source>) {
    |ss| <= MAX_UINT32 && forall i {:trigger ValidSource(ss[i])} :: 0 <= i < |ss| ==> ValidSource(ss[i])
  }

  function RangeSource(v: Version, start: nat, last: nat): Source {
    Source(v, start, last, Greedy(start, last, Width(v)))
  }

  function RouteSource(v: Version, b: Block): Source {
    Source(v, b.base, End(b) - 1, [b])
  }

  /** The version, first and last address of a stored allocation or geofeed. */
  datatype Bounds = Bounds(version: Version, start: Address, end: Address)

  /** What an import accepts: addresses of the version, in order. */
  ghost predicate ValidBounds(r: Bounds) {
    && Canonical(r.start, r.version) && Canonical(r.end, r.version)
    && Num(r.start, r.version) <= Num(r.end, r.version)
  }

  ghost predicate AllBounds(rs: seq<Bounds>) {
    |rs| <= MAX_UINT32 && forall i {:trigger ValidBounds(rs[i])} :: 0 <= i < |rs| ==> ValidBounds(rs[i])
  }

  function SourceOf(r: Bounds): Source
    requires ValidBounds(r)
  {
    RangeSource(r.version, Num(r.start, r.version), Num(r.end, r.version))
  }

  ghost function SourcesOf(rs: seq<Bounds>): (ss: seq<Source>)
    requires AllBounds(rs)
    ensures |ss| == |rs| && forall i :: 0 <= i < |ss| ==> ss[i] == SourceOf(rs[i])
    ensures ValidSources(ss)
  {
    forall i | 0 <= i < |rs|
      ensures ValidSource(SourceOf(rs[i]))
    {
      SourceOfValid(rs[i]);
    }
    seq(|rs|, i requires 0 <= i < |rs| && ValidBounds(rs[i]) => SourceOf(rs[i]))
  }

  /** A source has a record's version and bounds. */
  ghost predicate Spans(s: Source, r: Bounds) {
    s.version == r.version && s.start == Num(r.start, r.version) && s.last == Num(r.end, r.version)
  }

  ghost predicate AreRecords(rs: seq<Bounds>, ss: seq<Source>) {
    && ValidSources(ss) && AllBounds(rs) && |rs| == |ss|
    && forall i :: 0 <= i < |ss| ==> Spans(ss[i], rs[i])
  }

  lemma SourcesOfRecords(rs: seq<Bounds>)
    requires AllBounds(rs)
    ensures AreRecords(rs, SourcesOf(rs))
  {
  }

  lemma SourceOfValid(r: Bounds)
    requires ValidBounds(r)
    ensures ValidSource(SourceOf(r))
  {
    NumIsKeyValue(r.end, r.version);
    RangeSourceValid(r.version, Num(r.start, r.version), Num(r.end, r.version));
  }

  /** The pieces a record's range is cut into are its blocks. */
  lemma PiecesOfRecord(rs: seq<Bounds>, i: nat)
    requires AllBounds(rs) && i < |rs|
    ensures Spans(SourcesOf(rs)[i], rs[i]) && ValidSource(SourcesOf(rs)[i])
    ensures var r, blocks := rs[i], SourcesOf(rs)[i].blocks;
      var pieces := Pieces(Num(r.start, r.version), Num(r.end, r.version), Width(r.version));
      |pieces| == |blocks| && forall j :: 0 <= j < |pieces| ==> pieces[j] == PieceOf(blocks[j], Width(r.version))
  {
    var r := rs[i];
    assert SourcesOf(rs)[i] == SourceOf(r);
    PiecesAreBlocks(Num(r.start, r.version), Num(r.end, r.version), Width(r.version));
  }

  lemma GreedyFits(cur: nat, last: nat, bits: nat, i: nat)
    requires cur <= last < Pow2(bits) && i < |Greedy(cur, last, bits)|
    ensures var b := Greedy(cur, last, bits)[i]; cur <= b.base && End(b) <= last + 1 && b.exp <= bits
  {
    var g := Greedy(cur, last, bits);
    GreedyTiles(cur, last, bits);
    assert Has(g[i], g[i].base) && Has(g[i], End(g[i]) - 1);
    TilesCover(g, cur, last, g[i].base);
    TilesCover(g, cur, last, End(g[i]) - 1);
    if bits < g[i].exp {
      Pow2Monotone(bits, g[i].exp);
    }
  }

  lemma RangeSourceValid(v: Version, start: nat, last: nat)
    requires start <= last < Pow2(Width(v))
    ensures ValidSource(RangeSource(v, start, last))
  {
    var s := RangeSource(v, start, last);
    GreedyTiles(start, last, Width(v));
    forall i | 0 <= i < |s.blocks|
      ensures s.blocks[i].exp <= Width(v)
    {
      GreedyFits(start, last, Width(v), i);
    }
  }

  lemma RouteSourceValid(v: Version, b: Block)
    requires Aligned(b) && b.exp <= Width(v) && End(b) <= Pow2(Width(v))
    ensures ValidSource(RouteSource(v, b))
  {
    assert [b][1..] == [];
  }

  // ---------- blocks that contain an address ----------

  /** The one aligned block of a given size around x. */
  function BlockAt(x: nat, e: nat): Block {
    Block(Floor(x, Pow2(e)), e)
  }

  function Floor(x: nat, p: nat): (f: nat)
    requires p >= 1
    ensures f == x / p * p
  {
    ProductNonNegative(x / p, p);
    x / p * p
  }

  lemma ProductNonNegative(a: nat, b: nat)
    ensures a * b >= 0
  {
  }

  lemma BlockAtHas(x: nat, e: nat)
    ensures Aligned(BlockAt(x, e)) && Has(BlockAt(x, e), x)
  {
    FloorMultiple(x, Pow2(e));
  }

  lemma OnlyBlockAt(b: Block, x: nat)
    requires Aligned(b)
    ensures Has(b, x) <==> b == BlockAt(x, b.exp)
  {
    BlockAtHas(x, b.exp);
    if Has(b, x) {
      Nested(b, BlockAt(x, b.exp), x);
      Nested(BlockAt(x, b.exp), b, x);
    }
  }

  ghost predicate Contains(s: Source, v: Version, x: nat) {
    s.version == v && s.start <= x <= s.last
  }

  /** The position of the block through which a record contains x. */
  ghost function BlockIndex(s: Source, x: nat): (i: nat)
    requires ValidSource(s) && s.start <= x <= s.last
    ensures i < |s.blocks| && Has(s.blocks[i], x)
    ensures forall j :: 0 <= j < |s.blocks| && Has(s.blocks[j], x) ==> j == i
  {
    TilesCover(s.blocks, s.start, s.last, x);
    var i :| 0 <= i < |s.blocks| && Has(s.blocks[i], x);
    OnlyOneBlock(s, x, i);
    i
  }

  lemma OnlyOneBlock(s: Source, x: nat, i: nat)
    requires ValidSource(s) && i < |s.blocks| && Has(s.blocks[i], x)
    ensures forall j :: 0 <= j < |s.blocks| && Has(s.blocks[j], x) ==> j == i
  {
    forall j | 0 <= j < |s.blocks| && Has(s.blocks[j], x)
      ensures j == i
    {
      if j < i {
        TilesOrdered(s.blocks, s.start, s.last, j, i);
      } else if i < j {
        TilesOrdered(s.blocks, s.start, s.last, i, j);
      }
    }
  }

  /** The size of that block. */
  ghost function ExpAt(s: Source, x: nat): (e: nat)
    requires ValidSource(s) && s.start <= x <= s.last
    ensures e <= Width(s.version)
  {
    s.blocks[BlockIndex(s, x)].exp
  }

  lemma BlockThroughHit(s: Source, x: nat, b: Block)
    requires ValidSource(s) && b in s.blocks && Has(b, x)
    ensures s.start <= x <= s.last && b.exp == ExpAt(s, x)
  {
    var j :| 0 <= j < |s.blocks| && s.blocks[j] == b;
    assert Has(s.blocks[j], x);
    TilesCover(s.blocks, s.start, s.last, x);
  }

  lemma HitThroughBlock(s: Source, x: nat)
    requires ValidSource(s) && s.start <= x <= s.last
    ensures BlockAt(x, ExpAt(s, x)) in s.blocks
  {
    var b := s.blocks[BlockIndex(s, x)];
    OnlyBlockAt(b, x);
  }

  // ---------- the order in which a point query meets records ----------

  ghost predicate IsHit(ss: seq<Source>, v: Version, x: nat, id: nat) {
    1 <= id <= |ss| && Contains(ss[id - 1], v, x)
  }

  /** Longer components first, then lower IDs. */
  ghost predicate Before(ss: seq<Source>, v: Version, x: nat, a: nat, b: nat)
    requires ValidSources(ss) && IsHit(ss, v, x, a) && IsHit(ss, v, x, b)
  {
    var ea, eb := ExpAt(ss[a - 1], x), ExpAt(ss[b - 1], x);
    ea < eb || (ea == eb && a < b)
  }

  /** ids lists every record that contains x once, in that order. */
  ghost predicate InMatchOrder(ids: seq<nat>, ss: seq<Source>, v: Version, x: nat)
    requires ValidSources(ss)
  {
    && (forall id :: id in ids <==> IsHit(ss, v, x, id))
    && (forall i, j :: 0 <= i < j < |ids| ==> ids[i] in ids && ids[j] in ids && Before(ss, v, x, ids[i], ids[j]))
  }

  // ---------- the longest component ----------

  ghost predicate IsLongestHit(ss: seq<Source>, v: Version, x: nat, id: nat)
    requires ValidSources(ss)
  {
    && IsHit(ss, v, x, id)
    && forall other :: IsHit(ss, v, x, other) ==> ExpAt(ss[id - 1], x) <= ExpAt(ss[other - 1], x)
  }

  /** When e is the least size among the hits, the longest hits are those of size e. */
  lemma LongestHitBySize(ss: seq<Source>, v: Version, x: nat, e: nat, some: nat, id: nat)
    requires ValidSources(ss) && IsHit(ss, v, x, some) && ExpAt(ss[some - 1], x) == e
    requires forall other :: IsHit(ss, v, x, other) ==> e <= ExpAt(ss[other - 1], x)
    ensures IsLongestHit(ss, v, x, id) <==> IsHit(ss, v, x, id) && ExpAt(ss[id - 1], x) == e
  {
  }

  ghost predicate Ascending(ids: seq<nat>) {
    forall i, j :: 0 <= i < j < |ids| ==> ids[i] < ids[j]
  }

  /** ids lists, in ascending order, the records whose component around x is longest. */
  ghost predicate IsLongestHits(ids: seq<nat>, ss: seq<Source>, v: Version, x: nat)
    requires ValidSources(ss)
  {
    Ascending(ids) && forall id :: id in ids <==> IsLongestHit(ss, v, x, id)
  }

  /** Two ascending lists of the same numbers are one list. */
  lemma {:induction false} AscendingUnique(a: seq<nat>, b: seq<nat>)
    requires Ascending(a) && Ascending(b) && forall n :: n in a <==> n in b
    ensures a == b
  {
    assert (a != [] ==> a[0] in a) && (b != [] ==> b[0] in b);
    if a != [] && b != [] {
      assert a[0] in b && b[0] in a;
      assert a[0] == b[0];
      forall n
        ensures n in a[1..] <==> n in b[1..]
      {
        assert n in a <==> n == a[0] || n in a[1..];
        assert n in b <==> n == b[0] || n in b[1..];
      }
      AscendingUnique(a[1..], b[1..]);
      assert a == [a[0]] + a[1..] && b == [b[0]] + b[1..];
    }
  }
}
