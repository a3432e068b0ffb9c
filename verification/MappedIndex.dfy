/** IPv4-mapped records in the prefix index: where a point query finds them, and exactly which
    records keep point queries right. */
module MappedIndex {
  import opened Bytes
  import opened Words
  import opened Addresses
  import opened Cover
  import opened Sources
  import opened Mapped
  import opened PointIndex

  // ---------- what a point query collects ----------

  lemma {:induction false} GroupCollected(keys: seq<StoreKey>, v: Version, x: nat, length: int, at: nat, id: Word)
    requires AllKeys(keys) && at <= length <= Width(v) && id in Group(keys, BlockKey(v, x, at))
    ensures id in MatchesFrom(keys, v, x, length)
    decreases length
  {
    if at < length {
      GroupCollected(keys, v, x, length - 1, at, id);
    }
  }

  /** An ID that stands under two of the address's prefixes is listed twice. */
  lemma {:induction false} CollectedTwice(keys: seq<StoreKey>, v: Version, x: nat, length: int, long: nat, short: nat, id: Word)
    returns (i: nat, j: nat)
    requires AllKeys(keys) && short < long <= length <= Width(v)
    requires id in Group(keys, BlockKey(v, x, long)) && id in Group(keys, BlockKey(v, x, short))
    ensures var m := MatchesFrom(keys, v, x, length); i < j < |m| && m[i] == m[j] == id
    decreases length
  {
    var group, rest := Group(keys, BlockKey(v, x, length)), MatchesFrom(keys, v, x, length - 1);
    if long < length {
      i, j := CollectedTwice(keys, v, x, length - 1, long, short, id);
      i, j := Shifted(group, rest, i, j);
    } else {
      GroupCollected(keys, v, x, length - 1, short, id);
      i, j := TwoPlaces(group, rest, id);
    }
  }

  lemma Shifted(a: seq<Word>, b: seq<Word>, i: nat, j: nat) returns (k: nat, l: nat)
    requires i < j < |b|
    ensures k < l < |a + b| && (a + b)[k] == b[i] && (a + b)[l] == b[j]
  {
    k, l := |a| + i, |a| + j;
  }

  lemma TwoPlaces(a: seq<Word>, b: seq<Word>, id: Word) returns (i: nat, j: nat)
    requires id in a && id in b
    ensures i < j < |a + b| && (a + b)[i] == (a + b)[j] == id
  {
    i :| 0 <= i < |a| && a[i] == id;
    var k :| 0 <= k < |b| && b[k] == id;
    j := |a| + k;
  }

  lemma StoredAround(keys: seq<StoreKey>, ss: seq<Source>, v: Version, b: Block, id: Word, x: nat)
    requires IsStored(keys, ss) && AllKeys(keys) && HasEntry(ss, v, b, id) && Aligned(b) && Has(UnmapBlock(v, b), x) && !IsMapped(v, x)
    ensures b.exp <= Width(v) && id in Group(keys, BlockKey(v, x, Width(v) - b.exp))
  {
    var i := StoredIsKey(keys, ss, v, b, id);
    UnmapAligned(v, b);
    OnlyBlockAt(UnmapBlock(v, b), x);
    PlainAncestor(v, UnmapBlock(v, b), x);
    GroupIn(keys, StoredKey(v, b), |keys|, id);
  }

  /** A record with a piece among the mapped addresses is found around the piece's image among the
      lowest ones, which it need not contain. */
  lemma MappedIsElsewhere(keys: seq<StoreKey>, ss: seq<Source>, v: Version, b: Block, id: Word, x: nat)
    requires IsStored(keys, ss) && AllKeys(keys) && HasEntry(ss, v, b, id) && IsMapped(v, b.base) && Has(UnmapBlock(v, b), x)
    ensures !IsMapped(v, x) && id in Matches(keys, v, x)
  {
    assert ValidSource(ss[id - 1]);
    BlockInSource(ss[id - 1], b);
    UnmapAligned(v, b);
    StoredAround(keys, ss, v, b, id, x);
    GroupCollected(keys, v, x, Width(v), Width(v) - b.exp, id);
  }

  /** ids has every record that contains x, among others of the family perhaps. */
  ghost predicate FindsHits(ids: seq<Word>, ss: seq<Source>, v: Version, x: nat) {
    && (forall i :: 0 <= i < |ids| ==> 1 <= ids[i] <= |ss| && ss[ids[i] - 1].version == v)
    && (forall id :: IsHit(ss, v, x, id) ==> id in ids)
  }

  lemma HitIsMatched(keys: seq<StoreKey>, ss: seq<Source>, v: Version, x: nat, id: Word)
    requires IsStored(keys, ss) && AllKeys(keys) && !IsMapped(v, x) && IsHit(ss, v, x, id)
    ensures id in Matches(keys, v, x)
  {
    var s := ss[id - 1];
    var b := s.blocks[BlockIndex(s, x)];
    BlockInSource(s, b);
    PlainAncestor(v, b, x);
    StoredAround(keys, ss, v, b, id, x);
    GroupCollected(keys, v, x, Width(v), Width(v) - b.exp, id);
  }

  /** Whatever is stored, a point query at an address that is not mapped misses no record that
      contains it. */
  lemma NoHitIsMissed(keys: seq<StoreKey>, ss: seq<Source>, v: Version, x: nat)
    requires IsStored(keys, ss) && AllKeys(keys) && !IsMapped(v, x)
    ensures FindsHits(Matches(keys, v, x), ss, v, x)
  {
    var ids := Matches(keys, v, x);
    MatchesOfFamily(keys, ss, v, x, Width(v));
    assert forall i :: 0 <= i < |ids| ==> ids[i] in ids;
    forall id | IsHit(ss, v, x, id)
      ensures id in ids
    {
      HitIsMatched(keys, ss, v, x, id);
    }
  }

  // ---------- which records keep point queries right ----------

  lemma Regroup(p: int, h: int, r: int)
    ensures p * (2 * h + r) == (2 * p) * h + p * r
  {
  }

  lemma OddMultiple(x: nat, p: nat)
    requires p >= 1 && x % p == 0 && x % (2 * p) != 0
    ensures x >= p && (x - p) % (2 * p) == 0
  {
    var q := x / p;
    var h, r := q / 2, q % 2;
    assert x == p * q && q == 2 * h + r;
    Regroup(p, h, r);
    if r == 0 {
      DivUnique(x, 2 * p, h, 0);
    } else {
      assert x - p == (2 * p) * h;
      DivUnique(x - p, 2 * p, h, 0);
      ProductNonNegative(2 * p, h);
    }
  }

  /** A greedy piece is not the lower half of, or all of, a larger block that fits. */
  lemma NoLargerBlock(v: Version, start: nat, last: nat, i: nat, parent: Block)
    requires start <= last < Pow2(Width(v)) && i < |Greedy(start, last, Width(v))|
    requires Aligned(parent) && start <= parent.base && End(parent) <= last + 1
    ensures var b := Greedy(start, last, Width(v))[i]; !(Within(b, parent) && b.exp < parent.exp)
  {
    var s := RangeSource(v, start, last);
    var b := s.blocks[i];
    RangeSourceValid(v, start, last);
    if Within(b, parent) && b.exp < parent.exp {
      var j := GreedyIsMaximal(start, start, last, Width(v), parent);
      assert Has(s.blocks[i], b.base) && Has(s.blocks[j], b.base);
      OnlyOneBlock(s, b.base, i);
      Pow2Monotone(b.exp, parent.exp);
    }
  }

  /** A greedy cover does not have a mapped block and its image both. */
  lemma NoTwins(v: Version, start: nat, last: nat, i: nat, j: nat)
    requires start <= last < Pow2(Width(v)) && i < |Greedy(start, last, Width(v))| && j < |Greedy(start, last, Width(v))|
    requires IsMapped(v, Greedy(start, last, Width(v))[i].base)
    ensures Greedy(start, last, Width(v))[j] != UnmapBlock(v, Greedy(start, last, Width(v))[i])
  {
    var g := Greedy(start, last, Width(v));
    var b, c := g[i], g[j];
    GreedyTiles(start, last, Width(v));
    GreedyFits(start, last, Width(v), i);
    GreedyFits(start, last, Width(v), j);
    if c == UnmapBlock(v, b) {
      var p := Pow2(b.exp);
      MappedBlocks();
      MappedWithin(v, b);
      PowerMultiple(b.exp, 32);
      Pow2Of32();
      assert Pow2(b.exp + 1) == 2 * p;
      if c.base % (2 * p) == 0 {
        NoLargerBlock(v, start, last, j, Block(c.base, b.exp + 1));
      } else {
        OddMultiple(c.base, p);
        assert b.exp < 32 by {
          if b.exp == 32 {
            UnmapAligned(v, b);
          }
        }
        MultipleDown(MAPPED_FIRST, b.exp + 1, 32);
        MultipleSum(MAPPED_FIRST, c.base - p, 2 * p);
        NoLargerBlock(v, start, last, i, Block(b.base - p, b.exp + 1));
      }
    }
  }

  ghost predicate PointQueriesExact(keys: seq<StoreKey>, ss: seq<Source>)
    requires AllKeys(keys) && ValidSources(ss)
  {
    forall v, x: nat {:trigger Matches(keys, v, x)} :: x < Pow2(Width(v)) && !IsMapped(v, x) ==> InMatchOrder(Matches(keys, v, x), ss, v, x)
  }

  /** One record that is not clear spoils a query: at an address that it does not contain it is
      listed, or at one that it does contain it is listed twice. */
  lemma UnclearSpoils(keys: seq<StoreKey>, rs: seq<Bounds>, i: nat) returns (v: Version, x: nat)
    requires AllBounds(rs) && IsStored(keys, SourcesOf(rs)) && AllKeys(keys) && i < |rs|
    requires !IsClear(rs[i].version, Num(rs[i].start, rs[i].version), Num(rs[i].end, rs[i].version))
    ensures x < Pow2(Width(v)) && !IsMapped(v, x) && !InMatchOrder(Matches(keys, v, x), SourcesOf(rs), v, x)
  {
    var ss, id := SourcesOf(rs), i + 1;
    var s := ss[i];
    v := s.version;
    assert ValidSource(s) && ValidBounds(rs[i]) && s == SourceOf(rs[i]);
    var k := UnclearHasOne(v, s.start, s.last);
    var b := s.blocks[k];
    x := Unmap(v, b.base);
    BlockInSource(s, b);
    MappedIsElsewhere(keys, ss, v, b, id, x);
    if s.start <= x <= s.last {
      ContainedTwice(keys, ss, id, k, x);
    }
  }

  /** A record that contains the image's first address has another piece there. */
  lemma ContainedTwice(keys: seq<StoreKey>, ss: seq<Source>, id: Word, k: nat, x: nat)
    requires IsStored(keys, ss) && AllKeys(keys) && 1 <= id <= |ss| && ValidSource(ss[id - 1])
    requires var s := ss[id - 1]; s == RangeSource(s.version, s.start, s.last) && s.start <= x <= s.last
    requires var s := ss[id - 1]; k < |s.blocks| && IsMapped(s.version, s.blocks[k].base) && x == Unmap(s.version, s.blocks[k].base)
    ensures !InMatchOrder(Matches(keys, ss[id - 1].version, x), ss, ss[id - 1].version, x)
  {
    var s, v := ss[id - 1], ss[id - 1].version;
    var j := BlockIndex(s, x);
    var b, c := s.blocks[k], s.blocks[j];
    BlockInSource(s, b);
    BlockInSource(s, c);
    PlainAncestor(v, c, x);
    if b.exp == c.exp {
      SameSizeIsImage(v, b, c, x);
    }
    NoTwins(v, s.start, s.last, k, j);
    StoredAround(keys, ss, v, b, id, x);
    StoredAround(keys, ss, v, c, id, x);
    ListedTwice(keys, ss, v, x, id, b.exp, c.exp);
  }

  lemma SameSizeIsImage(v: Version, b: Block, c: Block, x: nat)
    requires Aligned(b) && Aligned(c) && Has(c, x) && x == Unmap(v, b.base) && b.exp == c.exp
    ensures c == UnmapBlock(v, b)
  {
    OnlyBlockAt(c, x);
    UnmapAligned(v, b);
    OnlyBlockAt(UnmapBlock(v, b), x);
  }

  /** A list with an ID twice is in no order. */
  lemma NotTwiceInOrder(m: seq<Word>, ss: seq<Source>, v: Version, x: nat, i: nat, j: nat)
    requires ValidSources(ss) && i < j < |m| && m[i] == m[j]
    ensures !InMatchOrder(m, ss, v, x)
  {
  }

  lemma ListedTwice(keys: seq<StoreKey>, ss: seq<Source>, v: Version, x: nat, id: Word, e: nat, f: nat)
    requires AllKeys(keys) && ValidSources(ss) && e <= Width(v) && f <= Width(v) && e != f
    requires id in Group(keys, BlockKey(v, x, Width(v) - e)) && id in Group(keys, BlockKey(v, x, Width(v) - f))
    ensures !InMatchOrder(Matches(keys, v, x), ss, v, x)
  {
    var i, j;
    if e < f {
      i, j := CollectedTwice(keys, v, x, Width(v), Width(v) - e, Width(v) - f, id);
    } else {
      i, j := CollectedTwice(keys, v, x, Width(v), Width(v) - f, Width(v) - e, id);
    }
    NotTwiceInOrder(Matches(keys, v, x), ss, v, x, i, j);
  }

  /** Point queries at addresses that are not mapped are right exactly when every IPv6 record keeps
      clear of ::ffff:0:0/96 or goes around it in one piece. */
  lemma PointQueriesExactIff(keys: seq<StoreKey>, rs: seq<Bounds>)
    requires AllBounds(rs) && IsStored(keys, SourcesOf(rs)) && AllKeys(keys)
    ensures PointQueriesExact(keys, SourcesOf(rs)) <==> AllClear(rs)
  {
    var ss := SourcesOf(rs);
    if AllClear(rs) {
      ClearSources(rs);
      forall v, x: nat | x < Pow2(Width(v)) && !IsMapped(v, x)
        ensures InMatchOrder(Matches(keys, v, x), ss, v, x)
      {
        PointQueryIsExact(keys, ss, v, x);
      }
    } else {
      var i :| 0 <= i < |rs| && !IsClear(rs[i].version, Num(rs[i].start, rs[i].version), Num(rs[i].end, rs[i].version));
      var v, x := UnclearSpoils(keys, rs, i);
    }
  }

  // ---------- point queries at mapped addresses ----------

  /** Prefixes of 96 bits and more of a mapped address are those of its image; shorter ones are its
      own. */
  ghost predicate SmallHit(ss: seq<Source>, x: nat, id: nat)
    requires ValidSources(ss)
  {
    IsHit(ss, V6, Unmap(V6, x), id) && ExpAt(ss[id - 1], Unmap(V6, x)) <= 32
  }

  ghost predicate LargeHit(ss: seq<Source>, x: nat, id: nat)
    requires ValidSources(ss)
  {
    IsHit(ss, V6, x, id) && ExpAt(ss[id - 1], x) > 32
  }

  /** The records that a query at a mapped address lists, and the size of the block it finds each
      in. */
  ghost function MappedSizes(ss: seq<Source>, x: nat): map<nat, nat>
    requires ValidSources(ss)
  {
    map id: nat | 1 <= id <= |ss| && (SmallHit(ss, x, id) || LargeHit(ss, x, id)) ::
      if SmallHit(ss, x, id) then ExpAt(ss[id - 1], Unmap(V6, x)) else ExpAt(ss[id - 1], x)
  }

  ghost predicate OneBlockEach(ss: seq<Source>) {
    forall i :: 0 <= i < |ss| ==> |ss[i].blocks| == 1
  }

  lemma NotBothHits(ss: seq<Source>, x: nat, id: nat)
    requires ValidSources(ss) && OneBlockEach(ss) && SmallHit(ss, x, id)
    ensures !LargeHit(ss, x, id)
  {
  }

  /** The block of a size around a mapped address is sought as that around its image, up to 2^32
      addresses, and as it is beyond. */
  lemma MappedAncestor(x: nat, e: nat)
    requires IsMapped(V6, x) && e <= 128
    ensures e <= 32 ==> StoredKey(V6, BlockAt(x, e)) == PrefixKey(V6, BlockAt(Unmap(V6, x), e))
    ensures e > 32 ==> StoredKey(V6, BlockAt(x, e)) == PrefixKey(V6, BlockAt(x, e))
  {
    var b := BlockAt(x, e);
    BlockAtHas(x, e);
    MappedBlocks();
    if e <= 32 {
      Nested(b, MAPPED_BLOCK, x);
      UnmapAligned(V6, b);
      OnlyBlockAt(UnmapBlock(V6, b), Unmap(V6, x));
    } else if IsMapped(V6, b.base) {
      MappedWithin(V6, b);
    }
  }

  /** The size of a record around a mapped address: that of its block around the image, up to 2^32
      addresses, or around the address itself. */
  lemma SizeIsHit(ss: seq<Source>, x: nat, e: nat, id: nat)
    requires ValidSources(ss) && OneBlockEach(ss)
    ensures id in MappedSizes(ss, x) && MappedSizes(ss, x)[id] == e <==>
      if e <= 32 then IsHit(ss, V6, Unmap(V6, x), id) && ExpAt(ss[id - 1], Unmap(V6, x)) == e
      else IsHit(ss, V6, x, id) && ExpAt(ss[id - 1], x) == e
  {
    if SmallHit(ss, x, id) {
      NotBothHits(ss, x, id);
    }
  }

  lemma MappedGroup(keys: seq<StoreKey>, ss: seq<Source>, x: nat, e: nat, id: nat)
    requires IsIndex(keys, ss) && AllKeys(keys) && OneBlockEach(ss) && IsMapped(V6, x) && e <= 128
    ensures id in Group(keys, BlockKey(V6, x, 128 - e)) <==> id in MappedSizes(ss, x) && MappedSizes(ss, x)[id] == e
  {
    MappedFits(x);
    MappedAncestor(x, e);
    if e <= 32 {
      GroupOfSize(keys, ss, V6, Unmap(V6, x), e, id);
    } else {
      GroupOfSize(keys, ss, V6, x, e, id);
    }
    SizeIsHit(ss, x, e, id);
  }

  lemma MappedFits(x: nat)
    requires IsMapped(V6, x)
    ensures x < Pow2(128)
  {
    Pow2Of32();
    Pow2Add(32, 32);
    Pow2Add(64, 64);
  }

  /** ids lists every record of size at least e, by size and then by ID. */
  ghost predicate InSizeOrder(ids: seq<nat>, sizes: map<nat, nat>, e: int) {
    && (forall id :: id in ids <==> id in sizes && sizes[id] >= e)
    && (forall i :: 0 <= i < |ids| ==> ids[i] in sizes)
    && (forall i, j :: 0 <= i < j < |ids| ==> sizes[ids[i]] < sizes[ids[j]] || (sizes[ids[i]] == sizes[ids[j]] && ids[i] < ids[j]))
  }

  lemma SizeOrderExtends(group: seq<nat>, rest: seq<nat>, sizes: map<nat, nat>, e: int)
    requires Ascending(group) && InSizeOrder(rest, sizes, e + 1) && forall id :: id in group <==> id in sizes && sizes[id] == e
    ensures true == InSizeOrder(group + rest, sizes, e)
  {
    var ids := group + rest;
    forall i | 0 <= i < |ids|
      ensures ids[i] in sizes && (if i < |group| then sizes[ids[i]] == e else sizes[ids[i]] > e)
    {
      if i < |group| {
        assert group[i] in group;
      } else {
        assert rest[i - |group|] in rest;
      }
    }
  }

  lemma {:induction false} MappedInOrder(keys: seq<StoreKey>, ss: seq<Source>, x: nat, length: int)
    requires IsIndex(keys, ss) && AllKeys(keys) && OneBlockEach(ss) && IsMapped(V6, x) && -1 <= length <= 128
    ensures true == InSizeOrder(MatchesFrom(keys, V6, x, length), MappedSizes(ss, x), 128 - length)
    decreases length + 1
  {
    var sizes := MappedSizes(ss, x);
    if length >= 0 {
      var base := BlockKey(V6, x, length);
      MappedInOrder(keys, ss, x, length - 1);
      GroupAscends(keys, base, |keys|);
      forall id: nat
        ensures id in Group(keys, base) <==> id in sizes && sizes[id] == 128 - length
      {
        MappedGroup(keys, ss, x, 128 - length, id);
      }
      SizeOrderExtends(Group(keys, base), MatchesFrom(keys, V6, x, length - 1), sizes, 128 - length);
    }
  }

  /** A point query at a mapped address lists the routes around its image from 96 bits on and the
      routes around itself up to 95 bits, longest first. */
  lemma MappedQueryIsExact(keys: seq<StoreKey>, ss: seq<Source>, x: nat)
    requires IsIndex(keys, ss) && AllKeys(keys) && OneBlockEach(ss) && IsMapped(V6, x)
    ensures true == InSizeOrder(Matches(keys, V6, x), MappedSizes(ss, x), 0)
  {
    MappedInOrder(keys, ss, x, 128);
  }
}
