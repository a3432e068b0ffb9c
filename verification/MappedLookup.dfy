/** The two forms of route lookup at IPv4-mapped addresses. The compact form looks the image of the
    address up; the full form seeks prefixes of 96 bits and more around the image, and shorter ones
    around the address itself. */
module MappedLookup {
  import opened Bytes
  import opened Words
  import opened Addresses
  import opened Cover
  import opened Sources
  import opened Mapped
  import opened PointIndex
  import opened MappedIndex
  import opened Lookup

  /** A route of 81 to 95 bits around the address. */
  ghost predicate MiddleHit(ss: seq<Source>, x: nat, id: nat)
    requires ValidSources(ss)
  {
    IsHit(ss, V6, x, id) && 32 < ExpAt(ss[id - 1], x) < 48
  }

  ghost predicate AgreeAt(ss: seq<Source>, x: nat)
    requires ValidSources(ss)
  {
    || (exists id: nat :: SmallHit(ss, x, id))
    || (forall id: nat :: !MiddleHit(ss, x, id) && !MiddleHit(ss, Unmap(V6, x), id))
  }

  // ---------- blocks around an address and its image ----------

  lemma RouteHit(ss: seq<Source>, x: nat, id: nat)
    requires ValidSources(ss) && OneBlockEach(ss) && 1 <= id <= |ss| && ss[id - 1].version == V6
    ensures ValidSource(ss[id - 1]) && Aligned(ss[id - 1].blocks[0])
    ensures IsHit(ss, V6, x, id) <==> Has(ss[id - 1].blocks[0], x)
    ensures IsHit(ss, V6, x, id) ==> ExpAt(ss[id - 1], x) == ss[id - 1].blocks[0].exp
  {
    var s := ss[id - 1];
    assert ValidSource(s);
    TilesCover(s.blocks, s.start, s.last, x);
    if Has(s.blocks[0], x) {
      BlockThroughHit(s, x, s.blocks[0]);
    }
  }

  lemma MappedNumbers(x: nat)
    requires IsMapped(V6, x)
    ensures Pow2(32) == 0x1_0000_0000 && Pow2(47) == 0x8000_0000_0000 && Pow2(48) == 0x1_0000_0000_0000
    ensures Unmap(V6, x) < Pow2(32) && Pow2(47) <= x < Pow2(48)
  {
    Pow2Of32();
    Pow2Add(32, 16);
    Pow2Add(32, 15);
    assert Pow2(16) == 0x1_0000 && Pow2(15) == 0x8000;
  }

  /** A block of 2^48 addresses or more has both or neither. */
  lemma LargeHasBoth(b: Block, x: nat)
    requires Aligned(b) && b.exp >= 48 && IsMapped(V6, x)
    ensures Has(b, x) <==> Has(b, Unmap(V6, x))
  {
    var low := Block(0, 48);
    MappedNumbers(x);
    if Has(b, x) {
      Nested(low, b, x);
    }
    if Has(b, Unmap(V6, x)) {
      Nested(low, b, Unmap(V6, x));
    }
  }

  /** A smaller one does not have both. */
  lemma MiddleHasOne(b: Block, x: nat)
    requires Aligned(b) && b.exp < 48 && IsMapped(V6, x) && Has(b, Unmap(V6, x))
    ensures !Has(b, x)
  {
    var low := Block(0, 47);
    MappedNumbers(x);
    Nested(b, low, Unmap(V6, x));
  }

  lemma LargeAlike(ss: seq<Source>, x: nat, id: nat)
    requires ValidSources(ss) && OneBlockEach(ss) && IsMapped(V6, x)
    ensures var y := Unmap(V6, x);
      (IsHit(ss, V6, x, id) && ExpAt(ss[id - 1], x) >= 48) <==> (IsHit(ss, V6, y, id) && ExpAt(ss[id - 1], y) >= 48)
    ensures var y := Unmap(V6, x); IsHit(ss, V6, x, id) && IsHit(ss, V6, y, id) ==> ExpAt(ss[id - 1], x) == ExpAt(ss[id - 1], y) >= 48
  {
    if 1 <= id <= |ss| && ss[id - 1].version == V6 {
      var b := ss[id - 1].blocks[0];
      RouteHit(ss, x, id);
      RouteHit(ss, Unmap(V6, x), id);
      if b.exp >= 48 {
        LargeHasBoth(b, x);
      } else if Has(b, Unmap(V6, x)) {
        MiddleHasOne(b, x);
      }
    }
  }

  // ---------- least sizes ----------

  lemma {:induction false} SomeLeast(sizes: map<nat, nat>, id: nat) returns (least: nat)
    requires id in sizes
    ensures IsLeast(least, sizes) && sizes[least] <= sizes[id]
    decreases sizes[id]
  {
    if IsLeast(id, sizes) {
      least := id;
    } else {
      var other :| other in sizes && sizes[other] < sizes[id];
      least := SomeLeast(sizes, other);
    }
  }

  lemma SameLeast(a: seq<Route>, b: seq<Route>, lengths: seq<nat>, p: map<nat, nat>, q: map<nat, nat>)
    requires IsLeastSelection(a, lengths, p) && IsLeastSelection(b, lengths, q)
    requires forall id: nat :: IsLeast(id, p) <==> IsLeast(id, q)
    ensures a == b
  {
    var l: seq<Word> :| SelectsLeast(a, l, lengths, p);
    var m: seq<Word> :| SelectsLeast(b, m, lengths, q);
    AscendingUnique(l, m);
  }

  lemma ApartLeast(a: seq<Route>, b: seq<Route>, lengths: seq<nat>, p: map<nat, nat>, q: map<nat, nat>, some: nat)
    requires IsLeastSelection(a, lengths, p) && IsLeastSelection(b, lengths, q)
    requires IsLeast(some, p) && forall id: nat :: IsLeast(id, p) ==> !IsLeast(id, q)
    ensures a != b
  {
    var l: seq<Word> :| SelectsLeast(a, l, lengths, p);
    var m: seq<Word> :| SelectsLeast(b, m, lengths, q);
    assert some in l;
    FirstRead(a, l, lengths);
    if m != [] {
      FirstRead(b, m, lengths);
      assert l[0] in l && m[0] in m;
    }
  }

  lemma FirstRead(routes: seq<Route>, ids: seq<Word>, lengths: seq<nat>)
    requires ids != [] && (forall i :: 0 <= i < |ids| ==> 1 <= ids[i] <= |lengths|)
    requires routes == ReadRoutes(lengths, Limited(ids, MAX_CANDIDATES))
    ensures routes != [] && routes[0].id == ids[0]
  {
  }

  /** With a route of 96 bits or more both forms take the longest of those. */
  lemma SmallDecides(ss: seq<Source>, x: nat, small: nat, id: nat)
    requires ValidSources(ss) && OneBlockEach(ss) && IsMapped(V6, x) && SmallHit(ss, x, small)
    ensures IsLeast(id, HitSizes(ss, V6, Unmap(V6, x))) <==> IsLeast(id, MappedSizes(ss, x))
  {
    var p, q := HitSizes(ss, V6, Unmap(V6, x)), MappedSizes(ss, x);
    assert small in p && small in q && p[small] == q[small] <= 32;
    if IsLeast(id, p) {
      forall other | other in q
        ensures q[id] <= q[other]
      {
        assert SmallHit(ss, x, other) ==> other in p && p[other] == q[other];
      }
    }
    if IsLeast(id, q) {
      forall other | other in p
        ensures p[id] <= p[other]
      {
        assert SmallHit(ss, x, other) ==> other in q && p[other] == q[other];
      }
    }
  }

  /** Without routes of 81 bits and more they look at the same ones. */
  lemma OnlyLarge(ss: seq<Source>, x: nat)
    requires ValidSources(ss) && OneBlockEach(ss) && IsMapped(V6, x)
    requires forall id: nat :: !SmallHit(ss, x, id) && !MiddleHit(ss, x, id) && !MiddleHit(ss, Unmap(V6, x), id)
    ensures HitSizes(ss, V6, Unmap(V6, x)) == MappedSizes(ss, x)
  {
    var p, q := HitSizes(ss, V6, Unmap(V6, x)), MappedSizes(ss, x);
    forall id: nat
      ensures (id in p <==> id in q) && (id in p ==> p[id] == q[id])
    {
      LargeAlike(ss, x, id);
      assert !SmallHit(ss, x, id) && !MiddleHit(ss, x, id) && !MiddleHit(ss, Unmap(V6, x), id);
    }
  }

  /** A route of 81 to 95 bits, with none longer, is seen by one form and not by the other. */
  lemma MiddleParts(ss: seq<Source>, x: nat, id: nat)
    requires ValidSources(ss) && OneBlockEach(ss) && IsMapped(V6, x) && forall other: nat :: !SmallHit(ss, x, other)
    ensures var p, q := HitSizes(ss, V6, Unmap(V6, x)), MappedSizes(ss, x);
      id in p && id in q ==> p[id] == q[id] >= 48
  {
    LargeAlike(ss, x, id);
    assert !SmallHit(ss, x, id);
  }

  lemma OneFormMiddle(ss: seq<Source>, x: nat, middle: nat, compact: seq<Route>, full: seq<Route>, lengths: seq<nat>)
    requires AreRoutes(lengths, ss) && OneBlockEach(ss) && IsMapped(V6, x) && forall other: nat :: !SmallHit(ss, x, other)
    requires IsLeastSelection(compact, lengths, HitSizes(ss, V6, Unmap(V6, x))) && IsLeastSelection(full, lengths, MappedSizes(ss, x))
    requires MiddleHit(ss, x, middle) || MiddleHit(ss, Unmap(V6, x), middle)
    ensures compact != full
  {
    var p, q := HitSizes(ss, V6, Unmap(V6, x)), MappedSizes(ss, x);
    forall id: nat | id in p && id in q
      ensures p[id] == q[id] >= 48
    {
      MiddleParts(ss, x, id);
    }
    if MiddleHit(ss, Unmap(V6, x), middle) {
      assert middle in p && p[middle] < 48;
      var least := SomeLeast(p, middle);
      ApartLeast(compact, full, lengths, p, q, least);
    } else {
      assert middle in q && q[middle] < 48;
      var least := SomeLeast(q, middle);
      ApartLeast(full, compact, lengths, q, p, least);
    }
  }

  /** At a mapped address the two forms select the same routes exactly when some route of 96 bits or
      more is around its image, or none of 81 to 95 bits is around the address or its image. */
  lemma MappedFormsAgree(lengths: seq<nat>, ss: seq<Source>, x: nat, compact: seq<Route>, full: seq<Route>)
    requires AreRoutes(lengths, ss) && IsMapped(V6, x)
    requires IsSelected(compact, lengths, ss, V6, Unmap(V6, x)) && IsLeastSelection(full, lengths, MappedSizes(ss, x))
    ensures compact == full <==> AgreeAt(ss, x)
  {
    var p, q := HitSizes(ss, V6, Unmap(V6, x)), MappedSizes(ss, x);
    RoutesHaveOneBlock(lengths, ss);
    LeastIsSelected(compact, lengths, ss, V6, Unmap(V6, x));
    if small: nat :| SmallHit(ss, x, small) {
      forall id: nat
        ensures IsLeast(id, p) <==> IsLeast(id, q)
      {
        SmallDecides(ss, x, small, id);
      }
      SameLeast(compact, full, lengths, p, q);
    } else if middle: nat :| MiddleHit(ss, x, middle) || MiddleHit(ss, Unmap(V6, x), middle) {
      OneFormMiddle(ss, x, middle, compact, full, lengths);
    } else {
      OnlyLarge(ss, x);
      SameLeast(compact, full, lengths, p, q);
    }
  }
}
