/** From source records to answers: what the build writes is what the lookups read. */
module Answers {
  import opened Bytes
  import opened Words
  import opened Addresses
  import opened Cover
  import opened Sources
  import opened Mapped
  import opened PointIndex
  import opened IndexWriter
  import opened MappedIndex
  import opened Lookup
  import opened MappedLookup
  import opened RangePages
  import RouteSelector
  import RangeSelector

  // ---------- routes ----------

  function LengthsOf(ps: seq<Cidr>): (lengths: seq<nat>)
    ensures |lengths| == |ps| && forall i :: 0 <= i < |ps| ==> lengths[i] == ps[i].length
  {
    seq(|ps|, i requires 0 <= i < |ps| => ps[i].length)
  }

  /** The address starts with the route's bits. */
  predicate Covers(p: Cidr, v: Version, a: Address)
    requires ValidCidr(p)
  {
    p.version == v && Key(p.address, v, p.length) <= Key(a, v, Width(v))
  }

  ghost predicate IsLongestRoute(ps: seq<Cidr>, v: Version, a: Address, id: nat)
    requires AllRoutes(ps)
  {
    && 1 <= id <= |ps| && Covers(ps[id - 1], v, a)
    && forall i :: 0 <= i < |ps| && Covers(ps[i], v, a) ==> ps[i].length <= ps[id - 1].length
  }

  /** What a scan over the routes would answer: those with the longest prefix around the
      address, in the order of their IDs, cut to 64. */
  ghost predicate IsRouteAnswer(routes: seq<Route>, longest: seq<Word>, ps: seq<Cidr>, v: Version, a: Address)
    requires AllRoutes(ps)
  {
    && Ascending(longest) && (forall id :: id in longest <==> IsLongestRoute(ps, v, a, id))
    && (forall i :: 0 <= i < |longest| ==> 1 <= longest[i] <= |ps|)
    && |routes| == (if |longest| <= 64 then |longest| else 64)
    && forall i :: 0 <= i < |routes| ==> routes[i].id == longest[i] && routes[i].length == ps[longest[i] - 1].length
  }

  ghost predicate AreTheRoutes(routes: seq<Route>, ps: seq<Cidr>, v: Version, a: Address)
    requires AllRoutes(ps)
  {
    exists longest: seq<Word> :: IsRouteAnswer(routes, longest, ps, v, a)
  }

  lemma RoutesAreRoutes(ps: seq<Cidr>)
    requires AllRoutes(ps)
    ensures AreRoutes(LengthsOf(ps), RouteSources(ps))
  {
  }

  lemma CoversIsBlock(p: Cidr, a: Address)
    requires ValidCidr(p)
    ensures Has(RouteBlock(p), Num(a, p.version)) <==> Covers(p, p.version, a)
  {
    var v := p.version;
    NumIsKeyValue(a, v);
    KeyValue(p.address, v, p.length);
    PrefixIsBlock(Key(p.address, v, p.length), Key(a, v, Width(v)), Width(v) - p.length, RouteBlock(p).base);
  }

  lemma CoversIsHit(ps: seq<Cidr>, v: Version, a: Address, id: nat)
    requires AllRoutes(ps) && 1 <= id <= |ps|
    ensures IsHit(RouteSources(ps), v, Num(a, v), id) <==> Covers(ps[id - 1], v, a)
  {
    if ps[id - 1].version == v {
      CoversIsBlock(ps[id - 1], a);
    }
  }

  /** What the index makes of the route with an ID, if there is one. */
  lemma RouteIsHit(ps: seq<Cidr>, v: Version, a: Address, id: nat)
    requires AllRoutes(ps)
    ensures IsHit(RouteSources(ps), v, Num(a, v), id) <==> 1 <= id <= |ps| && Covers(ps[id - 1], v, a)
    ensures IsHit(RouteSources(ps), v, Num(a, v), id) ==> ps[id - 1].length + ExpAt(RouteSources(ps)[id - 1], Num(a, v)) == Width(v)
  {
    if 1 <= id <= |ps| {
      CoversIsHit(ps, v, a, id);
      RoutesAreRoutes(ps);
      if IsHit(RouteSources(ps), v, Num(a, v), id) {
        RouteLength(LengthsOf(ps), RouteSources(ps), v, Num(a, v), id);
      }
    }
  }

  lemma LongestIsLongest(ps: seq<Cidr>, v: Version, a: Address, id: nat)
    requires AllRoutes(ps)
    ensures IsLongestHit(RouteSources(ps), v, Num(a, v), id) <==> IsLongestRoute(ps, v, a, id)
  {
    var ss, x := RouteSources(ps), Num(a, v);
    RouteIsHit(ps, v, a, id);
    if IsLongestRoute(ps, v, a, id) {
      forall other | IsHit(ss, v, x, other)
        ensures ExpAt(ss[id - 1], x) <= ExpAt(ss[other - 1], x)
      {
        RouteIsHit(ps, v, a, other);
      }
    }
    if IsLongestHit(ss, v, x, id) {
      forall i | 0 <= i < |ps| && Covers(ps[i], v, a)
        ensures ps[i].length <= ps[id - 1].length
      {
        RouteIsHit(ps, v, a, i + 1);
      }
    }
  }

  lemma SelectedIsAnswer(routes: seq<Route>, ps: seq<Cidr>, v: Version, a: Address)
    requires AllRoutes(ps) && IsSelected(routes, LengthsOf(ps), RouteSources(ps), v, Num(a, v))
    ensures AreTheRoutes(routes, ps, v, a)
  {
    var longest: seq<Word> :| IsRouteSelection(routes, longest, LengthsOf(ps), RouteSources(ps), v, Num(a, v));
    forall id
      ensures id in longest <==> IsLongestRoute(ps, v, a, id)
    {
      LongestIsLongest(ps, v, a, id);
    }
    assert IsRouteAnswer(routes, longest, ps, v, a);
  }

  /** When both forms see the same routes around an address. For one that is not IPv4-mapped they
      always do; the compact form looks a mapped one up as its image, the full form only by the
      prefixes of 96 bits and more. */
  ghost predicate FormsSeeAlike(ps: seq<Cidr>, v: Version, a: Address)
    requires AllRoutes(ps)
  {
    || !IsMapped(v, Num(a, v))
    || (exists i :: 0 <= i < |ps| && ps[i].length >= 96 && Covers(ps[i], v, Unmapped(a, v)))
    || (forall i :: 0 <= i < |ps| && 81 <= ps[i].length <= 95 ==> !Covers(ps[i], v, a) && !Covers(ps[i], v, Unmapped(a, v)))
  }

  lemma SeeAlikeIsAgree(ps: seq<Cidr>, a: Address)
    requires AllRoutes(ps) && IsMapped(V6, Num(a, V6))
    ensures FormsSeeAlike(ps, V6, a) <==> AgreeAt(RouteSources(ps), Num(a, V6))
  {
    var ss, x, u := RouteSources(ps), Num(a, V6), Unmapped(a, V6);
    UnmappedNum(a, V6);
    forall id: nat
      ensures SmallHit(ss, x, id) <==> 1 <= id <= |ps| && ps[id - 1].length >= 96 && Covers(ps[id - 1], V6, u)
      ensures MiddleHit(ss, x, id) <==> 1 <= id <= |ps| && 81 <= ps[id - 1].length <= 95 && Covers(ps[id - 1], V6, a)
      ensures MiddleHit(ss, Unmap(V6, x), id) <==> 1 <= id <= |ps| && 81 <= ps[id - 1].length <= 95 && Covers(ps[id - 1], V6, u)
    {
      RouteIsHit(ps, V6, a, id);
      RouteIsHit(ps, V6, u, id);
    }
    SeeAlikeById(ps, a, x);
  }

  lemma SeeAlikeById(ps: seq<Cidr>, a: Address, x: nat)
    requires AllRoutes(ps) && x == Num(a, V6) && IsMapped(V6, x)
    requires forall id: nat :: SmallHit(RouteSources(ps), x, id) <==>
      1 <= id <= |ps| && ps[id - 1].length >= 96 && Covers(ps[id - 1], V6, Unmapped(a, V6))
    requires forall id: nat :: MiddleHit(RouteSources(ps), x, id) <==>
      1 <= id <= |ps| && 81 <= ps[id - 1].length <= 95 && Covers(ps[id - 1], V6, a)
    requires forall id: nat :: MiddleHit(RouteSources(ps), Unmap(V6, x), id) <==>
      1 <= id <= |ps| && 81 <= ps[id - 1].length <= 95 && Covers(ps[id - 1], V6, Unmapped(a, V6))
    ensures FormsSeeAlike(ps, V6, a) <==> AgreeAt(RouteSources(ps), x)
  {
    var ss := RouteSources(ps);
    if FormsSeeAlike(ps, V6, a) {
      if i :| 0 <= i < |ps| && ps[i].length >= 96 && Covers(ps[i], V6, Unmapped(a, V6)) {
        assert SmallHit(ss, x, i + 1);
      }
    } else {
      var i :| 0 <= i < |ps| && 81 <= ps[i].length <= 95 && (Covers(ps[i], V6, a) || Covers(ps[i], V6, Unmapped(a, V6)));
      assert MiddleHit(ss, x, i + 1) || MiddleHit(ss, Unmap(V6, x), i + 1);
      forall id: nat
        ensures !SmallHit(ss, x, id)
      {
        assert 1 <= id <= |ps| ==> !(ps[id - 1].length >= 96 && Covers(ps[id - 1], V6, Unmapped(a, V6)));
      }
    }
  }

  /** One route of 90 bits, ::/90, and the address ::ffff:0:0: the compact form selects the route and
      the full form, which looks for ::ffc0:0:0/90, does not. */
  lemma MappedRoutesPart() returns (ps: seq<Cidr>, a: Address)
    ensures |ps| == 1 && ps[0] == Cidr(V6, ZERO_ADDRESS, 90) && a == MAPPED_HEAD + [0, 0, 0, 0]
    ensures AllRoutes(ps) && Canonical(a, V6) && !FormsSeeAlike(ps, V6, a)
  {
    ps, a := [Cidr(V6, ZERO_ADDRESS, 90)], MAPPED_HEAD + [0, 0, 0, 0];
    assert Tail(ZERO_ADDRESS, V6) == ZERO_ADDRESS && Unmapped(a, V6) == ZERO_ADDRESS;
    ZeroBytes(ZERO_ADDRESS);
    BlockAtHas(0, 38);
    UnmappedNum(a, V6);
    assert a[10] == 255 && ZERO_ADDRESS[10] == 0;
    KeyTake(ZERO_ADDRESS, V6, 128, 90);
    assert Covers(ps[0], V6, Unmapped(a, V6));
  }

  /** Routes from records to answers: the index is built, the selector is written, and an address
      is looked up in both. The compact answer is the scan's around the unmapped address, the full
      one is the same exactly when both forms see alike, and only a full node table leaves the
      selector out, never the number of IDs. */
  method AnswerRoutes(ps: seq<Cidr>, v: Version, a: Address)
    returns (compact: Option<seq<Route>>, full: seq<Route>)
    requires AllRoutes(ps) && Canonical(a, v)
    ensures compact.Some? ==> AreTheRoutes(compact.value, ps, v, Unmapped(a, v))
    ensures compact.Some? ==> (compact.value == full <==> FormsSeeAlike(ps, v, a))
    ensures Plain(a, v) ==> Unmapped(a, v) == a && AreTheRoutes(full, ps, v, a)
    ensures compact.None? ==> 2 * |ps| + 1 > MAX_UINT32
  {
    ghost var ss := RouteSources(ps);
    var lengths := LengthsOf(ps);
    var keys := IndexRoutes(ps);
    IndexKeysSized(keys, ss);
    RouteSelector.IndexIsFamily(keys, ss, v);
    RouteKeysAreFew(keys, ps);
    RoutesAreRoutes(ps);
    UnmappedNum(a, v);
    full := FullRoutes(keys, lengths, a, v, ss);
    if Plain(a, v) {
      SelectedIsAnswer(full, ps, v, a);
    }
    compact := None;
    var written := RouteSelector.WriteRouteLPM(keys, v, ss);
    if written.Selector? {
      var routes := CompactRoutes(written.value, lengths, a, v, keys, ss);
      SelectedIsAnswer(routes, ps, v, Unmapped(a, v));
      FormsCompared(ps, v, a, routes, full);
      compact := Some(routes);
    }
  }

  lemma FormsCompared(ps: seq<Cidr>, v: Version, a: Address, compact: seq<Route>, full: seq<Route>)
    requires AllRoutes(ps) && Canonical(a, v) && AreRoutes(LengthsOf(ps), RouteSources(ps))
    requires IsSelected(compact, LengthsOf(ps), RouteSources(ps), v, Num(Unmapped(a, v), v))
    requires IsLeastSelection(full, LengthsOf(ps), QuerySizes(RouteSources(ps), v, Num(a, v)))
    ensures compact == full <==> FormsSeeAlike(ps, v, a)
  {
    var ss, x := RouteSources(ps), Num(a, v);
    UnmappedNum(a, v);
    if IsMapped(v, x) {
      MappedFormsAgree(LengthsOf(ps), ss, x, compact, full);
      SeeAlikeIsAgree(ps, a);
    } else {
      LeastIsSelected(full, LengthsOf(ps), ss, v, x);
      SameRoutes(compact, full, LengthsOf(ps), ss, v, x);
    }
  }

  // ---------- allocations and geofeeds ----------

  lemma FullPickIsRecord(m: seq<Word>, rs: seq<Bounds>, full: Option<Selected>)
    requires IsFullPick(m, rs, full) && full.Some?
    ensures 1 <= full.value.id <= |rs| && full.value.record == rs[full.value.id - 1]
  {
    PickIsRecord(rs, Limited(m, 64), full);
  }

  lemma PickIsRecord(rs: seq<Bounds>, ids: seq<Word>, best: Option<Selected>)
    requires AllNumbered(ids, |rs|) && IsFirstNarrowest(ReadBounds(rs, ids), best) && best.Some?
    ensures 1 <= best.value.id <= |rs| && best.value.record == rs[best.value.id - 1]
  {
    var i := PickPosition(ReadBounds(rs, ids), best);
    assert ReadBounds(rs, ids)[i] == Selected(ids[i], rs[ids[i] - 1]);
  }

  lemma PickPosition(values: seq<Selected>, best: Option<Selected>) returns (i: nat)
    requires IsFirstNarrowest(values, best) && best.Some?
    ensures i < |values| && values[i] == best.value
  {
    i :| 0 <= i < |values| && values[i] == best.value && FirstLeast(Widths(values), i);
  }

  ghost predicate IsRecordOf(best: Option<Selected>, rs: seq<Bounds>) {
    best.Some? ==> 1 <= best.value.id <= |rs| && best.value.record == rs[best.value.id - 1]
  }

  lemma AllRead(m: seq<Word>, rs: seq<Bounds>, full: Option<Selected>)
    requires IsFullPick(m, rs, full)
    ensures AllNumbered(m, |WidthsById(rs)|)
  {
  }

  lemma PicksCompared(m: seq<Word>, rs: seq<Bounds>, v: Version, x: nat, full: Option<Selected>, narrowest: Option<Selected>)
    requires AllBounds(rs) && AreRecords(rs, SourcesOf(rs)) && InMatchOrder(m, SourcesOf(rs), v, x) && IsFullPick(m, rs, full)
    requires RangeSelector.IsNarrowest(SourcesOf(rs), v, x, SelectedId(narrowest)) && IsRecordOf(narrowest, rs)
    ensures AllNumbered(m, |WidthsById(rs)|) && (narrowest == full <==> FrontSuffices(m, WidthsById(rs)))
  {
    AllocationsAgree(m, rs, SourcesOf(rs), v, x, full, SelectedId(narrowest));
    SameById(m, rs, full, narrowest);
  }

  lemma SameById(m: seq<Word>, rs: seq<Bounds>, full: Option<Selected>, narrowest: Option<Selected>)
    requires true == IsFullPick(m, rs, full) && IsRecordOf(narrowest, rs)
    ensures narrowest == full ==> SelectedId(narrowest) == SelectedId(full)
    ensures SelectedId(narrowest) == SelectedId(full) ==> narrowest == full
  {
    if full.Some? {
      FullPickIsRecord(m, rs, full);
    }
  }

  /** The record's range has the address. */
  ghost predicate HasAddress(r: Bounds, v: Version, x: nat) {
    r.version == v && Num(r.start, v) <= x <= Num(r.end, v)
  }

  ghost function Containing(rs: seq<Bounds>, v: Version, x: nat): set<int> {
    set id | 1 <= id <= |rs| && IsAround(rs, v, x, id)
  }

  ghost predicate IsAround(rs: seq<Bounds>, v: Version, x: nat, id: int) {
    1 <= id <= |rs| && HasAddress(rs[id - 1], v, x)
  }

  /** A record around the address, and none around it is narrower; nothing when there is none. */
  ghost predicate IsNarrowestRecord(best: Option<Selected>, rs: seq<Bounds>, v: Version, x: nat) {
    match best
    case None => Containing(rs, v, x) == {}
    case Some(b) =>
      && 1 <= b.id <= |rs| && b.record == rs[b.id - 1] && HasAddress(b.record, v, x)
      && forall id :: id in Containing(rs, v, x) ==> Num(b.record.end, v) - Num(b.record.start, v) <= Num(rs[id - 1].end, v) - Num(rs[id - 1].start, v)
  }

  lemma HitHasAddress(rs: seq<Bounds>, ss: seq<Source>, v: Version, x: nat, id: nat)
    requires AreRecords(rs, ss)
    ensures IsHit(ss, v, x, id) <==> 1 <= id <= |rs| && HasAddress(rs[id - 1], v, x)
  {
    assert 1 <= id <= |rs| ==> Spans(ss[id - 1], rs[id - 1]);
  }

  lemma NarrowestIsRecord(best: Option<Selected>, rs: seq<Bounds>, ss: seq<Source>, v: Version, x: nat)
    requires AreRecords(rs, ss) && IsRecordOf(best, rs) && RangeSelector.IsNarrowest(ss, v, x, SelectedId(best))
    ensures IsNarrowestRecord(best, rs, v, x)
  {
    forall id: nat
      ensures IsHit(ss, v, x, id) <==> id in Containing(rs, v, x)
    {
      HitHasAddress(rs, ss, v, x, id);
    }
    if best.Some? {
      forall id | id in Containing(rs, v, x)
        ensures Num(best.value.record.end, v) - Num(best.value.record.start, v) <= Num(rs[id - 1].end, v) - Num(rs[id - 1].start, v)
      {
        NoneIsNarrower(best.value, rs, ss, v, x, id);
      }
    }
  }

  lemma NoneIsNarrower(best: Selected, rs: seq<Bounds>, ss: seq<Source>, v: Version, x: nat, id: nat)
    requires AreRecords(rs, ss) && RangeSelector.IsNarrowest(ss, v, x, best.id) && best.id != 0 && IsHit(ss, v, x, id)
    requires 1 <= best.id <= |rs| && best.record == rs[best.id - 1]
    ensures Num(best.record.end, v) - Num(best.record.start, v) <= Num(rs[id - 1].end, v) - Num(rs[id - 1].start, v)
  {
    assert Spans(ss[id - 1], rs[id - 1]) && Spans(ss[best.id - 1], best.record);
  }

  /** As many matches as there are records around the address. */
  lemma MatchesAreContaining(m: seq<Word>, rs: seq<Bounds>, v: Version, x: nat)
    requires AllBounds(rs) && AreRecords(rs, SourcesOf(rs)) && InMatchOrder(m, SourcesOf(rs), v, x)
    ensures |m| == |Containing(rs, v, x)|
  {
    forall id: int
      ensures id in Containing(rs, v, x) <==> 0 <= id <= MAX_UINT32 && id in m
    {
      if id >= 0 {
        HitHasAddress(rs, SourcesOf(rs), v, x, id);
      }
    }
    forall i, j | 0 <= i < j < |m|
      ensures m[i] != m[j]
    {
      assert Before(SourcesOf(rs), v, x, m[i], m[j]);
    }
    DistinctCount(m, Containing(rs, v, x));
  }

  /** Allocations (or geofeeds) from records to answers. The compact answer is the narrowest of
      all records around the unmapped address. For an address that is not mapped the full one is
      the same record exactly when no match behind the first 64 is narrower than all of those. */
  method AnswerAllocation(rs: seq<Bounds>, v: Version, a: Address)
    returns (compact: Option<Option<Selected>>, full: Option<Selected>, ghost m: seq<Word>)
    requires AllBounds(rs) && AllClear(rs) && Canonical(a, v)
    ensures Plain(a, v) ==> true == InMatchOrder(m, SourcesOf(rs), v, Num(a, v))
    ensures AllNumbered(m, |WidthsById(rs)|) && true == IsFullPick(m, rs, full)
    ensures compact.Some? ==> true == RangeSelector.IsNarrowest(SourcesOf(rs), v, Num(Unmapped(a, v), v), SelectedId(compact.value))
    ensures compact.Some? ==> IsNarrowestRecord(compact.value, rs, v, Num(Unmapped(a, v), v))
    ensures compact.Some? && Plain(a, v) ==> (compact.value == full <==> FrontSuffices(m, WidthsById(rs)))
    ensures compact.Some? && Plain(a, v) && |Containing(rs, v, Num(a, v))| <= 64 ==> compact.value == full
    ensures compact.None? ==> 2 * RangeSelector.PieceCount(SourcesOf(rs), v, |rs|) + 1 > MAX_UINT32 && 508 * |rs| + 1 > 0xFFFF_FFFF
  {
    RangeSelector.PiecesAreFew(rs, v, |rs|);
    ghost var ss := SourcesOf(rs);
    SourcesOfRecords(rs);
    var keys := IndexRanges(rs);
    IndexKeysSized(keys, ss);
    UnmappedNum(a, v);
    full := FullAllocation(keys, rs, a, v, ss);
    m := Matches(keys, v, Num(a, v));
    AllRead(m, rs, full);
    compact := None;
    var written := RangeSelector.WriteSelectionLPM(rs, v);
    if written.Some? {
      var narrowest := CompactAllocation(written.value, rs, a, v, ss);
      NarrowestIsRecord(narrowest, rs, ss, v, Num(Unmapped(a, v), v));
      if Plain(a, v) {
        MatchesAreContaining(m, rs, v, Num(a, v));
        PicksCompared(m, rs, v, Num(a, v), full, narrowest);
      }
      compact := Some(narrowest);
    }
  }

  // ---------- range pages ----------

  /** A range query from records to the last page: both indexes are built, and a client follows
      the cursors. */
  method AnswerRange(rs: seq<Bounds>, q: Query, limit: nat) returns (all: seq<StoreKey>, pages: nat)
    requires AllBounds(rs) && ValidQuery(q) && limit >= 1
    ensures true == IsListing(all, rs, q)
    ensures pages == 1 || (pages > 1 && (pages - 1) * limit < |all|)
    ensures |all| <= pages * limit
  {
    ghost var ss := SourcesOf(rs);
    SourcesOfRecords(rs);
    var points := IndexRanges(rs);
    IndexKeysSized(points, ss);
    var keys := IndexBounds(rs);
    var cov := CoveringEntries(points, rs, q.lo, q.version, ss);
    all, pages := ListRange(points, keys, rs, q, limit, ss, cov);
  }
}
