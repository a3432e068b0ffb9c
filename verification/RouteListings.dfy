/** Listings of routes from records to the last page: by prefix page and by range page. */
module RouteListings {
  import opened Bytes
  import opened Words
  import opened Addresses
  import opened Cover
  import opened Sources
  import opened PointIndex
  import opened IndexWriter
  import opened Overlap
  import opened RangePages
  import Paging

  /** The route's block meets the range of addresses. */
  ghost predicate RouteMeets(p: Cidr, v: Version, lo: nat, hi: nat)
    requires ValidCidr(p)
  {
    p.version == v && RouteBlock(p).base <= hi && lo < End(RouteBlock(p))
  }

  // ---------- prefix pages ----------

  /** The IDs of the records that meet a range, up to a record. */
  ghost function MeetingIds(ss: seq<Source>, v: Version, lo: nat, hi: nat, n: nat): (ids: seq<nat>)
    requires n <= |ss|
    ensures Ascending(ids) && forall id :: id in ids <==> 1 <= id <= n && Meets(ss[id - 1], v, lo, hi)
  {
    if n == 0 then [] else
      var rest := MeetingIds(ss, v, lo, hi, n - 1);
      assert forall i :: 0 <= i < |rest| ==> rest[i] in rest;
      if Meets(ss[n - 1], v, lo, hi) then rest + [n] else rest
  }

  /** What is still to come for a client that holds the cursor, or has finished. */
  function Left(all: seq<nat>, cursor: int, more: bool): seq<nat> {
    if more then Paging.Above(all, cursor) else []
  }

  function CursorOf(page: Paging.Page): int {
    if page.next.Some? then page.next.value else 0
  }

  /** After some pages the client has what is not to come, in full pages as long as more follow. */
  ghost predicate Listed(whole: seq<nat>, ids: seq<nat>, cursor: int, more: bool, pages: nat, limit: nat) {
    && whole == ids + Left(whole, cursor, more)
    && |ids| <= pages * limit && (pages > 1 ==> (pages - 1) * limit < |ids|)
    && (if more then |ids| == pages * limit && (pages > 0 ==> Left(whole, cursor, true) != []) else pages >= 1)
  }

  lemma PageTakes(all: seq<nat>, cursor: int, limit: nat)
    requires limit >= 1 && Ascending(all)
    ensures var page := Paging.PageAt(all, cursor, limit);
      && Left(all, cursor, true) == page.items + Left(all, CursorOf(page), page.next.Some?)
      && |page.items| <= limit && (page.next.Some? ==> |page.items| == limit && Left(all, CursorOf(page), true) != [])
  {
    if Paging.PageAt(all, cursor, limit).next.Some? {
      Paging.CursorResumes(all, cursor, limit);
    }
  }

  lemma PageListed(whole: seq<nat>, ids: seq<nat>, cursor: int, pages: nat, limit: nat)
    requires limit >= 1 && true == Ascending(whole) && true == Listed(whole, ids, cursor, true, pages, limit)
    ensures var page := Paging.PageAt(whole, cursor, limit);
      && true == Listed(whole, ids + page.items, CursorOf(page), page.next.Some?, pages + 1, limit)
      && (page.next.Some? ==> |Left(whole, CursorOf(page), true)| < |Left(whole, cursor, true)|)
  {
    var page := Paging.PageAt(whole, cursor, limit);
    PageTakes(whole, cursor, limit);
    MultiplyNext(pages, limit);
    assert ids + (page.items + Left(whole, CursorOf(page), page.next.Some?)) == (ids + page.items) + Left(whole, CursorOf(page), page.next.Some?);
    assert pages > 0 ==> page.items != [];
  }

  lemma NothingBelow(all: seq<nat>)
    requires forall id :: id in all ==> id > 0
    ensures Paging.Above(all, 0) == all
  {
    assert all != [] ==> all[0] in all;
  }

  /** The query reads more keys than one may. */
  ghost predicate IsTooBroad(keys: seq<StoreKey>, start: Address, end: Address, v: Version)
    requires AllKeys(keys)
  {
    |Matches(keys, v, Num(start, v)) + Band(keys, v, Unmapped(start, v), Unmapped(end, v))| > 2_000_000
  }

  /** What a client needs to know of an index and of a query. */
  ghost predicate CanList(keys: seq<StoreKey>, start: Address, end: Address, v: Version, ss: seq<Source>, whole: seq<nat>) {
    && IsIndex(keys, ss) && Plain(start, v) && Plain(end, v) && Num(start, v) <= Num(end, v)
    && IsOverlap(whole, ss, v, Num(start, v), Num(end, v))
  }

  method PrefixPage(keys: seq<StoreKey>, start: Address, end: Address, v: Version, cursor: int, limit: nat,
                    ghost ss: seq<Source>, ghost whole: seq<nat>)
    returns (page: Option<Paging.Page>)
    requires AllKeys(keys) && limit >= 1 && true == CanList(keys, start, end, v, ss, whole)
    ensures page.None? <==> IsTooBroad(keys, start, end, v)
    ensures page.Some? ==> page.value == Paging.PageAt(whole, cursor, limit)
  {
    page := RoutesPage(keys, start, end, v, cursor, limit, ss, whole);
  }

  /** A client that follows the cursors of the prefix pages: it is refused on its first page, or it
      comes to an end with every record that meets the range, once and in ascending order, in full
      pages but for the last. */
  method ListPrefix(keys: seq<StoreKey>, start: Address, end: Address, v: Version, limit: nat, ghost ss: seq<Source>, ghost whole: seq<nat>)
    returns (all: Option<seq<nat>>, pages: nat)
    requires AllKeys(keys) && limit >= 1 && true == CanList(keys, start, end, v, ss, whole)
    ensures all.None? <==> IsTooBroad(keys, start, end, v)
    ensures all.Some? ==> all.value == whole && |whole| <= pages * limit
    ensures all.Some? ==> pages == 1 || (pages > 1 && (pages - 1) * limit < |whole|)
  {
    var ids: seq<nat>, cursor, more := [], 0, true;
    pages := 0;
    ListStarts(keys, start, end, v, limit, ss, whole);
    while more
      invariant true == Listed(whole, ids, cursor, more, pages, limit)
      invariant pages > 0 ==> !IsTooBroad(keys, start, end, v)
      decreases more, |Left(whole, cursor, more)|
    {
      var page := PrefixPage(keys, start, end, v, cursor, limit, ss, whole);
      if page.None? {
        return None, pages;
      }
      PageListed(whole, ids, cursor, pages, limit);
      ids, cursor, more, pages := ids + page.value.items, CursorOf(page.value), page.value.next.Some?, pages + 1;
    }
    all := Some(ids);
    ListEnds(whole, ids, cursor, pages, limit);
  }

  lemma ListStarts(keys: seq<StoreKey>, start: Address, end: Address, v: Version, limit: nat, ss: seq<Source>, whole: seq<nat>)
    requires true == CanList(keys, start, end, v, ss, whole)
    ensures true == Ascending(whole) && true == Listed(whole, [], 0, true, 0, limit)
  {
    NothingBelow(whole);
  }

  lemma ListEnds(whole: seq<nat>, ids: seq<nat>, cursor: int, pages: nat, limit: nat)
    requires true == Listed(whole, ids, cursor, false, pages, limit)
    ensures ids == whole && |whole| <= pages * limit && (pages == 1 || (pages > 1 && (pages - 1) * limit < |whole|))
  {
  }

  ghost predicate IsAround(ps: seq<Cidr>, v: Version, x: nat, id: int)
    requires AllRoutes(ps)
  {
    1 <= id <= |ps| && ps[id - 1].version == v && Has(RouteBlock(ps[id - 1]), x)
  }

  ghost predicate Begins(ps: seq<Cidr>, v: Version, lo: nat, hi: nat, id: int)
    requires AllRoutes(ps)
  {
    1 <= id <= |ps| && ps[id - 1].version == v && lo <= RouteBlock(ps[id - 1]).base <= hi
  }

  /** The IDs of the routes around an address, and of those that begin in a range. */
  ghost function Around(ps: seq<Cidr>, v: Version, x: nat): set<int>
    requires AllRoutes(ps)
  {
    set id | 1 <= id <= |ps| && IsAround(ps, v, x, id)
  }

  ghost function Beginning(ps: seq<Cidr>, v: Version, lo: nat, hi: nat): set<int>
    requires AllRoutes(ps)
  {
    set id | 1 <= id <= |ps| && Begins(ps, v, lo, hi, id)
  }

  lemma MatchesCounted(keys: seq<StoreKey>, ps: seq<Cidr>, v: Version, a: Address)
    requires AllRoutes(ps) && true == IsIndex(keys, RouteSources(ps)) && AllKeys(keys) && Plain(a, v)
    ensures |Matches(keys, v, Num(a, v))| == |Around(ps, v, Num(a, v))|
  {
    var ss, x, ids := RouteSources(ps), Num(a, v), Matches(keys, v, Num(a, v));
    NumIsKeyValue(a, v);
    PointQueryIsExact(keys, ss, v, x);
    forall id: int
      ensures id in Around(ps, v, x) <==> 0 <= id <= MAX_UINT32 && id in ids
    {
      if 1 <= id <= |ps| {
        HitIsAround(ps, v, x, id);
      }
    }
    forall i, j | 0 <= i < j < |ids|
      ensures ids[i] != ids[j]
    {
      assert Before(ss, v, x, ids[i], ids[j]);
    }
    DistinctCount(ids, Around(ps, v, x));
  }

  lemma HitIsAround(ps: seq<Cidr>, v: Version, x: nat, id: nat)
    requires AllRoutes(ps) && 1 <= id <= |ps|
    ensures IsHit(RouteSources(ps), v, x, id) <==> id in Around(ps, v, x)
  {
  }

  lemma {:induction false} BandDistinct(keys: seq<StoreKey>, ps: seq<Cidr>, v: Version, lo: Address, hi: Address, n: nat)
    requires AllRoutes(ps) && true == IsIndex(keys, RouteSources(ps)) && AllKeys(keys) && n <= |keys|
    ensures AllDistinct(BandUpTo(keys, v, lo, hi, n))
  {
    if n > 0 {
      BandDistinct(keys, ps, v, lo, hi, n - 1);
      var before := BandUpTo(keys, v, lo, hi, n - 1);
      forall i | 0 <= i < |before|
        ensures before[i] != IndexId(keys[n - 1])
      {
        BandIn(keys, v, lo, hi, n - 1, before[i]);
        var k :| 0 <= k < n - 1 && InBand(keys[k], v, lo, hi) && IndexId(keys[k]) == before[i];
        KeysNameRoutes(keys, ps, k, n - 1);
      }
      assert BandUpTo(keys, v, lo, hi, n) == if InBand(keys[n - 1], v, lo, hi) then before + [IndexId(keys[n - 1])] else before;
    }
  }

  lemma BandCounted(keys: seq<StoreKey>, ps: seq<Cidr>, v: Version, lo: Address, hi: Address)
    requires AllRoutes(ps) && true == IsIndex(keys, RouteSources(ps)) && AllKeys(keys) && Canonical(lo, v) && Canonical(hi, v)
    ensures |Band(keys, v, lo, hi)| == |Beginning(ps, v, Num(lo, v), Num(hi, v))|
  {
    var ss := RouteSources(ps);
    forall id: int
      ensures id in Beginning(ps, v, Num(lo, v), Num(hi, v)) <==> 0 <= id <= MAX_UINT32 && id in Band(keys, v, lo, hi)
    {
      if 0 <= id <= MAX_UINT32 {
        BandIsExact(keys, ss, v, lo, hi, id);
        BeginningIsEntry(ps, v, Num(lo, v), Num(hi, v), id);
      }
    }
    BandDistinct(keys, ps, v, lo, hi, |keys|);
    var ids := Band(keys, v, lo, hi);
    assert ids == BandUpTo(keys, v, lo, hi, |keys|);
    DistinctCount(ids, Beginning(ps, v, Num(lo, v), Num(hi, v)));
  }

  lemma BeginningIsEntry(ps: seq<Cidr>, v: Version, lo: nat, hi: nat, id: nat)
    requires AllRoutes(ps)
    ensures id in Beginning(ps, v, lo, hi) <==> exists b :: HasEntry(RouteSources(ps), v, b, id) && lo <= b.base <= hi
  {
    if 1 <= id <= |ps| {
      assert RouteSources(ps)[id - 1].blocks == [RouteBlock(ps[id - 1])];
      assert RouteBlock(ps[id - 1]) in RouteSources(ps)[id - 1].blocks;
    }
  }

  /** all lists the routes that meet the range, once and in ascending order. */
  ghost predicate IsRouteList(all: seq<nat>, ps: seq<Cidr>, v: Version, lo: nat, hi: nat)
    requires AllRoutes(ps)
  {
    Ascending(all) && forall id :: id in all <==> 1 <= id <= |ps| && RouteMeets(ps[id - 1], v, lo, hi)
  }

  lemma OverlapIsRouteList(all: seq<nat>, ps: seq<Cidr>, v: Version, lo: nat, hi: nat)
    requires AllRoutes(ps) && IsOverlap(all, RouteSources(ps), v, lo, hi)
    ensures true == IsRouteList(all, ps, v, lo, hi)
  {
  }

  /** Routes by prefix, from records to the last page: the index is built, and a client follows the
      cursors. It gets every route that meets the range, unless those around its first address and
      those that begin in it are more than two million, counted one by one. */
  method AnswerPrefix(ps: seq<Cidr>, start: Address, end: Address, v: Version, limit: nat) returns (all: Option<seq<nat>>, pages: nat)
    requires AllRoutes(ps) && Plain(start, v) && Plain(end, v) && Num(start, v) <= Num(end, v) && limit >= 1
    ensures all.None? <==> |Around(ps, v, Num(start, v))| + |Beginning(ps, v, Num(start, v), Num(end, v))| > 2_000_000
    ensures all.Some? ==> true == IsRouteList(all.value, ps, v, Num(start, v), Num(end, v))
    ensures all.Some? ==> |all.value| <= pages * limit && (pages == 1 || (pages > 1 && (pages - 1) * limit < |all.value|))
  {
    var keys := IndexRoutes(ps);
    IndexKeysSized(keys, RouteSources(ps));
    ghost var whole := MeetingIds(RouteSources(ps), v, Num(start, v), Num(end, v), |ps|);
    OverlapIsRouteList(whole, ps, v, Num(start, v), Num(end, v));
    BroadByRoutes(keys, ps, start, end, v);
    all, pages := ListPrefix(keys, start, end, v, limit, RouteSources(ps), whole);
  }

  lemma BroadByRoutes(keys: seq<StoreKey>, ps: seq<Cidr>, start: Address, end: Address, v: Version)
    requires AllRoutes(ps) && true == IsIndex(keys, RouteSources(ps)) && AllKeys(keys) && Plain(start, v) && Plain(end, v)
    ensures IsTooBroad(keys, start, end, v) <==> |Around(ps, v, Num(start, v))| + |Beginning(ps, v, Num(start, v), Num(end, v))| > 2_000_000
  {
    UnmappedNum(start, v);
    UnmappedNum(end, v);
    MatchesCounted(keys, ps, v, start);
    BandCounted(keys, ps, v, start, end);
  }

  // ---------- range pages ----------

  /** The range key of a route. */
  function RouteKey(p: Cidr, id: Word): StoreKey
    requires ValidCidr(p) && End(RouteBlock(p)) >= 1
  {
    RangeKey(p.version, AddressOf(RouteBlock(p).base, p.version), AddressOf(End(RouteBlock(p)) - 1, p.version), id)
  }

  ghost predicate IsKeyOfRoute(ps: seq<Cidr>, q: Query, id: Word, key: StoreKey)
    requires AllRoutes(ps)
  {
    && 1 <= id <= |ps| && RouteMeets(ps[id - 1], q.version, Num(q.lo, q.version), Num(q.hi, q.version))
    && End(RouteBlock(ps[id - 1])) >= 1 && key == RouteKey(ps[id - 1], id)
  }

  ghost predicate IsRouteKey(ps: seq<Cidr>, q: Query, key: StoreKey)
    requires AllRoutes(ps)
  {
    exists id: Word :: IsKeyOfRoute(ps, q, id, key)
  }

  /** all lists every route that meets the query once, in (start, end, ID) order. */
  ghost predicate IsRouteListing(all: seq<StoreKey>, ps: seq<Cidr>, q: Query)
    requires AllRoutes(ps)
  {
    Sorted(all) && forall key :: key in all <==> IsRouteKey(ps, q, key)
  }

  lemma RecordIsRoute(rs: seq<Bounds>, ps: seq<Cidr>, q: Query, id: Word)
    requires AllRoutes(ps) && AreRecords(rs, RouteSources(ps)) && 1 <= id <= |ps|
    ensures MeetsQuery(rs, q, id) <==> RouteMeets(ps[id - 1], q.version, Num(q.lo, q.version), Num(q.hi, q.version))
    ensures End(RouteBlock(ps[id - 1])) >= 1 && KeyOfRecord(rs, id) == RouteKey(ps[id - 1], id)
  {
    var r, p := rs[id - 1], ps[id - 1];
    assert Spans(RouteSources(ps)[id - 1], r) && ValidBounds(r);
    RouteBlockFits(p);
    AddressOfNum(r.start, r.version);
    AddressOfNum(r.end, r.version);
  }

  lemma ListingIsRoutes(all: seq<StoreKey>, rs: seq<Bounds>, ps: seq<Cidr>, q: Query)
    requires AllRoutes(ps) && AreRecords(rs, RouteSources(ps)) && true == IsListing(all, rs, q)
    ensures true == IsRouteListing(all, ps, q)
  {
    forall key
      ensures IsMeetingKey(rs, q, key) <==> IsRouteKey(ps, q, key)
    {
      if IsMeetingKey(rs, q, key) {
        var id: Word :| MeetsQuery(rs, q, id) && key == KeyOfRecord(rs, id);
        RecordIsRoute(rs, ps, q, id);
        assert IsKeyOfRoute(ps, q, id, key);
      }
      if IsRouteKey(ps, q, key) {
        var id: Word :| IsKeyOfRoute(ps, q, id, key);
        RecordIsRoute(rs, ps, q, id);
        assert MeetsQuery(rs, q, id);
      }
    }
  }

  /** Routes by range, from records to the last page: both indexes are built, and a client follows
      the cursors. */
  method AnswerRouteRange(ps: seq<Cidr>, q: Query, limit: nat) returns (all: seq<StoreKey>, pages: nat)
    requires AllRoutes(ps) && ValidQuery(q) && limit >= 1
    ensures true == IsRouteListing(all, ps, q)
    ensures pages == 1 || (pages > 1 && (pages - 1) * limit < |all|)
    ensures |all| <= pages * limit
  {
    ghost var ss := RouteSources(ps);
    var points := IndexRoutes(ps);
    IndexKeysSized(points, ss);
    var rs := RouteRanges(ps);
    var keys := IndexBounds(rs);
    var cov := CoveringEntries(points, rs, q.lo, q.version, ss);
    all, pages := ListRange(points, keys, rs, q, limit, ss, cov);
    ListingIsRoutes(all, rs, ps, q);
  }
}
