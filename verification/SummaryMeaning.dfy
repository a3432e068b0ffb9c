/** What a summary says of the records themselves: sets of records that overlap a range of
    addresses, and nothing of how they were counted. */
module SummaryMeaning {
  import opened Bytes
  import opened Cover
  import opened Facets
  import opened Summaries
  import opened SummaryCounts
  import opened Records

  // ---------- the records in a range of addresses ----------

  /** An allocation, or a route, that has an address from lo on and before end. */
  ghost predicate IsIn(s: Span, lo: nat, end: nat, route: bool) {
    s.route == route && s.start < end && lo <= s.last
  }

  ghost function RecordsIn(spans: seq<Span>, lo: nat, end: nat, route: bool): set<nat> {
    set i | 0 <= i < |spans| && IsIn(spans[i], lo, end, route)
  }

  /** Those of them with a country, or an AS number. */
  ghost function Having(spans: seq<Span>, lo: nat, end: nat, route: bool, value: Text): set<nat> {
    set i | 0 <= i < |spans| && IsIn(spans[i], lo, end, route) && spans[i].value == value
  }

  ghost function CountsIn(spans: seq<Span>, lo: nat, end: nat, route: bool): Text -> nat {
    (v: Text) => |Having(spans, lo, end, route, v)|
  }

  // ---------- the records in buckets next to each other ----------

  /** Where the buckets of a size begin. */
  function Buckets(lo: nat, size: nat): nat -> nat {
    (k: nat) => BucketAt(lo, size, k)
  }

  function BucketAt(lo: nat, size: nat, k: nat): (base: nat) {
    ProductFits(k, size);
    lo + k * size
  }

  /** Pairs of a record and one of n buckets that it has an address in. */
  ghost function Pairs(spans: seq<Span>, at: nat -> nat, n: nat, route: bool): set<(nat, nat)> {
    set i, k | 0 <= i < |spans| && 0 <= k < n && IsIn(spans[i], at(k), at(k + 1), route) :: (i, k)
  }

  /** The ten facets of a bucket include the value. */
  ghost predicate Shows(spans: seq<Span>, lo: nat, end: nat, route: bool, value: Text) {
    exists fs :: IsTopTen(fs, CountsIn(spans, lo, end, route)) && Facet(value, CountsIn(spans, lo, end, route)(value)) in fs
  }

  /** Pairs of a record with the value and a bucket whose ten facets include it. */
  ghost function ShownPairs(spans: seq<Span>, at: nat -> nat, n: nat, route: bool, value: Text): set<(nat, nat)> {
    set i, k | 0 <= i < |spans| && 0 <= k < n && IsIn(spans[i], at(k), at(k + 1), route)
               && spans[i].value == value && Shows(spans, at(k), at(k + 1), route, value) :: (i, k)
  }

  ghost function ShownCounts(spans: seq<Span>, at: nat -> nat, n: nat, route: bool): Text -> nat {
    (v: Text) => |ShownPairs(spans, at, n, route, v)|
  }

  // ---------- the summary of a prefix ----------

  /** At /0, /8 and /16 (blocks of 2^32, 2^24 and 2^16 addresses) the figures are the numbers of
      allocations and of routes that overlap the block, and the facets the ten most frequent
      countries of the former and AS numbers of the latter. */
  ghost predicate CountsRecords(w: RangeSummary, spans: seq<Span>, base: nat, end: nat) {
    && w.allocations == |RecordsIn(spans, base, end, false)| && w.routes == |RecordsIn(spans, base, end, true)|
    && IsTopTen(w.countries, CountsIn(spans, base, end, false)) && IsTopTen(w.asns, CountsIn(spans, base, end, true))
  }

  /** Between them a record counts once for each bucket below, and its value where the bucket's own
      ten facets include it. */
  ghost predicate CountsPairs(w: RangeSummary, spans: seq<Span>, at: nat -> nat, n: nat) {
    && w.allocations == |Pairs(spans, at, n, false)| && w.routes == |Pairs(spans, at, n, true)|
    && IsTopTen(w.countries, ShownCounts(spans, at, n, false)) && IsTopTen(w.asns, ShownCounts(spans, at, n, true))
  }

  ghost predicate Summarizes(w: RangeSummary, spans: seq<Span>, b: Block)
    requires 16 <= b.exp <= 32
  {
    && w.prefixLength == 32 - b.exp
    && if b.exp == 16 || b.exp == 24 || b.exp == 32 then CountsRecords(w, spans, b.base, b.base + Pow2(b.exp))
       else if b.exp > 24 then CountsPairs(w, spans, Buckets(b.base, Pow2(24)), Pow2(b.exp - 24))
       else CountsPairs(w, spans, Buckets(b.base, Pow2(16)), Pow2(b.exp - 16))
  }

  // ---------- one bucket ----------

  function BaseOf(key: SummaryKey): nat
    requires key.length <= 32
  {
    BlockOf(key.network, 32 - key.length).base
  }

  function EndOf(key: SummaryKey): nat
    requires key.length <= 32
  {
    End(BlockOf(key.network, 32 - key.length))
  }

  lemma OneMoreRecord(spans: seq<Span>, lo: nat, end: nat, route: bool, value: Text)
    requires spans != []
    ensures var n := |spans| - 1; var s := spans[n];
      && RecordsIn(spans, lo, end, route) == RecordsIn(spans[..n], lo, end, route) + (if IsIn(s, lo, end, route) then {n} else {})
      && Having(spans, lo, end, route, value) ==
         Having(spans[..n], lo, end, route, value) + (if IsIn(s, lo, end, route) && s.value == value then {n} else {})
  {
  }

  lemma {:induction false} CountIsRecords(spans: seq<Span>, key: SummaryKey)
    requires key.length <= 32
    ensures Count(spans, key).allocations == |RecordsIn(spans, BaseOf(key), EndOf(key), false)|
    ensures Count(spans, key).routes == |RecordsIn(spans, BaseOf(key), EndOf(key), true)|
  {
    if spans != [] {
      CountIsRecords(spans[..|spans| - 1], key);
      OneMoreRecord(spans, BaseOf(key), EndOf(key), false, []);
      OneMoreRecord(spans, BaseOf(key), EndOf(key), true, []);
    }
  }

  lemma {:induction false} MentionsAreRecords(spans: seq<Span>, key: SummaryKey, route: bool, value: Text)
    requires key.length <= 32
    ensures Mentions(spans, key, route, value) == |Having(spans, BaseOf(key), EndOf(key), route, value)|
  {
    if spans != [] {
      MentionsAreRecords(spans[..|spans| - 1], key, route, value);
      OneMoreRecord(spans, BaseOf(key), EndOf(key), route, value);
    }
  }

  lemma TallyIsRecords(spans: seq<Span>, key: SummaryKey, route: bool)
    requires key.length <= 32
    ensures IsClean(TallyOf(spans, key, route))
    ensures forall v :: v != [] ==> Counts(TallyOf(spans, key, route))(v) == CountsIn(spans, BaseOf(key), EndOf(key), route)(v)
  {
    AllPositive(spans, key, route);
    TallyIsMentions(spans, key, route, [0]);
    forall v | v != []
      ensures Counts(TallyOf(spans, key, route))(v) == CountsIn(spans, BaseOf(key), EndOf(key), route)(v)
    {
      TallyIsMentions(spans, key, route, v);
      MentionsAreRecords(spans, key, route, v);
    }
  }

  lemma TopTenAlike(fs: seq<Facet>, m: Text -> nat, n: Text -> nat)
    requires IsTopTen(fs, m) && forall v :: v != [] ==> m(v) == n(v)
    ensures IsTopTen(fs, n)
  {
  }

  lemma BucketFacets(spans: seq<Span>, key: SummaryKey, route: bool)
    requires key.length <= 32
    ensures IsTopTen(Ranking(TallyOf(spans, key, route)), CountsIn(spans, BaseOf(key), EndOf(key), route))
  {
    TallyIsRecords(spans, key, route);
    RankingIsTop(TallyOf(spans, key, route));
    TopTenAlike(Ranking(TallyOf(spans, key, route)), Counts(TallyOf(spans, key, route)), CountsIn(spans, BaseOf(key), EndOf(key), route));
  }

  /** A bucket's ranking has the value exactly when the bucket shows it. */
  lemma ShowsIsRanked(spans: seq<Span>, key: SummaryKey, route: bool, value: Text)
    requires key.length <= 32 && value != []
    ensures var t := TallyOf(spans, key, route);
      Share(Ranking(t), value) == if Shows(spans, BaseOf(key), EndOf(key), route, value)
        then |Having(spans, BaseOf(key), EndOf(key), route, value)| else 0
  {
    var t, n := TallyOf(spans, key, route), CountsIn(spans, BaseOf(key), EndOf(key), route);
    TallyIsRecords(spans, key, route);
    BucketFacets(spans, key, route);
    ShareOfRanking(t, value);
    assert Counts(t)(value) == n(value);
    if Shows(spans, BaseOf(key), EndOf(key), route, value) {
      var fs :| IsTopTen(fs, n) && Facet(value, n(value)) in fs;
      TopTenIsUnique(fs, Ranking(t), n);
    }
    RankingIsTopTen(t, Facet(value, n(value)));
  }

  // ---------- buckets next to each other ----------

  lemma NextBucket(network: nat, exp: nat, k: nat)
    ensures var at, b := Buckets(BlockOf(network, exp).base, Pow2(exp)), BlockOf(network + k, exp);
      b.base == at(k) && End(b) == at(k + 1)
  {
    var p, lo := Pow2(exp), BlockOf(network, exp).base;
    Distribute(network, k, p);
    Distribute(k, 1, p);
    AtBucket(lo, p, k);
    AtBucket(lo, p, k + 1);
    BlockEnds(network + k, exp);
    assert BlockOf(network + k, exp).base == (network + k) * p;
  }

  lemma AtBucket(lo: nat, size: nat, k: nat)
    ensures Buckets(lo, size)(k) == lo + k * size
  {
  }

  lemma BlockEnds(network: nat, exp: nat)
    ensures End(BlockOf(network, exp)) == BlockOf(network, exp).base + Pow2(exp) && BlockOf(network, exp).exp == exp
  {
  }

  lemma Distribute(a: nat, b: nat, p: nat)
    ensures (a + b) * p == a * p + b * p
  {
  }

  ghost function PairsOf(s: set<nat>, k: nat): set<(nat, nat)> {
    set i | i in s :: (i, k)
  }

  lemma PairsSize(s: set<nat>, k: nat)
    ensures |PairsOf(s, k)| == |s|
    decreases |s|
  {
    if s == {} {
      assert PairsOf(s, k) == {};
    } else {
      var x :| x in s;
      PairsSize(s - {x}, k);
      assert PairsOf(s, k) == PairsOf(s - {x}, k) + {(x, k)};
      assert s == (s - {x}) + {x};
    }
  }

  lemma OneMoreBucket(spans: seq<Span>, at: nat -> nat, n: nat, route: bool)
    requires n > 0
    ensures |Pairs(spans, at, n, route)| == |Pairs(spans, at, n - 1, route)| + |RecordsIn(spans, at(n - 1), at(n), route)|
  {
    var mine := RecordsIn(spans, at(n - 1), at(n), route);
    PairsJoin(Pairs(spans, at, n, route), Pairs(spans, at, n - 1, route), mine, n - 1);
  }

  lemma OneMoreShown(spans: seq<Span>, at: nat -> nat, n: nat, route: bool, value: Text)
    requires n > 0
    ensures |ShownPairs(spans, at, n, route, value)| == |ShownPairs(spans, at, n - 1, route, value)| +
            if Shows(spans, at(n - 1), at(n), route, value) then |Having(spans, at(n - 1), at(n), route, value)| else 0
  {
    var mine := if Shows(spans, at(n - 1), at(n), route, value) then Having(spans, at(n - 1), at(n), route, value) else {};
    PairsJoin(ShownPairs(spans, at, n, route, value), ShownPairs(spans, at, n - 1, route, value), mine, n - 1);
  }

  lemma PairsJoin(all: set<(nat, nat)>, before: set<(nat, nat)>, mine: set<nat>, k: nat)
    requires forall p :: p in all <==> p in before || (p.1 == k && p.0 in mine)
    requires forall p :: p in before ==> p.1 != k
    ensures |all| == |before| + |mine|
  {
    PairsSize(mine, k);
    assert all == before + PairsOf(mine, k) && before !! PairsOf(mine, k);
  }

  /** at says where the buckets from a network on begin. */
  ghost predicate LaidOut(at: nat -> nat, network: nat, length: nat)
    requires length <= 32
  {
    forall k: nat :: LaidAt(at, network, length, k)
  }

  ghost predicate LaidAt(at: nat -> nat, network: nat, length: nat, k: nat)
    requires length <= 32
  {
    BaseOf(SummaryKey(network + k, length)) == at(k) && EndOf(SummaryKey(network + k, length)) == at(k + 1)
  }

  lemma BucketsLaidOut(network: nat, length: nat)
    requires length <= 32
    ensures true == LaidOut(Buckets(BlockOf(network, 32 - length).base, Pow2(32 - length)), network, length)
  {
    var at := Buckets(BlockOf(network, 32 - length).base, Pow2(32 - length));
    forall k: nat
      ensures true == LaidAt(at, network, length, k)
    {
      BucketOfKey(network, length, k);
    }
  }

  /** The figures that each bucket has are the numbers of its records. */
  ghost predicate CountEach(counts: nat -> Item, spans: seq<Span>, first: nat, at: nat -> nat) {
    forall k: nat :: CountsOne(counts(first + k), spans, at(k), at(k + 1))
  }

  ghost predicate CountsOne(item: Item, spans: seq<Span>, lo: nat, end: nat) {
    item.allocations == |RecordsIn(spans, lo, end, false)| && item.routes == |RecordsIn(spans, lo, end, true)|
  }

  lemma {:induction false} RunIsPairs(counts: nat -> Item, spans: seq<Span>, first: nat, at: nat -> nat, n: nat)
    requires CountEach(counts, spans, first, at)
    ensures Run(counts, first, n).allocations == |Pairs(spans, at, n, false)| && Run(counts, first, n).routes == |Pairs(spans, at, n, true)|
  {
    if n == 0 {
      assert Pairs(spans, at, 0, false) == {} && Pairs(spans, at, 0, true) == {};
    } else {
      RunIsPairs(counts, spans, first, at, n - 1);
      assert counts(first + n - 1) == counts(first + (n - 1));
      OneMoreBucket(spans, at, n, false);
      OneMoreBucket(spans, at, n, true);
    }
  }

  lemma CounterCounts(spans: seq<Span>, network: nat, length: nat, at: nat -> nat)
    requires length <= 32 && true == LaidOut(at, network, length)
    ensures true == CountEach(Counter(spans, length), spans, network, at)
  {
    forall k: nat
      ensures CountsOne(Counter(spans, length)(network + k), spans, at(k), at(k + 1))
    {
      assert LaidAt(at, network, length, k);
      CounterCountsOne(spans, SummaryKey(network + k, length), at(k), at(k + 1));
    }
  }

  lemma CounterCountsOne(spans: seq<Span>, key: SummaryKey, lo: nat, end: nat)
    requires key.length <= 32 && lo == BaseOf(key) && end == EndOf(key)
    ensures CountsOne(Counter(spans, key.length)(key.network), spans, lo, end)
  {
    CountIsRecords(spans, key);
  }

  /** What each bucket's list says of the value is how many of its records have it, if it shows it. */
  ghost predicate TellEach(lists: nat -> seq<Facet>, spans: seq<Span>, first: nat, at: nat -> nat, route: bool, value: Text) {
    forall k: nat :: true == TellsOne(lists(first + k), spans, at(k), at(k + 1), route, value)
  }

  ghost predicate TellsOne(fs: seq<Facet>, spans: seq<Span>, lo: nat, end: nat, route: bool, value: Text) {
    Share(fs, value) == if Shows(spans, lo, end, route, value) then |Having(spans, lo, end, route, value)| else 0
  }

  lemma {:induction false} MergedIsShown(lists: nat -> seq<Facet>, spans: seq<Span>, first: nat, at: nat -> nat, n: nat, route: bool, value: Text)
    requires TellEach(lists, spans, first, at, route, value)
    ensures Tallied(MergedTally(lists, first, n), value) == |ShownPairs(spans, at, n, route, value)|
  {
    if n == 0 {
      assert ShownPairs(spans, at, 0, route, value) == {};
    } else {
      MergedIsShown(lists, spans, first, at, n - 1, route, value);
      assert lists(first + n - 1) == lists(first + (n - 1));
      OneMoreList(lists, first, n, value);
      OneMoreShown(spans, at, n, route, value);
    }
  }

  lemma RankerTells(spans: seq<Span>, network: nat, length: nat, at: nat -> nat, route: bool, value: Text)
    requires length <= 32 && value != [] && true == LaidOut(at, network, length)
    ensures true == TellEach(Ranker(spans, length, route), spans, network, at, route, value)
  {
    forall k: nat
      ensures true == TellsOne(Ranker(spans, length, route)(network + k), spans, at(k), at(k + 1), route, value)
    {
      assert LaidAt(at, network, length, k);
      RankerTellsAt(spans, network + k, length, at(k), at(k + 1), route, value);
    }
  }

  lemma RankerTellsAt(spans: seq<Span>, network: nat, length: nat, lo: nat, end: nat, route: bool, value: Text)
    requires length <= 32 && value != [] && lo == BaseOf(SummaryKey(network, length)) && end == EndOf(SummaryKey(network, length))
    ensures true == TellsOne(Ranker(spans, length, route)(network), spans, lo, end, route, value)
  {
    RankerTellsOne(spans, SummaryKey(network, length), lo, end, route, value);
  }

  lemma RankerTellsOne(spans: seq<Span>, key: SummaryKey, lo: nat, end: nat, route: bool, value: Text)
    requires key.length <= 32 && value != [] && lo == BaseOf(key) && end == EndOf(key)
    ensures true == TellsOne(Ranking(TallyOf(spans, key, route)), spans, lo, end, route, value)
  {
    ShowsIsRanked(spans, key, route, value);
  }

  lemma BucketOfKey(network: nat, length: nat, k: nat)
    requires length <= 32
    ensures var at, key := Buckets(BlockOf(network, 32 - length).base, Pow2(32 - length)), SummaryKey(network + k, length);
      BaseOf(key) == at(k) && EndOf(key) == at(k + 1)
  {
    NextBucket(network, 32 - length, k);
  }

  lemma OneMoreList(lists: nat -> seq<Facet>, first: nat, n: nat, value: Text)
    requires n > 0
    ensures Tallied(MergedTally(lists, first, n), value) == Tallied(MergedTally(lists, first, n - 1), value) + Share(lists(first + n - 1), value)
  {
    AddAllAdds(MergedTally(lists, first, n - 1), lists(first + n - 1), value);
  }

  lemma AddClean(t: Tally, u: Tally)
    requires IsClean(t) && IsClean(u)
    ensures IsClean(AddAll(t, Ranking(u)))
  {
    var sum := AddAll(t, Ranking(u));
    forall v | v in sum
      ensures v != [] && sum[v] > 0
    {
      AddAllAdds(t, Ranking(u), v);
      ShareOfRanking(u, v);
      if i :| 0 <= i < |Ranking(u)| && Ranking(u)[i].value == v {
        RankingIsTopTen(u, Ranking(u)[i]);
      }
    }
  }

  lemma {:induction false} MergedClean(spans: seq<Span>, network: nat, length: nat, n: nat, route: bool)
    requires length <= 32
    ensures IsClean(MergedTally(Ranker(spans, length, route), network, n))
  {
    if n > 0 {
      MergedClean(spans, network, length, n - 1, route);
      TallyIsRecords(spans, SummaryKey(network + n - 1, length), route);
      AddClean(MergedTally(Ranker(spans, length, route), network, n - 1), TallyOf(spans, SummaryKey(network + n - 1, length), route));
    }
  }

  lemma MergedFacets(spans: seq<Span>, network: nat, length: nat, n: nat, route: bool)
    requires length <= 32
    ensures IsTopTen(Ranking(MergedTally(Ranker(spans, length, route), network, n)),
                     ShownCounts(spans, Buckets(BlockOf(network, 32 - length).base, Pow2(32 - length)), n, route))
  {
    var t := MergedTally(Ranker(spans, length, route), network, n);
    var at := Buckets(BlockOf(network, 32 - length).base, Pow2(32 - length));
    var counts := ShownCounts(spans, at, n, route);
    MergedClean(spans, network, length, n, route);
    RankingIsTop(t);
    BucketsLaidOut(network, length);
    forall v | v != []
      ensures Counts(t)(v) == counts(v)
    {
      RankerTells(spans, network, length, at, route, v);
      MergedIsShown(Ranker(spans, length, route), spans, network, at, n, route, v);
    }
    TopTenAlike(Ranking(t), Counts(t), counts);
  }

  // ---------- every prefix ----------

  lemma CountedMeans(spans: seq<Span>, network: nat, length: nat)
    requires length == 0 || length == 8 || length == 16
    ensures CountsRecords(SummaryOf(spans, network, length), spans, BaseOf(SummaryKey(network, length)), EndOf(SummaryKey(network, length)))
  {
    var key := SummaryKey(network, length);
    CountIsRecords(spans, key);
    BucketFacets(spans, key, false);
    BucketFacets(spans, key, true);
    assert PrefixTally(spans, network, length, false) == TallyOf(spans, key, false);
    assert PrefixTally(spans, network, length, true) == TallyOf(spans, key, true);
  }

  lemma MergedFigures(spans: seq<Span>, network: nat, length: nat, child: nat, size: nat, c: nat)
    requires 0 < length < 16 && length != 8 && child == (if length < 8 then 8 else 16)
    requires size == Pow2(32 - child) && c == Pow2(child - length)
    ensures var count, at := PrefixCount(spans, network, length), Buckets(BlockOf(network, 32 - length).base, size);
      count.allocations == |Pairs(spans, at, c, false)| && count.routes == |Pairs(spans, at, c, true)|
  {
    PrefixCountIsRun(spans, network, length, c);
    FirstChild(network, c);
    FirstBucket(network, length, child);
    var at := Buckets(BlockOf(network * c, 32 - child).base, size);
    BucketsLaidOut(network * c, child);
    CounterCounts(spans, network * c, child, at);
    RunIsPairs(Counter(spans, child), spans, network * c, at, c);
  }

  lemma MergedValues(spans: seq<Span>, network: nat, length: nat, child: nat, size: nat, c: nat, route: bool)
    requires 0 < length < 16 && length != 8 && child == (if length < 8 then 8 else 16)
    requires size == Pow2(32 - child) && c == Pow2(child - length)
    ensures true == IsTopTen(Ranking(PrefixTally(spans, network, length, route)), ShownCounts(spans, Buckets(BlockOf(network, 32 - length).base, size), c, route))
  {
    FirstBucket(network, length, child);
    TallyIsMerged(spans, network, length, child, c, route);
    MergedFrom(spans, network * c, child, BlockOf(network, 32 - length).base, size, c, route);
  }

  lemma TallyIsMerged(spans: seq<Span>, network: nat, length: nat, child: nat, c: nat, route: bool)
    requires 0 < length < 16 && length != 8 && child == (if length < 8 then 8 else 16) && c == Pow2(child - length)
    ensures network * c >= 0 && true == (PrefixTally(spans, network, length, route) == MergedTally(Ranker(spans, child, route), network * c, c))
  {
    FirstChild(network, c);
  }

  lemma MergedFrom(spans: seq<Span>, first: nat, child: nat, lo: nat, size: nat, c: nat, route: bool)
    requires child <= 32 && lo == BlockOf(first, 32 - child).base && size == Pow2(32 - child)
    ensures true == IsTopTen(Ranking(MergedTally(Ranker(spans, child, route), first, c)), ShownCounts(spans, Buckets(lo, size), c, route))
  {
    MergedFacets(spans, first, child, c, route);
  }

  lemma MergedMeans(spans: seq<Span>, network: nat, length: nat, child: nat, size: nat, c: nat)
    requires 0 < length < 16 && length != 8 && child == (if length < 8 then 8 else 16)
    requires size == Pow2(32 - child) && c == Pow2(child - length)
    ensures true == CountsPairs(SummaryOf(spans, network, length), spans, Buckets(BlockOf(network, 32 - length).base, size), c)
  {
    MergedFigures(spans, network, length, child, size, c);
    MergedValues(spans, network, length, child, size, c, false);
    MergedValues(spans, network, length, child, size, c, true);
  }

  /** A prefix begins with its first bucket. */
  lemma FirstBucket(network: nat, length: nat, child: nat)
    requires length <= child <= 32
    ensures network * Pow2(child - length) >= 0
    ensures BlockOf(network * Pow2(child - length), 32 - child).base == BlockOf(network, 32 - length).base
  {
    var c, p := Pow2(child - length), Pow2(32 - child);
    FirstChild(network, c);
    Pow2Add(child - length, 32 - child);
    MulAssociates(network, c, p);
  }

  lemma MergedPrefixMeans(spans: seq<Span>, network: nat, length: nat)
    requires 0 < length < 16 && length != 8
    ensures true == Summarizes(SummaryOf(spans, network, length), spans, BlockOf(network, 32 - length))
  {
    if length < 8 {
      MergedMeans(spans, network, length, 8, Pow2(24), Pow2(8 - length));
    } else {
      MergedMeans(spans, network, length, 16, Pow2(16), Pow2(16 - length));
    }
  }

  /** The summary of every prefix tells its records. */
  lemma SummaryMeans(spans: seq<Span>, network: nat, length: nat)
    requires length <= 16
    ensures true == Summarizes(SummaryOf(spans, network, length), spans, BlockOf(network, 32 - length))
  {
    if length == 0 || length == 8 || length == 16 {
      CountedMeans(spans, network, length);
      BlockEnds(network, 32 - length);
    } else {
      MergedPrefixMeans(spans, network, length);
    }
  }
}
