/** What the counts of a materialized summary mean. At /0, /8 and /16 every record is counted in
    each bucket it overlaps, and so is its country or AS number; between them a prefix adds up the
    figures and the ranked facets of the buckets below it. */
module SummaryCounts {
  import opened Bytes
  import opened Cover
  import opened Facets
  import opened Summaries
  import Records

  /** An IPv4 allocation or route: the range it covers, and its country or its AS number, trimmed
      and in upper case. */
  datatype Span = Span(start: nat, last: nat, route: bool, value: Records.Text)

  ghost predicate ValidSpan(s: Span) {
    s.start <= s.last < Pow2(32)
  }

  datatype Item = Item(allocations: nat, routes: nat)

  datatype SummaryKey = SummaryKey(network: nat, length: nat)

  /** What is counted for one prefix. */
  datatype Accumulator = Accumulator(figures: Item, countries: Tally, asns: Tally)

  type Items = map<SummaryKey, Accumulator>

  function ItemAt(items: Items, key: SummaryKey): Accumulator {
    if key in items then items[key] else Accumulator(Item(0, 0), map[], map[])
  }

  function Note(t: Tally, value: Records.Text): Tally {
    if value == [] then t else Add(t, Records.Facet(value, 1))
  }

  function Record(a: Accumulator, s: Span): Accumulator {
    var figures := Bump(a.figures, s.route);
    if s.route then Accumulator(figures, a.countries, Note(a.asns, s.value))
    else Accumulator(figures, Note(a.countries, s.value), a.asns)
  }

  function Bump(item: Item, route: bool): Item {
    if route then item.(routes := item.routes + 1) else item.(allocations := item.allocations + 1)
  }

  /** The bucket of a length that an address falls in. */
  function Bucket(address: nat, length: nat): nat
    requires length <= 32
  {
    Quotient(address, Pow2(32 - length))
  }

  function Quotient(a: nat, p: nat): (q: nat)
    requires p >= 1
    ensures q == a / p
  {
    a / p
  }

  /** A range overlaps a bucket. */
  predicate Overlaps(s: Span, key: SummaryKey)
    requires key.length <= 32
  {
    var b := BlockOf(key.network, 32 - key.length);
    s.start < End(b) && b.base <= s.last
  }

  /** The buckets a range overlaps are those from its first address's to its last's. */
  lemma OverlapIsInterval(s: Span, network: nat, length: nat)
    requires length <= 32
    ensures Overlaps(s, SummaryKey(network, length)) <==> Bucket(s.start, length) <= network <= Bucket(s.last, length)
  {
    var p := Pow2(32 - length);
    BucketBounds(s.start, p, network);
    BucketBounds(s.last, p, network);
  }

  lemma BucketBounds(a: nat, p: nat, n: nat)
    requires p >= 1
    ensures a / p <= n <==> a < n * p + p
    ensures n <= a / p <==> n * p <= a
  {
    var q, r := a / p, a % p;
    assert a == p * q + r && r < p;
    if q <= n {
      MulMonotone(p, q, n);
      assert p * n == n * p;
    } else {
      MulMonotone(p, n + 1, q);
      assert p * (n + 1) == n * p + p;
    }
    if n <= q {
      MulMonotone(p, n, q);
      assert p * n == n * p;
    } else {
      MulMonotone(p, q + 1, n);
      assert p * (q + 1) == p * q + p;
      assert p * n == n * p;
    }
  }

  /** How many of the records overlap a bucket. */
  function Count(history: seq<Span>, key: SummaryKey): Item
    requires key.length <= 32
  {
    if history == [] then Item(0, 0) else
      var s, rest := history[|history| - 1], history[..|history| - 1];
      if Overlaps(s, key) then Bump(Count(rest, key), s.route) else Count(rest, key)
  }

  /** The values of the routes, or of the allocations, that overlap a bucket. */
  function TallyOf(history: seq<Span>, key: SummaryKey, route: bool): Tally
    requires key.length <= 32
  {
    if history == [] then map[] else
      var s, rest := history[|history| - 1], history[..|history| - 1];
      if Overlaps(s, key) && s.route == route then Note(TallyOf(rest, key, route), s.value) else TallyOf(rest, key, route)
  }

  function AccumulatorOf(history: seq<Span>, key: SummaryKey): Accumulator
    requires key.length <= 32
  {
    Accumulator(Count(history, key), TallyOf(history, key, false), TallyOf(history, key, true))
  }

  lemma AccumulatorNext(history: seq<Span>, s: Span, key: SummaryKey)
    requires key.length <= 32
    ensures AccumulatorOf(history + [s], key) ==
            if Overlaps(s, key) then Record(AccumulatorOf(history, key), s) else AccumulatorOf(history, key)
  {
    assert (history + [s])[..|history + [s]| - 1] == history;
  }

  predicate IsCounted(length: nat) {
    length == 0 || length == 8 || length == 16
  }

  // ---------- counting ----------

  class Builder {
    var items: Items
    ghost var history: seq<Span>

    /** Every bucket of the three lengths holds the number of records that overlap it. */
    ghost predicate Valid()
      reads this
    {
      forall key: SummaryKey :: IsCounted(key.length) ==> ItemAt(items, key) == AccumulatorOf(history, key)
    }

    constructor ()
      ensures Valid() && history == []
    {
      items, history := map[], [];
    }

    /** Counts a record in every bucket of one length from its first to its last. */
    method CountLength(s: Span, length: nat)
      requires length <= 32
      modifies this`items
      ensures forall key: SummaryKey ::
        ItemAt(items, key) == (if key.length == length && Overlaps(s, key) then Record(ItemAt(old(items), key), s) else ItemAt(old(items), key))
    {
      var first, last := Bucket(s.start, length), Bucket(s.last, length);
      var bucket := first;
      while bucket <= last
        invariant first <= bucket
        invariant bucket <= last + 1 || bucket == first
        invariant forall key: SummaryKey ::
          ItemAt(items, key) == (if key.length == length && first <= key.network < bucket then Record(ItemAt(old(items), key), s) else ItemAt(old(items), key))
        decreases last + 1 - bucket
      {
        var key := SummaryKey(bucket, length);
        items := items[key := Record(ItemAt(items, key), s)];
        bucket := bucket + 1;
      }
      forall key: SummaryKey | key.length == length
        ensures Overlaps(s, key) <==> first <= key.network <= last
      {
        OverlapIsInterval(s, key.network, length);
      }
    }

    /** collectSummary. */
    method Collect(s: Span)
      requires Valid()
      modifies this
      ensures Valid() && history == old(history) + [s]
    {
      history := history + [s];
      CountLength(s, 0);
      CountLength(s, 8);
      CountLength(s, 16);
      forall key: SummaryKey | IsCounted(key.length)
        ensures ItemAt(items, key) == AccumulatorOf(history, key)
      {
        AccumulatorNext(old(history), s, key);
      }
    }

    /** The summary of a counted prefix. */
    method CountedSummary(network: nat, length: Byte) returns (summary: Records.RangeSummary)
      requires Valid() && IsCounted(length)
      ensures summary == ValueOf(AccumulatorOf(history, SummaryKey(network, length)), length)
    {
      summary := SummaryValue(ItemAt(items, SummaryKey(network, length)), length);
    }

    /** One bucket below a prefix. */
    method MergeBucket(before: Accumulator, length: nat, first: nat, n: nat) returns (merged: Accumulator)
      requires true == Valid() && IsCounted(length) && true == (before == MergedOf(history, length, first, n))
      ensures true == (merged == MergedOf(history, length, first, n + 1))
    {
      var value := CountedSummary(first + n, length);
      merged := MergeSummary(before, value);
      MergedNext(history, length, first, n);
    }

    /** The loop over the buckets below a prefix. */
    method MergeBuckets(length: nat, first: nat, n: nat) returns (merged: Accumulator)
      requires true == Valid() && IsCounted(length)
      ensures true == (merged == MergedOf(history, length, first, n))
    {
      merged := Accumulator(Item(0, 0), map[], map[]);
      for child := 0 to n
        invariant true == (merged == MergedOf(history, length, first, child))
      {
        merged := MergeBucket(merged, length, first, child);
      }
    }

    /** summaryForPrefix: what was counted, or the summaries of the buckets below added up. */
    method SummaryForPrefix(network: nat, length: nat) returns (summary: Records.RangeSummary)
      requires true == Valid() && length <= 16
      ensures summary == SummaryOf(history, network, length)
    {
      if IsCounted(length) {
        summary := CountedSummary(network, length);
        return;
      }
      var childLength := ChildLength(length);
      var childCount := Pow2(childLength - length);
      FirstChild(network, childCount);
      var merged := MergeBuckets(childLength, network * childCount, childCount);
      summary := SummaryValue(merged, length);
      MergedSummary(history, network, length, childCount);
    }
  }

  lemma MergedSummary(history: seq<Span>, network: nat, length: nat, c: nat)
    requires length < 16 && !IsCounted(length) && c == Pow2(ChildLength(length) - length)
    ensures network * c >= 0 && ValueOf(MergedOf(history, ChildLength(length), network * c, c), length) == SummaryOf(history, network, length)
  {
    FirstChild(network, c);
  }

  /** mergeSummary. */
  method MergeSummary(destination: Accumulator, source: Records.RangeSummary) returns (merged: Accumulator)
    ensures merged == MergedWith(destination, source)
  {
    var countries := Merge(destination.countries, source.countries);
    var asns := Merge(destination.asns, source.asns);
    merged := Accumulator(Plus(destination.figures, Item(source.allocations, source.routes)), countries, asns);
  }

  function MergedWith(a: Accumulator, s: Records.RangeSummary): Accumulator {
    Accumulator(Plus(a.figures, Item(s.allocations, s.routes)), AddAll(a.countries, s.countries), AddAll(a.asns, s.asns))
  }

  lemma MergedNext(history: seq<Span>, length: Byte, first: nat, n: nat)
    requires length <= 32
    ensures MergedOf(history, length, first, n + 1) ==
            MergedWith(MergedOf(history, length, first, n), ValueOf(AccumulatorOf(history, SummaryKey(first + n, length)), length))
  {
    CountersAt(history, length, first + n);
  }

  lemma CountersAt(history: seq<Span>, length: nat, network: nat)
    requires length <= 32
    ensures var a := AccumulatorOf(history, SummaryKey(network, length));
      && Counter(history, length)(network) == a.figures
      && Ranker(history, length, false)(network) == Ranking(a.countries) && Ranker(history, length, true)(network) == Ranking(a.asns)
  {
  }

  /** summaryValue. */
  method SummaryValue(item: Accumulator, length: Byte) returns (summary: Records.RangeSummary)
    ensures summary == ValueOf(item, length)
  {
    var countries := RankedFacets(item.countries);
    var asns := RankedFacets(item.asns);
    summary := Records.RangeSummary(length, item.figures.allocations, item.figures.routes, countries, asns);
  }

  ghost function ValueOf(item: Accumulator, length: Byte): Records.RangeSummary {
    Records.RangeSummary(length, item.figures.allocations, item.figures.routes, Ranking(item.countries), Ranking(item.asns))
  }

  lemma FirstChild(n: nat, c: nat)
    ensures n * c >= 0
  {
  }

  function Plus(a: Item, b: Item): Item {
    Item(a.allocations + b.allocations, a.routes + b.routes)
  }

  /** The figures of n numbered buckets in a row, added up. */
  function Run(counts: nat -> Item, first: nat, n: nat): Item {
    if n == 0 then Item(0, 0) else Plus(Run(counts, first, n - 1), counts(first + n - 1))
  }

  function Counter(history: seq<Span>, length: nat): nat -> Item
    requires length <= 32
  {
    (network: nat) => Count(history, SummaryKey(network, length))
  }

  /** The figures of the summary of a prefix. */
  function PrefixCount(history: seq<Span>, network: nat, length: nat): Item
    requires length <= 16
  {
    if IsCounted(length) then Count(history, SummaryKey(network, length)) else
      var childLength := ChildLength(length);
      FirstChild(network, Pow2(childLength - length));
      Run(Counter(history, childLength), network * Pow2(childLength - length), Pow2(childLength - length))
  }

  function Tallier(history: seq<Span>, length: nat, route: bool): nat -> Tally
    requires length <= 32
  {
    (network: nat) => TallyOf(history, SummaryKey(network, length), route)
  }

  /** The facets of the counted prefixes of a length. */
  ghost function Ranker(history: seq<Span>, length: nat, route: bool): nat -> seq<Records.Facet>
    requires length <= 32
  {
    (network: nat) => Ranking(TallyOf(history, SummaryKey(network, length), route))
  }

  ghost function MergedOf(history: seq<Span>, length: nat, first: nat, n: nat): Accumulator
    requires length <= 32
  {
    Accumulator(Run(Counter(history, length), first, n),
                MergedTally(Ranker(history, length, false), first, n), MergedTally(Ranker(history, length, true), first, n))
  }

  /** The values counted for a prefix. */
  ghost function PrefixTally(history: seq<Span>, network: nat, length: nat, route: bool): Tally
    requires length <= 16
  {
    if IsCounted(length) then TallyOf(history, SummaryKey(network, length), route) else
      var childLength := ChildLength(length);
      FirstChild(network, Pow2(childLength - length));
      MergedTally(Ranker(history, childLength, route), network * Pow2(childLength - length), Pow2(childLength - length))
  }

  /** The summary of a prefix. */
  ghost function SummaryOf(history: seq<Span>, network: nat, length: nat): Records.RangeSummary
    requires length <= 16
  {
    var count := PrefixCount(history, network, length);
    Records.RangeSummary(length, count.allocations, count.routes,
                         Ranking(PrefixTally(history, network, length, false)), Ranking(PrefixTally(history, network, length, true)))
  }

  // ---------- what the facets are ----------

  /** How many routes, or allocations, with a value overlap a bucket. */
  function Mentions(history: seq<Span>, key: SummaryKey, route: bool, value: Records.Text): nat
    requires key.length <= 32
  {
    if history == [] then 0 else
      var s, rest := history[|history| - 1], history[..|history| - 1];
      Mentions(rest, key, route, value) + if Overlaps(s, key) && s.route == route && s.value == value then 1 else 0
  }

  /** At a counted length a value is tallied exactly when some record has it, with their number. */
  lemma {:induction false} TallyIsMentions(history: seq<Span>, key: SummaryKey, route: bool, value: Records.Text)
    requires key.length <= 32 && value != []
    ensures Tallied(TallyOf(history, key, route), value) == Mentions(history, key, route, value) <= |history|
    ensures value in TallyOf(history, key, route) <==> Mentions(history, key, route, value) > 0
    ensures [] !in TallyOf(history, key, route)
  {
    if history != [] {
      TallyIsMentions(history[..|history| - 1], key, route, value);
    }
  }

  /** So the facets of a counted prefix are the values of its records with their numbers, ten at
      most: a value that is left out is behind all of ten others. */
  lemma CountedFacets(history: seq<Span>, network: nat, length: nat, route: bool, value: Records.Text)
    requires IsCounted(length) && value != []
    ensures var fs, n := Ranking(PrefixTally(history, network, length, route)), Mentions(history, SummaryKey(network, length), route, value);
      && (forall f :: f in fs && f.value == value ==> f.count == n && n > 0)
      && (n > 0 && Records.Facet(value, n) !in fs ==> |fs| == 10 && forall g :: g in fs ==> Ahead(g, Records.Facet(value, n)))
  {
    var t, n := PrefixTally(history, network, length, route), Mentions(history, SummaryKey(network, length), route, value);
    TallyIsMentions(history, SummaryKey(network, length), route, value);
    RankingIsTopTen(t, Records.Facet(value, n));
    forall f | f in Ranking(t) && f.value == value
      ensures f.count == n && n > 0
    {
      RankingIsTopTen(t, f);
    }
  }

  lemma {:induction false} AllPositive(history: seq<Span>, key: SummaryKey, route: bool)
    requires key.length <= 32
    ensures forall value :: value in TallyOf(history, key, route) ==> TallyOf(history, key, route)[value] > 0
  {
    if history != [] {
      AllPositive(history[..|history| - 1], key, route);
    }
  }

  /** Between the counted lengths the facets come from counts that are exact for every value, that
      is the number of pairs of a record with it and a bucket below, exactly when no bucket below
      has more than ten values. */
  lemma MergedFacetsExactIff(history: seq<Span>, network: nat, length: nat, route: bool, c: nat)
    requires length <= 16 && !IsCounted(length) && c == Pow2(ChildLength(length) - length)
    ensures network * c >= 0 && PrefixTally(history, network, length, route) == MergedTally(Ranker(history, ChildLength(length), route), network * c, c)
    ensures (forall value :: IsExact(Tallier(history, ChildLength(length), route), Ranker(history, ChildLength(length), route), network * c, c, value)) <==>
            forall i: nat :: network * c <= i < network * c + c ==> |Tallier(history, ChildLength(length), route)(i)| <= 10
  {
    FirstChild(network, c);
    TalliersExactIff(history, ChildLength(length), network * c, c, route);
  }

  lemma TalliersExactIff(history: seq<Span>, length: nat, first: nat, n: nat, route: bool)
    requires length <= 32
    ensures (forall value :: IsExact(Tallier(history, length, route), Ranker(history, length, route), first, n, value)) <==>
            forall i: nat :: first <= i < first + n ==> |Tallier(history, length, route)(i)| <= 10
  {
    forall i: nat, value | value in Tallier(history, length, route)(i)
      ensures Tallier(history, length, route)(i)[value] > 0
    {
      AllPositive(history, SummaryKey(i, length), route);
    }
    MergedExactIff(Tallier(history, length, route), Ranker(history, length, route), first, n);
  }

  // ---------- what the figures between the counted lengths are ----------

  lemma {:induction false} RunSplits(counts: nat -> Item, first: nat, n: nat, m: nat)
    ensures Run(counts, first, n + m) == Plus(Run(counts, first, n), Run(counts, first + n, m))
  {
    if m > 0 {
      RunSplits(counts, first, n, m - 1);
      assert Run(counts, first, n + m) == Plus(Run(counts, first, n + (m - 1)), counts(first + n + m - 1));
    }
  }

  lemma OneBucket(counts: nat -> Item, network: nat)
    ensures Run(counts, network, 1) == counts(network)
  {
    assert Run(counts, network, 0) == Item(0, 0);
  }

  /** Twice as many buckets below a prefix as below either half. */
  lemma RunHalves(counts: nat -> Item, network: nat, c: nat, d: nat)
    requires d == 2 * c
    ensures network * d >= 0 && (2 * network) * c >= 0 && (2 * network + 1) * c >= 0
    ensures Run(counts, network * d, d) == Plus(Run(counts, (2 * network) * c, c), Run(counts, (2 * network + 1) * c, c))
  {
    FirstChild(network, d);
    FirstChild(2 * network, c);
    Halves(network, c);
    RunSplits(counts, (2 * network) * c, c, c);
  }

  function ChildLength(length: nat): nat {
    if length > 8 then 16 else 8
  }

  lemma PrefixCountIsRun(history: seq<Span>, network: nat, length: nat, c: nat)
    requires length < 16 && !IsCounted(length) && c == Pow2(ChildLength(length) - length)
    ensures network * c >= 0 && PrefixCount(history, network, length) == Run(Counter(history, ChildLength(length)), network * c, c)
  {
    FirstChild(network, c);
  }

  /** The figures of a half, as those of its buckets in a row: one bucket when its length is
      itself counted. */
  lemma HalfIsRun(history: seq<Span>, network: nat, length: nat, c: nat)
    requires length < 16 && !IsCounted(length) && c == Pow2(ChildLength(length) - length - 1)
    ensures network * c >= 0 && PrefixCount(history, network, length + 1) == Run(Counter(history, ChildLength(length)), network * c, c)
  {
    FirstChild(network, c);
    if IsCounted(length + 1) {
      assert c == 1;
      OneBucket(Counter(history, ChildLength(length)), network);
    } else {
      PrefixCountIsRun(history, network, length + 1, c);
    }
  }

  /** Between the counted lengths a prefix's figures are the sum of its two halves'. */
  lemma HalvesAddUp(history: seq<Span>, network: nat, length: nat)
    requires length < 16 && !IsCounted(length)
    ensures PrefixCount(history, network, length) ==
            Plus(PrefixCount(history, 2 * network, length + 1), PrefixCount(history, 2 * network + 1, length + 1))
  {
    var c, d := Pow2(ChildLength(length) - length - 1), Pow2(ChildLength(length) - length);
    PrefixCountIsRun(history, network, length, d);
    HalfIsRun(history, 2 * network, length, c);
    HalfIsRun(history, 2 * network + 1, length, c);
    RunHalves(Counter(history, ChildLength(length)), network, c, d);
  }

  // ---------- records and buckets ----------

  function Once(route: bool, n: nat): Item {
    if route then Item(0, n) else Item(n, 0)
  }

  /** How many of n buckets in a row a range overlaps. */
  function Touches(s: Span, first: nat, n: nat, length: nat): nat
    requires length <= 32
  {
    if n == 0 then 0 else Touches(s, first, n - 1, length) + if Overlaps(s, SummaryKey(first + n - 1, length)) then 1 else 0
  }

  /** Record by record, how many buckets each overlaps. */
  function Incidences(history: seq<Span>, first: nat, n: nat, length: nat): Item
    requires length <= 32
  {
    if history == [] then Item(0, 0) else
      var s := history[|history| - 1];
      Plus(Incidences(history[..|history| - 1], first, n, length), Once(s.route, Touches(s, first, n, length)))
  }

  lemma CountOneMore(history: seq<Span>, s: Span, network: nat, length: nat)
    requires length <= 32
    ensures Counter(history + [s], length)(network) ==
            Plus(Counter(history, length)(network), Once(s.route, if Overlaps(s, SummaryKey(network, length)) then 1 else 0))
  {
    assert (history + [s])[..|history + [s]| - 1] == history;
  }

  lemma {:induction false} RunAdds(f: nat -> Item, g: nat -> Item, h: nat -> Item, first: nat, n: nat)
    requires forall i :: first <= i < first + n ==> f(i) == Plus(g(i), h(i))
    ensures Run(f, first, n) == Plus(Run(g, first, n), Run(h, first, n))
  {
    if n > 0 {
      RunAdds(f, g, h, first, n - 1);
    }
  }

  function Toucher(s: Span, length: nat): nat -> Item
    requires length <= 32
  {
    (network: nat) => Once(s.route, if Overlaps(s, SummaryKey(network, length)) then 1 else 0)
  }

  lemma TouchOnce(s: Span, network: nat, length: nat)
    requires length <= 32
    ensures Toucher(s, length)(network) == Once(s.route, if Overlaps(s, SummaryKey(network, length)) then 1 else 0)
  {
  }

  lemma {:induction false} RunOfToucher(s: Span, first: nat, n: nat, length: nat)
    requires length <= 32
    ensures Run(Toucher(s, length), first, n) == Once(s.route, Touches(s, first, n, length))
  {
    if n > 0 {
      RunOfToucher(s, first, n - 1, length);
      TouchOnce(s, first + n - 1, length);
    }
  }

  lemma RunOfOneMore(history: seq<Span>, s: Span, first: nat, n: nat, length: nat)
    requires length <= 32
    ensures Run(Counter(history + [s], length), first, n) ==
            Plus(Run(Counter(history, length), first, n), Once(s.route, Touches(s, first, n, length)))
  {
    var f, g, h := Counter(history + [s], length), Counter(history, length), Toucher(s, length);
    forall i | first <= i < first + n
      ensures f(i) == Plus(g(i), h(i))
    {
      CountOneMore(history, s, i, length);
    }
    RunAdds(f, g, h, first, n);
    RunOfToucher(s, first, n, length);
  }

  lemma {:induction false} RunOfNothing(first: nat, n: nat, length: nat)
    requires length <= 32
    ensures Run(Counter([], length), first, n) == Item(0, 0)
  {
    if n > 0 {
      RunOfNothing(first, n - 1, length);
    }
  }

  /** Between the counted lengths the figures count pairs of a record and a bucket below the
      prefix that it overlaps. */
  lemma {:induction false} RunIsIncidences(history: seq<Span>, first: nat, n: nat, length: nat)
    requires length <= 32
    ensures Run(Counter(history, length), first, n) == Incidences(history, first, n, length)
  {
    if history == [] {
      RunOfNothing(first, n, length);
    } else {
      var rest, s := history[..|history| - 1], history[|history| - 1];
      assert history == rest + [s];
      RunIsIncidences(rest, first, n, length);
      RunOfOneMore(rest, s, first, n, length);
    }
  }

  /** How often one record is counted: once for each bucket between its first and its last that
      lies below the prefix. */
  lemma {:induction false} TouchesIsInterval(s: Span, first: nat, n: nat, length: nat)
    requires length <= 32 && ValidSpan(s)
    ensures var lo, hi := Bucket(s.start, length), Bucket(s.last, length);
      var from, to := (if lo < first then first else lo), (if hi < first + n then hi + 1 else first + n);
      Touches(s, first, n, length) == if from < to then to - from else 0
  {
    if n > 0 {
      TouchesIsInterval(s, first, n - 1, length);
      OverlapIsInterval(s, first + n - 1, length);
    }
    BucketOrder(s, length);
  }

  lemma BucketOrder(s: Span, length: nat)
    requires length <= 32 && s.start <= s.last
    ensures Bucket(s.start, length) <= Bucket(s.last, length)
  {
    var p := Pow2(32 - length);
    BucketBounds(s.start, p, Bucket(s.last, length));
    BucketBounds(s.last, p, Bucket(s.last, length));
  }
}
