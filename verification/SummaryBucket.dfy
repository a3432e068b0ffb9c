/** The materialized summaries as a whole: what is counted, written under each key in key order,
    and read back by a range query. */
module SummaryBucket {
  import opened Bytes
  import opened Words
  import opened Addresses
  import opened Cover
  import opened PointIndex
  import opened Summaries
  import SummaryCounts
  import opened Records
  import opened SummaryMeaning
  import Facets

  type History = seq<SummaryCounts.Span>

  /** The values are no longer than a text can be. */
  ghost predicate AllFit(history: History) {
    forall i :: 0 <= i < |history| ==> FitsText(history[i].value)
  }

  /** The largest signed 64-bit integer, and one. */
  const MAX_LONG := 0x8000_0000 * 0x1_0000_0000

  // ---------- the summary of a prefix ----------

  function NetworkOf(b: Block): nat {
    SummaryCounts.Quotient(b.base, Size(b))
  }

  lemma NetworkOfPrefix(network: nat, depth: nat)
    ensures NetworkOf(PrefixBlock(network, depth)) == network
  {
    var p := Pow2(DEEPEST + depth);
    DivUnique(network * p, p, network, 0);
  }

  /** The summary of a block: of the prefix that it is. */
  ghost function BlockSummary(history: History, b: Block): RangeSummary
    requires DEEPEST <= b.exp <= 32
  {
    SummaryCounts.SummaryOf(history, NetworkOf(b), 32 - b.exp)
  }

  function Encoded(s: RangeSummary): seq<Byte> {
    if |s.countries| <= MAX_UINT32 && |s.asns| <= MAX_UINT32 then EncodeSummary(s) else []
  }

  ghost function ValueFor(history: History, b: Block): seq<Byte> {
    if DEEPEST <= b.exp <= 32 then Encoded(BlockSummary(history, b)) else []
  }

  ghost function Valuer(history: History): Block -> seq<Byte> {
    b => ValueFor(history, b)
  }

  ghost function ValuesFor(history: History, blocks: seq<Block>): (values: seq<seq<Byte>>)
    ensures |values| == |blocks|
  {
    ForEach(Valuer(history), blocks)
  }

  function ForEach(f: Block -> seq<Byte>, blocks: seq<Block>): (values: seq<seq<Byte>>)
    ensures |values| == |blocks|
  {
    seq(|blocks|, i requires 0 <= i < |blocks| => f(blocks[i]))
  }

  lemma ForEachAppend(f: Block -> seq<Byte>, l: seq<Block>, r: seq<Block>)
    ensures ForEach(f, l + r) == ForEach(f, l) + ForEach(f, r)
  {
  }

  // ---------- figures fit their bytes ----------

  lemma {:induction false} CountBounded(history: History, key: SummaryCounts.SummaryKey)
    requires key.length <= 32
    ensures SummaryCounts.Count(history, key).allocations <= |history| && SummaryCounts.Count(history, key).routes <= |history|
  {
    if history != [] {
      CountBounded(history[..|history| - 1], key);
    }
  }

  lemma {:induction false} RunBounded(history: History, length: nat, first: nat, n: nat)
    requires length <= 32
    ensures var run := SummaryCounts.Run(SummaryCounts.Counter(history, length), first, n);
      run.allocations <= n * |history| && run.routes <= n * |history|
  {
    if n > 0 {
      RunBounded(history, length, first, n - 1);
      CountBounded(history, SummaryCounts.SummaryKey(first + n - 1, length));
      OneMoreTime(n - 1, |history|);
    }
  }

  lemma OneMoreTime(n: nat, m: nat)
    ensures (n + 1) * m == n * m + m
  {
  }

  /** A prefix has at most 128 buckets below it, so its figures need seven bits more than the
      number of records: they are no larger than a signed 64-bit integer either. */
  lemma FiguresFit(history: History, network: nat, length: nat)
    requires length <= DEEPEST && |history| <= 2 * MAX_UINT32
    ensures var count := SummaryCounts.PrefixCount(history, network, length);
      count.allocations < MAX_LONG && count.routes < MAX_LONG && FitsLong(count.allocations) && FitsLong(count.routes)
  {
    Pow2Of64();
    if SummaryCounts.IsCounted(length) {
      CountBounded(history, SummaryCounts.SummaryKey(network, length));
    } else {
      var child := SummaryCounts.ChildLength(length);
      var c := Pow2(child - length);
      SummaryCounts.PrefixCountIsRun(history, network, length, c);
      RunBounded(history, child, network * c, c);
      FewBuckets(child - length);
      FewTimes(c, |history|);
    }
  }

  /** So do the counts of its facets. */
  lemma FacetsFit(history: History, network: nat, length: nat, route: bool)
    requires length <= DEEPEST && |history| <= 2 * MAX_UINT32 && AllFit(history)
    ensures FitsFacets(Facets.Ranking(SummaryCounts.PrefixTally(history, network, length, route)))
    ensures Facets.Bounded(SummaryCounts.PrefixTally(history, network, length, route), MAX_LONG - 1)
  {
    var t := SummaryCounts.PrefixTally(history, network, length, route);
    Pow2Of64();
    if SummaryCounts.IsCounted(length) {
      TallyBounded(history, SummaryCounts.SummaryKey(network, length), route);
    } else {
      var child := SummaryCounts.ChildLength(length);
      var c := Pow2(child - length);
      SummaryCounts.FirstChild(network, c);
      forall i: nat
        ensures Facets.Bounded(SummaryCounts.Tallier(history, child, route)(i), |history|)
      {
        TallyBounded(history, SummaryCounts.SummaryKey(i, child), route);
      }
      Facets.MergedBounded(SummaryCounts.Tallier(history, child, route), SummaryCounts.Ranker(history, child, route), network * c, c, |history|);
      FewBuckets(child - length);
      FewTimes(c, |history|);
    }
    Facets.RankingFits(t, MAX_LONG - 1);
  }

  lemma {:induction false} TallyBounded(history: History, key: SummaryCounts.SummaryKey, route: bool)
    requires key.length <= 32 && AllFit(history)
    ensures Facets.Bounded(SummaryCounts.TallyOf(history, key, route), |history|)
  {
    if history != [] {
      TallyBounded(history[..|history| - 1], key, route);
    }
  }

  lemma Pow2Of64()
    ensures Pow2(64) == 0x1_0000_0000 * 0x1_0000_0000
  {
    Pow2Of32();
    Pow2Add(32, 32);
  }

  lemma FewBuckets(n: nat)
    requires n <= 7
    ensures Pow2(n) <= 128
  {
    assert Pow2(7) == 128;
    if n < 7 {
      Pow2Monotone(n, 7);
    }
  }

  lemma FewTimes(c: nat, m: nat)
    requires c <= 128
    ensures c * m <= 128 * m
  {
  }

  /** So the value of a prefix decodes to its figures and facets. */
  lemma ValueComesBack(history: History, b: Block)
    requires DEEPEST <= b.exp <= 32 && |history| <= 2 * MAX_UINT32 && AllFit(history)
    ensures DecodeSummary(ValueFor(history, b)) == Some(BlockSummary(history, b))
  {
    var s := BlockSummary(history, b);
    FiguresFit(history, NetworkOf(b), 32 - b.exp);
    FacetsFit(history, NetworkOf(b), 32 - b.exp, false);
    FacetsFit(history, NetworkOf(b), 32 - b.exp, true);
    SummaryRoundTrip(s);
  }

  // ---------- the writer ----------

  lemma ValuesAppend(history: History, l: seq<Block>, r: seq<Block>)
    ensures ValuesFor(history, l + r) == ValuesFor(history, l) + ValuesFor(history, r)
  {
    ForEachAppend(Valuer(history), l, r);
  }

  lemma ValuesJoin(history: History, before: seq<seq<Byte>>, b: Block, l: seq<Block>, r: seq<Block>)
    ensures before + [ValueFor(history, b)] + ValuesFor(history, l) + ValuesFor(history, r) ==
            before + ValuesFor(history, [b] + (l + r))
  {
    ValuesAppend(history, [b], l + r);
    ValuesAppend(history, l, r);
    assert ValuesFor(history, [b]) == [ValueFor(history, b)];
  }

  /** The bucket while it is written: keys in the order they are put, each with its value. */
  datatype Bucket = Bucket(keys: seq<StoreKey>, values: seq<seq<Byte>>)

  /** What a call of the writer appends for the prefixes it visits. */
  ghost predicate Wrote(before: Bucket, after: Bucket, history: History, blocks: seq<Block>) {
    && after.keys == before.keys + KeysFor(blocks)
    && after.values == before.values + ValuesFor(history, blocks)
  }

  lemma WroteOwn(before: Bucket, put: Bucket, history: History, b: Block)
    requires put == Bucket(before.keys + [KeyFor(b)], before.values + [ValueFor(history, b)])
    ensures true == Wrote(before, put, history, [b])
  {
    assert KeysFor([b]) == [KeyFor(b)] && ValuesFor(history, [b]) == [ValueFor(history, b)];
  }

  lemma WroteAll(before: Bucket, put: Bucket, left: Bucket, after: Bucket, history: History, b: Block, l: seq<Block>, r: seq<Block>)
    requires true == Wrote(before, put, history, [b]) && true == Wrote(put, left, history, l)
    requires true == Wrote(left, after, history, r)
    ensures true == Wrote(before, after, history, [b] + (l + r))
  {
    assert KeysFor([b]) == [KeyFor(b)] && ValuesFor(history, [b]) == [ValueFor(history, b)];
    KeysJoin(before.keys, b, l, r);
    ValuesJoin(history, before.values, b, l, r);
  }

  /** Puts the summary of one prefix. */
  method PutSummary(build: SummaryCounts.Builder, before: Bucket, network: nat, depth: nat) returns (put: Bucket)
    requires true == build.Valid() && depth <= DEEPEST
    ensures true == Wrote(before, put, build.history, [PrefixBlock(network, depth)])
  {
    var b := PrefixBlock(network, depth);
    NetworkOfPrefix(network, depth);
    var summary := build.SummaryForPrefix(network, DEEPEST - depth);
    put := Bucket(before.keys + [KeyFor(b)], before.values + [Encoded(summary)]);
    WroteOwn(before, put, build.history, b);
  }

  lemma WroteLeaf(before: Bucket, put: Bucket, history: History, network: nat)
    requires true == Wrote(before, put, history, [PrefixBlock(network, 0)])
    ensures true == Wrote(before, put, history, Preorder(network, 0))
  {
    PreorderParts(network, 0);
    assert [PrefixBlock(network, 0)] + ([] + []) == [PrefixBlock(network, 0)];
  }

  lemma WroteTree(before: Bucket, put: Bucket, left: Bucket, after: Bucket, history: History, network: nat, depth: nat)
    requires depth > 0 && true == Wrote(before, put, history, [PrefixBlock(network, depth)])
    requires true == Wrote(put, left, history, Preorder(2 * network, depth - 1))
    requires true == Wrote(left, after, history, Preorder(2 * network + 1, depth - 1))
    ensures true == Wrote(before, after, history, Preorder(network, depth))
  {
    PreorderParts(network, depth);
    WroteAll(before, put, left, after, history, PrefixBlock(network, depth),
             Preorder(2 * network, depth - 1), Preorder(2 * network + 1, depth - 1));
  }

  /** One recursive call of the writer: it puts its own prefix, then what lies below it. */
  method WriteSummary(build: SummaryCounts.Builder, before: Bucket, network: nat, depth: nat) returns (bucket: Bucket)
    requires true == build.Valid() && depth <= DEEPEST
    ensures true == Wrote(before, bucket, build.history, Preorder(network, depth))
    decreases depth
  {
    var put := PutSummary(build, before, network, depth);
    if depth == 0 {
      WroteLeaf(before, put, build.history, network);
      return put;
    }
    var left := WriteSummary(build, put, 2 * network, depth - 1);
    bucket := WriteSummary(build, left, 2 * network + 1, depth - 1);
    WroteTree(before, put, left, bucket, build.history, network, depth);
  }

  /** Under the key of the block lies its encoded summary. */
  ghost predicate Tells(bucket: Bucket, history: History, b: Block) {
    && b.exp <= 32 && |bucket.keys| == |bucket.values|
    && exists i :: 0 <= i < |bucket.keys| && bucket.keys[i] == PrefixKey(V4, b) && bucket.values[i] == ValueFor(history, b)
  }

  /** Keys are sorted, there is one for every IPv4 prefix of at most 16 bits and no other, and each
      value is the encoded summary of its prefix. */
  ghost predicate IsSummaries(bucket: Bucket, history: History) {
    && |bucket.keys| == |bucket.values| && IsSummaryBucket(bucket.keys)
    && forall b :: IsSummaryBlock(b) ==> Tells(bucket, history, b)
  }

  lemma WrittenTells(history: History, network: nat, depth: nat, b: Block)
    requires IsBelow(b, PrefixBlock(network, depth)) && b.exp <= 32
    ensures Tells(Bucket(KeysFor(Preorder(network, depth)), ValuesFor(history, Preorder(network, depth))), history, b)
  {
    var blocks := Preorder(network, depth);
    PreorderHasAll(network, depth, b);
    var i :| 0 <= i < |blocks| && blocks[i] == b;
    assert KeysFor(blocks)[i] == PrefixKey(V4, b) && ValuesFor(history, blocks)[i] == ValueFor(history, b);
  }

  lemma TreeIsSummaries(history: History, network: nat, depth: nat)
    requires depth <= DEEPEST && true == IsRoot(PrefixBlock(network, depth))
    ensures true == IsSummaries(Bucket(KeysFor(Preorder(network, depth)), ValuesFor(history, Preorder(network, depth))), history)
  {
    TreeIsBucket(network, depth);
    forall b | IsSummaryBlock(b)
      ensures Tells(Bucket(KeysFor(Preorder(network, depth)), ValuesFor(history, Preorder(network, depth))), history, b)
    {
      WrittenTells(history, network, depth, b);
    }
  }

  /** The whole bucket: 2^17 - 1 prefixes in ascending key order, each with its summary. */
  method WriteSummaries(build: SummaryCounts.Builder) returns (bucket: Bucket)
    requires build.Valid()
    ensures |bucket.keys| == Pow2(17) - 1 && true == IsSummaries(bucket, build.history)
  {
    var network, depth := 0, DEEPEST;
    RootIsWhole(network, depth);
    bucket := WriteTree(build, network, depth);
  }

  method WriteTree(build: SummaryCounts.Builder, network: nat, depth: nat) returns (bucket: Bucket)
    requires build.Valid()
    requires depth <= DEEPEST && true == IsRoot(PrefixBlock(network, depth))
    ensures |bucket.keys| == Pow2(depth + 1) - 1 && true == IsSummaries(bucket, build.history)
  {
    bucket := WriteSummary(build, Bucket([], []), network, depth);
    PreorderCount(network, depth);
    TreeIsSummaries(build.history, network, depth);
    assert bucket == Bucket(KeysFor(Preorder(network, depth)), ValuesFor(build.history, Preorder(network, depth)));
  }

  // ---------- the query ----------

  datatype Answer = NotEligible | Missing | Corrupt | Summary(value: RangeSummary)

  /** The facets of the one value read are tallied and ranked again, which changes nothing. */
  method RankedAgain(item: RangeSummary, ghost history: History, ghost b: Block) returns (answer: RangeSummary)
    requires DEEPEST <= b.exp <= 32 && item == BlockSummary(history, b)
    ensures answer == item
  {
    var countries := Facets.Merge(map[], item.countries);
    var asns := Facets.Merge(map[], item.asns);
    var rankedCountries := Facets.RankedFacets(countries);
    var rankedAsns := Facets.RankedFacets(asns);
    answer := item.(countries := rankedCountries, asns := rankedAsns);
    Facets.RankingIsStable(SummaryCounts.PrefixTally(history, NetworkOf(b), 32 - b.exp, false));
    Facets.RankingIsStable(SummaryCounts.PrefixTally(history, NetworkOf(b), 32 - b.exp, true));
  }

  /** The summary of a range is one Get under the key of the prefix that it is. */
  method LookupRangeSummary(bucket: Bucket, start: nat, last: nat, v: Version, ghost history: History)
    returns (r: Answer, ghost b: Block)
    requires last < Pow2(Width(v)) && IsSummaries(bucket, history)
    requires |history| <= 2 * MAX_UINT32 && AllFit(history)
    ensures r.NotEligible? <==> !(v.V4? && IsSummaryRange(start, last))
    ensures !r.NotEligible? ==> IsSummaryBlock(b) && b.base == start && End(b) == last + 1
    ensures !r.NotEligible? ==> r == Summary(BlockSummary(history, b)) && true == Summarizes(r.value, history, b)
  {
    SummaryKeyWasWritten(start, last, v, bucket.keys);
    var key := SummaryKey(start, last, v);
    b := Block(0, 0);
    if key.None? {
      return NotEligible, b;
    }
    b := SummaryBlock(start, last, v);
    assert Tells(bucket, history, b);
    ghost var j :| 0 <= j < |bucket.keys| && bucket.keys[j] == key.value && bucket.values[j] == ValueFor(history, b);
    SeekFinds(bucket.keys, j);
    ValueComesBack(history, b);
    var i := Seek(bucket.keys, key.value);
    if i == |bucket.keys| || bucket.keys[i] != key.value {
      return Missing, b;
    }
    var decoded := DecodeSummary(bucket.values[i]);
    if decoded.None? {
      return Corrupt, b;
    }
    var answer := RankedAgain(decoded.value, history, b);
    BlockSummaryMeans(history, b);
    r := Summary(answer);
  }

  /** The summary of a block tells the records in it. */
  lemma BlockSummaryMeans(history: History, b: Block)
    requires IsSummaryBlock(b)
    ensures true == Summarizes(BlockSummary(history, b), history, b)
  {
    BlockOfNetwork(b);
    SummaryMeans(history, NetworkOf(b), 32 - b.exp);
  }

  lemma BlockOfNetwork(b: Block)
    requires Aligned(b)
    ensures BlockOf(NetworkOf(b), b.exp) == b
  {
    var q, p := NetworkOf(b), Size(b);
    assert b.base == p * q + b.base % p;
  }

  /** So what a written bucket has under the key of a prefix tells the records in it. */
  lemma WrittenMeans(bucket: Bucket, history: History, b: Block) returns (i: nat)
    requires IsSummaries(bucket, history) && |history| <= 2 * MAX_UINT32 && AllFit(history) && IsSummaryBlock(b)
    ensures i < |bucket.keys| == |bucket.values| && bucket.keys[i] == PrefixKey(V4, b)
    ensures DecodeSummary(bucket.values[i]).Some? && true == Summarizes(DecodeSummary(bucket.values[i]).value, history, b)
  {
    assert Tells(bucket, history, b);
    i :| 0 <= i < |bucket.keys| && bucket.keys[i] == PrefixKey(V4, b) && bucket.values[i] == ValueFor(history, b);
    ValueComesBack(history, b);
    BlockSummaryMeans(history, b);
  }

  /** The range is an IPv4 prefix of at most 16 bits: 2^e addresses from a multiple of 2^e on. */
  predicate IsPrefixRange(start: nat, last: nat, e: nat) {
    16 <= e <= 32 && start % Pow2(e) == 0 && last + 1 == start + Pow2(e)
  }

  lemma PrefixRangeIsSummaryRange(start: nat, last: nat, v: Version)
    requires last < Pow2(Width(v))
    ensures v.V4? ==> (IsSummaryRange(start, last) <==> exists e: nat :: IsPrefixRange(start, last, e))
    ensures forall b :: IsSummaryBlock(b) && b.base == start && End(b) == last + 1 ==> IsPrefixRange(start, last, b.exp)
  {
    if v.V4? {
      if e: nat :| IsPrefixRange(start, last, e) {
        assert IsSummaryBlock(Block(start, e));
      }
      if b :| IsSummaryBlock(b) && b.base == start && End(b) == last + 1 {
        assert IsPrefixRange(start, last, b.exp);
      }
    }
  }

  method CollectAll(spans: History) returns (build: SummaryCounts.Builder)
    ensures fresh(build) && build.Valid() && build.history == spans
  {
    build := new SummaryCounts.Builder();
    for i := 0 to |spans|
      invariant fresh(build) && build.Valid() && build.history == spans[..i]
    {
      build.Collect(spans[i]);
    }
  }

  /** From records to the summary of a range: count, write every prefix, look the range up. */
  method AnswerSummary(spans: History, start: nat, last: nat, v: Version) returns (r: Answer, ghost b: Block)
    requires |spans| <= 2 * MAX_UINT32 && AllFit(spans) && last < Pow2(Width(v))
    ensures r.NotEligible? <==> !(v.V4? && exists e: nat :: IsPrefixRange(start, last, e))
    ensures !r.NotEligible? ==> IsSummaryBlock(b) && IsPrefixRange(start, last, b.exp) && b.base == start
    ensures !r.NotEligible? ==> r == Summary(BlockSummary(spans, b)) && true == Summarizes(r.value, spans, b)
  {
    PrefixRangeIsSummaryRange(start, last, v);
    var build := CollectAll(spans);
    var bucket := WriteSummaries(build);
    r, b := LookupRangeSummary(bucket, start, last, v, spans);
    if !r.NotEligible? {
      BlockSummaryMeans(spans, b);
    }
  }

  lemma SeekFinds(keys: seq<StoreKey>, j: nat)
    requires Sorted(keys) && j < |keys|
    ensures Seek(keys, keys[j]) == j
  {
    var i := Seek(keys, keys[j]);
    LexIrreflexive(keys[j]);
    assert i < j ==> Precedes(keys, i, j);
    if i > j {
      BeforeSeekOn(keys, keys[j], j);
    }
  }
}
