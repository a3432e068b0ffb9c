/** Point lookup in its two forms. The compact form asks the selectors; the full form scans the
    index, reads at most 64 records and selects again. */
module Lookup {
  import opened Bytes
  import opened Words
  import opened Addresses
  import opened Cover
  import opened Sources
  import opened Mapped
  import opened PointIndex
  import opened MappedIndex
  import RouteSelector
  import RangeSelector

  const MAX_CANDIDATES := 64

  // ---------- routes ----------

  datatype Route = Route(id: Word, length: nat)

  /** The stored prefix length of each route record, by ID. */
  ghost predicate AreRoutes(lengths: seq<nat>, ss: seq<Source>) {
    && ValidSources(ss) && |lengths| == |ss|
    && forall i :: 0 <= i < |ss| ==> IsRoute(ss[i], lengths[i])
  }

  ghost predicate IsRoute(s: Source, length: nat) {
    |s.blocks| == 1 && length <= Width(s.version) && s.blocks[0].exp == Width(s.version) - length
  }

  function ReadRoutes(lengths: seq<nat>, ids: seq<Word>): (routes: seq<Route>)
    requires forall i :: 0 <= i < |ids| ==> 1 <= ids[i] <= |lengths|
    ensures |routes| == |ids| && forall i :: 0 <= i < |ids| ==> routes[i] == Route(ids[i], lengths[ids[i] - 1])
  {
    seq(|ids|, i requires 0 <= i < |ids| && 1 <= ids[i] <= |lengths| => Route(ids[i], lengths[ids[i] - 1]))
  }

  function WithLength(values: seq<Route>, length: nat): seq<Route> {
    if values == [] then []
    else if values[|values| - 1].length == length then WithLength(values[..|values| - 1], length) + [values[|values| - 1]]
    else WithLength(values[..|values| - 1], length)
  }

  function GreatestLength(values: seq<Route>): nat {
    if values == [] then 0 else
      var rest := GreatestLength(values[..|values| - 1]);
      if values[|values| - 1].length > rest then values[|values| - 1].length else rest
  }

  lemma {:induction false} GreatestIsGreatest(values: seq<Route>)
    ensures IsGreatestLength(values, GreatestLength(values))
  {
    if values != [] {
      var n := |values| - 1;
      GreatestIsGreatest(values[..n]);
      if n > 0 {
        var j :| 0 <= j < n && values[..n][j].length == GreatestLength(values[..n]);
        assert values[j].length == GreatestLength(values[..n]);
      }
      assert forall i :: 0 <= i < n ==> values[i] == values[..n][i];
    }
  }

  /** The routes of greatest length, in their order. */
  method NarrowestRoutes(values: seq<Route>) returns (result: seq<Route>)
    ensures result == WithLength(values, GreatestLength(values))
  {
    result := [];
    if values == [] {
      return;
    }
    var bestLength := values[0].length;
    assert values[..1][..0] == [];
    for i := 1 to |values|
      invariant bestLength == GreatestLength(values[..i])
    {
      assert values[..i + 1][..i] == values[..i];
      if values[i].length > bestLength {
        bestLength := values[i].length;
      }
    }
    assert values[..|values|] == values;
    for i := 0 to |values|
      invariant result == WithLength(values[..i], bestLength)
    {
      assert values[..i + 1][..i] == values[..i];
      if values[i].length == bestLength {
        result := result + [values[i]];
      }
    }
  }

  /** When the first k have the length and the rest do not, those k are selected. */
  lemma {:induction false} LengthPrefix(values: seq<Route>, length: nat, k: nat)
    requires k <= |values|
    requires forall i :: 0 <= i < |values| ==> (values[i].length == length <==> i < k)
    ensures WithLength(values, length) == values[..k]
  {
    if values != [] {
      var n := |values| - 1;
      if k <= n {
        LengthPrefix(values[..n], length, k);
        assert values[..n][..k] == values[..k];
      } else {
        LengthPrefix(values[..n], length, n);
        assert values[..n][..n] + [values[n]] == values[..k];
      }
    }
  }

  /** What both forms select: of the routes with the longest prefix the first 64 IDs. */
  ghost predicate IsRouteSelection(routes: seq<Route>, longest: seq<Word>, lengths: seq<nat>, ss: seq<Source>, v: Version, x: nat)
    requires ValidSources(ss)
  {
    && IsLongestHits(longest, ss, v, x)
    && (forall i :: 0 <= i < |longest| ==> 1 <= longest[i] <= |lengths|)
    && routes == ReadRoutes(lengths, Limited(longest, 64))
  }

  ghost predicate IsSelected(routes: seq<Route>, lengths: seq<nat>, ss: seq<Source>, v: Version, x: nat)
    requires ValidSources(ss)
  {
    exists longest: seq<Word> :: IsRouteSelection(routes, longest, lengths, ss, v, x)
  }

  /** The component size of every record that contains x. */
  ghost function HitSizes(ss: seq<Source>, v: Version, x: nat): map<nat, nat>
    requires ValidSources(ss)
  {
    map id: nat | 1 <= id <= |ss| && IsHit(ss, v, x, id) :: ExpAt(ss[id - 1], x)
  }

  ghost predicate OrderedBySize(m: seq<Word>, sizes: map<nat, nat>) {
    && (forall i :: 0 <= i < |m| ==> m[i] in sizes)
    && (forall i, j :: 0 <= i < j < |m| ==> sizes[m[i]] < sizes[m[j]] || (sizes[m[i]] == sizes[m[j]] && m[i] < m[j]))
    && (forall id :: id in sizes ==> id in m)
  }

  ghost predicate IsLeast(id: nat, sizes: map<nat, nat>) {
    id in sizes && forall other :: other in sizes ==> sizes[id] <= sizes[other]
  }

  lemma MatchesOrdered(m: seq<Word>, ss: seq<Source>, v: Version, x: nat)
    requires ValidSources(ss) && InMatchOrder(m, ss, v, x)
    ensures true == OrderedBySize(m, HitSizes(ss, v, x))
  {
    var sizes := HitSizes(ss, v, x);
    forall i | 0 <= i < |m|
      ensures m[i] in sizes
    {
      assert m[i] in m;
    }
    forall i, j | 0 <= i < j < |m|
      ensures sizes[m[i]] < sizes[m[j]] || (sizes[m[i]] == sizes[m[j]] && m[i] < m[j])
    {
      assert Before(ss, v, x, m[i], m[j]);
    }
  }

  lemma LongestIsLeast(ss: seq<Source>, v: Version, x: nat, id: nat)
    requires ValidSources(ss)
    ensures IsLongestHit(ss, v, x, id) <==> IsLeast(id, HitSizes(ss, v, x))
  {
    var sizes := HitSizes(ss, v, x);
    if IsLongestHit(ss, v, x, id) {
      forall other | other in sizes
        ensures sizes[id] <= sizes[other]
      {
        assert IsHit(ss, v, x, other);
      }
    }
    if IsLeast(id, sizes) {
      assert IsHit(ss, v, x, id);
      forall other | IsHit(ss, v, x, other)
        ensures ExpAt(ss[id - 1], x) <= ExpAt(ss[other - 1], x)
      {
        assert other in sizes;
      }
    }
  }

  /** How many of the first n matches have the size of the first. */
  ghost function Lead(m: seq<Word>, sizes: map<nat, nat>, n: nat): (k: nat)
    requires OrderedBySize(m, sizes) && n <= |m|
    ensures k <= n && (n > 0 ==> k > 0)
    ensures forall i :: 0 <= i < k ==> sizes[m[i]] == sizes[m[0]]
    ensures k < n ==> sizes[m[k]] != sizes[m[0]]
  {
    if n == 0 then 0 else
      var k := Lead(m, sizes, n - 1);
      if k == n - 1 && sizes[m[k]] == sizes[m[0]] then n else k
  }

  lemma LeadExact(m: seq<Word>, sizes: map<nat, nat>, i: nat)
    requires OrderedBySize(m, sizes) && i < |m|
    ensures sizes[m[0]] <= sizes[m[i]] && (sizes[m[i]] == sizes[m[0]] <==> i < Lead(m, sizes, |m|))
  {
    var k := Lead(m, sizes, |m|);
    if 0 < k < i {
      assert sizes[m[0]] < sizes[m[k]] <= sizes[m[i]];
    }
  }

  /** The leading matches are exactly those of least size. */
  lemma LeadIsLeast(m: seq<Word>, sizes: map<nat, nat>, id: nat)
    requires OrderedBySize(m, sizes)
    ensures id in m[..Lead(m, sizes, |m|)] <==> IsLeast(id, sizes)
  {
    var lead := m[..Lead(m, sizes, |m|)];
    if id in lead {
      var i :| 0 <= i < |lead| && lead[i] == id;
      forall other | other in sizes
        ensures sizes[id] <= sizes[other]
      {
        var j :| 0 <= j < |m| && m[j] == other;
        LeadExact(m, sizes, j);
      }
    }
    if IsLeast(id, sizes) {
      var j :| 0 <= j < |m| && m[j] == id;
      LeadExact(m, sizes, j);
      assert lead[j] == id;
    }
  }

  /** Of the records of least size the first 64 IDs. */
  ghost predicate SelectsLeast(routes: seq<Route>, least: seq<Word>, lengths: seq<nat>, sizes: map<nat, nat>) {
    && Ascending(least) && (forall id :: id in least <==> IsLeast(id, sizes))
    && (forall i :: 0 <= i < |least| ==> 1 <= least[i] <= |lengths|)
    && routes == ReadRoutes(lengths, Limited(least, 64))
  }

  ghost predicate IsLeastSelection(routes: seq<Route>, lengths: seq<nat>, sizes: map<nat, nat>) {
    exists least: seq<Word> :: SelectsLeast(routes, least, lengths, sizes)
  }

  /** Least by component size is longest by prefix. */
  lemma LeastIsSelected(routes: seq<Route>, lengths: seq<nat>, ss: seq<Source>, v: Version, x: nat)
    requires ValidSources(ss)
    ensures IsLeastSelection(routes, lengths, HitSizes(ss, v, x)) <==> IsSelected(routes, lengths, ss, v, x)
  {
    forall id: nat
      ensures IsLongestHit(ss, v, x, id) <==> IsLeast(id, HitSizes(ss, v, x))
    {
      LongestIsLeast(ss, v, x, id);
    }
    if longest: seq<Word> :| IsRouteSelection(routes, longest, lengths, ss, v, x) {
      assert SelectsLeast(routes, longest, lengths, HitSizes(ss, v, x));
    }
    if least: seq<Word> :| SelectsLeast(routes, least, lengths, HitSizes(ss, v, x)) {
      assert IsRouteSelection(routes, least, lengths, ss, v, x);
    }
  }

  lemma LeadAscends(m: seq<Word>, sizes: map<nat, nat>)
    requires OrderedBySize(m, sizes)
    ensures Ascending(m[..Lead(m, sizes, |m|)])
  {
  }

  /** A value is the greatest length in a list. */
  ghost predicate IsGreatestLength(values: seq<Route>, best: nat) {
    && (forall i :: 0 <= i < |values| ==> values[i].length <= best)
    && (values != [] ==> exists i :: 0 <= i < |values| && values[i].length == best)
  }

  /** The length of a route and the size of its block make up the width. */
  ghost predicate Complement(values: seq<Route>, m: seq<Word>, sizes: map<nat, nat>, width: nat) {
    |values| <= |m| && forall i :: 0 <= i < |values| ==> m[i] in sizes && values[i].length + sizes[m[i]] == width
  }

  lemma RouteLength(lengths: seq<nat>, ss: seq<Source>, v: Version, x: nat, id: nat)
    requires AreRoutes(lengths, ss) && IsHit(ss, v, x, id)
    ensures lengths[id - 1] + ExpAt(ss[id - 1], x) == Width(v)
  {
    assert IsRoute(ss[id - 1], lengths[id - 1]);
  }

  lemma SizedLength(lengths: seq<nat>, ss: seq<Source>, v: Version, x: nat, id: nat)
    requires AreRoutes(lengths, ss) && id in HitSizes(ss, v, x)
    ensures 1 <= id <= |lengths| && lengths[id - 1] + HitSizes(ss, v, x)[id] == Width(v)
  {
    RouteLength(lengths, ss, v, x, id);
  }

  ghost predicate Complements(lengths: seq<nat>, sizes: map<nat, nat>, width: nat) {
    forall id :: id in sizes ==> 1 <= id <= |lengths| && lengths[id - 1] + sizes[id] == width
  }

  /** The sizes at which a point query finds records. */
  ghost function QuerySizes(ss: seq<Source>, v: Version, x: nat): map<nat, nat>
    requires ValidSources(ss)
  {
    if IsMapped(v, x) then MappedSizes(ss, x) else HitSizes(ss, v, x)
  }

  lemma SizesComplement(lengths: seq<nat>, ss: seq<Source>, v: Version, x: nat)
    requires AreRoutes(lengths, ss)
    ensures true == Complements(lengths, QuerySizes(ss, v, x), Width(v))
  {
    var sizes := QuerySizes(ss, v, x);
    forall id | id in sizes
      ensures 1 <= id <= |lengths| && lengths[id - 1] + sizes[id] == Width(v)
    {
      if !IsMapped(v, x) {
        SizedLength(lengths, ss, v, x, id);
      } else if SmallHit(ss, x, id) {
        RouteLength(lengths, ss, V6, Unmap(V6, x), id);
      } else {
        RouteLength(lengths, ss, V6, x, id);
      }
    }
  }

  lemma QueryOrdered(keys: seq<StoreKey>, lengths: seq<nat>, ss: seq<Source>, v: Version, x: nat)
    requires IsIndex(keys, ss) && AllKeys(keys) && AreRoutes(lengths, ss) && x < Pow2(Width(v))
    ensures true == OrderedBySize(Matches(keys, v, x), QuerySizes(ss, v, x))
  {
    if IsMapped(v, x) {
      RoutesHaveOneBlock(lengths, ss);
      MappedQueryIsExact(keys, ss, x);
    } else {
      PointQueryIsExact(keys, ss, v, x);
      MatchesOrdered(Matches(keys, v, x), ss, v, x);
    }
  }

  lemma RoutesHaveOneBlock(lengths: seq<nat>, ss: seq<Source>)
    requires AreRoutes(lengths, ss)
    ensures OneBlockEach(ss)
  {
    forall i | 0 <= i < |ss|
      ensures |ss[i].blocks| == 1
    {
      assert IsRoute(ss[i], lengths[i]);
    }
  }

  lemma MatchLengths(m: seq<Word>, lengths: seq<nat>, sizes: map<nat, nat>, width: nat)
    requires Complements(lengths, sizes, width) && OrderedBySize(m, sizes)
    ensures forall i :: 0 <= i < |m| ==> 1 <= m[i] <= |lengths|
    ensures true == Complement(ReadRoutes(lengths, Limited(m, MAX_CANDIDATES)), m, sizes, width)
  {
  }

  /** Selecting the greatest length selects the lead. */
  lemma GreatestIsLead(values: seq<Route>, m: seq<Word>, sizes: map<nat, nat>, width: nat, best: nat)
    requires OrderedBySize(m, sizes) && Complement(values, m, sizes, width) && IsGreatestLength(values, best)
    ensures var k := Lead(m, sizes, |m|); WithLength(values, best) == values[..if k <= |values| then k else |values|]
  {
    var k := Lead(m, sizes, |m|);
    if values != [] {
      var j :| 0 <= j < |values| && values[j].length == best;
      LeadExact(m, sizes, j);
      assert values[0].length <= best;
      forall i | 0 <= i < |values|
        ensures values[i].length == best <==> i < k
      {
        LeadExact(m, sizes, i);
      }
    }
    LengthPrefix(values, best, if k <= |values| then k else |values|);
  }

  lemma GreatestAreRoutes(m: seq<Word>, lengths: seq<nat>, sizes: map<nat, nat>, width: nat, best: nat)
    requires OrderedBySize(m, sizes) && forall i :: 0 <= i < |m| ==> 1 <= m[i] <= |lengths|
    requires true == Complement(ReadRoutes(lengths, Limited(m, MAX_CANDIDATES)), m, sizes, width)
    requires true == IsGreatestLength(ReadRoutes(lengths, Limited(m, MAX_CANDIDATES)), best)
    ensures WithLength(ReadRoutes(lengths, Limited(m, MAX_CANDIDATES)), best) ==
            ReadRoutes(lengths, Limited(m[..Lead(m, sizes, |m|)], MAX_CANDIDATES))
  {
    GreatestIsLead(ReadRoutes(lengths, Limited(m, MAX_CANDIDATES)), m, sizes, width, best);
    LimitedLead(m, lengths, Lead(m, sizes, |m|));
  }

  /** Selecting among the first 64 matches selects the first 64 of the longest. */
  lemma SelectedOfMatches(m: seq<Word>, lengths: seq<nat>, sizes: map<nat, nat>, width: nat, best: nat)
    requires true == OrderedBySize(m, sizes) && forall i :: 0 <= i < |m| ==> 1 <= m[i] <= |lengths|
    requires true == Complement(ReadRoutes(lengths, Limited(m, MAX_CANDIDATES)), m, sizes, width)
    requires true == IsGreatestLength(ReadRoutes(lengths, Limited(m, MAX_CANDIDATES)), best)
    ensures IsLeastSelection(WithLength(ReadRoutes(lengths, Limited(m, MAX_CANDIDATES)), best), lengths, sizes)
  {
    var least := m[..Lead(m, sizes, |m|)];
    LeadAscends(m, sizes);
    forall id: nat
      ensures id in least <==> IsLeast(id, sizes)
    {
      LeadIsLeast(m, sizes, id);
    }
    GreatestAreRoutes(m, lengths, sizes, width, best);
    assert SelectsLeast(WithLength(ReadRoutes(lengths, Limited(m, MAX_CANDIDATES)), best), least, lengths, sizes);
  }

  lemma LimitedLead(m: seq<Word>, lengths: seq<nat>, k: nat)
    requires k <= |m| && forall i :: 0 <= i < |m| ==> 1 <= m[i] <= |lengths|
    ensures var values := ReadRoutes(lengths, Limited(m, MAX_CANDIDATES));
      values[..if k <= |values| then k else |values|] == ReadRoutes(lengths, Limited(m[..k], MAX_CANDIDATES))
  {
  }

  /** details=full: up to 64 matches, then those of the greatest length among them. */
  method FullRoutes(keys: seq<StoreKey>, lengths: seq<nat>, a: Address, v: Version, ghost ss: seq<Source>)
    returns (routes: seq<Route>)
    requires IsIndex(keys, ss) && AllKeys(keys) && AreRoutes(lengths, ss) && Canonical(a, v)
    ensures IsLeastSelection(routes, lengths, QuerySizes(ss, v, Num(a, v)))
    ensures Plain(a, v) ==> IsSelected(routes, lengths, ss, v, Num(a, v))
  {
    var ids := MatchingIds(keys, a, v, MAX_CANDIDATES);
    ghost var m, sizes := Matches(keys, v, Num(a, v)), QuerySizes(ss, v, Num(a, v));
    NumIsKeyValue(a, v);
    QueryOrdered(keys, lengths, ss, v, Num(a, v));
    SizesComplement(lengths, ss, v, Num(a, v));
    MatchLengths(m, lengths, sizes, Width(v));
    routes := NarrowestRoutes(ReadRoutes(lengths, ids));
    GreatestIsGreatest(ReadRoutes(lengths, ids));
    SelectedOfMatches(m, lengths, sizes, Width(v), GreatestLength(ReadRoutes(lengths, ids)));
    LeastIsSelected(routes, lengths, ss, v, Num(a, v));
  }

  lemma HitsAreRecords(longest: seq<Word>, ss: seq<Source>, v: Version, x: nat)
    requires ValidSources(ss) && IsLongestHits(longest, ss, v, x)
    ensures forall i :: 0 <= i < |longest| ==> 1 <= longest[i] <= |ss|
  {
    forall i | 0 <= i < |longest|
      ensures IsLongestHit(ss, v, x, longest[i])
    {
      assert longest[i] in longest;
    }
  }

  /** The default form: the selector's list for the unmapped address, cut to 64. */
  method CompactRoutes(value: seq<Byte>, lengths: seq<nat>, a: Address, v: Version, ghost keys: seq<StoreKey>, ghost ss: seq<Source>)
    returns (routes: seq<Route>)
    requires IsIndex(keys, ss) && RouteSelector.FamilyKeys(keys, v) && AreRoutes(lengths, ss)
    requires RouteSelector.IsWritten(value, keys, v)
    ensures IsSelected(routes, lengths, ss, v, Num(Unmapped(a, v), v))
  {
    var ids := RouteSelector.LookupRoutes(value, a, v, keys, ss);
    ghost var longest := ids;
    HitsAreRecords(longest, ss, v, Num(Unmapped(a, v), v));
    if |ids| > MAX_CANDIDATES {
      ids := ids[..MAX_CANDIDATES];
    }
    routes := ReadRoutes(lengths, ids);
    assert true == IsRouteSelection(routes, longest, lengths, ss, v, Num(Unmapped(a, v), v));
  }

  /** Two selections of routes around one address are the same. */
  lemma SameRoutes(compact: seq<Route>, full: seq<Route>, lengths: seq<nat>, ss: seq<Source>, v: Version, x: nat)
    requires ValidSources(ss) && IsSelected(compact, lengths, ss, v, x) && IsSelected(full, lengths, ss, v, x)
    ensures compact == full
  {
    var l: seq<Word> :| IsRouteSelection(compact, l, lengths, ss, v, x);
    var m: seq<Word> :| IsRouteSelection(full, m, lengths, ss, v, x);
    AscendingUnique(l, m);
  }

  // ---------- allocations and geofeeds ----------

  datatype Selected = Selected(id: Word, record: Bounds)

  function ReadBounds(rs: seq<Bounds>, ids: seq<Word>): (records: seq<Selected>)
    requires forall i :: 0 <= i < |ids| ==> 1 <= ids[i] <= |rs|
    ensures |records| == |ids| && forall i :: 0 <= i < |ids| ==> records[i] == Selected(ids[i], rs[ids[i] - 1])
  {
    seq(|ids|, i requires 0 <= i < |ids| && 1 <= ids[i] <= |rs| => Selected(ids[i], rs[ids[i] - 1]))
  }

  function RecordWidth(r: Bounds): int {
    Num(r.end, r.version) - Num(r.start, r.version)
  }

  /** Byte comparison of two widths is comparison of the numbers. */
  method NarrowerRange(left: Bounds, right: Bounds) returns (less: bool)
    requires ValidBounds(left) && ValidBounds(right) && left.version == right.version
    ensures less <==> RecordWidth(left) < RecordWidth(right)
  {
    var leftWidth := RangeWidth(left.start, left.end);
    var rightWidth := RangeWidth(right.start, right.end);
    WidthOfRange(left.start, left.end, leftWidth, left.version);
    WidthOfRange(right.start, right.end, rightWidth, right.version);
    AddressOrder(leftWidth, rightWidth, left.version);
    return LexLess(leftWidth, rightWidth);
  }

  /** Position i holds the first of the least numbers. */
  ghost predicate FirstLeast(ws: seq<int>, i: nat) {
    && i < |ws|
    && (forall j :: 0 <= j < i ==> ws[i] < ws[j])
    && (forall j :: i <= j < |ws| ==> ws[i] <= ws[j])
  }

  ghost function Widths(values: seq<Selected>): (ws: seq<int>)
    ensures |ws| == |values| && forall i :: 0 <= i < |values| ==> ws[i] == RecordWidth(values[i].record)
  {
    seq(|values|, i requires 0 <= i < |values| => RecordWidth(values[i].record))
  }

  /** best is the first of the narrowest. */
  ghost predicate IsFirstNarrowest(values: seq<Selected>, best: Option<Selected>) {
    match best
    case None => values == []
    case Some(b) => exists i :: 0 <= i < |values| && values[i] == b && FirstLeast(Widths(values), i)
  }

  method NarrowestAllocation(values: seq<Selected>) returns (best: Option<Selected>)
    requires forall i :: 0 <= i < |values| ==> ValidBounds(values[i].record) && values[i].record.version == values[0].record.version
    ensures IsFirstNarrowest(values, best)
  {
    if values == [] {
      return None;
    }
    ghost var ws := Widths(values);
    var at := 0;
    for index := 1 to |values|
      invariant 0 <= at < index && FirstLeast(ws[..index], at)
    {
      var less := NarrowerRange(values[index].record, values[at].record);
      assert less <==> ws[index] < ws[at];
      if less {
        at := index;
      }
    }
    assert ws[..|values|] == ws;
    best := Some(values[at]);
  }

  /** The record full lookup picks from the matches. */
  ghost predicate IsFullPick(m: seq<Word>, rs: seq<Bounds>, best: Option<Selected>) {
    (forall i :: 0 <= i < |m| ==> 1 <= m[i] <= |rs|) && IsFirstNarrowest(ReadBounds(rs, Limited(m, 64)), best)
  }

  ghost predicate OfVersion(ids: seq<Word>, rs: seq<Bounds>, v: Version) {
    forall i :: 0 <= i < |ids| ==> 1 <= ids[i] <= |rs| && ValidBounds(rs[ids[i] - 1]) && rs[ids[i] - 1].version == v
  }

  method PickNarrowest(rs: seq<Bounds>, ids: seq<Word>, ghost v: Version) returns (best: Option<Selected>)
    requires OfVersion(ids, rs, v)
    ensures IsFirstNarrowest(ReadBounds(rs, ids), best)
  {
    best := NarrowestAllocation(ReadBounds(rs, ids));
  }

  /** details=full: up to 64 matches, then the first narrowest of them. */
  method FullAllocation(keys: seq<StoreKey>, rs: seq<Bounds>, a: Address, v: Version, ghost ss: seq<Source>)
    returns (best: Option<Selected>)
    requires AreRecords(rs, ss) && IsIndex(keys, ss) && AllKeys(keys) && Canonical(a, v)
    ensures Plain(a, v) ==> true == InMatchOrder(Matches(keys, v, Num(a, v)), ss, v, Num(a, v))
    ensures true == IsFullPick(Matches(keys, v, Num(a, v)), rs, best)
  {
    ghost var m := Matches(keys, v, Num(a, v));
    NumIsKeyValue(a, v);
    if Plain(a, v) {
      PointQueryIsExact(keys, ss, v, Num(a, v));
    }
    MatchesOfFamily(keys, ss, v, Num(a, v), Width(v));
    MatchesAreRecords(m, rs, ss, v);
    var ids := MatchingIds(keys, a, v, MAX_CANDIDATES);
    best := PickNarrowest(rs, ids, v);
  }

  lemma MatchesAreRecords(m: seq<Word>, rs: seq<Bounds>, ss: seq<Source>, v: Version)
    requires AreRecords(rs, ss) && forall id :: id in m ==> 1 <= id <= |ss| && ss[id - 1].version == v
    ensures forall i :: 0 <= i < |m| ==> 1 <= m[i] <= |rs|
    ensures true == OfVersion(Limited(m, MAX_CANDIDATES), rs, v)
  {
    forall i | 0 <= i < |m|
      ensures 1 <= m[i] <= |rs| && rs[m[i] - 1].version == v
    {
      assert m[i] in m;
      assert Spans(ss[m[i] - 1], rs[m[i] - 1]);
    }
  }

  /** The default form: the selector's record for the unmapped address. */
  method CompactAllocation(value: seq<Byte>, rs: seq<Bounds>, a: Address, v: Version, ghost ss: seq<Source>)
    returns (best: Option<Selected>)
    requires AreRecords(rs, ss) && RangeSelector.IsWritten(value, ss, v)
    ensures true == RangeSelector.IsNarrowest(ss, v, Num(Unmapped(a, v), v), SelectedId(best))
    ensures best.Some? ==> 1 <= best.value.id <= |rs| && best.value.record == rs[best.value.id - 1]
  {
    var id := RangeSelector.LookupRange(value, a, v, ss);
    best := if id == 0 then None else Some(Selected(id, rs[id - 1]));
  }

  function SelectedId(best: Option<Selected>): Word {
    if best.None? then 0 else best.value.id
  }

  ghost predicate IsNarrowestBySize(widths: seq<int>, sizes: map<nat, nat>, id: nat) {
    && id in sizes && 1 <= id <= |widths|
    && forall other :: other in sizes && other != id && 1 <= other <= |widths| ==> BeatsBySize(widths, sizes, id, other)
  }

  ghost function WidthsById(rs: seq<Bounds>): (ws: seq<int>)
    ensures |ws| == |rs| && forall i :: 0 <= i < |rs| ==> ws[i] == RecordWidth(rs[i])
  {
    seq(|rs|, i requires 0 <= i < |rs| => RecordWidth(rs[i]))
  }

  /** The widths are those of the family's ranges. */
  ghost predicate WidthsMatch(widths: seq<int>, ss: seq<Source>, v: Version) {
    |widths| == |ss| && forall i :: 0 <= i < |ss| && ss[i].version == v ==> widths[i] == ss[i].last - ss[i].start
  }

  lemma RecordWidths(rs: seq<Bounds>, ss: seq<Source>, v: Version)
    requires AreRecords(rs, ss)
    ensures true == WidthsMatch(WidthsById(rs), ss, v)
  {
    forall i | 0 <= i < |ss| && ss[i].version == v
      ensures WidthsById(rs)[i] == ss[i].last - ss[i].start
    {
      assert Spans(ss[i], rs[i]);
    }
  }

  lemma NarrowestBySize(widths: seq<int>, ss: seq<Source>, v: Version, x: nat, id: nat)
    requires ValidSources(ss) && WidthsMatch(widths, ss, v) && id != 0 && RangeSelector.IsNarrowest(ss, v, x, id)
    ensures true == IsNarrowestBySize(widths, HitSizes(ss, v, x), id)
  {
    var sizes := HitSizes(ss, v, x);
    forall other | other in sizes && other != id && 1 <= other <= |widths|
      ensures BeatsBySize(widths, sizes, id, other)
    {
      assert RangeSelector.Narrower(ss, v, x, id, other);
    }
  }

  ghost predicate BeatsBySize(widths: seq<int>, sizes: map<nat, nat>, id: nat, other: nat)
    requires 1 <= id <= |widths| && 1 <= other <= |widths| && id in sizes && other in sizes
  {
    || widths[id - 1] < widths[other - 1]
    || (widths[id - 1] == widths[other - 1] && (sizes[id] < sizes[other] || (sizes[id] == sizes[other] && id < other)))
  }

  /** The first of the narrowest in match order is the narrowest of all, when it is there. */
  lemma NarrowestIsFirst(m: seq<Word>, ids: seq<Word>, widths: seq<int>, sizes: map<nat, nat>, ws: seq<int>, i: nat, id: nat)
    requires OrderedBySize(m, sizes) && IsNarrowestBySize(widths, sizes, id) && ids <= m
    requires SameWidths(ws, widths, ids) && FirstLeast(ws, i)
    ensures id in ids <==> m[i] == id
  {
    assert ids[i] == m[i];
    if id in ids {
      var p :| 0 <= p < |ids| && ids[p] == id;
      assert m[p] == id;
    }
  }

  ghost predicate AllNumbered(m: seq<Word>, count: nat) {
    forall i :: 0 <= i < |m| ==> 1 <= m[i] <= count
  }

  /** One of the first 64 matches is as narrow as match j. */
  ghost predicate Reached(m: seq<Word>, widths: seq<int>, j: nat)
    requires AllNumbered(m, |widths|) && j < |m|
  {
    exists i :: 0 <= i < 64 && i < |m| && widths[m[i] - 1] <= widths[m[j] - 1]
  }

  /** No match behind the first 64 is narrower than all of them. */
  ghost predicate FrontSuffices(m: seq<Word>, widths: seq<int>)
    requires AllNumbered(m, |widths|)
  {
    forall j :: 64 <= j < |m| ==> Reached(m, widths, j)
  }

  lemma FrontHasNarrowest(m: seq<Word>, widths: seq<int>, sizes: map<nat, nat>, id: nat)
    requires OrderedBySize(m, sizes) && AllNumbered(m, |widths|) && IsNarrowestBySize(widths, sizes, id)
    ensures id in Limited(m, MAX_CANDIDATES) <==> FrontSuffices(m, widths)
  {
    var p :| 0 <= p < |m| && m[p] == id;
    if p < MAX_CANDIDATES {
      assert Limited(m, MAX_CANDIDATES)[p] == id;
      forall j | MAX_CANDIDATES <= j < |m|
        ensures Reached(m, widths, j)
      {
        assert widths[m[p] - 1] <= widths[m[j] - 1];
      }
    } else {
      NotInFront(m, sizes, p);
      forall i | 0 <= i < p
        ensures widths[m[p] - 1] < widths[m[i] - 1]
      {
        NarrowestBehind(m, widths, sizes, i, p);
      }
      assert !Reached(m, widths, p);
    }
  }

  /** A narrowest record that comes late in match order is strictly narrower than those before. */
  lemma NarrowestBehind(m: seq<Word>, widths: seq<int>, sizes: map<nat, nat>, i: nat, p: nat)
    requires OrderedBySize(m, sizes) && AllNumbered(m, |widths|) && i < p < |m| && IsNarrowestBySize(widths, sizes, m[p])
    ensures widths[m[p] - 1] < widths[m[i] - 1]
  {
    assert BeatsBySize(widths, sizes, m[p], m[i]);
  }

  lemma NotInFront(m: seq<Word>, sizes: map<nat, nat>, p: nat)
    requires OrderedBySize(m, sizes) && MAX_CANDIDATES <= p < |m|
    ensures m[p] !in Limited(m, MAX_CANDIDATES)
  {
    forall i | 0 <= i < p
      ensures m[i] != m[p]
    {
    }
  }

  lemma MatchesNumbered(m: seq<Word>, ss: seq<Source>, v: Version, x: nat)
    requires ValidSources(ss) && InMatchOrder(m, ss, v, x)
    ensures AllNumbered(m, |ss|)
  {
    forall i | 0 <= i < |m|
      ensures 1 <= m[i] <= |ss|
    {
      assert m[i] in m;
    }
  }

  /** The two forms agree on the allocation exactly when no match behind the first 64 is narrower
      than all of those, in other words when the narrowest record is among the 64 (or nothing
      matches). */
  lemma AllocationsAgree(m: seq<Word>, rs: seq<Bounds>, ss: seq<Source>, v: Version, x: nat, full: Option<Selected>, compact: nat)
    requires AreRecords(rs, ss) && InMatchOrder(m, ss, v, x) && IsFullPick(m, rs, full)
    requires RangeSelector.IsNarrowest(ss, v, x, compact)
    ensures AllNumbered(m, |WidthsById(rs)|)
    ensures SelectedId(full) == compact <==> FrontSuffices(m, WidthsById(rs))
    ensures SelectedId(full) == compact <==> m == [] || compact in Limited(m, 64)
    ensures |m| <= 64 ==> SelectedId(full) == compact
  {
    EmptyMatch(m, ss, v, x, compact);
    MatchesNumbered(m, ss, v, x);
    if m != [] {
      MatchesOrdered(m, ss, v, x);
      RecordWidths(rs, ss, v);
      NarrowestBySize(WidthsById(rs), ss, v, x, compact);
      FullIsFirst(m, rs, HitSizes(ss, v, x), full, compact);
      FrontHasNarrowest(m, WidthsById(rs), HitSizes(ss, v, x), compact);
    }
  }

  lemma FullIsFirst(m: seq<Word>, rs: seq<Bounds>, sizes: map<nat, nat>, full: Option<Selected>, compact: nat)
    requires m != [] && true == OrderedBySize(m, sizes) && true == IsNarrowestBySize(WidthsById(rs), sizes, compact)
    requires true == IsFullPick(m, rs, full)
    ensures SelectedId(full) == compact <==> compact in Limited(m, MAX_CANDIDATES)
  {
    var ws, i := SelectedPosition(m, rs, full);
    NarrowestIsFirst(m, Limited(m, MAX_CANDIDATES), WidthsById(rs), sizes, ws, i, compact);
  }

  lemma SelectedPosition(m: seq<Word>, rs: seq<Bounds>, full: Option<Selected>) returns (ws: seq<int>, i: nat)
    requires m != [] && IsFullPick(m, rs, full)
    ensures true == SameWidths(ws, WidthsById(rs), Limited(m, MAX_CANDIDATES))
    ensures FirstLeast(ws, i) && SelectedId(full) == m[i]
  {
    var values := ReadBounds(rs, Limited(m, MAX_CANDIDATES));
    ws := Widths(values);
    i :| 0 <= i < |values| && values[i] == full.value && FirstLeast(ws, i);
    WidthsRead(rs, Limited(m, MAX_CANDIDATES));
  }

  ghost predicate SameWidths(ws: seq<int>, widths: seq<int>, ids: seq<Word>) {
    |ws| == |ids| && forall i :: 0 <= i < |ids| ==> 1 <= ids[i] <= |widths| && ws[i] == widths[ids[i] - 1]
  }

  lemma WidthsRead(rs: seq<Bounds>, ids: seq<Word>)
    requires forall i :: 0 <= i < |ids| ==> 1 <= ids[i] <= |rs|
    ensures true == SameWidths(Widths(ReadBounds(rs, ids)), WidthsById(rs), ids)
  {
  }

  lemma EmptyMatch(m: seq<Word>, ss: seq<Source>, v: Version, x: nat, id: nat)
    requires ValidSources(ss) && InMatchOrder(m, ss, v, x) && RangeSelector.IsNarrowest(ss, v, x, id)
    ensures m == [] <==> id == 0
    ensures id != 0 ==> id in m
  {
    if m != [] {
      assert m[0] in m;
    }
  }

  // ---------- where the two forms part ----------

  /** 64 records of three addresses from x on, then one of two. */
  function PartingRecords(v: Version, x: nat): seq<Bounds>
    requires PartingPoint(v, x)
  {
    seq(64, i => Bounds(v, AddressOf(x, v), AddressOf(x + 2, v))) + [Bounds(v, AddressOf(x, v), AddressOf(x + 1, v))]
  }

  predicate PartingPoint(v: Version, x: nat) {
    x + 2 < Pow2(Width(v))
  }

  /** A list that has every number from 1 to n is that long. */
  lemma {:induction false} AtLeastAsMany(m: seq<Word>, n: nat)
    requires forall id: Word :: 1 <= id <= n ==> id in m
    requires n <= MAX_UINT32
    ensures |m| >= n
  {
    if n > 0 {
      var last: Word := n;
      assert last in m;
      var p :| 0 <= p < |m| && m[p] == last;
      var rest := m[..p] + m[p + 1..];
      forall id: Word | 1 <= id <= n - 1
        ensures id in rest
      {
        assert id in m;
        var q :| 0 <= q < |m| && m[q] == id;
        assert rest[if q < p then q else q - 1] == id;
      }
      AtLeastAsMany(rest, n - 1);
    }
  }

  lemma BoundsOf(v: Version, lo: nat, hi: nat)
    requires lo <= hi < Pow2(Width(v))
    ensures var r := Bounds(v, AddressOf(lo, v), AddressOf(hi, v)); ValidBounds(r) && SourceOf(r) == RangeSource(v, lo, hi)
  {
    NumOfAddress(lo, v);
    NumOfAddress(hi, v);
  }

  lemma PartingBounds(v: Version, x: nat)
    requires PartingPoint(v, x)
    ensures AllBounds(PartingRecords(v, x)) && |PartingRecords(v, x)| == 65
    ensures forall i :: 0 <= i < 64 ==> SourcesOf(PartingRecords(v, x))[i] == RangeSource(v, x, x + 2)
    ensures SourcesOf(PartingRecords(v, x))[64] == RangeSource(v, x, x + 1)
  {
    PartingAre(v, x);
    var rs := PartingRecords(v, x);
    var ss := SourcesOf(rs);
    assert forall i :: 0 <= i < 65 ==> ss[i] == SourceOf(rs[i]);
  }

  lemma PartingAre(v: Version, x: nat)
    requires PartingPoint(v, x)
    ensures AllBounds(PartingRecords(v, x))
    ensures forall i :: 0 <= i < 64 ==> SourceOf(PartingRecords(v, x)[i]) == RangeSource(v, x, x + 2)
    ensures SourceOf(PartingRecords(v, x)[64]) == RangeSource(v, x, x + 1)
  {
    BoundsOf(v, x, x + 2);
    BoundsOf(v, x, x + 1);
  }

  /** A block that must fit into two addresses and one that must fit into three are the same. */
  lemma {:induction false} ShrinkAlike(e: nat)
    ensures Shrink(e, 3) == Shrink(e, 2)
  {
    assert Pow2(0) == 1 && Pow2(1) == 2 && Pow2(2) == 4;
    if e >= 2 {
      assert Pow2(e) == 2 * Pow2(e - 1) == 4 * Pow2(e - 2);
      ShrinkAlike(e - 1);
    }
  }

  lemma FirstSize(v: Version, x: nat, last: nat)
    requires x <= last && ValidSource(RangeSource(v, x, last))
    ensures ExpAt(RangeSource(v, x, last), x) == Shrink(AlignExp(x, Width(v)), last - x + 1)
  {
    BlockThroughHit(RangeSource(v, x, last), x, First(x, last, Width(v)));
  }

  /** All contain x in components of one size, and the last is the narrowest. */
  ghost predicate IsParting(ss: seq<Source>, v: Version, x: nat, e: nat) {
    && ValidSources(ss) && |ss| == 65
    && (forall i :: 0 <= i < 65 ==> ss[i].version == v && ss[i].start <= x <= ss[i].last && ExpAt(ss[i], x) == e)
    && (forall i :: 0 <= i < 64 ==> ss[64].last - ss[64].start < ss[i].last - ss[i].start)
  }

  lemma SourcesPart(v: Version, x: nat, ss: seq<Source>) returns (e: nat)
    requires ValidSources(ss) && |ss| == 65 && ss[64] == RangeSource(v, x, x + 1)
    requires forall i :: 0 <= i < 64 ==> ss[i] == RangeSource(v, x, x + 2)
    ensures true == IsParting(ss, v, x, e)
  {
    assert ValidSource(ss[0]) && ValidSource(ss[64]);
    FirstSize(v, x, x + 2);
    FirstSize(v, x, x + 1);
    ShrinkAlike(AlignExp(x, Width(v)));
    e := ExpAt(ss[64], x);
  }

  /** On these records, around every address with two more behind it and in both families, the
      compact form selects the narrower record 65 and the full form, which never reads it, does
      not. */
  lemma FormsPart(v: Version, x: nat, m: seq<Word>, ss: seq<Source>, full: Option<Selected>, compact: nat)
    requires PartingPoint(v, x) && AllBounds(PartingRecords(v, x)) && ss == SourcesOf(PartingRecords(v, x)) && InMatchOrder(m, ss, v, x)
    requires true == IsFullPick(m, PartingRecords(v, x), full)
    requires RangeSelector.IsNarrowest(ss, v, x, compact)
    ensures compact == 65 && SelectedId(full) != compact
  {
    SourcesOfRecords(PartingRecords(v, x));
    PartingBounds(v, x);
    var e := SourcesPart(v, x, ss);
    NarrowestIsLast(ss, v, x, e, compact);
    LastOfMatches(m, ss, v, x, e);
    AllocationsAgree(m, PartingRecords(v, x), ss, v, x, full, compact);
  }

  lemma NarrowestIsLast(ss: seq<Source>, v: Version, x: nat, e: nat, compact: nat)
    requires IsParting(ss, v, x, e) && RangeSelector.IsNarrowest(ss, v, x, compact)
    ensures compact == 65
  {
    assert IsHit(ss, v, x, 65);
    OthersAreWider(ss, v, x, e, compact);
  }

  lemma OthersAreWider(ss: seq<Source>, v: Version, x: nat, e: nat, id: nat)
    requires IsParting(ss, v, x, e)
    ensures IsHit(ss, v, x, 65)
    ensures IsHit(ss, v, x, id) && id != 65 ==> !RangeSelector.Narrower(ss, v, x, id, 65)
  {
  }

  lemma LastOfMatches(m: seq<Word>, ss: seq<Source>, v: Version, x: nat, e: nat)
    requires IsParting(ss, v, x, e) && InMatchOrder(m, ss, v, x)
    ensures m != [] && 65 !in Limited(m, MAX_CANDIDATES)
  {
    var sizes := HitSizes(ss, v, x);
    forall id: Word | 1 <= id <= 65
      ensures id in m
    {
      assert IsHit(ss, v, x, id);
    }
    MatchesOrdered(m, ss, v, x);
    AtLeastAsMany(m, 65);
    assert m[64] in sizes;
    forall p | 0 <= p < 64
      ensures m[p] != 65
    {
      assert m[p] in sizes && sizes[m[p]] == sizes[m[64]] == e;
    }
  }
}
