/** Tallies of values, and the ten values with the largest counts. */
module Facets {
  import opened Bytes
  import opened Records

  const MAX_RANKED := 10

  type Tally = map<Text, nat>

  function Tallied(t: Tally, v: Text): nat {
    if v in t then t[v] else 0
  }

  function Add(t: Tally, f: Facet): Tally {
    t[f.value := Tallied(t, f.value) + f.count]
  }

  function AddAll(t: Tally, fs: seq<Facet>): Tally {
    if fs == [] then t else Add(AddAll(t, fs[..|fs| - 1]), fs[|fs| - 1])
  }

  /** The loop over the facets of one list. */
  method Merge(t: Tally, fs: seq<Facet>) returns (merged: Tally)
    ensures merged == AddAll(t, fs)
  {
    merged := t;
    for i := 0 to |fs|
      invariant merged == AddAll(t, fs[..i])
    {
      assert fs[..i + 1][..i] == fs[..i];
      merged := Add(merged, fs[i]);
    }
    assert fs[..|fs|] == fs;
  }

  // ---------- the order ----------

  /** The larger count, then the lesser text. */
  predicate Ahead(a: Facet, b: Facet) {
    a.count > b.count || (a.count == b.count && LexLess(a.value, b.value))
  }

  ghost predicate InOrder(fs: seq<Facet>) {
    forall i, j :: 0 <= i < j < |fs| ==> Ahead(fs[i], fs[j])
  }

  ghost predicate IsEntry(t: Tally, f: Facet) {
    f.value in t && t[f.value] == f.count
  }

  /** fs lists every value of the tally with its count, once, in order. */
  ghost predicate IsSorted(fs: seq<Facet>, t: Tally) {
    InOrder(fs) && forall f :: f in fs <==> IsEntry(t, f)
  }

  lemma AheadChain(a: Facet, b: Facet, c: Facet)
    requires Ahead(a, b) && Ahead(b, c)
    ensures Ahead(a, c)
  {
    if a.count == b.count == c.count {
      LexTransitive(a.value, b.value, c.value);
    }
  }

  lemma AheadOneWay(a: Facet, b: Facet)
    requires Ahead(a, b)
    ensures !Ahead(b, a) && a != b
  {
    if a.count == b.count {
      LexAsymmetric(a.value, b.value);
    }
  }

  lemma AheadTotal(a: Facet, b: Facet)
    ensures Ahead(a, b) || a == b || Ahead(b, a)
  {
    LexTotal(a.value, b.value);
  }

  lemma TailInOrder(fs: seq<Facet>)
    requires InOrder(fs) && fs != []
    ensures InOrder(fs[1..]) && fs[0] !in fs[1..] && forall f :: f in fs <==> f == fs[0] || f in fs[1..]
  {
    forall f | f in fs[1..]
      ensures f != fs[0]
    {
      var i :| 1 <= i < |fs| && fs[i] == f;
      AheadOneWay(fs[0], fs[i]);
    }
    assert fs == [fs[0]] + fs[1..];
  }

  /** Two lists in order of the same facets are one list. */
  lemma {:induction false} OrderUnique(a: seq<Facet>, b: seq<Facet>)
    requires InOrder(a) && InOrder(b) && forall f :: f in a <==> f in b
    ensures a == b
  {
    assert (a != [] ==> a[0] in a) && (b != [] ==> b[0] in b);
    if a != [] && b != [] {
      TailInOrder(a);
      TailInOrder(b);
      if a[0] != b[0] {
        var i :| 0 <= i < |b| && b[i] == a[0];
        var j :| 0 <= j < |a| && a[j] == b[0];
        AheadOneWay(a[0], b[0]);
      }
      OrderUnique(a[1..], b[1..]);
      assert a == [a[0]] + a[1..] && b == [b[0]] + b[1..];
    }
  }

  // ---------- ranking ----------

  function InsertFacet(fs: seq<Facet>, f: Facet): (r: seq<Facet>)
    ensures |r| == |fs| + 1
    ensures forall g :: g in r <==> g == f || g in fs
  {
    if fs == [] || Ahead(f, fs[0]) then [f] + fs else
      assert fs == [fs[0]] + fs[1..];
      [fs[0]] + InsertFacet(fs[1..], f)
  }

  lemma {:induction false} InsertInOrder(fs: seq<Facet>, f: Facet)
    requires InOrder(fs) && f !in fs
    ensures InOrder(InsertFacet(fs, f))
  {
    if fs == [] {
    } else if Ahead(f, fs[0]) {
      forall i | 0 < i < |fs|
        ensures Ahead(f, fs[i])
      {
        AheadChain(f, fs[0], fs[i]);
      }
    } else {
      TailInOrder(fs);
      AheadTotal(f, fs[0]);
      var rest := InsertFacet(fs[1..], f);
      InsertInOrder(fs[1..], f);
      forall i | 0 <= i < |rest|
        ensures Ahead(fs[0], rest[i])
      {
        assert rest[i] in rest;
      }
    }
  }

  /** The first ten of a sorted list. */
  function Cut(fs: seq<Facet>): seq<Facet> {
    if |fs| > MAX_RANKED then fs[..MAX_RANKED] else fs
  }

  /** items are the first ten of the values that n counts, or all of them: the larger count first,
      of equal ones the lesser text. */
  ghost predicate IsTopTen(items: seq<Facet>, n: Text -> nat) {
    && |items| <= 10
    && (forall i :: 0 <= i < |items| ==> items[i].value != [] && items[i].count == n(items[i].value) > 0)
    && (forall i, j :: 0 <= i < j < |items| ==> ComesBefore(items[i].count, items[i].value, items[j].count, items[j].value))
    && forall v :: v != [] && n(v) > 0 && Facet(v, n(v)) !in items ==>
         |items| == 10 && forall i :: 0 <= i < 10 ==> ComesBefore(items[i].count, items[i].value, n(v), v)
  }

  ghost predicate ComesBefore(count: nat, text: Text, otherCount: nat, other: Text) {
    count > otherCount || (count == otherCount && LexLess(text, other))
  }

  /** A tally without the empty text, of what has been counted at least once. */
  ghost predicate IsClean(t: Tally) {
    [] !in t && forall v :: v in t ==> t[v] > 0
  }

  function Counts(t: Tally): Text -> nat {
    (v: Text) => Tallied(t, v)
  }

  lemma RankingIsTop(t: Tally)
    requires IsClean(t)
    ensures IsTopTen(Ranking(t), Counts(t))
  {
    var fs := Ranking(t);
    RankingInOrder(t);
    forall i | 0 <= i < |fs|
      ensures fs[i].value != [] && fs[i].count == Counts(t)(fs[i].value) > 0
    {
      RankingIsTopTen(t, fs[i]);
    }
    forall v | v != [] && Counts(t)(v) > 0 && Facet(v, Counts(t)(v)) !in fs
      ensures |fs| == 10 && forall i :: 0 <= i < 10 ==> ComesBefore(fs[i].count, fs[i].value, Counts(t)(v), v)
    {
      RankingIsTopTen(t, Facet(v, Counts(t)(v)));
      assert forall i :: 0 <= i < |fs| ==> fs[i] in fs;
    }
  }

  /** There is only one such list. */
  lemma TopTenIsUnique(a: seq<Facet>, b: seq<Facet>, n: Text -> nat)
    requires IsTopTen(a, n) && IsTopTen(b, n)
    ensures a == b
  {
    assert InOrder(a) && InOrder(b);
    forall f
      ensures f in a <==> f in b
    {
      if f in a {
        TopTenWithin(a, b, n, f);
      } else if f in b {
        TopTenWithin(b, a, n, f);
      }
    }
    OrderUnique(a, b);
  }

  lemma TopTenWithin(a: seq<Facet>, b: seq<Facet>, n: Text -> nat, f: Facet)
    requires IsTopTen(a, n) && IsTopTen(b, n) && f in a
    ensures f in b
  {
    if f !in b {
      var mine, others := set g | g in a, set g | g in b;
      assert InOrder(a) && InOrder(b);
      OrderedSize(a);
      OrderedSize(b);
      forall g | g in b
        ensures g in a
      {
        var i, j :| 0 <= i < |a| && a[i] == f && 0 <= j < |b| && b[j] == g;
        assert Ahead(g, f);
        AheadOneWay(g, f);
      }
      SubsetSize(others + {f}, mine);
    }
  }

  lemma {:induction false} OrderedSize(fs: seq<Facet>)
    requires InOrder(fs)
    ensures |set g | g in fs| == |fs|
  {
    if fs != [] {
      TailInOrder(fs);
      OrderedSize(fs[1..]);
      assert (set g | g in fs) == {fs[0]} + (set g | g in fs[1..]);
    }
  }

  lemma SubsetSize(a: set<Facet>, b: set<Facet>)
    requires a <= b
    ensures |a| <= |b|
  {
    assert b == a + (b - a);
  }

  /** Sorts the values and keeps ten. */
  method RankedFacets(t: Tally) returns (items: seq<Facet>)
    ensures items == Ranking(t)
    ensures |items| == if |t| < 10 then |t| else 10
    ensures forall i :: 0 <= i < |items| ==> items[i].value in t && items[i].count == t[items[i].value]
    ensures forall i, j :: 0 <= i < j < |items| ==> ComesBefore(items[i].count, items[i].value, items[j].count, items[j].value)
    ensures forall v, i :: v in t && Facet(v, t[v]) !in items && 0 <= i < |items| ==> ComesBefore(items[i].count, items[i].value, t[v], v)
  {
    RankingInOrder(t);
    items := SortAndCut(t);
  }

  lemma RankingInOrder(t: Tally)
    ensures var items := Ranking(t);
      && |items| == (if |t| < 10 then |t| else 10)
      && (forall i :: 0 <= i < |items| ==> items[i].value in t && items[i].count == t[items[i].value])
      && (forall i, j :: 0 <= i < j < |items| ==> ComesBefore(items[i].count, items[i].value, items[j].count, items[j].value))
      && (forall v, i :: v in t && Facet(v, t[v]) !in items && 0 <= i < |items| ==> ComesBefore(items[i].count, items[i].value, t[v], v))
  {
    var items, all := Ranking(t), Sorted(t);
    SortedIsSorted(t);
    forall i, j | 0 <= i < j < |items|
      ensures ComesBefore(items[i].count, items[i].value, items[j].count, items[j].value)
    {
      assert Ahead(all[i], all[j]);
    }
    forall i | 0 <= i < |items|
      ensures items[i].value in t && items[i].count == t[items[i].value]
    {
      assert IsEntry(t, all[i]);
    }
    forall v, i | v in t && Facet(v, t[v]) !in items && 0 <= i < |items|
      ensures ComesBefore(items[i].count, items[i].value, t[v], v)
    {
      RankingIsTopTen(t, Facet(v, t[v]));
      assert items[i] in items;
    }
  }

  method SortAndCut(t: Tally) returns (items: seq<Facet>)
    ensures items == Ranking(t)
  {
    items := [];
    var rest := t.Keys;
    while rest != {}
      invariant rest <= t.Keys && InOrder(items)
      invariant forall f :: f in items <==> IsEntry(t, f) && f.value !in rest
      decreases rest
    {
      var v :| v in rest;
      InsertInOrder(items, Facet(v, t[v]));
      items := InsertFacet(items, Facet(v, t[v]));
      rest := rest - {v};
    }
    SortedIsSorted(t);
    OrderUnique(items, Sorted(t));
    items := Cut(items);
  }

  ghost function Sorted(t: Tally): seq<Facet>
    decreases |t|
  {
    if t == map[] then [] else
      var v :| v in t;
      assert t.Keys == (t - {v}).Keys + {v};
      InsertFacet(Sorted(t - {v}), Facet(v, t[v]))
  }

  lemma {:induction false} SortedIsSorted(t: Tally)
    ensures IsSorted(Sorted(t), t) && |Sorted(t)| == |t|
    decreases |t|
  {
    if t != map[] {
      var v :| v in t && Sorted(t) == InsertFacet(Sorted(t - {v}), Facet(v, t[v]));
      var f, rest := Facet(v, t[v]), t - {v};
      assert t.Keys == rest.Keys + {v};
      assert forall g :: IsEntry(t, g) <==> g == f || IsEntry(rest, g);
      SortedIsSorted(rest);
      InsertInOrder(Sorted(rest), f);
    }
  }

  /** The ten facets in front. */
  ghost function Ranking(t: Tally): (fs: seq<Facet>)
    ensures |fs| <= 10
  {
    Cut(Sorted(t))
  }

  /** A ranking holds the first ten values of the tally with their counts: a value that is left
      out is behind all of ten others. */
  lemma RankingIsTopTen(t: Tally, f: Facet)
    ensures f in Ranking(t) ==> IsEntry(t, f)
    ensures IsEntry(t, f) && f !in Ranking(t) ==> |Ranking(t)| == 10 && forall g :: g in Ranking(t) ==> Ahead(g, f)
    ensures |Ranking(t)| == if |t| < 10 then |t| else 10
  {
    var fs := Sorted(t);
    SortedIsSorted(t);
    if IsEntry(t, f) && f !in Ranking(t) {
      var j :| 0 <= j < |fs| && fs[j] == f;
      forall g | g in Ranking(t)
        ensures Ahead(g, f)
      {
        var i :| 0 <= i < |Ranking(t)| && Ranking(t)[i] == g;
        assert fs[i] == g;
      }
    }
  }

  /** Every value is ranked exactly when there are at most ten. */
  lemma AllRankedIff(t: Tally)
    ensures |t| <= 10 <==> forall f :: IsEntry(t, f) ==> f in Ranking(t)
  {
    var fs := Sorted(t);
    SortedIsSorted(t);
    if |t| > MAX_RANKED {
      var last := fs[MAX_RANKED];
      assert last in fs;
      if last in Ranking(t) {
        var i :| 0 <= i < MAX_RANKED && fs[i] == last;
        AheadOneWay(fs[i], last);
      }
    }
  }

  // ---------- ranking again ----------

  lemma {:induction false} AddedHolds(fs: seq<Facet>)
    requires forall i, j :: 0 <= i < j < |fs| ==> fs[i].value != fs[j].value
    ensures forall f :: IsEntry(AddAll(map[], fs), f) <==> f in fs
  {
    if fs != [] {
      var n := |fs| - 1;
      var rest, last := fs[..n], fs[n];
      AddedHolds(rest);
      assert fs == rest + [last];
      var t := AddAll(map[], rest);
      assert last.value in t ==> IsEntry(t, Facet(last.value, t[last.value]));
    }
  }

  lemma RankingIsDistinct(t: Tally)
    ensures forall i, j :: 0 <= i < j < |Ranking(t)| ==> Ranking(t)[i].value != Ranking(t)[j].value
  {
    var fs := Ranking(t);
    SortedIsSorted(t);
    forall i, j | 0 <= i < j < |fs|
      ensures fs[i].value != fs[j].value
    {
      assert Sorted(t)[i] == fs[i] && Sorted(t)[j] == fs[j];
      AheadOneWay(fs[i], fs[j]);
      assert IsEntry(t, fs[i]) && IsEntry(t, fs[j]);
    }
  }

  /** Tallying a ranking and ranking it again changes nothing. */
  lemma RankingIsStable(t: Tally)
    ensures Ranking(AddAll(map[], Ranking(t))) == Ranking(t)
  {
    var fs := Ranking(t);
    RankingIsDistinct(t);
    SortedIsSorted(t);
    AddedHolds(fs);
    SortedIsSorted(AddAll(map[], fs));
    OrderUnique(Sorted(AddAll(map[], fs)), fs);
  }

  // ---------- adding up rankings ----------

  /** n lists of facets in a row, added up. */
  function MergedTally(lists: nat -> seq<Facet>, first: nat, n: nat): Tally {
    if n == 0 then map[] else AddAll(MergedTally(lists, first, n - 1), lists(first + n - 1))
  }

  /** What n tallies in a row say of a value. */
  function TotalOf(tallies: nat -> Tally, first: nat, n: nat, v: Text): nat {
    if n == 0 then 0 else TotalOf(tallies, first, n - 1, v) + Tallied(tallies(first + n - 1), v)
  }

  /** What one list of facets says of a value. */
  function Share(fs: seq<Facet>, v: Text): nat {
    if fs == [] then 0 else Share(fs[..|fs| - 1], v) + if fs[|fs| - 1].value == v then fs[|fs| - 1].count else 0
  }

  lemma {:induction false} AddAllAdds(t: Tally, fs: seq<Facet>, v: Text)
    ensures Tallied(AddAll(t, fs), v) == Tallied(t, v) + Share(fs, v)
    ensures v in AddAll(t, fs) <==> v in t || exists i :: 0 <= i < |fs| && fs[i].value == v
  {
    if fs != [] {
      AddAllAdds(t, fs[..|fs| - 1], v);
    }
  }

  lemma {:induction false} ShareAt(fs: seq<Facet>, v: Text, i: nat)
    requires forall i, j :: 0 <= i < j < |fs| ==> fs[i].value != fs[j].value
    ensures (forall j :: 0 <= j < |fs| ==> fs[j].value != v) ==> Share(fs, v) == 0
    ensures i < |fs| && fs[i].value == v ==> Share(fs, v) == fs[i].count
  {
    if fs != [] {
      ShareAt(fs[..|fs| - 1], v, i);
    }
  }

  /** A ranking says of a value what the tally does, or nothing when it hides the value. */
  lemma ShareOfRanking(t: Tally, v: Text)
    ensures Share(Ranking(t), v) == if v in t && Facet(v, t[v]) in Ranking(t) then t[v] else 0
  {
    var fs := Ranking(t);
    RankingIsDistinct(t);
    if i :| 0 <= i < |fs| && fs[i].value == v {
      RankingIsTopTen(t, fs[i]);
      ShareAt(fs, v, i);
    } else {
      ShareAt(fs, v, 0);
    }
  }

  /** Every list says of the value what its tally does. */
  ghost predicate AllTell(tallies: nat -> Tally, lists: nat -> seq<Facet>, first: nat, n: nat, v: Text) {
    forall i: nat :: first <= i < first + n ==> Share(lists(i), v) == Tallied(tallies(i), v)
  }

  /** When no list says more of a value than its tally does, the merged count is not too large, and
      it is exact exactly when every list says as much. */
  lemma {:induction false} MergedIsExact(tallies: nat -> Tally, lists: nat -> seq<Facet>, first: nat, n: nat, v: Text)
    requires forall i: nat :: Share(lists(i), v) <= Tallied(tallies(i), v)
    ensures Tallied(MergedTally(lists, first, n), v) <= TotalOf(tallies, first, n, v)
    ensures Tallied(MergedTally(lists, first, n), v) == TotalOf(tallies, first, n, v) <==> AllTell(tallies, lists, first, n, v)
  {
    if n > 0 {
      MergedIsExact(tallies, lists, first, n - 1, v);
      AddAllAdds(MergedTally(lists, first, n - 1), lists(first + n - 1), v);
      OneMoreTells(tallies, lists, first, n, v);
    }
  }

  lemma OneMoreTells(tallies: nat -> Tally, lists: nat -> seq<Facet>, first: nat, n: nat, v: Text)
    requires n > 0
    ensures AllTell(tallies, lists, first, n, v) <==>
            AllTell(tallies, lists, first, n - 1, v) && Share(lists(first + n - 1), v) == Tallied(tallies(first + n - 1), v)
  {
  }

  /** A list says of every value what its tally does. */
  ghost predicate TellsAll(t: Tally, fs: seq<Facet>) {
    forall v :: Share(fs, v) == Tallied(t, v)
  }

  lemma TellsAllIff(t: Tally)
    requires forall v :: v in t ==> t[v] > 0
    ensures |t| <= 10 <==> TellsAll(t, Ranking(t))
  {
    AllRankedIff(t);
    forall v
      ensures Share(Ranking(t), v) == if v in t && Facet(v, t[v]) in Ranking(t) then t[v] else 0
    {
      ShareOfRanking(t, v);
    }
    if f :| IsEntry(t, f) && f !in Ranking(t) {
      assert Share(Ranking(t), f.value) != Tallied(t, f.value);
    }
  }

  ghost predicate IsExact(tallies: nat -> Tally, lists: nat -> seq<Facet>, first: nat, n: nat, v: Text) {
    Tallied(MergedTally(lists, first, n), v) == TotalOf(tallies, first, n, v)
  }

  /** So merged rankings are exact for every value exactly when no tally has more than ten. */
  lemma MergedExactIff(tallies: nat -> Tally, lists: nat -> seq<Facet>, first: nat, n: nat)
    requires forall i: nat :: lists(i) == Ranking(tallies(i))
    requires forall i: nat, v :: v in tallies(i) ==> tallies(i)[v] > 0
    ensures (forall v :: IsExact(tallies, lists, first, n, v)) <==> forall i: nat :: first <= i < first + n ==> |tallies(i)| <= 10
  {
    forall v
      ensures IsExact(tallies, lists, first, n, v) <==> AllTell(tallies, lists, first, n, v)
    {
      forall i: nat
        ensures Share(lists(i), v) <= Tallied(tallies(i), v)
      {
        ShareOfRanking(tallies(i), v);
      }
      MergedIsExact(tallies, lists, first, n, v);
    }
    forall i: nat
      ensures |tallies(i)| <= MAX_RANKED <==> TellsAll(tallies(i), lists(i))
    {
      TellsAllIff(tallies(i));
    }
    TellingSwaps(tallies, lists, first, n);
  }

  lemma TellingSwaps(tallies: nat -> Tally, lists: nat -> seq<Facet>, first: nat, n: nat)
    ensures (forall v :: AllTell(tallies, lists, first, n, v)) <==> forall i: nat :: first <= i < first + n ==> TellsAll(tallies(i), lists(i))
  {
    if v :| !AllTell(tallies, lists, first, n, v) {
      var i: nat :| first <= i < first + n && Share(lists(i), v) != Tallied(tallies(i), v);
      assert !TellsAll(tallies(i), lists(i));
    }
    if i: nat :| first <= i < first + n && !TellsAll(tallies(i), lists(i)) {
      var v :| Share(lists(i), v) != Tallied(tallies(i), v);
      assert !AllTell(tallies, lists, first, n, v);
    }
  }

  // ---------- bounds ----------

  /** Texts and counts are no larger than can be written. */
  ghost predicate Bounded(t: Tally, m: nat) {
    forall v :: v in t ==> FitsText(v) && t[v] <= m
  }

  lemma AddBounded(t: Tally, u: Tally, k: nat, m: nat)
    requires Bounded(t, k) && Bounded(u, m)
    ensures Bounded(AddAll(t, Ranking(u)), k + m)
  {
    var sum := AddAll(t, Ranking(u));
    forall v | v in sum
      ensures FitsText(v) && sum[v] <= k + m
    {
      AddAllAdds(t, Ranking(u), v);
      ShareOfRanking(u, v);
      if i :| 0 <= i < |Ranking(u)| && Ranking(u)[i].value == v {
        RankingIsTopTen(u, Ranking(u)[i]);
      }
    }
  }

  lemma {:induction false} MergedBounded(tallies: nat -> Tally, lists: nat -> seq<Facet>, first: nat, n: nat, m: nat)
    requires forall i: nat :: lists(i) == Ranking(tallies(i)) && Bounded(tallies(i), m)
    ensures Bounded(MergedTally(lists, first, n), n * m)
  {
    if n > 0 {
      MergedBounded(tallies, lists, first, n - 1, m);
      AddBounded(MergedTally(lists, first, n - 1), tallies(first + n - 1), (n - 1) * m, m);
      assert n * m == (n - 1) * m + m;
    }
  }

  lemma RankingFits(t: Tally, m: nat)
    requires Bounded(t, m) && FitsLong(m)
    ensures FitsFacets(Ranking(t))
  {
    forall i | 0 <= i < |Ranking(t)|
      ensures FitsText(Ranking(t)[i].value) && FitsLong(Ranking(t)[i].count)
    {
      RankingIsTopTen(t, Ranking(t)[i]);
    }
  }
}
