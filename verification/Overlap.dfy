/** Overlap queries on the prefix index: the records whose range meets a queried range. */
module Overlap {
  import opened Bytes
  import opened Words
  import opened Addresses
  import opened Cover
  import opened Sources
  import opened PointIndex
  import opened MappedIndex
  import Paging

  const MAX_OVERLAP_ENTRIES := 2_000_000

  ghost predicate Meets(s: Source, v: Version, lo: nat, hi: nat) {
    s.version == v && s.start <= hi && lo <= s.last
  }

  function IdsAbove(ids: seq<Word>, after: int): set<Word> {
    set id | id in ids && id > after
  }

  lemma IdsAboveSum(a: seq<Word>, b: seq<Word>, after: int)
    ensures IdsAbove(a + b, after) == IdsAbove(a, after) + IdsAbove(b, after)
  {
  }

  // ---------- keys in a band of addresses ----------

  predicate InBand(key: StoreKey, v: Version, lo: Address, hi: Address)
    requires |key| == INDEX_KEY_SIZE
  {
    key[0] == VersionByte(v) && !LexLess(key[1..17], lo) && !LexLess(hi, key[1..17])
  }

  function BandUpTo(keys: seq<StoreKey>, v: Version, lo: Address, hi: Address, n: nat): seq<Word>
    requires n <= |keys| && forall i :: 0 <= i < |keys| ==> |keys[i]| == INDEX_KEY_SIZE
  {
    if n == 0 then []
    else if !InBand(keys[n - 1], v, lo, hi) then BandUpTo(keys, v, lo, hi, n - 1)
    else BandUpTo(keys, v, lo, hi, n - 1) + [IndexId(keys[n - 1])]
  }

  function Band(keys: seq<StoreKey>, v: Version, lo: Address, hi: Address): seq<Word>
    requires forall i :: 0 <= i < |keys| ==> |keys[i]| == INDEX_KEY_SIZE
  {
    BandUpTo(keys, v, lo, hi, |keys|)
  }

  lemma {:induction false} BandEmpty(keys: seq<StoreKey>, v: Version, lo: Address, hi: Address, n: nat, m: nat)
    requires AllKeys(keys) && n <= m <= |keys|
    requires forall i :: n <= i < m ==> !InBand(keys[i], v, lo, hi)
    ensures BandUpTo(keys, v, lo, hi, m) == BandUpTo(keys, v, lo, hi, n)
  {
    if n < m {
      BandEmpty(keys, v, lo, hi, n, m - 1);
    }
  }

  lemma {:induction false} BandGrows(keys: seq<StoreKey>, v: Version, lo: Address, hi: Address, n: nat, m: nat)
    requires AllKeys(keys) && n <= m <= |keys|
    ensures BandUpTo(keys, v, lo, hi, n) <= BandUpTo(keys, v, lo, hi, m)
  {
    if n < m {
      BandGrows(keys, v, lo, hi, n, m - 1);
    }
  }

  const ZERO_TAIL: seq<Byte> := [0, 0, 0, 0, 0]

  function BandSeek(v: Version, lo: Address): StoreKey {
    [VersionByte(v)] + lo + ZERO_TAIL
  }

  /** Keys that begin with a version and an address compare by version, address, rest. */
  lemma KeyFields(key: StoreKey, v: Version, a: Address, rest: seq<Byte>)
    requires |key| == 17 + |rest|
    ensures LexLess(key, [VersionByte(v)] + a + rest) <==>
      key[0] < VersionByte(v) || (key[0] == VersionByte(v) && (LexLess(key[1..17], a) || (key[1..17] == a && LexLess(key[17..], rest))))
    ensures LexLess([VersionByte(v)] + a + rest, key) <==>
      VersionByte(v) < key[0] || (key[0] == VersionByte(v) && (LexLess(a, key[1..17]) || (key[1..17] == a && LexLess(rest, key[17..]))))
  {
    var k, b := key[1..17], [VersionByte(v)] + a + rest;
    assert key[1..] == k + key[17..] && b[1..] == a + rest;
    LexFields(k, key[17..], a, rest);
    LexFields(a, rest, k, key[17..]);
  }

  lemma NotBelowZeros(w: seq<Byte>, n: nat)
    ensures |w| == n ==> !LexLess(w, seq(n, _ => 0))
  {
    if |w| == n && n > 0 {
      var z: seq<Byte> := seq(n, _ => 0);
      assert z[1..] == seq(n - 1, _ => 0);
      NotBelowZeros(w[1..], n - 1);
    }
  }

  lemma BandStartsAtSeek(keys: seq<StoreKey>, v: Version, lo: Address, hi: Address)
    requires AllKeys(keys)
    ensures BandUpTo(keys, v, lo, hi, Seek(keys, BandSeek(v, lo))) == []
  {
    var i := Seek(keys, BandSeek(v, lo));
    forall j | 0 <= j < i
      ensures !InBand(keys[j], v, lo, hi)
    {
      BeforeSeekOn(keys, BandSeek(v, lo), j);
      KeyFields(keys[j], v, lo, ZERO_TAIL);
      NotBelowZeros(keys[j][17..], 5);
      assert ZERO_TAIL == seq(5, _ => 0);
    }
    BandEmpty(keys, v, lo, hi, 0, i);
  }

  /** From Seek on, a key is in the band unless the band has ended there. */
  lemma BandFromSeek(keys: seq<StoreKey>, v: Version, lo: Address, hi: Address, j: nat)
    requires AllKeys(keys) && Seek(keys, BandSeek(v, lo)) <= j < |keys|
    ensures InBand(keys[j], v, lo, hi) <==> keys[j][0] == VersionByte(v) && !LexLess(hi, keys[j][1..17])
  {
    FromSeekOn(keys, BandSeek(v, lo), j);
    KeyFields(keys[j], v, lo, ZERO_TAIL);
  }

  lemma AfterBand(keys: seq<StoreKey>, v: Version, lo: Address, hi: Address, j: nat, k: nat)
    requires AllKeys(keys) && Seek(keys, BandSeek(v, lo)) <= j < k < |keys|
    requires !InBand(keys[j], v, lo, hi)
    ensures !InBand(keys[k], v, lo, hi)
  {
    BandFromSeek(keys, v, lo, hi, j);
    BandFromSeek(keys, v, lo, hi, k);
    FromSeekOn(keys, BandSeek(v, lo), j);
    assert Precedes(keys, j, k);
    KeyFields(keys[j], v, lo, ZERO_TAIL);
    if keys[k][0] == VersionByte(v) {
      assert keys[k] == [VersionByte(v)] + keys[k][1..17] + keys[k][17..];
      KeyFields(keys[j], v, keys[k][1..17], keys[k][17..]);
      if keys[j][1..17] != keys[k][1..17] && LexLess(hi, keys[j][1..17]) {
        LexTransitive(hi, keys[j][1..17], keys[k][1..17]);
      }
    }
  }

  lemma BandOver(keys: seq<StoreKey>, v: Version, lo: Address, hi: Address, j: nat)
    requires AllKeys(keys) && Seek(keys, BandSeek(v, lo)) <= j < |keys| && !InBand(keys[j], v, lo, hi)
    ensures forall k :: j <= k < |keys| ==> !InBand(keys[k], v, lo, hi)
  {
    forall k | j < k < |keys|
      ensures !InBand(keys[k], v, lo, hi)
    {
      AfterBand(keys, v, lo, hi, j, k);
    }
  }

  lemma BandEnds(keys: seq<StoreKey>, v: Version, lo: Address, hi: Address, j: nat)
    requires AllKeys(keys) && Seek(keys, BandSeek(v, lo)) <= j <= |keys|
    requires j < |keys| ==> !InBand(keys[j], v, lo, hi)
    ensures BandUpTo(keys, v, lo, hi, j) == Band(keys, v, lo, hi)
  {
    if j < |keys| {
      BandOver(keys, v, lo, hi, j);
    }
    BandEmpty(keys, v, lo, hi, j, |keys|);
  }

  // ---------- the query ----------

  datatype OverlapResult = Ids(ids: seq<Word>) | TooBroad

  /** One run of keys with the given prefix: counts each, keeps the IDs above the cursor. */
  method CollectRun(keys: seq<StoreKey>, base: StoreKey, after: int, before: set<Word>, count: nat)
    returns (ok: bool, ids: set<Word>, scanned: nat)
    requires AllKeys(keys) && |base| == PREFIX_KEY_SIZE && count <= MAX_OVERLAP_ENTRIES
    ensures ok <==> count + |Group(keys, base)| <= MAX_OVERLAP_ENTRIES
    ensures ok ==> ids == before + IdsAbove(Group(keys, base), after) && scanned == count + |Group(keys, base)|
  {
    ok, ids, scanned := true, before, count;
    var i := Seek(keys, base + ZERO_ID);
    GroupStartsAtSeek(keys, base);
    while i < |keys| && keys[i][..PREFIX_KEY_SIZE] == base
      invariant Seek(keys, base + ZERO_ID) <= i <= |keys|
      invariant ids == before + IdsAbove(GroupUpTo(keys, base, i), after)
      invariant scanned == count + |GroupUpTo(keys, base, i)| <= MAX_OVERLAP_ENTRIES
      decreases |keys| - i
    {
      scanned := scanned + 1;
      if scanned > MAX_OVERLAP_ENTRIES {
        GroupPrefix(keys, base, i + 1, |keys|);
        return false, ids, scanned;
      }
      var id := IndexId(keys[i]);
      IdsAboveSum(GroupUpTo(keys, base, i), [id], after);
      if id > after {
        ids := ids + {id};
      }
      i := i + 1;
    }
    GroupEndsWithRun(keys, base, i);
  }

  /** The scan has seen everything above the given length. */
  ghost predicate Covered(keys: seq<StoreKey>, v: Version, x: nat, length: int, after: int, seen: seq<Word>, ids: set<Word>, scanned: nat)
    requires AllKeys(keys) && length <= Width(v)
  {
    && Matches(keys, v, x) == seen + MatchesFrom(keys, v, x, length)
    && ids == IdsAbove(seen, after) && scanned == |seen| <= MAX_OVERLAP_ENTRIES
  }

  lemma CoveredStep(keys: seq<StoreKey>, v: Version, x: nat, length: nat, after: int, seen: seq<Word>, ids: set<Word>, scanned: nat)
    requires AllKeys(keys) && length <= Width(v) && true == Covered(keys, v, x, length, after, seen, ids, scanned)
    ensures var group := Group(keys, BlockKey(v, x, length));
      && |Matches(keys, v, x)| >= scanned + |group|
      && (scanned + |group| <= MAX_OVERLAP_ENTRIES ==>
           true == Covered(keys, v, x, length - 1, after, seen + group, ids + IdsAbove(group, after), scanned + |group|))
  {
    var group := Group(keys, BlockKey(v, x, length));
    IdsAboveSum(seen, group, after);
    assert seen + (group + MatchesFrom(keys, v, x, length - 1)) == (seen + group) + MatchesFrom(keys, v, x, length - 1);
  }

  /** Everything indexed under a prefix of the address: the point query again, without a limit
      on results but with one on keys read. */
  method CollectCovering(keys: seq<StoreKey>, start: Address, v: Version, after: int)
    returns (ok: bool, ids: set<Word>, scanned: nat)
    requires AllKeys(keys) && Canonical(start, v)
    ensures ok <==> |Matches(keys, v, Num(start, v))| <= MAX_OVERLAP_ENTRIES
    ensures ok ==> ids == IdsAbove(Matches(keys, v, Num(start, v)), after) && scanned == |Matches(keys, v, Num(start, v))|
  {
    ghost var x := Num(start, v);
    ghost var seen: seq<Word> := [];
    ok, ids, scanned := true, {}, 0;
    var length: int := Width(v);
    while length >= 0
      invariant -1 <= length <= Width(v) && ok
      invariant true == Covered(keys, v, x, length, after, seen, ids, scanned)
    {
      var base := PutPrefixKey(start, v, length);
      CoveredStep(keys, v, x, length, after, seen, ids, scanned);
      ok, ids, scanned := CollectRun(keys, base, after, ids, scanned);
      if !ok {
        return;
      }
      seen := seen + Group(keys, base);
      length := length - 1;
    }
  }

  /** Everything indexed under a prefix that begins in the queried range. */
  method CollectBand(keys: seq<StoreKey>, v: Version, lo: Address, hi: Address, after: int, before: set<Word>, count: nat)
    returns (ok: bool, ids: set<Word>)
    requires AllKeys(keys) && count <= MAX_OVERLAP_ENTRIES
    ensures ok <==> count + |Band(keys, v, lo, hi)| <= MAX_OVERLAP_ENTRIES
    ensures ok ==> ids == before + IdsAbove(Band(keys, v, lo, hi), after)
  {
    ok, ids := true, before;
    var scanned := count;
    var i := Seek(keys, BandSeek(v, lo));
    BandStartsAtSeek(keys, v, lo, hi);
    while i < |keys| && keys[i][0] == VersionByte(v)
      invariant Seek(keys, BandSeek(v, lo)) <= i <= |keys|
      invariant ids == before + IdsAbove(BandUpTo(keys, v, lo, hi, i), after)
      invariant scanned == count + |BandUpTo(keys, v, lo, hi, i)| <= MAX_OVERLAP_ENTRIES
      decreases |keys| - i
    {
      BandFromSeek(keys, v, lo, hi, i);
      if LexLess(hi, keys[i][1..17]) {
        break;
      }
      scanned := scanned + 1;
      if scanned > MAX_OVERLAP_ENTRIES {
        BandGrows(keys, v, lo, hi, i + 1, |keys|);
        return false, ids;
      }
      var id := IndexId(keys[i]);
      IdsAboveSum(BandUpTo(keys, v, lo, hi, i), [id], after);
      if id > after {
        ids := ids + {id};
      }
      i := i + 1;
    }
    if i < |keys| {
      BandFromSeek(keys, v, lo, hi, i);
    }
    BandEnds(keys, v, lo, hi, i);
  }

  function InsertAscending(ids: seq<Word>, id: Word): (r: seq<Word>)
    requires Ascending(ids) && id !in ids
    ensures Ascending(r) && forall n :: n in r <==> n == id || n in ids
  {
    if ids == [] || id < ids[0] then [id] + ids else
      var rest := InsertAscending(ids[1..], id);
      assert forall n :: n in ids <==> n == ids[0] || n in ids[1..];
      assert forall i :: 0 <= i < |rest| ==> rest[i] in rest;
      assert forall n :: n in ids[1..] ==> ids[0] < n;
      [ids[0]] + rest
  }

  /** The set's members in ascending order. */
  method SortIds(ids: set<Word>) returns (r: seq<Word>)
    ensures Ascending(r) && forall id :: id in r <==> id in ids
  {
    r := [];
    var rest := ids;
    while rest != {}
      invariant Ascending(r) && rest <= ids
      invariant forall id :: id in r <==> id in ids && id !in rest
      decreases rest
    {
      var id :| id in rest;
      r := InsertAscending(r, id);
      rest := rest - {id};
    }
  }

  /** The records whose range meets start to end, ascending, above the cursor. */
  method OverlapIds(keys: seq<StoreKey>, start: Address, end: Address, v: Version, after: int) returns (r: OverlapResult)
    requires AllKeys(keys) && Canonical(start, v)
    ensures r.TooBroad? <==> |Matches(keys, v, Num(start, v)) + Band(keys, v, Unmapped(start, v), Unmapped(end, v))| > 2_000_000
    ensures r.Ids? ==> Ascending(r.ids)
    ensures r.Ids? ==> forall id :: id in r.ids <==> id in Matches(keys, v, Num(start, v)) + Band(keys, v, Unmapped(start, v), Unmapped(end, v)) && id > after
  {
    var ok, ids, scanned := CollectCovering(keys, start, v, after);
    if !ok {
      return TooBroad;
    }
    ok, ids := CollectBand(keys, v, Unmapped(start, v), Unmapped(end, v), after, ids, scanned);
    if !ok {
      return TooBroad;
    }
    var sorted := SortIds(ids);
    IdsAboveSum(Matches(keys, v, Num(start, v)), Band(keys, v, Unmapped(start, v), Unmapped(end, v)), after);
    r := Ids(sorted);
  }

  // ---------- the query is exact ----------

  lemma {:induction false} BandIn(keys: seq<StoreKey>, v: Version, lo: Address, hi: Address, n: nat, id: Word)
    requires AllKeys(keys) && n <= |keys|
    ensures id in BandUpTo(keys, v, lo, hi, n) <==> exists i :: 0 <= i < n && InBand(keys[i], v, lo, hi) && IndexId(keys[i]) == id
  {
    if n > 0 {
      BandIn(keys, v, lo, hi, n - 1, id);
    }
  }

  /** A key is in the band exactly when its block begins in the queried range. */
  lemma BandKey(keys: seq<StoreKey>, ss: seq<Source>, i: nat, v: Version, lo: Address, hi: Address, w: Version, b: Block, id: nat)
    requires ValidSources(ss) && HasEntry(ss, w, b, id) && b.exp <= Width(w) && b.base < Pow2(Width(w))
    requires i < |keys| && |keys[i]| == INDEX_KEY_SIZE && keys[i][..PREFIX_KEY_SIZE] == PrefixKey(w, b)
    requires Canonical(lo, v) && Canonical(hi, v)
    ensures InBand(keys[i], v, lo, hi) <==> w == v && Num(lo, v) <= b.base <= Num(hi, v)
  {
    var p := keys[i][..PREFIX_KEY_SIZE];
    assert keys[i][0] == p[0] == VersionByte(w);
    assert keys[i][1..17] == p[1..17] == AddressOf(b.base, w);
    if w == v {
      NumOfAddress(b.base, v);
      AddressOrder(AddressOf(b.base, v), lo, v);
      AddressOrder(hi, AddressOf(b.base, v), v);
    }
  }

  /** The band holds the records with a component that begins in the queried range. */
  lemma BandIsExact(keys: seq<StoreKey>, ss: seq<Source>, v: Version, lo: Address, hi: Address, id: Word)
    requires IsIndex(keys, ss) && AllKeys(keys) && Canonical(lo, v) && Canonical(hi, v)
    ensures id in Band(keys, v, lo, hi) <==> exists b :: HasEntry(ss, v, b, id) && Num(lo, v) <= b.base <= Num(hi, v)
  {
    BandIn(keys, v, lo, hi, |keys|, id);
    if id in Band(keys, v, lo, hi) {
      var i :| 0 <= i < |keys| && InBand(keys[i], v, lo, hi) && IndexId(keys[i]) == id;
      var w, b, n := KeyIsEntry(keys, ss, i);
      BlockInSource(ss[n - 1], b);
      BandKey(keys, ss, i, v, lo, hi, w, b, n);
    }
    if b :| HasEntry(ss, v, b, id) && Num(lo, v) <= b.base <= Num(hi, v) {
      var i := EntryIsKey(keys, ss, v, b, id);
      BlockInSource(ss[id - 1], b);
      BandKey(keys, ss, i, v, lo, hi, v, b, id);
    }
  }

  /** A range meets another exactly when it has its first address or begins a block in it. */
  lemma MeetsByBlocks(s: Source, v: Version, lo: nat, hi: nat)
    requires ValidSource(s) && lo <= hi
    ensures Meets(s, v, lo, hi) <==> Contains(s, v, lo) || (s.version == v && exists b :: b in s.blocks && lo <= b.base <= hi)
  {
    if b :| s.version == v && b in s.blocks && lo <= b.base <= hi {
      BlockInSource(s, b);
    }
    if Meets(s, v, lo, hi) && !Contains(s, v, lo) {
      FirstBlock(s);
      assert s.blocks[0] in s.blocks;
    }
  }

  lemma FirstBlock(s: Source)
    requires ValidSource(s)
    ensures s.blocks != [] && s.blocks[0].base == s.start
  {
  }

  /** Matches and band together are the records that meet the queried range. */
  lemma OverlapIsExact(keys: seq<StoreKey>, ss: seq<Source>, v: Version, lo: Address, hi: Address, id: Word)
    requires IsIndex(keys, ss) && AllKeys(keys) && Plain(lo, v) && Plain(hi, v) && Num(lo, v) <= Num(hi, v)
    ensures id in Matches(keys, v, Num(lo, v)) + Band(keys, v, lo, hi) <==>
            1 <= id <= |ss| && Meets(ss[id - 1], v, Num(lo, v), Num(hi, v))
  {
    NumIsKeyValue(lo, v);
    PointQueryIsExact(keys, ss, v, Num(lo, v));
    BandIsExact(keys, ss, v, lo, hi, id);
    assert id in Matches(keys, v, Num(lo, v)) <==> IsHit(ss, v, Num(lo, v), id);
    if 1 <= id <= |ss| {
      MeetsByBlocks(ss[id - 1], v, Num(lo, v), Num(hi, v));
    }
  }

  // ---------- pages ----------

  /** all lists, in ascending order, every record that meets the queried range. */
  ghost predicate IsOverlap(all: seq<nat>, ss: seq<Source>, v: Version, lo: nat, hi: nat) {
    Ascending(all) && forall id :: id in all <==> 1 <= id <= |ss| && Meets(ss[id - 1], v, lo, hi)
  }

  /** One page of LookupPrefix: the IDs above the cursor, cut to one more than the limit. It is
      the page at the cursor of the list of all overlapping records. */
  method RoutesPage(keys: seq<StoreKey>, start: Address, end: Address, v: Version, cursor: int, limit: nat,
                    ghost ss: seq<Source>, ghost all: seq<nat>)
    returns (page: Option<Paging.Page>)
    requires IsIndex(keys, ss) && AllKeys(keys) && Plain(start, v) && Plain(end, v) && Num(start, v) <= Num(end, v)
    requires limit >= 1 && IsOverlap(all, ss, v, Num(start, v), Num(end, v))
    ensures page.None? <==> |Matches(keys, v, Num(start, v)) + Band(keys, v, Unmapped(start, v), Unmapped(end, v))| > 2_000_000
    ensures page.Some? ==> page.value == Paging.PageAt(all, cursor, limit)
  {
    UnmappedNum(start, v);
    UnmappedNum(end, v);
    var found := OverlapIds(keys, start, end, v, cursor);
    if found.TooBroad? {
      return None;
    }
    var ids := found.ids;
    forall id: Word
      ensures id in ids <==> id in all && id > cursor
    {
      OverlapIsExact(keys, ss, v, start, end, id);
    }
    AbovePage(ids, all, cursor);
    Paging.OneMoreIsEnough(ids, limit);
    if |ids| > limit + 1 {
      ids := ids[..limit + 1];
    }
    page := Some(Paging.RoutePage(ids, limit));
  }

  lemma AbovePage(ids: seq<Word>, all: seq<nat>, cursor: int)
    requires Ascending(ids) && Ascending(all) && forall id: Word :: id in ids <==> id in all && id > cursor
    requires forall id :: id in all ==> id <= MAX_UINT32
    ensures ids == Paging.Above(all, cursor)
  {
    Paging.AboveIsExact(all, cursor);
    forall id: nat
      ensures id in ids <==> id in Paging.Above(all, cursor)
    {
      if id <= MAX_UINT32 {
        var w: Word := id;
        assert w in ids <==> w in all && w > cursor;
      }
    }
    AscendingUnique(ids, Paging.Above(all, cursor));
  }

  // ---------- the allocation around a prefix ----------

  /** Record id spans at least the queried range. */
  ghost predicate Covers(ss: seq<Source>, v: Version, lo: nat, hi: nat, id: nat) {
    1 <= id <= |ss| && ss[id - 1].version == v && ss[id - 1].start <= lo && hi <= ss[id - 1].last
  }

  /** The later start, then the earlier end, then the lower ID. */
  ghost predicate Inner(ss: seq<Source>, a: nat, b: nat)
    requires 1 <= a <= |ss| && 1 <= b <= |ss|
  {
    var s, t := ss[a - 1], ss[b - 1];
    s.start > t.start || (s.start == t.start && (s.last < t.last || (s.last == t.last && a < b)))
  }

  /** id is the innermost of the covering records in ids; zero when there is none. */
  ghost predicate IsInnermost(ids: seq<Word>, ss: seq<Source>, v: Version, lo: nat, hi: nat, id: nat) {
    if id == 0 then forall i :: 0 <= i < |ids| ==> !Covers(ss, v, lo, hi, ids[i]) else
      Covers(ss, v, lo, hi, id) && forall i :: 0 <= i < |ids| && Covers(ss, v, lo, hi, ids[i]) && ids[i] != id ==> Inner(ss, id, ids[i])
  }

  /** Byte comparisons of the bounds are comparisons of the numbers. */
  lemma BoundsCompare(rs: seq<Bounds>, ss: seq<Source>, v: Version, id: Word, a: Address)
    requires AreRecords(rs, ss) && 1 <= id <= |rs| && rs[id - 1].version == v && Canonical(a, v)
    ensures var r, s := rs[id - 1], ss[id - 1];
      && s.version == v && Canonical(r.start, v) && Canonical(r.end, v)
      && (LexLess(a, r.start) <==> Num(a, v) < s.start) && (LexLess(r.start, a) <==> s.start < Num(a, v)) && (r.start == a <==> s.start == Num(a, v))
      && (LexLess(a, r.end) <==> Num(a, v) < s.last) && (LexLess(r.end, a) <==> s.last < Num(a, v)) && (r.end == a <==> s.last == Num(a, v))
  {
    var r := rs[id - 1];
    assert Spans(ss[id - 1], r) && ValidBounds(r);
    AddressOrder(a, r.start, v);
    AddressOrder(r.start, a, v);
    AddressOrder(a, r.end, v);
    AddressOrder(r.end, a, v);
  }

  /** Whether record id covers the range and beats the best so far. */
  method Beats(rs: seq<Bounds>, start: Address, end: Address, v: Version, id: Word, selected: Word, ghost ss: seq<Source>)
    returns (beats: bool)
    requires AreRecords(rs, ss) && Canonical(start, v) && Canonical(end, v)
    requires 1 <= id <= |rs| && rs[id - 1].version == v && selected <= |rs| && (selected != 0 ==> rs[selected - 1].version == v)
    ensures beats <==> Covers(ss, v, Num(start, v), Num(end, v), id) && (selected == 0 || Inner(ss, id, selected))
  {
    var record := rs[id - 1];
    BoundsCompare(rs, ss, v, id, start);
    BoundsCompare(rs, ss, v, id, end);
    if LexLess(start, record.start) || LexLess(record.end, end) {
      return false;
    }
    if selected == 0 {
      return true;
    }
    var best := rs[selected - 1];
    BoundsCompare(rs, ss, v, selected, record.start);
    BoundsCompare(rs, ss, v, selected, record.end);
    return LexLess(best.start, record.start)
      || (record.start == best.start && (LexLess(record.end, best.end) || (record.end == best.end && id < selected)));
  }

  /** The innermost of all records that cover the range, whatever order the index has. */
  method CoveringAllocation(keys: seq<StoreKey>, rs: seq<Bounds>, start: Address, end: Address, v: Version, ghost ss: seq<Source>)
    returns (selected: Word)
    requires AreRecords(rs, ss) && IsStored(keys, ss) && AllKeys(keys)
    requires Plain(start, v) && Plain(end, v) && Num(start, v) <= Num(end, v)
    ensures selected == 0 <==> forall id :: !Covers(ss, v, Num(start, v), Num(end, v), id)
    ensures selected != 0 ==> Covers(ss, v, Num(start, v), Num(end, v), selected)
    ensures selected != 0 ==> forall id :: Covers(ss, v, Num(start, v), Num(end, v), id) && id != selected ==>
      var s, t := ss[selected - 1], ss[id - 1];
      t.start < s.start || (t.start == s.start && (s.last < t.last || (s.last == t.last && selected < id)))
  {
    var ids := MatchingIds(keys, start, v, 0);
    NoHitIsMissed(keys, ss, v, Num(start, v));
    HitsOfFamily(ids, rs, ss, v, Num(start, v));
    UnmappedNum(start, v);
    UnmappedNum(end, v);
    selected := SelectInnermost(ids, rs, Unmapped(start, v), Unmapped(end, v), v, ss);
    CoveringAreMatches(ids, ss, v, Num(start, v), Num(end, v));
  }

  lemma HitsOfFamily(ids: seq<Word>, rs: seq<Bounds>, ss: seq<Source>, v: Version, x: nat)
    requires AreRecords(rs, ss) && FindsHits(ids, ss, v, x)
    ensures forall i :: 0 <= i < |ids| ==> 1 <= ids[i] <= |rs| && rs[ids[i] - 1].version == v
  {
    forall i | 0 <= i < |ids|
      ensures 1 <= ids[i] <= |rs| && rs[ids[i] - 1].version == v
    {
      assert Spans(ss[ids[i] - 1], rs[ids[i] - 1]);
    }
  }

  method SelectInnermost(ids: seq<Word>, rs: seq<Bounds>, start: Address, end: Address, v: Version, ghost ss: seq<Source>)
    returns (selected: Word)
    requires AreRecords(rs, ss) && Canonical(start, v) && Canonical(end, v)
    requires forall i :: 0 <= i < |ids| ==> 1 <= ids[i] <= |rs| && rs[ids[i] - 1].version == v
    ensures IsInnermost(ids, ss, v, Num(start, v), Num(end, v), selected)
  {
    selected := 0;
    for i := 0 to |ids|
      invariant selected <= |rs| && (selected != 0 ==> rs[selected - 1].version == v)
      invariant true == IsInnermost(ids[..i], ss, v, Num(start, v), Num(end, v), selected)
    {
      var beats := Beats(rs, start, end, v, ids[i], selected, ss);
      InnermostNext(ids, ss, v, Num(start, v), Num(end, v), i, selected, beats);
      if beats {
        selected := ids[i];
      }
    }
    assert ids[..|ids|] == ids;
  }

  lemma InnermostNext(ids: seq<Word>, ss: seq<Source>, v: Version, lo: nat, hi: nat, i: nat, selected: Word, beats: bool)
    requires i < |ids| && IsInnermost(ids[..i], ss, v, lo, hi, selected) && selected <= |ss| && 1 <= ids[i] <= |ss|
    requires beats <==> Covers(ss, v, lo, hi, ids[i]) && (selected == 0 || Inner(ss, ids[i], selected))
    ensures IsInnermost(ids[..i + 1], ss, v, lo, hi, if beats then ids[i] else selected)
  {
    var upTo := ids[..i + 1];
    assert forall j :: 0 <= j < i ==> upTo[j] == ids[..i][j];
  }

  lemma CoveringAreMatches(ids: seq<Word>, ss: seq<Source>, v: Version, lo: nat, hi: nat)
    requires lo <= hi && FindsHits(ids, ss, v, lo)
    ensures forall id :: Covers(ss, v, lo, hi, id) ==> exists i :: 0 <= i < |ids| && ids[i] == id
  {
    forall id | Covers(ss, v, lo, hi, id)
      ensures exists i :: 0 <= i < |ids| && ids[i] == id
    {
      assert IsHit(ss, v, lo, id);
      assert id in ids;
    }
  }
}
