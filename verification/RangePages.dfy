/** Range pagination: the records that meet a range in (start, end, ID) order, a page at a time.
    Records that start before the range come first, from the prefix index; the others follow
    straight from the range index. */
module RangePages {
  import opened Bytes
  import opened Words
  import opened Addresses
  import opened Sources
  import opened PointIndex
  import opened MappedIndex
  import opened Overlap

  const RANGE_KEY_SIZE := 37

  // ---------- range keys ----------

  function RangeKey(v: Version, start: Address, end: Address, id: Word): (key: StoreKey)
    ensures |key| == RANGE_KEY_SIZE
  {
    [VersionByte(v)] + start + (end + PutWord(id))
  }

  function RangeId(key: StoreKey): Word
    requires |key| == RANGE_KEY_SIZE
  {
    GetWord(key[33..])
  }

  function KeyOfRecord(rs: seq<Bounds>, id: Word): StoreKey
    requires 1 <= id <= |rs|
  {
    RangeKey(rs[id - 1].version, rs[id - 1].start, rs[id - 1].end, id)
  }

  lemma RangeKeyParts(v: Version, start: Address, end: Address, id: Word)
    ensures var key := RangeKey(v, start, end, id);
      key[0] == VersionByte(v) && key[1..17] == start && key[17..] == end + PutWord(id) && key[17..33] == end && RangeId(key) == id
  {
    var key := RangeKey(v, start, end, id);
    assert key[33..] == PutWord(id);
    WordRoundTrip(id);
  }

  /** Byte order of the keys is the order of version, start, end and ID. */
  lemma RangeKeyOrder(v: Version, s: Address, e: Address, id: Word, w: Version, t: Address, f: Address, other: Word)
    requires Canonical(s, v) && Canonical(e, v) && Canonical(t, w) && Canonical(f, w)
    ensures LexLess(RangeKey(v, s, e, id), RangeKey(w, t, f, other)) <==>
      VersionByte(v) < VersionByte(w) || (v == w &&
        (Num(s, v) < Num(t, v) || (Num(s, v) == Num(t, v) &&
        (Num(e, v) < Num(f, v) || (Num(e, v) == Num(f, v) && id < other)))))
  {
    RangeKeyParts(v, s, e, id);
    KeyFields(RangeKey(v, s, e, id), w, t, f + PutWord(other));
    LexFields(e, PutWord(id), f, PutWord(other));
    LexIsNumeric(PutWord(id), PutWord(other));
    WordRoundTrip(id);
    WordRoundTrip(other);
    if v == w {
      AddressOrder(s, t, v);
      AddressOrder(e, f, v);
    }
  }

  // ---------- the range index ----------

  ghost predicate IsRangeKey(rs: seq<Bounds>, key: StoreKey) {
    exists id: Word :: 1 <= id <= |rs| && key == KeyOfRecord(rs, id)
  }

  ghost predicate AskRecord(id: Word) {
    true
  }

  ghost predicate AllRangeKeys(keys: seq<StoreKey>) {
    Sorted(keys) && forall i :: 0 <= i < |keys| ==> |keys[i]| == RANGE_KEY_SIZE
  }

  /** The bucket holds one key for each record. */
  ghost predicate IsRangeIndex(keys: seq<StoreKey>, rs: seq<Bounds>) {
    && AllBounds(rs) && AllRangeKeys(keys)
    && (forall i: nat {:trigger AskKey(i)} :: i < |keys| ==> IsRangeKey(rs, keys[i]))
    && (forall id: Word {:trigger AskRecord(id)} :: 1 <= id <= |rs| ==> KeyOfRecord(rs, id) in keys)
  }

  lemma KeyIsRecord(keys: seq<StoreKey>, rs: seq<Bounds>, i: nat) returns (id: Word)
    requires true == IsRangeIndex(keys, rs) && i < |keys|
    ensures 1 <= id <= |rs| && keys[i] == KeyOfRecord(rs, id)
  {
    assert AskKey(i);
    id :| 1 <= id <= |rs| && keys[i] == KeyOfRecord(rs, id);
  }

  // ---------- reading on from a position ----------

  predicate UpTo(key: StoreKey, v: Version, hi: Address)
    requires |key| == RANGE_KEY_SIZE
  {
    key[0] == VersionByte(v) && !LexLess(hi, key[1..17])
  }

  /** The keys from position i on, as long as they are of the version and start by hi. */
  function DirectFrom(keys: seq<StoreKey>, v: Version, hi: Address, i: nat): seq<StoreKey>
    requires i <= |keys| && forall j :: 0 <= j < |keys| ==> |keys[j]| == RANGE_KEY_SIZE
    decreases |keys| - i
  {
    if i < |keys| && UpTo(keys[i], v, hi) then [keys[i]] + DirectFrom(keys, v, hi, i + 1) else []
  }

  lemma {:induction false} DirectIsSlice(keys: seq<StoreKey>, v: Version, hi: Address, i: nat)
    requires i <= |keys| && forall j :: 0 <= j < |keys| ==> |keys[j]| == RANGE_KEY_SIZE
    ensures var d := DirectFrom(keys, v, hi, i);
      && i + |d| <= |keys| && d == keys[i..i + |d|]
      && (forall j :: i <= j < i + |d| ==> UpTo(keys[j], v, hi))
      && (i + |d| < |keys| ==> !UpTo(keys[i + |d|], v, hi))
    decreases |keys| - i
  {
    if i < |keys| && UpTo(keys[i], v, hi) {
      DirectIsSlice(keys, v, hi, i + 1);
      var d, rest := DirectFrom(keys, v, hi, i), DirectFrom(keys, v, hi, i + 1);
      assert i + |d| == i + 1 + |rest| && keys[i..i + |d|] == [keys[i]] + keys[i + 1..i + 1 + |rest|];
    }
  }

  lemma {:induction false} DirectSuffix(keys: seq<StoreKey>, v: Version, hi: Address, i: nat, n: nat)
    requires i <= |keys| && forall j :: 0 <= j < |keys| ==> |keys[j]| == RANGE_KEY_SIZE
    requires n <= |DirectFrom(keys, v, hi, i)|
    ensures i + n <= |keys| && DirectFrom(keys, v, hi, i + n) == DirectFrom(keys, v, hi, i)[n..]
    decreases n
  {
    if n > 0 {
      DirectSuffix(keys, v, hi, i + 1, n - 1);
      assert DirectFrom(keys, v, hi, i)[1..] == DirectFrom(keys, v, hi, i + 1);
      assert i + 1 + (n - 1) == i + n;
    }
  }

  /** Where reading resumes after a key: past it when it is there. */
  function Beyond(keys: seq<StoreKey>, key: StoreKey): (i: nat)
    ensures i <= |keys|
  {
    var i := Seek(keys, key);
    if i < |keys| && keys[i] == key then i + 1 else i
  }

  lemma BeyondOwn(keys: seq<StoreKey>, i: nat)
    requires Sorted(keys) && i < |keys|
    ensures Beyond(keys, keys[i]) == i + 1
  {
    var s := Seek(keys, keys[i]);
    LexIrreflexive(keys[i]);
    assert s < i ==> Precedes(keys, s, i);
    if i < s {
      BeforeSeekOn(keys, keys[i], i);
    }
  }

  const ZERO_REST: seq<Byte> := [0, 0, 0, 0, 0, 0, 0, 0, 0, 0, 0, 0, 0, 0, 0, 0, 0, 0, 0, 0]

  function StartKey(v: Version, lo: Address): (key: StoreKey)
    ensures |key| == RANGE_KEY_SIZE
  {
    [VersionByte(v)] + lo + ZERO_REST
  }

  lemma RestIsNotZero(end: Address, id: Word)
    requires id != 0
    ensures end + PutWord(id) != ZERO_REST
  {
    assert (end + PutWord(id))[16..] == PutWord(id) && ZERO_REST[16..] == [0, 0, 0, 0];
    WordRoundTrip(id);
    ZeroWord();
  }

  lemma ZeroWord()
    ensures GetWord([0, 0, 0, 0]) == 0
  {
    var z: seq<Byte> := [0, 0, 0, 0];
    assert NumberOf(z, 1) == 0 && NumberOf(z, 2) == 0 && NumberOf(z, 3) == 0;
  }

  /** No record has ID zero, so the start key itself is never in the index. */
  lemma StartKeyAbsent(keys: seq<StoreKey>, rs: seq<Bounds>, v: Version, lo: Address)
    requires true == IsRangeIndex(keys, rs)
    ensures StartKey(v, lo) !in keys
    ensures Beyond(keys, StartKey(v, lo)) == Seek(keys, StartKey(v, lo))
  {
    forall i | 0 <= i < |keys|
      ensures keys[i] != StartKey(v, lo)
    {
      var id := KeyIsRecord(keys, rs, i);
      RangeKeyParts(rs[id - 1].version, rs[id - 1].start, rs[id - 1].end, id);
      RestIsNotZero(rs[id - 1].end, id);
      assert StartKey(v, lo)[17..] == ZERO_REST;
    }
  }

  // ---------- records that start before the range ----------

  ghost predicate IsCoveringKey(rs: seq<Bounds>, v: Version, lo: nat, key: StoreKey) {
    exists id: Word :: IsCoveringRecord(rs, v, lo, id) && key == KeyOfRecord(rs, id)
  }

  ghost predicate IsCoveringRecord(rs: seq<Bounds>, v: Version, lo: nat, id: Word) {
    1 <= id <= |rs| && rs[id - 1].version == v && Num(rs[id - 1].start, v) < lo <= Num(rs[id - 1].end, v)
  }

  /** The keys of all records that start before lo and reach it, in key order. */
  ghost predicate IsCovering(cov: seq<StoreKey>, rs: seq<Bounds>, v: Version, lo: nat) {
    Sorted(cov) && forall key :: key in cov <==> IsCoveringKey(rs, v, lo, key)
  }

  lemma SortedTail(list: seq<StoreKey>)
    requires Sorted(list) && list != []
    ensures Sorted(list[1..])
    ensures forall i :: 0 < i < |list| ==> LexLess(list[0], list[i])
  {
    forall i | 0 < i < |list|
      ensures LexLess(list[0], list[i])
    {
      assert Precedes(list, 0, i);
    }
    forall i, j | 0 <= i < j < |list[1..]|
      ensures Precedes(list[1..], i, j)
    {
      assert Precedes(list, i + 1, j + 1);
    }
  }

  lemma SortedCons(key: StoreKey, list: seq<StoreKey>)
    requires Sorted(list) && forall i :: 0 <= i < |list| ==> LexLess(key, list[i])
    ensures Sorted([key] + list)
  {
    var r := [key] + list;
    forall i, j | 0 <= i < j < |r|
      ensures Precedes(r, i, j)
    {
      assert i > 0 ==> Precedes(list, i - 1, j - 1);
    }
  }

  /** Two lists in key order with the same keys are one list. */
  lemma {:induction false} SortedUnique(a: seq<StoreKey>, b: seq<StoreKey>)
    requires Sorted(a) && Sorted(b) && forall k :: k in a <==> k in b
    ensures a == b
  {
    assert (a != [] ==> a[0] in a) && (b != [] ==> b[0] in b);
    if a != [] && b != [] {
      HeadsEqual(a, b);
      SortedTail(a);
      SortedTail(b);
      forall k
        ensures k in a[1..] <==> k in b[1..]
      {
        HeadOnce(a, k);
        HeadOnce(b, k);
      }
      SortedUnique(a[1..], b[1..]);
      assert a == [a[0]] + a[1..] && b == [b[0]] + b[1..];
    }
  }

  lemma HeadsEqual(a: seq<StoreKey>, b: seq<StoreKey>)
    requires Sorted(a) && Sorted(b) && a != [] && b != [] && a[0] in b && b[0] in a
    ensures a[0] == b[0]
  {
    var i :| 0 <= i < |a| && a[i] == b[0];
    var j :| 0 <= j < |b| && b[j] == a[0];
    SortedTail(a);
    SortedTail(b);
    if i > 0 && j > 0 {
      LexAsymmetric(a[0], b[0]);
    }
  }

  lemma HeadOnce(a: seq<StoreKey>, k: StoreKey)
    requires Sorted(a) && a != []
    ensures k in a[1..] <==> k in a && k != a[0]
  {
    SortedTail(a);
    LexIrreflexive(a[0]);
  }

  function InsertKey(list: seq<StoreKey>, key: StoreKey): (r: seq<StoreKey>)
    requires Sorted(list) && key !in list
    ensures Sorted(r) && forall k :: k in r <==> k == key || k in list
  {
    if list == [] || LexLess(key, list[0]) then
      InsertAtHead(list, key);
      [key] + list
    else
      SortedTail(list);
      var rest := InsertKey(list[1..], key);
      InsertAfterHead(list, key, rest);
      [list[0]] + rest
  }

  lemma InsertAtHead(list: seq<StoreKey>, key: StoreKey)
    requires Sorted(list) && (list == [] || LexLess(key, list[0]))
    ensures Sorted([key] + list)
  {
    forall i | 0 <= i < |list|
      ensures LexLess(key, list[i])
    {
      SortedTail(list);
      if i > 0 {
        LexTransitive(key, list[0], list[i]);
      }
    }
    SortedCons(key, list);
  }

  lemma InsertAfterHead(list: seq<StoreKey>, key: StoreKey, rest: seq<StoreKey>)
    requires Sorted(list) && list != [] && key !in list && !LexLess(key, list[0])
    requires Sorted(rest) && forall k :: k in rest <==> k == key || k in list[1..]
    ensures Sorted([list[0]] + rest)
    ensures forall k :: k in [list[0]] + rest <==> k == key || k in list
  {
    LexTotal(key, list[0]);
    SortedTail(list);
    forall i | 0 <= i < |rest|
      ensures LexLess(list[0], rest[i])
    {
      assert rest[i] in rest;
      if rest[i] != key {
        var j :| 0 <= j < |list| - 1 && list[1..][j] == rest[i];
        assert list[j + 1] == rest[i];
      }
    }
    SortedCons(list[0], rest);
    assert list == [list[0]] + list[1..];
  }

  method SortKeys(list: seq<StoreKey>) returns (r: seq<StoreKey>)
    requires forall i, j :: 0 <= i < j < |list| ==> list[i] != list[j]
    ensures Sorted(r) && forall k :: k in r <==> k in list
  {
    r := [];
    for i := 0 to |list|
      invariant Sorted(r) && forall k :: k in r <==> k in list[..i]
    {
      assert list[i] !in list[..i];
      r := InsertKey(r, list[i]);
      assert list[..i + 1] == list[..i] + [list[i]];
    }
    assert list[..|list|] == list;
  }

  // ---------- cursors ----------

  datatype Kind = Allocations | Routes
  datatype Query = Query(kind: Kind, version: Version, lo: Address, hi: Address)
  datatype Phase = Covering | Direct

  /** Where a page begins: at the first record, or after a key in one of the two phases. */
  datatype Cursor = First | After(phase: Phase, query: Query, key: StoreKey)

  function Later(list: seq<StoreKey>, key: StoreKey): seq<StoreKey> {
    if list == [] then []
    else (if LexLess(key, list[0]) then [list[0]] else []) + Later(list[1..], key)
  }

  /** What is still to come at a cursor. */
  ghost function Rest(keys: seq<StoreKey>, cov: seq<StoreKey>, q: Query, c: Cursor): seq<StoreKey>
    requires true == AllRangeKeys(keys)
  {
    match c
    case First => cov + DirectFrom(keys, q.version, q.hi, Seek(keys, StartKey(q.version, q.lo)))
    case After(Covering, _, key) => Later(cov, key) + DirectFrom(keys, q.version, q.hi, Seek(keys, StartKey(q.version, q.lo)))
    case After(Direct, _, key) => DirectFrom(keys, q.version, q.hi, Beyond(keys, key))
  }

  lemma {:induction false} LaterAll(list: seq<StoreKey>, key: StoreKey)
    requires forall i :: 0 <= i < |list| ==> LexLess(key, list[i])
    ensures Later(list, key) == list
  {
    if list != [] {
      LaterAll(list[1..], key);
    }
  }

  /** Later than one of the keys of a sorted list means after it in the list. */
  lemma {:induction false} LaterThanOwn(list: seq<StoreKey>, n: nat)
    requires Sorted(list) && n < |list|
    ensures Later(list, list[n]) == list[n + 1..]
  {
    LexIrreflexive(list[n]);
    SortedTail(list);
    if n == 0 {
      LaterAll(list[1..], list[0]);
    } else {
      LexAsymmetric(list[0], list[n]);
      LaterThanOwn(list[1..], n - 1);
      assert list[1..][n..] == list[n + 1..];
    }
  }

  lemma {:induction false} LaterAppend(a: seq<StoreKey>, b: StoreKey, key: StoreKey)
    ensures Later(a + [b], key) == Later(a, key) + (if LexLess(key, b) then [b] else [])
  {
    if a != [] {
      LaterAppend(a[1..], b, key);
      assert (a + [b])[1..] == a[1..] + [b];
    } else {
      assert (a + [b])[1..] == [];
    }
  }

  // ---------- one page ----------

  /** What the first phase has to offer at a cursor. */
  function Offered(cov: seq<StoreKey>, c: Cursor): seq<StoreKey> {
    if c.First? then cov else Later(cov, c.key)
  }

  /** The loop over the sorted covering keys: skips what the cursor has passed, stops with a
      full page when another key is there. */
  method CoveringPage(cov: seq<StoreKey>, c: Cursor, limit: nat) returns (entries: seq<StoreKey>, more: bool)
    requires c.First? || c.phase == Covering
    ensures entries == Offered(cov, c)[..Min(limit, |Offered(cov, c)|)]
    ensures more <==> |Offered(cov, c)| > limit
  {
    entries := [];
    for i := 0 to |cov|
      invariant entries == Offered(cov[..i], c) && |entries| <= limit
    {
      assert cov[..i + 1] == cov[..i] + [cov[i]];
      assert cov == cov[..i + 1] + cov[i + 1..];
      if c.After? {
        LaterAppend(cov[..i], cov[i], c.key);
        LaterSplit(cov[..i + 1], cov[i + 1..], c.key);
      }
      if c.After? && !LexLess(c.key, cov[i]) {
        continue;
      }
      if |entries| == limit {
        return entries, true;
      }
      entries := entries + [cov[i]];
    }
    assert cov[..|cov|] == cov;
    return entries, false;
  }

  lemma {:induction false} LaterSplit(a: seq<StoreKey>, b: seq<StoreKey>, key: StoreKey)
    ensures Later(a + b, key) == Later(a, key) + Later(b, key)
  {
    if a != [] {
      LaterSplit(a[1..], b, key);
      assert (a + b)[1..] == a[1..] + b;
    } else {
      assert a + b == b;
    }
  }

  /** Where reading begins: after the cursor's key, or at the start of the range. */
  function ReadsFrom(keys: seq<StoreKey>, v: Version, lo: Address, after: Option<StoreKey>): (i: nat)
    ensures i <= |keys|
  {
    if after.Some? then Beyond(keys, after.value) else Seek(keys, StartKey(v, lo))
  }

  /** Reads at most maximum keys on from the cursor (or from the start of the range). */
  method DirectEntries(keys: seq<StoreKey>, v: Version, lo: Address, hi: Address, after: Option<StoreKey>, maximum: nat)
    returns (entries: seq<StoreKey>, more: bool)
    requires true == AllRangeKeys(keys) && maximum >= 1
    ensures var d := DirectFrom(keys, v, hi, ReadsFrom(keys, v, lo, after));
      entries == d[..Min(maximum, |d|)] && (more <==> |d| >= maximum)
  {
    var i := Seek(keys, if after.Some? then after.value else StartKey(v, lo));
    if after.Some? && i < |keys| && keys[i] == after.value {
      i := i + 1;
    }
    entries, more := ReadOn(keys, v, hi, i, maximum);
  }

  method ReadOn(keys: seq<StoreKey>, v: Version, hi: Address, from: nat, maximum: nat)
    returns (entries: seq<StoreKey>, more: bool)
    requires from <= |keys| && maximum >= 1 && forall j :: 0 <= j < |keys| ==> |keys[j]| == RANGE_KEY_SIZE
    ensures var d := DirectFrom(keys, v, hi, from);
      entries == d[..Min(maximum, |d|)] && (more <==> |d| >= maximum)
  {
    entries := [];
    var i := from;
    ghost var d := DirectFrom(keys, v, hi, from);
    DirectIsSlice(keys, v, hi, from);
    while i < |keys| && UpTo(keys[i], v, hi)
      invariant from <= i <= from + |d| && i - from == |entries| < maximum
      invariant entries == d[..|entries|]
      decreases |keys| - i
    {
      assert keys[i] == d[|entries|];
      entries := entries + [keys[i]];
      i := i + 1;
      if |entries| == maximum {
        return entries, true;
      }
    }
    return entries, false;
  }

  /** A cursor that a client can send back. */
  ghost predicate Resumes(c: Cursor, q: Query) {
    c.After? && c.query == q && |c.key| == RANGE_KEY_SIZE && c.key[0] == VersionByte(q.version)
  }

  ghost predicate OfFamily(cov: seq<StoreKey>, v: Version) {
    forall i :: 0 <= i < |cov| ==> |cov[i]| == RANGE_KEY_SIZE && cov[i][0] == VersionByte(v)
  }

  /** entries are the first limit of rest; after is what remains, if anything does. */
  ghost predicate IsCut(rest: seq<StoreKey>, limit: nat, entries: seq<StoreKey>, after: Option<seq<StoreKey>>) {
    && entries == rest[..Min(limit, |rest|)]
    && (after.None? <==> |rest| <= limit)
    && (after.Some? ==> after.value == rest[limit..])
  }

  ghost function RestAfter(keys: seq<StoreKey>, cov: seq<StoreKey>, q: Query, next: Option<Cursor>): Option<seq<StoreKey>>
    requires AllRangeKeys(keys)
  {
    if next.None? then None else Some(Rest(keys, cov, q, next.value))
  }

  /** A page is the first limit of what is to come; its cursor is there exactly when more
      remains, and what then remains is the rest. */
  ghost predicate IsPage(keys: seq<StoreKey>, cov: seq<StoreKey>, q: Query, c: Cursor, limit: nat,
                         entries: seq<StoreKey>, next: Option<Cursor>)
    requires AllRangeKeys(keys)
  {
    IsCut(Rest(keys, cov, q, c), limit, entries, RestAfter(keys, cov, q, next)) && (next.Some? ==> Resumes(next.value, q))
  }

  lemma {:induction false} OfferedIsSuffix(cov: seq<StoreKey>, c: Cursor) returns (n: nat)
    requires Sorted(cov)
    ensures n <= |cov| && Offered(cov, c) == cov[n..]
  {
    n := 0;
    if c.After? {
      if cov != [] {
        SortedTail(cov);
      }
      if cov == [] || LexLess(c.key, cov[0]) {
        forall i | 0 <= i < |cov|
          ensures LexLess(c.key, cov[i])
        {
          if i > 0 {
            LexTransitive(c.key, cov[0], cov[i]);
          }
        }
        LaterAll(cov, c.key);
      } else {
        n := OfferedIsSuffix(cov[1..], c);
        n := n + 1;
        assert cov[1..][n - 1..] == cov[n..];
      }
    }
  }

  lemma OfferedAfter(cov: seq<StoreKey>, c: Cursor, limit: nat)
    requires Sorted(cov) && 1 <= limit <= |Offered(cov, c)|
    ensures Later(cov, Offered(cov, c)[limit - 1]) == Offered(cov, c)[limit..]
  {
    var n := OfferedIsSuffix(cov, c);
    LaterThanOwn(cov, n + limit - 1);
  }

  lemma CutFirst(a: seq<StoreKey>, b: seq<StoreKey>, n: nat)
    requires n <= |a|
    ensures (a + b)[..n] == a[..n] && (a + b)[n..] == a[n..] + b
  {
  }

  lemma CutSecond(a: seq<StoreKey>, b: seq<StoreKey>, n: nat)
    requires |a| <= n <= |a| + |b|
    ensures (a + b)[..n] == a + b[..n - |a|] && (a + b)[n..] == b[n - |a|..]
  {
  }

  /** The first phase fills the page and has more: the next page starts after its last key. */
  lemma CoveringContinues(keys: seq<StoreKey>, cov: seq<StoreKey>, q: Query, c: Cursor, limit: nat, entries: seq<StoreKey>)
    requires true == AllRangeKeys(keys) && Sorted(cov) && OfFamily(cov, q.version) && limit >= 1 && (c.First? || c.phase == Covering)
    requires |Offered(cov, c)| > limit && entries == Offered(cov, c)[..limit]
    ensures true == IsPage(keys, cov, q, c, limit, entries, Some(After(Covering, q, entries[limit - 1])))
  {
    CoveringLast(cov, q.version, c, limit);
    CutWithin(Offered(cov, c), DirectFrom(keys, q.version, q.hi, Seek(keys, StartKey(q.version, q.lo))), limit);
  }

  lemma CoveringLast(cov: seq<StoreKey>, v: Version, c: Cursor, limit: nat)
    requires Sorted(cov) && OfFamily(cov, v) && 1 <= limit <= |Offered(cov, c)|
    ensures var last := Offered(cov, c)[limit - 1];
      |last| == RANGE_KEY_SIZE && last[0] == VersionByte(v) && Later(cov, last) == Offered(cov, c)[limit..]
  {
    OfferedAfter(cov, c, limit);
    var n := OfferedIsSuffix(cov, c);
    assert Offered(cov, c)[limit - 1] == cov[n + limit - 1];
  }

  lemma CutWithin(a: seq<StoreKey>, b: seq<StoreKey>, limit: nat)
    requires |a| > limit
    ensures true == IsCut(a + b, limit, a[..limit], Some(a[limit..] + b))
  {
    CutFirst(a, b, limit);
  }

  /** The first phase fills the page exactly: the next page starts the second phase, if there
      is anything in it. */
  lemma DirectStarts(keys: seq<StoreKey>, cov: seq<StoreKey>, rs: seq<Bounds>, q: Query, c: Cursor, limit: nat, entries: seq<StoreKey>)
    requires true == IsRangeIndex(keys, rs) && (c.First? || c.phase == Covering) && |entries| == limit && entries == Offered(cov, c)
    ensures var d := DirectFrom(keys, q.version, q.hi, Seek(keys, StartKey(q.version, q.lo)));
      true == IsPage(keys, cov, q, c, limit, entries, if d == [] then None else Some(After(Direct, q, StartKey(q.version, q.lo))))
  {
    StartKeyAbsent(keys, rs, q.version, q.lo);
  }

  /** The second phase fills the page: the next one starts after its last key. */
  lemma DirectContinues(keys: seq<StoreKey>, d: seq<StoreKey>, v: Version, hi: Address, from: nat, n: nat)
    requires true == AllRangeKeys(keys) && from <= |keys| && d == DirectFrom(keys, v, hi, from) && 1 <= n <= |d|
    ensures DirectFrom(keys, v, hi, Beyond(keys, d[n - 1])) == d[n..]
    ensures |d[n - 1]| == RANGE_KEY_SIZE && d[n - 1][0] == VersionByte(v)
  {
    DirectIsSlice(keys, v, hi, from);
    assert d[n - 1] == keys[from + n - 1];
    BeyondOwn(keys, from + n - 1);
    DirectSuffix(keys, v, hi, from, n);
  }

  lemma FilledCut(before: seq<StoreKey>, d: seq<StoreKey>, limit: nat)
    requires |before| < limit
    ensures var n := Min(limit - |before|, |d|);
      true == IsCut(before + d, limit, before + d[..n], if |d| > n then Some(d[n..]) else None)
  {
    if |before| + |d| >= limit {
      CutSecond(before, d, limit);
    }
  }

  /** The second phase takes what the page still has room for. */
  method FillPage(keys: seq<StoreKey>, q: Query, before: seq<StoreKey>, direct: seq<StoreKey>, more: bool, limit: nat,
                  ghost cov: seq<StoreKey>, ghost c: Cursor, ghost from: nat)
    returns (entries: seq<StoreKey>, next: Option<Cursor>)
    requires true == AllRangeKeys(keys) && |before| < limit && from <= |keys|
    requires Rest(keys, cov, q, c) == before + DirectFrom(keys, q.version, q.hi, from)
    requires var d, n := DirectFrom(keys, q.version, q.hi, from), limit - |before| + 1;
      direct == d[..Min(n, |d|)] && (more <==> |d| >= n)
    ensures true == IsPage(keys, cov, q, c, limit, entries, next)
  {
    ghost var d := DirectFrom(keys, q.version, q.hi, from);
    FilledCut(before, d, limit);
    var capacity := limit - |before|;
    if |direct| > capacity {
      DirectContinues(keys, d, q.version, q.hi, from, capacity);
      entries := before + direct[..capacity];
      assert direct[..capacity] == d[..capacity];
    } else {
      entries := before + direct;
    }
    next := None;
    if more && |entries| > 0 {
      assert entries[|entries| - 1] == d[capacity - 1];
      next := Some(After(Direct, q, entries[|entries| - 1]));
    }
  }

  /** The page handler. The covering keys are read only when the first phase is not over. */
  method PageEntries(keys: seq<StoreKey>, covering: seq<StoreKey>, q: Query, c: Cursor, limit: nat, ghost rs: seq<Bounds>, ghost cov: seq<StoreKey>)
    returns (entries: seq<StoreKey>, next: Option<Cursor>)
    requires true == IsRangeIndex(keys, rs) && Sorted(cov) && OfFamily(cov, q.version) && limit >= 1 && (c.After? ==> c.query == q)
    requires c.First? || c.phase == Covering ==> covering == cov
    ensures true == IsPage(keys, cov, q, c, limit, entries, next)
  {
    entries := [];
    if c.After? && c.phase == Direct {
      var direct, more := DirectEntries(keys, q.version, q.lo, q.hi, Some(c.key), limit + 1);
      entries, next := FillPage(keys, q, [], direct, more, limit, cov, c, ReadsFrom(keys, q.version, q.lo, Some(c.key)));
      return;
    }
    var full;
    entries, full := CoveringPage(covering, c, limit);
    if full {
      CoveringContinues(keys, cov, q, c, limit, entries);
      return entries, Some(After(Covering, q, entries[limit - 1]));
    }
    entries, next := StartDirect(keys, q, c, entries, limit, rs, cov);
  }

  /** The first phase is over within the page: the second one starts. */
  method StartDirect(keys: seq<StoreKey>, q: Query, ghost c: Cursor, before: seq<StoreKey>, limit: nat, ghost rs: seq<Bounds>, ghost cov: seq<StoreKey>)
    returns (entries: seq<StoreKey>, next: Option<Cursor>)
    requires true == IsRangeIndex(keys, rs) && (c.First? || c.phase == Covering) && before == Offered(cov, c) && |before| <= limit
    ensures true == IsPage(keys, cov, q, c, limit, entries, next)
  {
    var direct, more := DirectEntries(keys, q.version, q.lo, q.hi, None, limit - |before| + 1);
    if |before| == limit {
      DirectStarts(keys, cov, rs, q, c, limit, before);
      return before, if |direct| > 0 then Some(After(Direct, q, StartKey(q.version, q.lo))) else None;
    }
    entries, next := FillPage(keys, q, before, direct, more, limit, cov, c, ReadsFrom(keys, q.version, q.lo, None));
  }

  // ---------- the covering keys ----------

  ghost predicate CollectedFrom(entries: seq<StoreKey>, rs: seq<Bounds>, v: Version, lo: nat, seen: set<Word>) {
    && (forall i, j :: 0 <= i < j < |entries| ==> entries[i] != entries[j])
    && (forall i :: 0 <= i < |entries| ==> CollectedKey(rs, v, lo, seen, entries[i]))
    && (forall id :: id in seen && IsCoveringRecord(rs, v, lo, id) ==> KeyOfRecord(rs, id) in entries)
  }

  ghost predicate CollectedKey(rs: seq<Bounds>, v: Version, lo: nat, seen: set<Word>, key: StoreKey) {
    |key| == RANGE_KEY_SIZE && RangeId(key) in seen && IsCoveringRecord(rs, v, lo, RangeId(key)) && key == KeyOfRecord(rs, RangeId(key))
  }

  lemma CollectOne(entries: seq<StoreKey>, rs: seq<Bounds>, v: Version, lo: nat, seen: set<Word>, id: Word)
    requires true == CollectedFrom(entries, rs, v, lo, seen) && id !in seen && 1 <= id <= |rs|
    ensures true == CollectedFrom(if IsCoveringRecord(rs, v, lo, id) then entries + [KeyOfRecord(rs, id)] else entries, rs, v, lo, seen + {id})
  {
    var r := rs[id - 1];
    RangeKeyParts(r.version, r.start, r.end, id);
  }

  /** coveringRangeEntries: the point query's records that start before the address, sorted. */
  method CoveringEntries(points: seq<StoreKey>, rs: seq<Bounds>, lo: Address, v: Version, ghost ss: seq<Source>)
    returns (cov: seq<StoreKey>)
    requires AreRecords(rs, ss) && IsStored(points, ss) && AllKeys(points) && Plain(lo, v)
    ensures true == IsCovering(cov, rs, v, Num(lo, v))
  {
    var ids := MatchingIds(points, lo, v, 0);
    NoHitIsMissed(points, ss, v, Num(lo, v));
    HitsOfFamily(ids, rs, ss, v, Num(lo, v));
    var entries, seen := CollectEntries(ids, rs, lo, v);
    cov := SortKeys(entries);
    CollectedIsCovering(entries, cov, ids, seen, rs, ss, v, Num(lo, v));
  }

  /** Whether a record starts before the address and reaches it. */
  method StartsBefore(record: Bounds, lo: Address, v: Version) returns (before: bool)
    requires ValidBounds(record) && record.version == v && Canonical(lo, v)
    ensures before <==> Num(record.start, v) < Num(lo, v) <= Num(record.end, v)
  {
    AddressOrder(record.start, lo, v);
    AddressOrder(record.end, lo, v);
    return LexLess(record.start, lo) && !LexLess(record.end, lo);
  }

  method CollectEntries(ids: seq<Word>, rs: seq<Bounds>, lo: Address, v: Version) returns (entries: seq<StoreKey>, seen: set<Word>)
    requires AllBounds(rs) && Canonical(lo, v) && forall i :: 0 <= i < |ids| ==> 1 <= ids[i] <= |rs| && rs[ids[i] - 1].version == v
    ensures true == CollectedFrom(entries, rs, v, Num(lo, v), seen)
    ensures forall id :: id in ids ==> id in seen
  {
    entries, seen := [], {};
    for i := 0 to |ids|
      invariant true == CollectedFrom(entries, rs, v, Num(lo, v), seen)
      invariant forall j :: 0 <= j < i ==> ids[j] in seen
    {
      var id := ids[i];
      if id in seen {
        continue;
      }
      entries := CollectEntry(entries, rs, lo, v, id, seen);
      seen := seen + {id};
    }
  }

  method CollectEntry(before: seq<StoreKey>, rs: seq<Bounds>, lo: Address, v: Version, id: Word, ghost seen: set<Word>)
    returns (entries: seq<StoreKey>)
    requires AllBounds(rs) && Canonical(lo, v) && 1 <= id <= |rs| && rs[id - 1].version == v && id !in seen
    requires true == CollectedFrom(before, rs, v, Num(lo, v), seen)
    ensures true == CollectedFrom(entries, rs, v, Num(lo, v), seen + {id})
  {
    CollectOne(before, rs, v, Num(lo, v), seen, id);
    assert ValidBounds(rs[id - 1]);
    var collected := StartsBefore(rs[id - 1], lo, v);
    return if collected then before + [KeyOfRecord(rs, id)] else before;
  }

  lemma CollectedIsCovering(entries: seq<StoreKey>, cov: seq<StoreKey>, ids: seq<Word>, seen: set<Word>, rs: seq<Bounds>, ss: seq<Source>, v: Version, lo: nat)
    requires AreRecords(rs, ss) && FindsHits(ids, ss, v, lo) && CollectedFrom(entries, rs, v, lo, seen)
    requires forall id :: id in ids ==> id in seen
    requires Sorted(cov) && forall k :: k in cov <==> k in entries
    ensures true == IsCovering(cov, rs, v, lo)
  {
    forall key
      ensures key in cov <==> IsCoveringKey(rs, v, lo, key)
    {
      if key in entries {
        var i :| 0 <= i < |entries| && entries[i] == key;
        assert CollectedKey(rs, v, lo, seen, entries[i]);
      }
      if IsCoveringKey(rs, v, lo, key) {
        var id: Word :| IsCoveringRecord(rs, v, lo, id) && key == KeyOfRecord(rs, id);
        assert Spans(ss[id - 1], rs[id - 1]);
        assert IsHit(ss, v, lo, id);
      }
    }
  }

  // ---------- what a whole run lists ----------

  ghost predicate MeetsQuery(rs: seq<Bounds>, q: Query, id: Word) {
    && 1 <= id <= |rs| && rs[id - 1].version == q.version
    && Num(rs[id - 1].start, q.version) <= Num(q.hi, q.version) && Num(q.lo, q.version) <= Num(rs[id - 1].end, q.version)
  }

  ghost predicate IsMeetingKey(rs: seq<Bounds>, q: Query, key: StoreKey) {
    exists id: Word :: MeetsQuery(rs, q, id) && key == KeyOfRecord(rs, id)
  }

  /** A queried range, with its ends as AddressFromAddr gives them. */
  ghost predicate ValidQuery(q: Query) {
    Plain(q.lo, q.version) && Plain(q.hi, q.version) && Num(q.lo, q.version) <= Num(q.hi, q.version)
  }

  /** all lists every record that meets the query once, in (start, end, ID) order. */
  ghost predicate IsListing(all: seq<StoreKey>, rs: seq<Bounds>, q: Query) {
    Sorted(all) && forall key :: key in all <==> IsMeetingKey(rs, q, key)
  }

  lemma RecordPosition(rs: seq<Bounds>, q: Query, id: Word)
    requires AllBounds(rs) && ValidQuery(q) && 1 <= id <= |rs|
    ensures |KeyOfRecord(rs, id)| == RANGE_KEY_SIZE
    ensures LexLess(KeyOfRecord(rs, id), StartKey(q.version, q.lo)) <==>
      VersionByte(rs[id - 1].version) < VersionByte(q.version)
      || (rs[id - 1].version == q.version && Num(rs[id - 1].start, q.version) < Num(q.lo, q.version))
    ensures UpTo(KeyOfRecord(rs, id), q.version, q.hi) <==>
      rs[id - 1].version == q.version && Num(rs[id - 1].start, q.version) <= Num(q.hi, q.version)
  {
    var r := rs[id - 1];
    assert ValidBounds(r);
    RangeKeyParts(r.version, r.start, r.end, id);
    KeyFields(KeyOfRecord(rs, id), q.version, q.lo, ZERO_REST);
    assert ZERO_REST == seq(20, _ => 0);
    NotBelowZeros(KeyOfRecord(rs, id)[17..], 20);
    if r.version == q.version {
      AddressOrder(r.start, q.lo, q.version);
      AddressOrder(q.hi, r.start, q.version);
    }
  }

  lemma OrderEnds(rs: seq<Bounds>, q: Query, a: Word, b: Word)
    requires AllBounds(rs) && ValidQuery(q) && 1 <= a <= |rs| && 1 <= b <= |rs|
    requires LexLess(KeyOfRecord(rs, a), KeyOfRecord(rs, b)) && !LexLess(KeyOfRecord(rs, a), StartKey(q.version, q.lo))
    requires !UpTo(KeyOfRecord(rs, a), q.version, q.hi)
    ensures !UpTo(KeyOfRecord(rs, b), q.version, q.hi)
  {
    RecordPosition(rs, q, a);
    RecordPosition(rs, q, b);
    assert ValidBounds(rs[a - 1]) && ValidBounds(rs[b - 1]);
    RangeKeyOrder(rs[a - 1].version, rs[a - 1].start, rs[a - 1].end, a, rs[b - 1].version, rs[b - 1].start, rs[b - 1].end, b);
  }

  /** Once the family or the range has ended, it stays ended. */
  lemma UpToEnds(keys: seq<StoreKey>, rs: seq<Bounds>, q: Query, i: nat, j: nat)
    requires true == IsRangeIndex(keys, rs) && ValidQuery(q) && Seek(keys, StartKey(q.version, q.lo)) <= i <= j < |keys|
    requires !UpTo(keys[i], q.version, q.hi)
    ensures !UpTo(keys[j], q.version, q.hi)
  {
    if i < j {
      var a := KeyIsRecord(keys, rs, i);
      var b := KeyIsRecord(keys, rs, j);
      FromSeekOn(keys, StartKey(q.version, q.lo), i);
      assert Precedes(keys, i, j);
      OrderEnds(rs, q, a, b);
    }
  }

  /** A position of the index is read in the second phase exactly when its key is from the
      start key on and up to the end of the range. */
  lemma DirectAt(keys: seq<StoreKey>, rs: seq<Bounds>, q: Query, j: nat)
    requires true == IsRangeIndex(keys, rs) && ValidQuery(q) && j < |keys|
    ensures keys[j] in DirectFrom(keys, q.version, q.hi, Seek(keys, StartKey(q.version, q.lo))) <==>
      Seek(keys, StartKey(q.version, q.lo)) <= j && UpTo(keys[j], q.version, q.hi)
  {
    var from := Seek(keys, StartKey(q.version, q.lo));
    var n := |DirectFrom(keys, q.version, q.hi, from)|;
    InSlice(keys, q.version, q.hi, from, j);
    if from + n <= j {
      UpToEnds(keys, rs, q, from + n, j);
    }
  }

  lemma InSlice(keys: seq<StoreKey>, v: Version, hi: Address, from: nat, j: nat)
    requires true == AllRangeKeys(keys) && from <= |keys| && j < |keys|
    ensures var n := |DirectFrom(keys, v, hi, from)|;
      && (keys[j] in DirectFrom(keys, v, hi, from) <==> from <= j < from + n)
      && (from <= j < from + n ==> UpTo(keys[j], v, hi))
      && from + n <= |keys| && (from + n < |keys| ==> !UpTo(keys[from + n], v, hi))
  {
    var d := DirectFrom(keys, v, hi, from);
    DirectIsSlice(keys, v, hi, from);
    if keys[j] in d {
      var n :| 0 <= n < |d| && d[n] == keys[j];
      OnePosition(keys, from + n, j);
    }
    if from <= j < from + |d| {
      assert d[j - from] == keys[j];
    }
  }

  lemma OnePosition(keys: seq<StoreKey>, i: nat, j: nat)
    requires Sorted(keys) && i < |keys| && j < |keys| && keys[i] == keys[j]
    ensures i == j
  {
    LexIrreflexive(keys[i]);
    assert i < j ==> Precedes(keys, i, j);
    assert j < i ==> Precedes(keys, j, i);
  }

  /** The second phase lists the records that start in the range. */
  lemma DirectIsExact(keys: seq<StoreKey>, rs: seq<Bounds>, q: Query, id: Word)
    requires true == IsRangeIndex(keys, rs) && ValidQuery(q) && 1 <= id <= |rs|
    ensures KeyOfRecord(rs, id) in DirectFrom(keys, q.version, q.hi, Seek(keys, StartKey(q.version, q.lo))) <==>
      rs[id - 1].version == q.version && Num(q.lo, q.version) <= Num(rs[id - 1].start, q.version) <= Num(q.hi, q.version)
  {
    RecordPosition(rs, q, id);
    assert AskRecord(id);
    var j :| 0 <= j < |keys| && keys[j] == KeyOfRecord(rs, id);
    DirectAt(keys, rs, q, j);
    if Seek(keys, StartKey(q.version, q.lo)) <= j {
      FromSeekOn(keys, StartKey(q.version, q.lo), j);
    } else {
      BeforeSeekOn(keys, StartKey(q.version, q.lo), j);
    }
  }

  /** From the empty cursor, what is to come is the whole listing: covering records first, then
      the direct ones. */
  lemma FirstIsEverything(keys: seq<StoreKey>, cov: seq<StoreKey>, rs: seq<Bounds>, q: Query)
    requires true == IsRangeIndex(keys, rs) && ValidQuery(q) && IsCovering(cov, rs, q.version, Num(q.lo, q.version))
    ensures true == IsListing(Rest(keys, cov, q, First), rs, q)
  {
    var d := DirectFrom(keys, q.version, q.hi, Seek(keys, StartKey(q.version, q.lo)));
    forall key
      ensures key in cov + d <==> IsMeetingKey(rs, q, key)
    {
      ListedIsMeeting(keys, cov, rs, q, key);
    }
    ListingIsSorted(keys, cov, rs, q);
  }

  lemma DirectIsRecord(keys: seq<StoreKey>, rs: seq<Bounds>, q: Query, key: StoreKey) returns (id: Word)
    requires true == IsRangeIndex(keys, rs) && key in DirectFrom(keys, q.version, q.hi, Seek(keys, StartKey(q.version, q.lo)))
    ensures 1 <= id <= |rs| && key == KeyOfRecord(rs, id)
  {
    var from := Seek(keys, StartKey(q.version, q.lo));
    var d := DirectFrom(keys, q.version, q.hi, from);
    DirectIsSlice(keys, q.version, q.hi, from);
    var n :| 0 <= n < |d| && d[n] == key;
    id := KeyIsRecord(keys, rs, from + n);
  }

  lemma ListedIsMeeting(keys: seq<StoreKey>, cov: seq<StoreKey>, rs: seq<Bounds>, q: Query, key: StoreKey)
    requires true == IsRangeIndex(keys, rs) && ValidQuery(q) && IsCovering(cov, rs, q.version, Num(q.lo, q.version))
    ensures key in cov + DirectFrom(keys, q.version, q.hi, Seek(keys, StartKey(q.version, q.lo))) <==> IsMeetingKey(rs, q, key)
  {
    var d := DirectFrom(keys, q.version, q.hi, Seek(keys, StartKey(q.version, q.lo)));
    if key in cov {
      var id: Word :| IsCoveringRecord(rs, q.version, Num(q.lo, q.version), id) && key == KeyOfRecord(rs, id);
      assert MeetsQuery(rs, q, id);
    }
    if key in d {
      var id := DirectIsRecord(keys, rs, q, key);
      DirectIsExact(keys, rs, q, id);
      assert ValidBounds(rs[id - 1]);
      assert MeetsQuery(rs, q, id);
    }
    if IsMeetingKey(rs, q, key) {
      var id: Word :| MeetsQuery(rs, q, id) && key == KeyOfRecord(rs, id);
      DirectIsExact(keys, rs, q, id);
      assert key !in d ==> IsCoveringRecord(rs, q.version, Num(q.lo, q.version), id);
    }
  }

  /** A record that starts before the range comes before everything the second phase reads. */
  lemma CoveringFirst(keys: seq<StoreKey>, rs: seq<Bounds>, q: Query, key: StoreKey, j: nat)
    requires true == IsRangeIndex(keys, rs) && ValidQuery(q) && IsCoveringKey(rs, q.version, Num(q.lo, q.version), key)
    requires Seek(keys, StartKey(q.version, q.lo)) <= j < |keys|
    ensures LexLess(key, keys[j])
  {
    var id: Word :| IsCoveringRecord(rs, q.version, Num(q.lo, q.version), id) && key == KeyOfRecord(rs, id);
    RecordPosition(rs, q, id);
    FromSeekOn(keys, StartKey(q.version, q.lo), j);
    LexChain(key, StartKey(q.version, q.lo), keys[j]);
  }

  lemma ConcatSorted(a: seq<StoreKey>, b: seq<StoreKey>)
    requires Sorted(a) && Sorted(b) && forall i, j :: 0 <= i < |a| && 0 <= j < |b| ==> LexLess(a[i], b[j])
    ensures Sorted(a + b)
  {
    var r := a + b;
    forall i, j | 0 <= i < j < |r|
      ensures Precedes(r, i, j)
    {
      assert j < |a| ==> Precedes(a, i, j);
      assert i >= |a| ==> Precedes(b, i - |a|, j - |a|);
    }
  }

  lemma SliceSorted(keys: seq<StoreKey>, i: nat, j: nat)
    requires Sorted(keys) && i <= j <= |keys|
    ensures Sorted(keys[i..j])
  {
    forall k, l | 0 <= k < l < j - i
      ensures Precedes(keys[i..j], k, l)
    {
      assert Precedes(keys, i + k, i + l);
    }
  }

  lemma ListingIsSorted(keys: seq<StoreKey>, cov: seq<StoreKey>, rs: seq<Bounds>, q: Query)
    requires true == IsRangeIndex(keys, rs) && ValidQuery(q) && IsCovering(cov, rs, q.version, Num(q.lo, q.version))
    ensures true == Sorted(cov + DirectFrom(keys, q.version, q.hi, Seek(keys, StartKey(q.version, q.lo))))
  {
    var from := Seek(keys, StartKey(q.version, q.lo));
    var d := DirectFrom(keys, q.version, q.hi, from);
    DirectIsSlice(keys, q.version, q.hi, from);
    forall i, j | 0 <= i < |cov| && 0 <= j < |d|
      ensures LexLess(cov[i], d[j])
    {
      assert cov[i] in cov;
      assert d[j] == keys[from + j];
      CoveringFirst(keys, rs, q, cov[i], from + j);
    }
    SliceSorted(keys, from, from + |d|);
    ConcatSorted(cov, d);
  }

  lemma LexChain(a: StoreKey, b: StoreKey, c: StoreKey)
    requires LexLess(a, b) && !LexLess(c, b)
    ensures LexLess(a, c)
  {
    LexTotal(b, c);
    if b != c {
      LexTransitive(a, b, c);
    }
  }

  // ---------- a run ----------

  /** One request and its answer. */
  datatype Step = Step(cursor: Cursor, entries: seq<StoreKey>, next: Option<Cursor>)

  /** Each request but the first uses the cursor of the answer before it. */
  ghost predicate IsRun(steps: seq<Step>, keys: seq<StoreKey>, cov: seq<StoreKey>, q: Query, c: Cursor, limit: nat)
    requires true == AllRangeKeys(keys)
    decreases |steps|
  {
    && steps != [] && steps[0].cursor == c
    && IsPage(keys, cov, q, c, limit, steps[0].entries, steps[0].next)
    && (|steps| > 1 ==> steps[0].next.Some? && IsRun(steps[1..], keys, cov, q, steps[0].next.value, limit))
  }

  function Entries(steps: seq<Step>): seq<StoreKey> {
    if steps == [] then [] else steps[0].entries + Entries(steps[1..])
  }

  function Remaining(steps: seq<Step>): Option<Cursor>
    requires steps != []
  {
    steps[|steps| - 1].next
  }

  function OrNothing(rest: Option<seq<StoreKey>>): seq<StoreKey> {
    if rest.None? then [] else rest.value
  }

  lemma CutWhole(rest: seq<StoreKey>, limit: nat, entries: seq<StoreKey>, after: Option<seq<StoreKey>>)
    requires IsCut(rest, limit, entries, after)
    ensures rest == entries + OrNothing(after)
    ensures after.Some? ==> |entries| == limit
  {
    assert after.Some? ==> rest == rest[..limit] + rest[limit..];
  }

  /** Whatever has been answered and whatever is still to come make up the rest at the first
      cursor; every page with a cursor is full. */
  lemma {:induction false} RunLists(steps: seq<Step>, keys: seq<StoreKey>, cov: seq<StoreKey>, q: Query, c: Cursor, limit: nat)
    requires true == AllRangeKeys(keys) && limit >= 1 && true == IsRun(steps, keys, cov, q, c, limit)
    ensures Rest(keys, cov, q, c) == Entries(steps) + OrNothing(RestAfter(keys, cov, q, Remaining(steps)))
    ensures forall i :: 0 <= i < |steps| && steps[i].next.Some? ==> |steps[i].entries| == limit
    decreases |steps|
  {
    var first, tail, rest := steps[0], steps[1..], Rest(keys, cov, q, c);
    CutWhole(rest, limit, first.entries, RestAfter(keys, cov, q, first.next));
    if |steps| > 1 {
      RunLists(tail, keys, cov, q, first.next.value, limit);
      JoinEntries(steps, rest, OrNothing(RestAfter(keys, cov, q, Remaining(steps))));
    } else {
      assert Entries(steps) == first.entries + [];
    }
  }

  lemma JoinEntries(steps: seq<Step>, rest: seq<StoreKey>, last: seq<StoreKey>)
    requires |steps| > 1 && rest == steps[0].entries + (Entries(steps[1..]) + last)
    ensures Remaining(steps[1..]) == Remaining(steps) && rest == Entries(steps) + last
  {
    Associate(steps[0].entries, Entries(steps[1..]), last);
  }

  /** So a run has at most |rest| / limit + 1 pages. */
  lemma {:induction false} RunIsShort(steps: seq<Step>, keys: seq<StoreKey>, cov: seq<StoreKey>, q: Query, c: Cursor, limit: nat)
    requires true == AllRangeKeys(keys) && limit >= 1 && true == IsRun(steps, keys, cov, q, c, limit)
    ensures (|steps| - 1) * limit <= |Rest(keys, cov, q, c)|
    decreases |steps|
  {
    if |steps| > 1 {
      CutWhole(Rest(keys, cov, q, c), limit, steps[0].entries, RestAfter(keys, cov, q, steps[0].next));
      RunIsShort(steps[1..], keys, cov, q, steps[0].next.value, limit);
      MultiplyNext(|steps| - 2, limit);
    }
  }

  lemma MultiplyNext(n: nat, limit: nat)
    ensures (n + 1) * limit == n * limit + limit
  {
  }

  /** A whole run from the empty cursor lists every record that meets the query once, in
      (start, end, ID) order. */
  lemma WholeRunIsListing(steps: seq<Step>, keys: seq<StoreKey>, cov: seq<StoreKey>, rs: seq<Bounds>, q: Query, limit: nat)
    requires true == IsRangeIndex(keys, rs) && ValidQuery(q) && IsCovering(cov, rs, q.version, Num(q.lo, q.version))
    requires limit >= 1 && true == IsRun(steps, keys, cov, q, First, limit) && steps[|steps| - 1].next.None?
    ensures true == IsListing(Entries(steps), rs, q)
  {
    RunLists(steps, keys, cov, q, First, limit);
    assert Rest(keys, cov, q, First) == Entries(steps);
    FirstIsEverything(keys, cov, rs, q);
  }

  // ---------- the cursor payload ----------

  const CURSOR_SIZE := 71

  function PhaseByte(p: Phase): Byte {
    if p.Covering? then 1 else 2
  }

  function KindByte(k: Kind): Byte {
    if k.Allocations? then 1 else 2
  }

  /** Phase, kind, queried range, key. The version is that of the key's first byte. */
  function EncodeCursor(c: Cursor): (payload: seq<Byte>)
    requires c.After? && |c.key| == RANGE_KEY_SIZE
    ensures |payload| == CURSOR_SIZE
  {
    [PhaseByte(c.phase), KindByte(c.query.kind)] + c.query.lo + c.query.hi + c.key
  }

  datatype Payload = Payload(phase: Phase, kind: Kind, lo: Address, hi: Address, key: StoreKey)

  function DecodeCursor(payload: seq<Byte>): Option<Payload> {
    if |payload| != CURSOR_SIZE || (payload[0] != 1 && payload[0] != 2) || (payload[1] != 1 && payload[1] != 2) then None else
      Some(Payload(if payload[0] == 1 then Covering else Direct, if payload[1] == 1 then Allocations else Routes,
                   payload[2..18], payload[18..34], payload[34..]))
  }

  /** The cursor a request carries, when it was made for the same query. */
  function Accept(payload: seq<Byte>, q: Query): Option<Cursor> {
    if payload == [] then Some(First) else
      var d := DecodeCursor(payload);
      if d.None? || d.value.kind != q.kind || d.value.lo != q.lo || d.value.hi != q.hi
         || d.value.key == [] || d.value.key[0] != VersionByte(q.version)
      then None else Some(After(d.value.phase, q, d.value.key))
  }

  /** A cursor comes back as it was for the query it was made for, and for no other. */
  lemma CursorRoundTrip(c: Cursor, q: Query)
    requires c.After? && |c.key| == RANGE_KEY_SIZE && c.key[0] == VersionByte(c.query.version)
    ensures Accept(EncodeCursor(c), q) == if q == c.query then Some(c) else None
  {
    var p := EncodeCursor(c);
    assert p[0] == PhaseByte(c.phase) && p[1] == KindByte(c.query.kind);
    assert p[2..18] == c.query.lo && p[18..34] == c.query.hi && p[34..] == c.key;
  }

  /** Only what the encoder makes is accepted. */
  lemma AcceptedIsEncoded(payload: seq<Byte>, q: Query)
    requires payload != [] && Accept(payload, q).Some?
    ensures var c := Accept(payload, q).value;
      c.After? && |c.key| == RANGE_KEY_SIZE && c.query == q && EncodeCursor(c) == payload
  {
    var c := Accept(payload, q).value;
    assert payload == payload[..2] + payload[2..18] + payload[18..34] + payload[34..];
    assert payload[..2] == [payload[0], payload[1]];
  }

  datatype PageResult = InvalidCursor | RangePage(entries: seq<StoreKey>, next: seq<Byte>)

  /** rangePageEntries: an empty cursor is the empty payload, and so is the absence of a next
      page. */
  method RangePageEntries(points: seq<StoreKey>, keys: seq<StoreKey>, rs: seq<Bounds>, q: Query, payload: seq<Byte>, limit: nat,
                          ghost ss: seq<Source>, ghost cov: seq<StoreKey>)
    returns (r: PageResult)
    requires AreRecords(rs, ss) && IsStored(points, ss) && AllKeys(points) && true == IsRangeIndex(keys, rs) && ValidQuery(q) && limit >= 1
    requires IsCovering(cov, rs, q.version, Num(q.lo, q.version))
    ensures r.InvalidCursor? <==> Accept(payload, q).None?
    ensures r.RangePage? ==> Accept(r.next, q).Some?
    ensures r.RangePage? ==>
      var next := Accept(r.next, q).value;
      true == IsPage(keys, cov, q, Accept(payload, q).value, limit, r.entries, if r.next == [] then None else Some(next))
  {
    var c := Accept(payload, q);
    if c.None? {
      return InvalidCursor;
    }
    CoveringFamily(cov, rs, q.version, Num(q.lo, q.version));
    var covering := [];
    if c.value.First? || c.value.phase == Covering {
      covering := CoveringEntries(points, rs, q.lo, q.version, ss);
      SortedUnique(covering, cov);
    }
    var entries, next := PageEntries(keys, covering, q, c.value, limit, rs, cov);
    if next.None? {
      return RangePage(entries, []);
    }
    CursorRoundTrip(next.value, q);
    return RangePage(entries, EncodeCursor(next.value));
  }

  /** What is still to come for a client that holds the payload, or has finished. */
  ghost function ToCome(keys: seq<StoreKey>, cov: seq<StoreKey>, q: Query, payload: seq<Byte>, more: bool): seq<StoreKey>
    requires true == AllRangeKeys(keys) && (more ==> Accept(payload, q).Some?)
  {
    if more then Rest(keys, cov, q, Accept(payload, q).value) else []
  }

  /** One page of a run: full when a next one follows, and then it has taken its entries off what
      is to come. */
  lemma PageAdvances(keys: seq<StoreKey>, cov: seq<StoreKey>, q: Query, payload: seq<Byte>, limit: nat, entries: seq<StoreKey>, next: seq<Byte>)
    requires true == AllRangeKeys(keys) && limit >= 1 && Accept(payload, q).Some? && Accept(next, q).Some?
    requires IsPage(keys, cov, q, Accept(payload, q).value, limit, entries, if next == [] then None else Some(Accept(next, q).value))
    ensures ToCome(keys, cov, q, payload, true) == entries + ToCome(keys, cov, q, next, next != [])
    ensures |entries| <= limit && (next != [] ==> |entries| == limit && ToCome(keys, cov, q, next, true) != [])
  {
    CutWhole(Rest(keys, cov, q, Accept(payload, q).value), limit, entries,
             RestAfter(keys, cov, q, if next == [] then None else Some(Accept(next, q).value)));
  }

  /** A client that starts without a cursor and sends back each next one until there is none: it
      comes to an end, and has then been given every record that meets the query once, in
      (start, end, ID) order, in full pages but for the last. */
  method ListRange(points: seq<StoreKey>, keys: seq<StoreKey>, rs: seq<Bounds>, q: Query, limit: nat,
                   ghost ss: seq<Source>, ghost cov: seq<StoreKey>)
    returns (all: seq<StoreKey>, pages: nat)
    requires AreRecords(rs, ss) && IsStored(points, ss) && AllKeys(points) && true == IsRangeIndex(keys, rs) && ValidQuery(q) && limit >= 1
    requires IsCovering(cov, rs, q.version, Num(q.lo, q.version))
    ensures true == IsListing(all, rs, q)
    ensures pages == 1 || (pages > 1 && (pages - 1) * limit < |all|)
    ensures |all| <= pages * limit
  {
    ghost var whole := ToCome(keys, cov, q, [], true);
    var payload, more := [], true;
    all, pages := [], 0;
    while more
      invariant more ==> Accept(payload, q).Some?
      invariant whole == all + ToCome(keys, cov, q, payload, more)
      invariant |all| <= pages * limit && (pages > 1 ==> (pages - 1) * limit < |all|)
      invariant if more then |all| == pages * limit && (pages > 0 ==> ToCome(keys, cov, q, payload, true) != []) else pages >= 1
      decreases more, |ToCome(keys, cov, q, payload, more)|
    {
      var page := RangePageEntries(points, keys, rs, q, payload, limit, ss, cov);
      PageAdvances(keys, cov, q, payload, limit, page.entries, page.next);
      MultiplyNext(pages, limit);
      Associate(all, page.entries, ToCome(keys, cov, q, page.next, page.next != []));
      all, payload, more, pages := all + page.entries, page.next, page.next != [], pages + 1;
    }
    assert whole == all;
    FirstIsEverything(keys, cov, rs, q);
  }

  lemma Associate(a: seq<StoreKey>, b: seq<StoreKey>, c: seq<StoreKey>)
    ensures a + (b + c) == (a + b) + c
  {
  }

  lemma CoveringFamily(cov: seq<StoreKey>, rs: seq<Bounds>, v: Version, lo: nat)
    requires IsCovering(cov, rs, v, lo)
    ensures OfFamily(cov, v)
  {
    forall i | 0 <= i < |cov|
      ensures |cov[i]| == RANGE_KEY_SIZE && cov[i][0] == VersionByte(v)
    {
      assert cov[i] in cov;
      var id: Word :| IsCoveringRecord(rs, v, lo, id) && cov[i] == KeyOfRecord(rs, id);
      RangeKeyParts(v, rs[id - 1].start, rs[id - 1].end, id);
    }
  }
}
