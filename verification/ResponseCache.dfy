/** One shard of the response cache: a map from keys to list elements, a list in order of use
    and a byte counter. The list alone says what the shard holds. */
module ResponseCache {
  import opened Bytes
  import opened Addresses

  const ENTRY_OVERHEAD := 128
  const SHARDS := 32

  type Key = seq<Byte>
  datatype Entry = Entry(key: Key, value: seq<Byte>)

  function SizeOf(e: Entry): (n: nat)
    ensures n > 0
  {
    |e.key| + |e.value| + ENTRY_OVERHEAD
  }

  /** The FNV-1a hash of a key picks its shard. */
  function Hash(key: Key, n: nat): (h: nat)
    requires n <= |key|
    ensures h < 0x1_0000_0000
  {
    if n == 0 then 2_166_136_261 else
      var h := Hash(key, n - 1);
      (h - h % 256 + Xor(h % 256, key[n - 1])) * 16_777_619 % 0x1_0000_0000
  }

  function ShardOf(key: Key): (i: nat)
    ensures i < SHARDS
  {
    Hash(key, |key|) % SHARDS
  }

  const IN_SHARD_ZERO: Key := [5]

  lemma XorFive()
    ensures Xor(197, 5) == 192
  {
    assert ByteBits(197) == [1, 1, 0, 0, 0, 1, 0, 1];
    assert ByteBits(5) == [0, 0, 0, 0, 0, 1, 0, 1];
  }

  /** By the hash of its one byte. */
  lemma HashOfFive()
    ensures ShardOf(IN_SHARD_ZERO) == 0
  {
    XorFive();
    var k: Key, h := IN_SHARD_ZERO, 2_166_136_261;
    assert h % 256 == 197 && (h - 197 + 192) * 16_777_619 % 0x1_0000_0000 % SHARDS == 0;
    assert Hash(k, 1) == (h - h % 256 + Xor(h % 256, 5)) * 16_777_619 % 0x1_0000_0000;
  }

  // ---------- the list in order of use ----------

  /** Most recently used first. */
  type Lru = seq<Entry>

  function Total(l: Lru): nat {
    if l == [] then 0 else Total(l[..|l| - 1]) + SizeOf(l[|l| - 1])
  }

  ghost predicate DistinctKeys(l: Lru) {
    forall i, j :: 0 <= i < j < |l| ==> Apart(l, i, j)
  }

  ghost predicate Apart(l: Lru, i: nat, j: nat)
    requires i < |l| && j < |l|
  {
    l[i].key != l[j].key
  }

  lemma OneEntryPerKey(l: Lru, i: nat, j: nat)
    requires DistinctKeys(l) && i < |l| && j < |l|
    ensures l[i].key == l[j].key <==> i == j
  {
    assert i < j ==> Apart(l, i, j);
    assert j < i ==> Apart(l, j, i);
  }

  /** Where a key is in the list; the list's length when it is not. */
  function Position(l: Lru, key: Key): (i: nat)
    ensures i <= |l|
    ensures i < |l| ==> l[i].key == key
  {
    PositionFrom(l, key, 0)
  }

  function PositionFrom(l: Lru, key: Key, from: nat): (i: nat)
    requires from <= |l|
    ensures from <= i <= |l|
    ensures i < |l| ==> l[i].key == key
    decreases |l| - from
  {
    if from < |l| && l[from].key != key then PositionFrom(l, key, from + 1) else from
  }

  lemma {:induction false} PassedFrom(l: Lru, key: Key, from: nat, j: nat)
    requires from <= |l| && from <= j < PositionFrom(l, key, from)
    ensures l[j].key != key
    decreases |l| - from
  {
    if from < j {
      PassedFrom(l, key, from + 1, j);
    }
  }

  /** Nothing before the position has the key. */
  lemma Passed(l: Lru, key: Key, j: nat)
    requires j < Position(l, key)
    ensures l[j].key != key
  {
    PassedFrom(l, key, 0, j);
  }

  function Without(l: Lru, key: Key): Lru {
    var i := Position(l, key);
    if i < |l| then l[..i] + l[i + 1..] else l
  }

  /** A hit makes its entry the most recent one. */
  function Touched(l: Lru, key: Key): Lru {
    var i := Position(l, key);
    if i < |l| then [l[i]] + Without(l, key) else l
  }

  /** Evicting from the back until the rest fits. */
  function Evicted(l: Lru, budget: nat): Lru {
    if l != [] && Total(l) > budget then Evicted(l[..|l| - 1], budget) else l
  }

  /** Adding an entry: refused when it is too large, else in front of the others and with the
      least recent ones evicted. */
  function Added(l: Lru, e: Entry, budget: nat, maxEntry: nat): Lru {
    if |e.value| > maxEntry || SizeOf(e) > budget then l else Evicted([e] + Without(l, e.key), budget)
  }

  lemma {:induction false} TotalSplit(a: Lru, b: Lru)
    ensures Total(a + b) == Total(a) + Total(b)
  {
    if b == [] {
      assert a + b == a;
    } else {
      assert (a + b)[..|a + b| - 1] == a + b[..|b| - 1];
      TotalSplit(a, b[..|b| - 1]);
    }
  }

  /** The size of a list is what its keys and values take, and 128 bytes for each entry. */
  lemma TotalFront(e: Entry, l: Lru)
    ensures Total([]) == 0 && Total([e] + l) == |e.key| + |e.value| + 128 + Total(l)
  {
    TotalSplit([e], l);
    assert [e][..0] == [];
  }

  lemma TotalDrop(a: Lru, x: Entry, b: Lru)
    ensures Total(a + ([x] + b)) == Total(a + b) + SizeOf(x)
  {
    TotalSplit(a, b);
    TotalSplit(a, [x] + b);
    TotalFront(x, b);
  }

  lemma Rejoin(l: Lru, i: nat)
    requires i < |l|
    ensures l == l[..i] + ([l[i]] + l[i + 1..])
  {
  }

  lemma TotalSkip(l: Lru, i: nat)
    requires i < |l|
    ensures Total(l[..i] + l[i + 1..]) + SizeOf(l[i]) == Total(l)
  {
    TotalDrop(l[..i], l[i], l[i + 1..]);
    Rejoin(l, i);
  }

  lemma TotalWithout(l: Lru, key: Key)
    ensures Position(l, key) < |l| ==> Total(Without(l, key)) + SizeOf(l[Position(l, key)]) == Total(l)
    ensures Position(l, key) == |l| ==> Without(l, key) == l
  {
    if Position(l, key) < |l| {
      TotalSkip(l, Position(l, key));
    }
  }

  lemma WithoutAt(l: Lru, key: Key, j: nat)
    requires DistinctKeys(l) && j < |Without(l, key)|
    ensures var k := if j < Position(l, key) then j else j + 1;
      k < |l| && Without(l, key)[j] == l[k] && l[k].key != key
  {
    var i := Position(l, key);
    if j < i {
      Passed(l, key, j);
    } else {
      OneEntryPerKey(l, i, j + 1);
    }
  }

  lemma WithoutDistinct(l: Lru, key: Key)
    requires DistinctKeys(l)
    ensures DistinctKeys(Without(l, key))
    ensures forall i :: 0 <= i < |Without(l, key)| ==> Without(l, key)[i].key != key && Without(l, key)[i] in l
  {
    var w := Without(l, key);
    forall j | 0 <= j < |w|
      ensures w[j].key != key && w[j] in l
    {
      WithoutAt(l, key, j);
    }
    forall i, j | 0 <= i < j < |w|
      ensures Apart(w, i, j)
    {
      WithoutAt(l, key, i);
      WithoutAt(l, key, j);
      var p := Position(l, key);
      OneEntryPerKey(l, if i < p then i else i + 1, if j < p then j else j + 1);
    }
  }

  lemma SkipKeeps(l: Lru, i: nat, j: nat)
    requires i < |l| && j < |l| && i != j
    ensures l[j] in l[..i] + l[i + 1..]
  {
    var rest := l[..i] + l[i + 1..];
    if j < i {
      assert rest[j] == l[j];
    } else {
      assert rest[j - 1] == l[j];
    }
  }

  lemma WithoutKeeps(l: Lru, key: Key, e: Entry)
    requires e in l && e.key != key
    ensures e in Without(l, key)
  {
    var i := Position(l, key);
    if i < |l| {
      var j :| 0 <= j < |l| && l[j] == e;
      SkipKeeps(l, i, j);
    }
  }

  // ---------- what eviction keeps ----------

  /** Eviction keeps the longest front of the list that fits: what it drops is less recent than
      all it keeps, and one entry more would not have fitted. */
  lemma {:induction false} EvictedIsLongestFit(l: Lru, budget: nat)
    ensures var k := Evicted(l, budget);
      && |k| <= |l| && k == l[..|k|] && Total(k) <= budget
      && forall n :: |k| < n <= |l| ==> Total(l[..n]) > budget
  {
    if l != [] && Total(l) > budget {
      var init := l[..|l| - 1];
      EvictedIsLongestFit(init, budget);
      var k := Evicted(l, budget);
      assert init[..|k|] == l[..|k|];
      forall n | |k| < n <= |l|
        ensures Total(l[..n]) > budget
      {
        if n == |l| {
          assert l[..n] == l;
        } else {
          assert l[..n] == init[..n];
        }
      }
    } else {
      assert l[..|l|] == l;
    }
  }

  /** An accepted entry survives its own eviction round, in front. */
  lemma AddedKeepsNew(l: Lru, e: Entry, budget: nat, maxEntry: nat)
    requires |e.value| <= maxEntry && SizeOf(e) <= budget
    ensures Added(l, e, budget, maxEntry) != [] && Added(l, e, budget, maxEntry)[0] == e
  {
    var all := [e] + Without(l, e.key);
    EvictedIsLongestFit(all, budget);
    TotalFront(e, []);
    assert all[..1] == [e] + [];
  }

  /** What every operation keeps of a shard. */
  ghost predicate Sound(l: Lru, budget: nat, maxEntry: nat) {
    && DistinctKeys(l) && Total(l) <= budget
    && forall i :: 0 <= i < |l| ==> |l[i].value| <= maxEntry
  }

  lemma FrontDistinct(e: Entry, l: Lru)
    requires DistinctKeys(l) && forall i :: 0 <= i < |l| ==> l[i].key != e.key
    ensures DistinctKeys([e] + l)
  {
    var all := [e] + l;
    forall i, j | 0 <= i < j < |all|
      ensures Apart(all, i, j)
    {
      assert i > 0 ==> Apart(l, i - 1, j - 1);
    }
  }

  lemma PrefixDistinct(l: Lru, n: nat)
    requires DistinctKeys(l) && n <= |l|
    ensures DistinctKeys(l[..n])
  {
    forall i, j | 0 <= i < j < n
      ensures Apart(l[..n], i, j)
    {
      assert Apart(l, i, j);
    }
  }

  /** Whatever is added, the shard stays sound. */
  lemma AddedIsSound(l: Lru, e: Entry, budget: nat, maxEntry: nat)
    requires Sound(l, budget, maxEntry)
    ensures true == Sound(Added(l, e, budget, maxEntry), budget, maxEntry)
  {
    if |e.value| <= maxEntry && SizeOf(e) <= budget {
      var rest := Without(l, e.key);
      WithoutDistinct(l, e.key);
      FrontDistinct(e, rest);
      EvictedIsLongestFit([e] + rest, budget);
      PrefixDistinct([e] + rest, |Evicted([e] + rest, budget)|);
      forall i | 0 <= i < |rest|
        ensures |rest[i].value| <= maxEntry
      {
        assert rest[i] in l;
      }
    }
  }

  lemma TouchedIsSound(l: Lru, key: Key, budget: nat, maxEntry: nat)
    requires Sound(l, budget, maxEntry)
    ensures true == Sound(Touched(l, key), budget, maxEntry)
  {
    var i := Position(l, key);
    if i < |l| {
      var rest := Without(l, key);
      WithoutDistinct(l, key);
      FrontDistinct(l[i], rest);
      TotalWithout(l, key);
      TotalFront(l[i], rest);
      forall j | 0 <= j < |rest|
        ensures |rest[j].value| <= maxEntry
      {
        assert rest[j] in l;
      }
    }
  }

  /** A hit drops nothing and brings nothing in. */
  lemma TouchedKeeps(l: Lru, key: Key, e: Entry)
    requires DistinctKeys(l)
    ensures e in Touched(l, key) <==> e in l
  {
    var i := Position(l, key);
    if i < |l| {
      WithoutDistinct(l, key);
      if e in l {
        var j :| 0 <= j < |l| && l[j] == e;
        OneEntryPerKey(l, i, j);
        if e.key != key {
          WithoutKeeps(l, key, e);
        }
      }
    }
  }

  // ---------- the whole history of a shard ----------

  datatype Op = Get(key: Key) | Add(entry: Entry) | Clear

  predicate Accepted(e: Entry, budget: nat, maxEntry: nat) {
    |e.value| <= maxEntry && SizeOf(e) <= budget
  }

  function After(ops: seq<Op>, budget: nat, maxEntry: nat): Lru {
    if ops == [] then [] else
      var before := After(ops[..|ops| - 1], budget, maxEntry);
      match ops[|ops| - 1]
      case Get(key) => Touched(before, key)
      case Add(e) => Added(before, e, budget, maxEntry)
      case Clear => []
  }

  /** The same history without eviction: every accepted entry in order of last use. */
  function Unbounded(ops: seq<Op>, budget: nat, maxEntry: nat): Lru {
    if ops == [] then [] else
      var init := ops[..|ops| - 1];
      var before := Unbounded(init, budget, maxEntry);
      match ops[|ops| - 1]
      case Get(key) => if Holds(After(init, budget, maxEntry), key) then Touched(before, key) else before
      case Add(e) => if Accepted(e, budget, maxEntry) then [e] + Without(before, e.key) else before
      case Clear => []
  }

  predicate Holds(l: Lru, key: Key) {
    Position(l, key) < |l|
  }

  lemma HoldsSome(l: Lru, key: Key)
    ensures Holds(l, key) <==> exists i :: 0 <= i < |l| && l[i].key == key
  {
    var i := Position(l, key);
    if i < |l| {
      assert l[i].key == key;
    } else if j :| 0 <= j < |l| && l[j].key == key {
      Passed(l, key, j);
    }
  }

  /** A hit brings no key in. */
  lemma TouchedBringsNone(l: Lru, hit: Key, key: Key)
    requires Holds(Touched(l, hit), key)
    ensures Holds(l, key)
  {
    HoldsSome(Touched(l, hit), key);
    HoldsSome(l, key);
  }

  /** An addition brings in its own key alone. */
  lemma AddedBringsOne(l: Lru, e: Entry, budget: nat, maxEntry: nat, key: Key)
    requires Holds(Added(l, e, budget, maxEntry), key) && key != e.key
    ensures Holds(l, key)
  {
    var all := [e] + Without(l, e.key);
    EvictedIsLongestFit(all, budget);
    HoldsSome(Added(l, e, budget, maxEntry), key);
    HoldsSome(l, key);
    if Accepted(e, budget, maxEntry) {
      var k := Evicted(all, budget);
      var i :| 0 <= i < |k| && k[i].key == key;
      assert all[i] == k[i] && i > 0;
      assert Without(l, e.key)[i - 1] == k[i];
    }
  }

  lemma {:induction false} PositionInFront(l: Lru, u: Lru, key: Key, from: nat)
    requires l <= u && from <= |l|
    ensures PositionFrom(l, key, from) < |l| ==> PositionFrom(u, key, from) == PositionFrom(l, key, from)
    ensures PositionFrom(l, key, from) == |l| ==> PositionFrom(u, key, from) >= |l|
    decreases |l| - from
  {
    if from < |l| && l[from].key != key {
      PositionInFront(l, u, key, from + 1);
    }
  }

  lemma DropInFront(l: Lru, u: Lru, i: nat)
    requires l <= u && i < |l|
    ensures l[..i] + l[i + 1..] <= u[..i] + u[i + 1..]
  {
    assert u[..|l|] == l;
    assert (u[..i] + u[i + 1..])[..|l| - 1] == l[..i] + l[i + 1..];
  }

  /** Taking a key out of a list and out of a front of it leaves a front. */
  lemma WithoutInFront(l: Lru, u: Lru, key: Key)
    requires l <= u
    ensures Without(l, key) <= Without(u, key)
  {
    PositionInFront(l, u, key, 0);
    var i, j := Position(l, key), Position(u, key);
    if i < |l| {
      DropInFront(l, u, i);
    } else if j < |u| {
      assert l <= u[..j];
    }
  }

  /** The cache is always a front of the unbounded list: whatever it has lost was used less
      recently than all it still holds. */
  lemma {:induction false} CacheIsFront(ops: seq<Op>, budget: nat, maxEntry: nat)
    ensures After(ops, budget, maxEntry) <= Unbounded(ops, budget, maxEntry)
    ensures Sound(After(ops, budget, maxEntry), budget, maxEntry)
  {
    if ops != [] {
      var init := ops[..|ops| - 1];
      CacheIsFront(init, budget, maxEntry);
      var l, u := After(init, budget, maxEntry), Unbounded(init, budget, maxEntry);
      match ops[|ops| - 1]
      case Get(key) =>
        TouchedIsSound(l, key, budget, maxEntry);
        WithoutInFront(l, u, key);
        PositionInFront(l, u, key, 0);
      case Add(e) =>
        AddedIsSound(l, e, budget, maxEntry);
        WithoutInFront(l, u, e.key);
        EvictedIsLongestFit([e] + Without(l, e.key), budget);
      case Clear =>
    }
  }

  // ---------- the shard itself ----------

  ghost predicate Linked(entries: map<Key, Entry>, l: Lru) {
    && (forall key :: key in entries ==> entries[key] in l && entries[key].key == key)
    && (forall i :: 0 <= i < |l| ==> l[i].key in entries)
  }

  lemma LinkedWithout(entries: map<Key, Entry>, l: Lru, key: Key)
    requires Linked(entries, l) && DistinctKeys(l)
    ensures Linked(map k | k in entries && k != key :: entries[k], Without(l, key))
  {
    WithoutDistinct(l, key);
    forall k | k in entries && k != key
      ensures entries[k] in Without(l, key)
    {
      WithoutKeeps(l, key, entries[k]);
    }
    forall i | 0 <= i < |Without(l, key)|
      ensures Without(l, key)[i].key in entries
    {
      WithoutAt(l, key, i);
    }
  }

  lemma LinkedFront(entries: map<Key, Entry>, l: Lru, e: Entry)
    requires Linked(entries, l) && e.key !in entries
    ensures Linked(entries[e.key := e], [e] + l)
  {
  }

  lemma LinkedTouched(entries: map<Key, Entry>, l: Lru, key: Key)
    requires Linked(entries, l) && DistinctKeys(l)
    ensures Linked(entries, Touched(l, key))
  {
    forall e: Entry
      ensures e in Touched(l, key) <==> e in l
    {
      TouchedKeeps(l, key, e);
    }
    var r := Touched(l, key);
    assert forall i :: 0 <= i < |r| ==> r[i] in r;
  }

  lemma LinkedInit(entries: map<Key, Entry>, l: Lru)
    requires Linked(entries, l) && DistinctKeys(l) && l != []
    ensures Linked(map k | k in entries && k != l[|l| - 1].key :: entries[k], l[..|l| - 1])
  {
    var n := |l| - 1;
    forall k | k in entries && k != l[n].key
      ensures entries[k] in l[..n]
    {
      var i :| 0 <= i < |l| && l[i] == entries[k];
      assert l[..n][i] == entries[k];
    }
    forall i | 0 <= i < n
      ensures l[i].key != l[n].key
    {
      OneEntryPerKey(l, i, n);
    }
  }

  /** An entry of the list is now in front of all others, which are as they were. */
  ghost predicate MovedToFront(before: Lru, after: Lru, e: Entry) {
    exists i :: 0 <= i < |before| && before[i] == e && after == [e] + (before[..i] + before[i + 1..])
  }

  /** rest is the list without its entry of a key, if it has one. */
  ghost predicate IsRest(before: Lru, rest: Lru, key: Key) {
    || (rest == before && forall i :: 0 <= i < |before| ==> before[i].key != key)
    || exists i :: 0 <= i < |before| && before[i].key == key && rest == before[..i] + before[i + 1..]
  }

  /** The entry is in front, behind it as many of the others as fit, in their order. */
  ghost predicate PushedInFront(before: Lru, after: Lru, e: Entry, budget: nat) {
    exists rest :: IsRest(before, rest, e.key) && IsLongestFit([e] + rest, after, budget)
  }

  ghost predicate IsLongestFit(all: Lru, kept: Lru, budget: nat) {
    && kept != [] && kept <= all && Total(kept) <= budget
    && forall n :: |kept| < n <= |all| ==> Total(all[..n]) > budget
  }

  lemma WithoutIsRest(l: Lru, key: Key)
    ensures IsRest(l, Without(l, key), key)
  {
    var i := Position(l, key);
    if i == |l| {
      forall j | 0 <= j < |l|
        ensures l[j].key != key
      {
        Passed(l, key, j);
      }
    }
  }

  lemma AddedIsPushed(l: Lru, e: Entry, budget: nat, maxEntry: nat)
    ensures |e.value| <= maxEntry && |e.key| + |e.value| + 128 <= budget ==> PushedInFront(l, Added(l, e, budget, maxEntry), e, budget)
    ensures |e.value| > maxEntry || |e.key| + |e.value| + 128 > budget ==> Added(l, e, budget, maxEntry) == l
  {
    if |e.value| <= maxEntry && SizeOf(e) <= budget {
      WithoutIsRest(l, e.key);
      AddedKeepsNew(l, e, budget, maxEntry);
      EvictedIsLongestFit([e] + Without(l, e.key), budget);
    }
  }

  class Shard {
    const budget: nat
    const maxEntry: nat
    var used: nat
    var entries: map<Key, Entry>
    var lru: Lru

    /** Map and list hold the same entries, and the counter is their total size. */
    ghost predicate Valid()
      reads this
    {
      Sound(lru, budget, maxEntry) && used == Total(lru) && Linked(entries, lru)
    }

    constructor (budget: nat, maxEntry: nat)
      ensures Valid() && lru == [] && this.budget == budget && this.maxEntry == maxEntry
    {
      this.budget := budget;
      this.maxEntry := maxEntry;
      used, entries, lru := 0, map[], [];
    }

    lemma EntryAt(key: Key)
      requires Valid()
      ensures key in entries <==> Position(lru, key) < |lru|
      ensures key in entries ==> entries[key] == lru[Position(lru, key)]
    {
      var i := Position(lru, key);
      if key in entries {
        var j :| 0 <= j < |lru| && lru[j] == entries[key];
        if i == |lru| {
          Passed(lru, key, j);
        } else {
          OneEntryPerKey(lru, i, j);
        }
      }
    }

    /** A hit's entry can move to the front. */
    lemma HitFound(key: Key)
      requires Valid() && key in entries
      ensures entries[key].key == key && entries[key] in Touched(lru, key) && MovedToFront(lru, Touched(lru, key), entries[key])
      ensures true == Sound(Touched(lru, key), budget, maxEntry) && used == Total(Touched(lru, key)) && true == Linked(entries, Touched(lru, key))
    {
      EntryAt(key);
      TouchedIsSound(lru, key, budget, maxEntry);
      TotalWithout(lru, key);
      TotalFront(lru[Position(lru, key)], Without(lru, key));
      LinkedTouched(entries, lru, key);
    }

    method Get(key: Key) returns (value: Option<seq<Byte>>)
      requires Valid()
      modifies this`lru
      ensures Valid() && lru == Touched(old(lru), key)
      ensures value.Some? <==> exists e :: e in lru && e.key == key
      ensures value.Some? ==> MovedToFront(old(lru), lru, Entry(key, value.value))
      ensures value.None? ==> lru == old(lru)
    {
      EntryAt(key);
      if key !in entries {
        HoldsSome(lru, key);
        return None;
      }
      HitFound(key);
      lru := Touched(lru, key);
      return Some(entries[key].value);
    }

    /** Stores a value, then evicts from the back until the budget holds. */
    method Add(key: Key, value: seq<Byte>)
      requires Valid()
      modifies this
      ensures Valid() && lru == Added(old(lru), Entry(key, value), budget, maxEntry)
      ensures |value| > maxEntry || |key| + |value| + 128 > budget ==> lru == old(lru)
      ensures |value| <= maxEntry && |key| + |value| + 128 <= budget ==> PushedInFront(old(lru), lru, Entry(key, value), budget)
    {
      var e := Entry(key, value);
      AddedIsPushed(lru, e, budget, maxEntry);
      if |value| > maxEntry || SizeOf(e) > budget {
        return;
      }
      AddedIsSound(lru, e, budget, maxEntry);
      EntryAt(key);
      WithoutDistinct(lru, key);
      TotalWithout(lru, key);
      LinkedWithout(entries, lru, key);
      TotalFront(e, Without(lru, key));
      FrontDistinct(e, Without(lru, key));
      if key in entries {
        used := used - SizeOf(entries[key]);
        lru := Without(lru, key);
      } else {
        assert Without(lru, key) == lru;
      }
      entries := map k | k in entries && k != key :: entries[k];
      LinkedFront(entries, lru, e);
      lru := [e] + lru;
      entries := entries[key := e];
      used := used + SizeOf(e);
      Evict();
    }

    method Evict()
      requires DistinctKeys(lru) && Linked(entries, lru) && used == Total(lru)
      modifies this
      ensures DistinctKeys(lru) && Linked(entries, lru) && used == Total(lru)
      ensures lru == Evicted(old(lru), budget)
    {
      while used > budget
        invariant DistinctKeys(lru) && true == Linked(entries, lru) && used == Total(lru)
        invariant Evicted(lru, budget) == Evicted(old(lru), budget)
        decreases |lru|
      {
        var tail := lru[|lru| - 1];
        LinkedInit(entries, lru);
        PrefixDistinct(lru, |lru| - 1);
        entries := map k | k in entries && k != tail.key :: entries[k];
        used := used - SizeOf(tail);
        lru := lru[..|lru| - 1];
      }
    }

    method Clear() returns (usedEntries: nat, usedBytes: nat)
      requires Valid()
      modifies this
      ensures Valid() && lru == []
      ensures usedEntries == |old(lru)| && usedBytes == Total(old(lru))
    {
      usedEntries, usedBytes := |lru|, used;
      entries, lru, used := map[], [], 0;
    }
  }

  // ---------- the budgets of all shards ----------

  function ShardBudget(budget: nat, index: nat): nat {
    budget / SHARDS + if index < budget % SHARDS then 1 else 0
  }

  function BudgetsUpTo(budget: nat, n: nat): nat {
    if n == 0 then 0 else BudgetsUpTo(budget, n - 1) + ShardBudget(budget, n - 1)
  }

  lemma {:induction false} BudgetsSpread(budget: nat, n: nat)
    ensures BudgetsUpTo(budget, n) == n * (budget / SHARDS) + if n < budget % SHARDS then n else budget % SHARDS
  {
    if n > 0 {
      BudgetsSpread(budget, n - 1);
      var p := budget / SHARDS;
      assert n * p == (n - 1) * p + p;
    }
  }

  /** The shards share the whole budget, nothing more and nothing less. */
  lemma BudgetsSum(budget: nat)
    ensures BudgetsUpTo(budget, SHARDS) == budget
  {
    BudgetsSpread(budget, SHARDS);
  }

  /** And they share it evenly: no two budgets differ by more than one byte, and the larger ones
      come first. */
  lemma BudgetsAreEven(budget: nat, i: nat, j: nat)
    requires i < j < 32
    ensures ShardBudget(budget, i) == ShardBudget(budget, j) || ShardBudget(budget, i) == ShardBudget(budget, j) + 1
  {
  }

  // ---------- all shards ----------

  class Cache {
    var enabled: bool
    const shards: seq<Shard>

    ghost predicate Valid()
      reads this, shards
    {
      && |shards| == SHARDS
      && (forall i, j :: 0 <= i < j < SHARDS ==> shards[i] != shards[j])
      && (forall i :: 0 <= i < SHARDS ==> shards[i].Valid())
    }

    constructor (budget: nat, maxEntry: nat)
      ensures Valid() && enabled && fresh(shards)
      ensures forall i :: 0 <= i < SHARDS ==> shards[i].lru == [] && shards[i].maxEntry == maxEntry && shards[i].budget == ShardBudget(budget, i)
    {
      var made: seq<Shard> := [];
      for i := 0 to SHARDS
        invariant |made| == i && forall j :: 0 <= j < i ==> fresh(made[j]) && made[j].Valid() && made[j].lru == []
        invariant forall j :: 0 <= j < i ==> made[j].maxEntry == maxEntry && made[j].budget == ShardBudget(budget, j)
        invariant forall j, k :: 0 <= j < k < i ==> made[j] != made[k]
      {
        var shard := new Shard(ShardBudget(budget, i), maxEntry);
        made := made + [shard];
      }
      shards := made;
      enabled := true;
    }

    method Get(key: Key) returns (value: Option<seq<Byte>>)
      requires Valid()
      modifies shards[ShardOf(key)]
      ensures Valid()
      ensures !enabled ==> value.None? && shards[ShardOf(key)].lru == old(shards[ShardOf(key)].lru)
      ensures enabled ==> shards[ShardOf(key)].lru == Touched(old(shards[ShardOf(key)].lru), key)
      ensures enabled ==> (value.Some? <==> exists e :: e in shards[ShardOf(key)].lru && e.key == key)
      ensures value.Some? ==> Entry(key, value.value) in old(shards[ShardOf(key)].lru)
    {
      if !enabled {
        return None;
      }
      value := shards[ShardOf(key)].Get(key);
    }

    method Add(key: Key, value: seq<Byte>)
      requires Valid()
      modifies shards[ShardOf(key)]
      ensures Valid()
      ensures var shard: Shard := shards[ShardOf(key)];
        shard.lru == if enabled then Added(old(shard.lru), Entry(key, value), shard.budget, shard.maxEntry) else old(shard.lru)
    {
      if enabled {
        shards[ShardOf(key)].Add(key, value);
      }
    }

    method Enable()
      modifies this
      ensures enabled
    {
      enabled := true;
    }

    /** The figures count everything that was there. */
    method DisableAndClear() returns (usedEntries: nat, usedBytes: nat, ghost before: seq<Lru>)
      requires Valid()
      modifies this, shards
      ensures Valid() && !enabled
      ensures forall i :: 0 <= i < SHARDS ==> shards[i].lru == []
      ensures |before| == SHARDS && forall i :: 0 <= i < SHARDS ==> before[i] == old(shards[i].lru)
      ensures usedEntries == |Joined(before, 32)| && usedBytes == Total(Joined(before, 32))
    {
      enabled := false;
      usedEntries, usedBytes := 0, 0;
      before := seq(SHARDS, i requires 0 <= i < SHARDS reads this, shards => shards[i].lru);
      for i := 0 to SHARDS
        invariant Valid() && !enabled
        invariant forall j :: 0 <= j < i ==> shards[j].lru == []
        invariant forall j :: i <= j < SHARDS ==> shards[j].lru == before[j]
        invariant usedEntries == EntriesUpTo(before, i) && usedBytes == BytesUpTo(before, i)
      {
        var n, bytes := shards[i].Clear();
        usedEntries, usedBytes := usedEntries + n, usedBytes + bytes;
      }
      FiguresAreTotals(before, SHARDS);
    }
  }

  /** The first n lists, one behind the other. */
  function Joined(ls: seq<Lru>, n: nat): Lru
    requires n <= |ls|
  {
    if n == 0 then [] else Joined(ls, n - 1) + ls[n - 1]
  }

  /** The figures are those of all entries of all shards together. */
  lemma {:induction false} FiguresAreTotals(ls: seq<Lru>, n: nat)
    requires n <= |ls|
    ensures EntriesUpTo(ls, n) == |Joined(ls, n)| && BytesUpTo(ls, n) == Total(Joined(ls, n))
  {
    if n > 0 {
      FiguresAreTotals(ls, n - 1);
      TotalSplit(Joined(ls, n - 1), ls[n - 1]);
    }
  }

  function EntriesUpTo(ls: seq<Lru>, n: nat): nat
    requires n <= |ls|
  {
    if n == 0 then 0 else EntriesUpTo(ls, n - 1) + |ls[n - 1]|
  }

  function BytesUpTo(ls: seq<Lru>, n: nat): nat
    requires n <= |ls|
  {
    if n == 0 then 0 else BytesUpTo(ls, n - 1) + Total(ls[n - 1])
  }

  /** newResponseCache: zero means the fallback; without a budget there is no cache. */
  method NewResponseCache(budget: int, fallback: int, maxEntry: nat) returns (cache: Cache?)
    ensures cache == null <==> budget < 0 || (budget == 0 && fallback < 1)
    ensures cache != null ==> fresh(cache) && fresh(cache.shards) && cache.Valid() && cache.enabled
    ensures cache != null ==> forall i :: 0 <= i < SHARDS ==>
      && cache.shards[i].lru == [] && cache.shards[i].maxEntry == maxEntry
      && cache.shards[i].budget == ShardBudget(if budget == 0 then fallback else budget, i)
  {
    var total := if budget == 0 then fallback else budget;
    if total < 1 {
      return null;
    }
    cache := new Cache(total, maxEntry);
  }
}
