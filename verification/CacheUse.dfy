/** The order of use of a shard, told by the history of its operations alone. */
module CacheUse {
  import opened Bytes
  import opened ResponseCache

  ghost predicate Has(l: Lru, key: Key) {
    exists i :: 0 <= i < |l| && l[i].key == key
  }

  /** The entry is small enough to be stored. */
  predicate IsSmall(e: Entry, budget: nat, maxEntry: nat) {
    |e.value| <= maxEntry && |e.key| + |e.value| + 128 <= budget
  }

  /** An operation uses a key when it stores it, or asks for it and finds it. */
  ghost predicate Uses(ops: seq<Op>, n: nat, key: Key, budget: nat, maxEntry: nat)
    requires n < |ops|
  {
    match ops[n]
    case Get(k) => k == key && Has(After(ops[..n], budget, maxEntry), key)
    case Add(e) => e.key == key && IsSmall(e, budget, maxEntry)
    case Clear => false
  }

  /** When a key was last used; -1 when never. */
  ghost function LastUse(ops: seq<Op>, key: Key, budget: nat, maxEntry: nat): (n: int)
    ensures -1 <= n < |ops| && (n >= 0 ==> Uses(ops, n, key, budget, maxEntry))
    ensures forall m :: n < m < |ops| ==> !Uses(ops, m, key, budget, maxEntry)
  {
    if ops == [] then -1
    else if Uses(ops, |ops| - 1, key, budget, maxEntry) then |ops| - 1
    else
      var init := ops[..|ops| - 1];
      UsesInPrefix(ops, key, budget, maxEntry);
      LastUse(init, key, budget, maxEntry)
  }

  lemma UsesInPrefix(ops: seq<Op>, key: Key, budget: nat, maxEntry: nat)
    requires ops != []
    ensures forall m :: 0 <= m < |ops| - 1 ==> (Uses(ops[..|ops| - 1], m, key, budget, maxEntry) <==> Uses(ops, m, key, budget, maxEntry))
  {
    var init := ops[..|ops| - 1];
    forall m | 0 <= m < |ops| - 1
      ensures Uses(init, m, key, budget, maxEntry) <==> Uses(ops, m, key, budget, maxEntry)
    {
      assert init[..m] == ops[..m] && init[m] == ops[m];
    }
  }

  /** The entry came with an addition, and nothing has replaced or cleared it since. */
  ghost predicate CameLast(ops: seq<Op>, e: Entry, budget: nat, maxEntry: nat) {
    exists n :: 0 <= n < |ops| && ops[n] == Add(e) && IsSmall(e, budget, maxEntry) && StandsSince(ops, n, e.key, budget, maxEntry)
  }

  ghost predicate StandsSince(ops: seq<Op>, n: nat, key: Key, budget: nat, maxEntry: nat) {
    forall m :: n < m < |ops| ==> ops[m] != Clear && (ops[m].Add? && IsSmall(ops[m].entry, budget, maxEntry) ==> ops[m].entry.key != key)
  }

  /** What comes first was used last, and what is not there was used before all that is. */
  ghost predicate InOrderOfUse(l: Lru, ops: seq<Op>, budget: nat, maxEntry: nat) {
    && (forall i :: 0 <= i < |l| ==> LastUse(ops, l[i].key, budget, maxEntry) >= 0)
    && (forall i, j :: 0 <= i < j < |l| ==> LastUse(ops, l[i].key, budget, maxEntry) > LastUse(ops, l[j].key, budget, maxEntry))
    && (forall key, i :: 0 <= i < |l| && !Has(l, key) ==> LastUse(ops, key, budget, maxEntry) < LastUse(ops, l[i].key, budget, maxEntry))
  }

  lemma AfterNext(ops: seq<Op>, op: Op, budget: nat, maxEntry: nat)
    ensures After(ops + [op], budget, maxEntry) ==
      if op.Get? then Touched(After(ops, budget, maxEntry), op.key)
      else if op.Add? then Added(After(ops, budget, maxEntry), op.entry, budget, maxEntry)
      else []
  {
    assert (ops + [op])[..|ops|] == ops;
  }

  /** One more operation makes itself the last use of the key it uses, and of no other. */
  lemma LastUseNext(ops: seq<Op>, op: Op, key: Key, budget: nat, maxEntry: nat)
    ensures var before := After(ops, budget, maxEntry);
      LastUse(ops + [op], key, budget, maxEntry) ==
        if (op.Get? && op.key == key && Has(before, key)) || (op.Add? && op.entry.key == key && IsSmall(op.entry, budget, maxEntry))
        then |ops| else LastUse(ops, key, budget, maxEntry)
  {
    assert (ops + [op])[..|ops|] == ops;
  }

  /** The entry at a position has moved to the front, or come there anew. */
  lemma FrontInOrder(l: Lru, r: Lru, e: Entry, rest: Lru, ops: seq<Op>, op: Op, budget: nat, maxEntry: nat)
    requires InOrderOfUse(l, ops, budget, maxEntry) && l == After(ops, budget, maxEntry)
    requires IsRest(l, rest, e.key) && DistinctKeys(l) && r <= [e] + rest && r != []
    requires (op == Get(e.key) && Has(l, e.key)) || (op == Add(e) && IsSmall(e, budget, maxEntry))
    ensures InOrderOfUse(r, ops + [op], budget, maxEntry)
  {
    var more := ops + [op];
    forall key
      ensures LastUse(more, key, budget, maxEntry) == if key == e.key then |ops| else LastUse(ops, key, budget, maxEntry)
    {
      LastUseNext(ops, op, key, budget, maxEntry);
    }
    RestInOrder(l, rest, e.key, ops, budget, maxEntry);
    assert forall i :: 0 < i < |r| ==> r[i] == rest[i - 1];
    forall key, i | 0 <= i < |r| && !Has(r, key)
      ensures LastUse(more, key, budget, maxEntry) < LastUse(more, r[i].key, budget, maxEntry)
    {
      assert r[0] == e && key != e.key;
      if i > 0 {
        LeftOutEarlier(l, rest, r, e, ops, key, i, budget, maxEntry);
      }
    }
  }

  /** Without one entry the others are in order still. */
  lemma RestInOrder(l: Lru, rest: Lru, key: Key, ops: seq<Op>, budget: nat, maxEntry: nat)
    requires InOrderOfUse(l, ops, budget, maxEntry) && IsRest(l, rest, key) && DistinctKeys(l)
    ensures forall i :: 0 <= i < |rest| ==> LastUse(ops, rest[i].key, budget, maxEntry) >= 0 && rest[i].key != key
    ensures forall i, j :: 0 <= i < j < |rest| ==> LastUse(ops, rest[i].key, budget, maxEntry) > LastUse(ops, rest[j].key, budget, maxEntry)
  {
    var p := RestAt(l, rest, key);
    forall i | 0 <= i < |rest|
      ensures LastUse(ops, rest[i].key, budget, maxEntry) >= 0 && rest[i].key != key
    {
      assert rest[i] == l[Stood(i, p)];
    }
    forall i, j | 0 <= i < j < |rest|
      ensures LastUse(ops, rest[i].key, budget, maxEntry) > LastUse(ops, rest[j].key, budget, maxEntry)
    {
      assert rest[i] == l[Stood(i, p)] && rest[j] == l[Stood(j, p)] && Stood(i, p) < Stood(j, p);
    }
  }

  /** Where the others stood before one was taken out. */
  lemma RestAt(l: Lru, rest: Lru, key: Key) returns (p: nat)
    requires IsRest(l, rest, key) && DistinctKeys(l)
    ensures forall i :: 0 <= i < |rest| ==> Stood(i, p) < |l| && rest[i] == l[Stood(i, p)] && rest[i].key != key
  {
    p := |rest|;
    if rest != l {
      p :| 0 <= p < |l| && l[p].key == key && rest == l[..p] + l[p + 1..];
      forall i | 0 <= i < |rest|
        ensures rest[i].key != key
      {
        OneEntryPerKey(l, p, Stood(i, p));
      }
    }
  }

  function Stood(i: nat, p: nat): nat {
    if i < p then i else i + 1
  }

  lemma LeftOutEarlier(l: Lru, rest: Lru, r: Lru, e: Entry, ops: seq<Op>, key: Key, i: nat, budget: nat, maxEntry: nat)
    requires InOrderOfUse(l, ops, budget, maxEntry) && IsRest(l, rest, e.key) && DistinctKeys(l)
    requires r <= [e] + rest && 0 < i < |r| && !Has(r, key) && key != e.key
    ensures LastUse(ops, key, budget, maxEntry) < LastUse(ops, r[i].key, budget, maxEntry)
  {
    assert r[i] == rest[i - 1];
    if k :| 0 <= k < |rest| && rest[k].key == key {
      RestInOrder(l, rest, e.key, ops, budget, maxEntry);
      FrontHas(r, [e] + rest, k + 1);
    } else {
      RestHasOthers(l, rest, e.key, key);
      assert rest[i - 1] in l;
      var k :| 0 <= k < |l| && l[k] == rest[i - 1];
    }
  }

  lemma FrontHas(r: Lru, all: Lru, k: nat)
    requires r <= all && k < |all|
    ensures k < |r| ==> Has(r, all[k].key)
  {
    assert k < |r| ==> r[k] == all[k];
  }

  lemma RestHasOthers(l: Lru, rest: Lru, key: Key, other: Key)
    requires IsRest(l, rest, key) && other != key && !Has(rest, other)
    ensures !Has(l, other) && forall e :: e in rest ==> e in l
  {
    if rest != l {
      var p :| 0 <= p < |l| && l[p].key == key && rest == l[..p] + l[p + 1..];
      forall j | 0 <= j < |l|
        ensures l[j].key != other
      {
        assert j < p ==> rest[j] == l[j];
        assert j > p ==> rest[j - 1] == l[j];
      }
    }
  }

  /** An operation that uses nothing and changes nothing. */
  lemma IdleInOrder(l: Lru, ops: seq<Op>, op: Op, budget: nat, maxEntry: nat)
    requires InOrderOfUse(l, ops, budget, maxEntry) && l == After(ops, budget, maxEntry)
    requires (op.Get? && !Has(l, op.key)) || (op.Add? && !IsSmall(op.entry, budget, maxEntry))
    ensures InOrderOfUse(l, ops + [op], budget, maxEntry)
  {
    forall key
      ensures LastUse(ops + [op], key, budget, maxEntry) == LastUse(ops, key, budget, maxEntry)
    {
      LastUseNext(ops, op, key, budget, maxEntry);
    }
  }

  lemma GetInOrder(l: Lru, key: Key, ops: seq<Op>, budget: nat, maxEntry: nat)
    requires InOrderOfUse(l, ops, budget, maxEntry) && l == After(ops, budget, maxEntry) && DistinctKeys(l)
    ensures InOrderOfUse(Touched(l, key), ops + [Get(key)], budget, maxEntry)
  {
    HoldsSome(l, key);
    var i := Position(l, key);
    if i < |l| {
      WithoutIsRest(l, key);
      FrontInOrder(l, Touched(l, key), l[i], Without(l, key), ops, Get(key), budget, maxEntry);
    } else {
      IdleInOrder(l, ops, Get(key), budget, maxEntry);
    }
  }

  lemma AddInOrder(l: Lru, e: Entry, ops: seq<Op>, budget: nat, maxEntry: nat)
    requires InOrderOfUse(l, ops, budget, maxEntry) && l == After(ops, budget, maxEntry) && DistinctKeys(l)
    ensures InOrderOfUse(Added(l, e, budget, maxEntry), ops + [Add(e)], budget, maxEntry)
  {
    AddedIsPushed(l, e, budget, maxEntry);
    if IsSmall(e, budget, maxEntry) {
      var rest :| IsRest(l, rest, e.key) && IsLongestFit([e] + rest, Added(l, e, budget, maxEntry), budget);
      FrontInOrder(l, Added(l, e, budget, maxEntry), e, rest, ops, Add(e), budget, maxEntry);
    } else {
      IdleInOrder(l, ops, Add(e), budget, maxEntry);
    }
  }

  /** After any history the shard is in order of last use, and whatever it does not hold was last
      used before everything it holds. */
  lemma {:induction false} OrderOfUse(ops: seq<Op>, budget: nat, maxEntry: nat)
    ensures InOrderOfUse(After(ops, budget, maxEntry), ops, budget, maxEntry)
  {
    if ops != [] {
      var init, op := ops[..|ops| - 1], ops[|ops| - 1];
      var l := After(init, budget, maxEntry);
      assert ops == init + [op];
      OrderOfUse(init, budget, maxEntry);
      CacheIsFront(init, budget, maxEntry);
      match op
      case Get(key) => GetInOrder(l, key, init, budget, maxEntry);
      case Add(e) => AddInOrder(l, e, init, budget, maxEntry);
      case Clear =>
    }
  }

  /** And every entry holds what was last stored under its key. */
  lemma {:induction false} ValuesAreLast(ops: seq<Op>, budget: nat, maxEntry: nat, e: Entry)
    requires e in After(ops, budget, maxEntry)
    ensures CameLast(ops, e, budget, maxEntry)
  {
    var init, op := ops[..|ops| - 1], ops[|ops| - 1];
    var l, r := After(init, budget, maxEntry), After(ops, budget, maxEntry);
    CacheIsFront(init, budget, maxEntry);
    match op
    case Get(key) =>
      TouchedKeeps(l, key, e);
      ValuesAreLast(init, budget, maxEntry, e);
      StillLast(ops, e, budget, maxEntry);
    case Add(new') =>
      if IsSmall(new', budget, maxEntry) {
        AddedIsPushed(l, new', budget, maxEntry);
        var rest :| IsRest(l, rest, new'.key) && IsLongestFit([new'] + rest, r, budget);
        OldOrNew(l, rest, r, new', e);
      }
      if e == new' && IsSmall(new', budget, maxEntry) {
        assert StandsSince(ops, |ops| - 1, e.key, budget, maxEntry);
      } else {
        ValuesAreLast(init, budget, maxEntry, e);
        StillLast(ops, e, budget, maxEntry);
      }
    case Clear =>
  }

  lemma OldOrNew(l: Lru, rest: Lru, r: Lru, added: Entry, e: Entry)
    requires IsRest(l, rest, added.key) && DistinctKeys(l) && r <= [added] + rest && e in r
    ensures e == added || (e in l && e.key != added.key)
  {
    var i :| 0 <= i < |r| && r[i] == e;
    if i > 0 {
      assert e == rest[i - 1];
      if rest != l {
        var p :| 0 <= p < |l| && l[p].key == added.key && rest == l[..p] + l[p + 1..];
        var k := if i - 1 < p then i - 1 else i;
        assert e == l[k];
        OneEntryPerKey(l, p, k);
      }
    }
  }

  lemma StillLast(ops: seq<Op>, e: Entry, budget: nat, maxEntry: nat)
    requires ops != [] && CameLast(ops[..|ops| - 1], e, budget, maxEntry) && ops[|ops| - 1] != Clear
    requires ops[|ops| - 1].Add? && IsSmall(ops[|ops| - 1].entry, budget, maxEntry) ==> ops[|ops| - 1].entry.key != e.key
    ensures CameLast(ops, e, budget, maxEntry)
  {
    var init := ops[..|ops| - 1];
    var n :| 0 <= n < |init| && init[n] == Add(e) && IsSmall(e, budget, maxEntry) && StandsSince(init, n, e.key, budget, maxEntry);
    forall m | n < m < |ops|
      ensures ops[m] != Clear && (ops[m].Add? && IsSmall(ops[m].entry, budget, maxEntry) ==> ops[m].entry.key != e.key)
    {
      assert m < |init| ==> init[m] == ops[m];
    }
    assert ops[n] == Add(e) && StandsSince(ops, n, e.key, budget, maxEntry);
  }

  // ---------- a shard with its history ----------

  /** A shard that is put through a history ends in order of use, with the values last stored. */
  method Replay(ops: seq<Op>, budget: nat, maxEntry: nat) returns (shard: Shard)
    ensures fresh(shard) && shard.Valid() && shard.lru == After(ops, budget, maxEntry)
    ensures InOrderOfUse(shard.lru, ops, budget, maxEntry)
    ensures forall e :: e in shard.lru ==> CameLast(ops, e, budget, maxEntry)
  {
    shard := new Shard(budget, maxEntry);
    for n := 0 to |ops|
      invariant fresh(shard) && shard.Valid() && shard.budget == budget && shard.maxEntry == maxEntry
      invariant shard.lru == After(ops[..n], budget, maxEntry)
    {
      assert ops[..n + 1][..n] == ops[..n];
      match ops[n]
      case Get(key) =>
        var value := shard.Get(key);
      case Add(e) =>
        shard.Add(e.key, e.value);
      case Clear =>
        var entries, bytes := shard.Clear();
    }
    assert ops[..|ops|] == ops;
    OrderOfUse(ops, budget, maxEntry);
    forall e | e in shard.lru
      ensures CameLast(ops, e, budget, maxEntry)
    {
      ValuesAreLast(ops, budget, maxEntry, e);
    }
  }
}
