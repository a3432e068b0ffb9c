/** The route selector from end to end: one pass over the sorted route index groups IDs by
    prefix, the trie takes each group once, and a lookup in its bytes finds the longest. */
module RouteSelector {
  import opened Bytes
  import opened Words
  import opened Addresses
  import opened Cover
  import opened Sources
  import opened Mapped
  import opened PointIndex
  import opened Patricia
  import opened TrieBuilder
  import RouteLPM

  type Ids = RouteLPM.Ids

  /** The bits an index key names: its address cut off at its length. */
  function KeyBits(key: StoreKey, v: Version): Bits
    requires |key| == INDEX_KEY_SIZE && key[17] <= Width(v)
  {
    Key(key[1..17], v, key[17])
  }

  lemma KeyOfInjective(b: Block, c: Block, v: Version)
    requires b.exp <= Width(v) && Aligned(b) && b.base < Pow2(Width(v))
    requires c.exp <= Width(v) && Aligned(c) && c.base < Pow2(Width(v))
    requires KeyOf(b, v) == KeyOf(c, v)
    ensures b == c
  {
    KeyOfBlock(b, v);
    KeyOfBlock(c, v);
  }

  ghost predicate IsBlockKey(key: StoreKey, v: Version, b: Block) {
    && b.exp <= Width(v) && Aligned(b) && b.base < Pow2(Width(v))
    && |key| == INDEX_KEY_SIZE && key[..PREFIX_KEY_SIZE] == PrefixKey(v, b)
  }

  lemma BlockKeyFields(key: StoreKey, v: Version, b: Block)
    requires IsBlockKey(key, v, b)
    ensures key[0] == VersionByte(v) && key[17] == Width(v) - b.exp && key[1..17] == AddressOf(b.base, v)
    ensures KeyBits(key, v) == KeyOf(b, v)
  {
    var p := key[..PREFIX_KEY_SIZE];
    assert key[0] == p[0] && key[17] == p[17] && key[1..17] == p[1..17];
    assert PrefixKey(v, b)[1..17] == AddressOf(b.base, v);
  }

  /** Every key of an index names a block of a record, which has the key's ID. */
  lemma IndexedKey(keys: seq<StoreKey>, ss: seq<Source>, i: nat) returns (v: Version, b: Block, id: Word)
    requires IsIndex(keys, ss) && AllKeys(keys) && i < |keys|
    ensures IsBlockKey(keys[i], v, b) && !IsMapped(v, b.base) && id == IndexId(keys[i]) && HasEntry(ss, v, b, id)
  {
    v, b, id := KeyIsEntry(keys, ss, i);
    BlockInSource(ss[id - 1], b);
  }

  /** Keys of one family: the bits tell prefixes apart. */
  lemma BitsTellPrefixes(keys: seq<StoreKey>, ss: seq<Source>, v: Version, i: nat, j: nat)
    requires IsIndex(keys, ss) && AllKeys(keys) && i < |keys| && j < |keys|
    requires keys[i][0] == keys[j][0] == VersionByte(v)
    ensures keys[i][17] <= Width(v) && keys[j][17] <= Width(v)
    ensures KeyBits(keys[i], v) == KeyBits(keys[j], v) <==> keys[i][..PREFIX_KEY_SIZE] == keys[j][..PREFIX_KEY_SIZE]
  {
    var vi, bi, idi := IndexedKey(keys, ss, i);
    var vj, bj, idj := IndexedKey(keys, ss, j);
    BlockKeyFields(keys[i], vi, bi);
    BlockKeyFields(keys[j], vj, bj);
    if KeyBits(keys[i], v) == KeyBits(keys[j], v) {
      KeyOfInjective(bi, bj, v);
    }
    if keys[i][..PREFIX_KEY_SIZE] == keys[j][..PREFIX_KEY_SIZE] {
      PrefixKeyInjective(v, bi, v, bj);
    }
  }

  // ---------- the grouping scan ----------

  ghost predicate OfFamily(keys: seq<StoreKey>, v: Version, i: nat)
    requires i < |keys|
  {
    keys[i] != [] && keys[i][0] == VersionByte(v)
  }

  ghost predicate FamilyKeys(keys: seq<StoreKey>, v: Version) {
    && AllKeys(keys)
    && forall i :: 0 <= i < |keys| && OfFamily(keys, v, i) ==> keys[i][17] <= Width(v)
  }

  lemma IndexIsFamily(keys: seq<StoreKey>, ss: seq<Source>, v: Version)
    requires IsIndex(keys, ss)
    ensures FamilyKeys(keys, v)
  {
    IndexKeysSized(keys, ss);
    forall i | 0 <= i < |keys| && OfFamily(keys, v, i)
      ensures keys[i][17] <= Width(v)
    {
      BitsTellPrefixes(keys, ss, v, i, i);
    }
  }

  /** Of the first n keys, those of the family outside the open group are stored, each prefix
      with its whole group. */
  ghost predicate GroupsStored(stored: map<Bits, Ids>, keys: seq<StoreKey>, v: Version, n: nat, open: StoreKey)
    requires FamilyKeys(keys, v) && n <= |keys|
  {
    && (forall i {:trigger KeyStored(stored, keys, v, i)} ::
         0 <= i < n && OfFamily(keys, v, i) && keys[i][..PREFIX_KEY_SIZE] != open ==> KeyStored(stored, keys, v, i))
    && (forall k {:trigger StoredFrom(keys, v, n, open, k)} :: k in stored ==> StoredFrom(keys, v, n, open, k))
  }

  ghost predicate KeyStored(stored: map<Bits, Ids>, keys: seq<StoreKey>, v: Version, i: nat)
    requires FamilyKeys(keys, v) && i < |keys| && OfFamily(keys, v, i)
  {
    var k := KeyBits(keys[i], v);
    k in stored && stored[k] == Group(keys, keys[i][..PREFIX_KEY_SIZE])
  }

  ghost predicate StoredFrom(keys: seq<StoreKey>, v: Version, n: nat, open: StoreKey, k: Bits)
    requires FamilyKeys(keys, v) && n <= |keys|
  {
    exists i :: 0 <= i < n && OfFamily(keys, v, i) && keys[i][..PREFIX_KEY_SIZE] != open && KeyBits(keys[i], v) == k
  }

  lemma FirstByteAscends(keys: seq<StoreKey>, i: nat, j: nat)
    requires AllKeys(keys) && i <= j < |keys|
    ensures keys[i][0] <= keys[j][0]
  {
    assert i < j ==> Precedes(keys, i, j);
  }

  lemma SeekFamily(keys: seq<StoreKey>, v: Version, i: nat)
    requires AllKeys(keys) && i < |keys|
    ensures i < Seek(keys, [VersionByte(v)]) <==> keys[i][0] < VersionByte(v)
  {
    var target := [VersionByte(v)];
    assert target[1..] == [] && !LexLess(keys[i][1..], []);
    if Seek(keys, target) <= i {
      FromSeekOn(keys, target, i);
    } else {
      BeforeSeekOn(keys, target, i);
    }
  }

  /** Two keys with the same prefix have no other prefix between them. */
  lemma Contiguous(keys: seq<StoreKey>, i: nat, j: nat, k: nat)
    requires AllKeys(keys) && i < j < k < |keys|
    requires keys[i][..PREFIX_KEY_SIZE] == keys[k][..PREFIX_KEY_SIZE]
    ensures keys[j][..PREFIX_KEY_SIZE] == keys[k][..PREFIX_KEY_SIZE]
  {
    var base := keys[k][..PREFIX_KEY_SIZE];
    if keys[j][..PREFIX_KEY_SIZE] != base {
      if i < Seek(keys, base + ZERO_ID) {
        BeforeSeek(keys, base, i);
      }
      AfterRun(keys, base, j, k);
    }
  }

  /** Up to the end of a run, the collected IDs are the whole group. */
  lemma RunIsGroup(keys: seq<StoreKey>, n: nat)
    requires AllKeys(keys) && 0 < n <= |keys|
    requires n < |keys| ==> keys[n][..PREFIX_KEY_SIZE] != keys[n - 1][..PREFIX_KEY_SIZE]
    ensures var base := keys[n - 1][..PREFIX_KEY_SIZE]; GroupUpTo(keys, base, n) == Group(keys, base)
  {
    var base := keys[n - 1][..PREFIX_KEY_SIZE];
    if n - 1 < Seek(keys, base + ZERO_ID) {
      BeforeSeek(keys, base, n - 1);
    }
    GroupEndsWithRun(keys, base, n);
  }

  /** The open group is not stored yet: inserting it cannot be refused as a duplicate. */
  lemma OpenIsNew(stored: map<Bits, Ids>, keys: seq<StoreKey>, ss: seq<Source>, v: Version, n: nat, j: nat)
    requires IsIndex(keys, ss) && FamilyKeys(keys, v) && n <= |keys| && j < |keys| && OfFamily(keys, v, j)
    requires true == GroupsStored(stored, keys, v, n, keys[j][..PREFIX_KEY_SIZE])
    ensures KeyBits(keys[j], v) !in stored
  {
    var k := KeyBits(keys[j], v);
    if k in stored {
      assert StoredFrom(keys, v, n, keys[j][..PREFIX_KEY_SIZE], k);
      var i :| 0 <= i < n && OfFamily(keys, v, i) && keys[i][..PREFIX_KEY_SIZE] != keys[j][..PREFIX_KEY_SIZE] && KeyBits(keys[i], v) == k;
      BitsTellPrefixes(keys, ss, v, i, j);
    }
  }

  lemma KeyStays(stored: map<Bits, Ids>, keys: seq<StoreKey>, ss: seq<Source>, v: Version, i: nat, j: nat)
    requires IsIndex(keys, ss) && FamilyKeys(keys, v) && i < |keys| && OfFamily(keys, v, i) && j < |keys| && OfFamily(keys, v, j)
    requires keys[i][..PREFIX_KEY_SIZE] != keys[j][..PREFIX_KEY_SIZE] ==> KeyStored(stored, keys, v, i)
    ensures KeyStored(stored[KeyBits(keys[j], v) := Group(keys, keys[j][..PREFIX_KEY_SIZE])], keys, v, i)
  {
    BitsTellPrefixes(keys, ss, v, i, j);
  }

  lemma ClosedBefore(keys: seq<StoreKey>, v: Version, n: nat, i: nat, next: StoreKey)
    requires AllKeys(keys) && i < n <= |keys|
    requires next == [] || (n < |keys| && next == keys[n][..PREFIX_KEY_SIZE] != keys[n - 1][..PREFIX_KEY_SIZE])
    ensures keys[i][..PREFIX_KEY_SIZE] != next
  {
    if next != [] && i < n - 1 && keys[i][..PREFIX_KEY_SIZE] == next {
      Contiguous(keys, i, n - 1, n);
    }
  }

  /** Storing the open group, with another one (or none) opened after it. */
  lemma GroupClosed(stored: map<Bits, Ids>, keys: seq<StoreKey>, ss: seq<Source>, v: Version, n: nat, next: StoreKey)
    requires IsIndex(keys, ss) && FamilyKeys(keys, v) && 0 < n <= |keys| && OfFamily(keys, v, n - 1)
    requires true == GroupsStored(stored, keys, v, n, keys[n - 1][..PREFIX_KEY_SIZE])
    requires next == [] || (n < |keys| && next == keys[n][..PREFIX_KEY_SIZE] != keys[n - 1][..PREFIX_KEY_SIZE])
    ensures true == GroupsStored(stored[KeyBits(keys[n - 1], v) := Group(keys, keys[n - 1][..PREFIX_KEY_SIZE])], keys, v, n, next)
  {
    var base, bits := keys[n - 1][..PREFIX_KEY_SIZE], KeyBits(keys[n - 1], v);
    var after := stored[bits := Group(keys, base)];
    forall i | 0 <= i < n && OfFamily(keys, v, i)
      ensures KeyStored(after, keys, v, i)
    {
      KeyStays(stored, keys, ss, v, i, n - 1);
    }
    forall k | k in after
      ensures StoredFrom(keys, v, n, next, k)
    {
      var i := n - 1;
      if k != bits {
        assert StoredFrom(keys, v, n, base, k);
        i :| 0 <= i < n && OfFamily(keys, v, i) && keys[i][..PREFIX_KEY_SIZE] != base && KeyBits(keys[i], v) == k;
      }
      ClosedBefore(keys, v, n, i, next);
    }
  }

  // ---------- the scan ----------

  /** The IDs of the family's keys among the first n, in the order of the scan. */
  function FamilyIds(keys: seq<StoreKey>, v: Version, n: nat): (ids: Ids)
    requires AllKeys(keys) && n <= |keys|
    ensures |ids| <= n
  {
    if n == 0 then []
    else if keys[n - 1][0] == VersionByte(v) then FamilyIds(keys, v, n - 1) + [IndexId(keys[n - 1])]
    else FamilyIds(keys, v, n - 1)
  }

  lemma {:induction false} NoFamilyIds(keys: seq<StoreKey>, v: Version, n: nat, m: nat)
    requires AllKeys(keys) && n <= m <= |keys| && forall i :: n <= i < m ==> !OfFamily(keys, v, i)
    ensures FamilyIds(keys, v, m) == FamilyIds(keys, v, n)
  {
    if n < m {
      NoFamilyIds(keys, v, n, m - 1);
      assert !OfFamily(keys, v, m - 1);
    }
  }

  /** The trie holds as many IDs as the family has keys among the first n, but for those still
      collected. */
  ghost predicate Counted(t: Tree<Ids>, keys: seq<StoreKey>, v: Version, n: nat, collected: nat)
    requires AllKeys(keys) && n <= |keys|
  {
    RouteLPM.TreeTotal(t) + collected == |FamilyIds(keys, v, n)|
  }

  /** Inserts the open group, once its run has ended. */
  method Flush(lpm: Builder<Ids>, v: Version, current: StoreKey, ids: Ids,
               ghost keys: seq<StoreKey>, ghost ss: seq<Source>, ghost n: nat, ghost next: StoreKey)
    returns (r: TrieBuilder.Result<()>)
    requires lpm.Valid() && lpm.version == v && lpm.merge == RouteLPM.Refuse
    requires true == IsIndex(keys, ss) && FamilyKeys(keys, v) && 0 < n <= |keys| && OfFamily(keys, v, n - 1)
    requires current == keys[n - 1][..PREFIX_KEY_SIZE] && ids == GroupUpTo(keys, current, n)
    requires next == [] || (n < |keys| && next == keys[n][..PREFIX_KEY_SIZE])
    requires n < |keys| ==> keys[n][..PREFIX_KEY_SIZE] != current
    requires true == GroupsStored(lpm.Stored(), keys, v, n, current) && Counted(lpm.tree, keys, v, n, |ids|)
    modifies lpm
    ensures r.Err? ==> r.error == TooManyNodes && |old(lpm.nodes)| + 2 > MAX_UINT32
    ensures r.Ok? ==> lpm.Valid() && true == GroupsStored(lpm.Stored(), keys, v, n, next) && |lpm.nodes| <= |old(lpm.nodes)| + 2
    ensures r.Ok? ==> Counted(lpm.tree, keys, v, n, 0)
  {
    CurrentBits(keys, ss, v, n - 1, current);
    OpenIsNew(lpm.Stored(), keys, ss, v, n, n - 1);
    GroupClosed(lpm.Stored(), keys, ss, v, n, next);
    RunIsGroup(keys, n);
    r := RouteLPM.Insert(lpm, Cidr(v, current[1..17], current[17]), ids);
  }

  lemma CurrentBits(keys: seq<StoreKey>, ss: seq<Source>, v: Version, i: nat, current: StoreKey)
    requires IsIndex(keys, ss) && AllKeys(keys) && i < |keys| && OfFamily(keys, v, i) && current == keys[i][..PREFIX_KEY_SIZE]
    ensures keys[i][17] <= Width(v)
    ensures current[17] <= Width(v) && StoredBits(current[1..17], v, current[17]) == KeyBits(keys[i], v)
  {
    BitsTellPrefixes(keys, ss, v, i, i);
    assert current[17] == keys[i][17] && current[1..17] == keys[i][1..17];
    var w, b, id := IndexedKey(keys, ss, i);
    BlockKeyFields(keys[i], w, b);
    NumOfAddress(b.base, v);
    PlainBits(current[1..17], v, current[17]);
  }

  /** The open run before key n: its prefix and the IDs collected for it, nothing at the start. */
  ghost predicate OpenRun(keys: seq<StoreKey>, v: Version, start: nat, n: nat, current: StoreKey, ids: Ids)
    requires AllKeys(keys) && n <= |keys|
  {
    if n == start then ids == [] && current == [] else
      0 < n && OfFamily(keys, v, n - 1) && current == keys[n - 1][..PREFIX_KEY_SIZE] && ids == GroupUpTo(keys, current, n)
  }

  /** What the scan has done with the first n keys: the last run is open, earlier ones are
      stored, two nodes each at most. */
  ghost predicate Scanned(t: Tree<Ids>, size: nat, keys: seq<StoreKey>, v: Version, start: nat, n: nat, current: StoreKey, ids: Ids)
    requires FamilyKeys(keys, v) && start <= n <= |keys|
  {
    && GroupsStored(Contents(t), keys, v, n, current)
    && OpenRun(keys, v, start, n, current, ids)
    && Counted(t, keys, v, n, |ids|)
    && size <= if n == start then 1 else 2 * (n - start) - 1
  }

  /** Passing keys of the open run, or of another family, stores nothing. */
  lemma StoredUpTo(stored: map<Bits, Ids>, keys: seq<StoreKey>, v: Version, n: nat, m: nat, open: StoreKey)
    requires FamilyKeys(keys, v) && n <= m <= |keys|
    requires true == GroupsStored(stored, keys, v, n, open)
    requires forall i :: n <= i < m ==> !OfFamily(keys, v, i) || keys[i][..PREFIX_KEY_SIZE] == open
    ensures true == GroupsStored(stored, keys, v, m, open)
  {
    forall k | k in stored
      ensures StoredFrom(keys, v, m, open, k)
    {
      assert StoredFrom(keys, v, n, open, k);
    }
  }

  lemma RunExtends(keys: seq<StoreKey>, v: Version, start: nat, n: nat, current: StoreKey, ids: Ids)
    requires AllKeys(keys) && start < n < |keys| && OfFamily(keys, v, n)
    requires true == OpenRun(keys, v, start, n, current, ids) && current == keys[n][..PREFIX_KEY_SIZE]
    ensures true == OpenRun(keys, v, start, n + 1, current, ids + [IndexId(keys[n])])
  {
  }

  lemma RunOpens(keys: seq<StoreKey>, v: Version, start: nat, n: nat)
    requires AllKeys(keys) && start <= n < |keys| && OfFamily(keys, v, n)
    requires n > 0 ==> keys[n - 1][..PREFIX_KEY_SIZE] != keys[n][..PREFIX_KEY_SIZE]
    ensures true == OpenRun(keys, v, start, n + 1, keys[n][..PREFIX_KEY_SIZE], [IndexId(keys[n])])
  {
    RunStarts(keys, n);
  }

  /** Key n joins the open run. */
  lemma ScanExtends(t: Tree<Ids>, size: nat, keys: seq<StoreKey>, v: Version, start: nat, n: nat, current: StoreKey, ids: Ids)
    requires FamilyKeys(keys, v) && start < n < |keys| && OfFamily(keys, v, n) && current == keys[n][..PREFIX_KEY_SIZE]
    requires true == Scanned(t, size, keys, v, start, n, current, ids)
    ensures true == Scanned(t, size, keys, v, start, n + 1, current, ids + [IndexId(keys[n])])
  {
    StoredUpTo(Contents(t), keys, v, n, n + 1, current);
    RunExtends(keys, v, start, n, current, ids);
  }

  /** Key n opens a run, once the run before it is stored. */
  lemma ScanOpens(t: Tree<Ids>, size: nat, keys: seq<StoreKey>, v: Version, start: nat, n: nat)
    requires FamilyKeys(keys, v) && start <= n < |keys| && OfFamily(keys, v, n) && size <= 2 * (n - start) + 1
    requires true == GroupsStored(Contents(t), keys, v, n, keys[n][..PREFIX_KEY_SIZE]) && Counted(t, keys, v, n, 0)
    requires n > 0 ==> keys[n - 1][..PREFIX_KEY_SIZE] != keys[n][..PREFIX_KEY_SIZE]
    ensures true == Scanned(t, size, keys, v, start, n + 1, keys[n][..PREFIX_KEY_SIZE], [IndexId(keys[n])])
  {
    StoredUpTo(Contents(t), keys, v, n, n + 1, keys[n][..PREFIX_KEY_SIZE]);
    RunOpens(keys, v, start, n);
  }

  /** One turn of the scan: a key with a new prefix flushes the run before it and opens its own,
      any other joins the open run. */
  method Advance(lpm: Builder<Ids>, keys: seq<StoreKey>, v: Version, ghost ss: seq<Source>, start: nat, i: nat,
                 current: StoreKey, ids: Ids)
    returns (r: TrieBuilder.Result<()>, current': StoreKey, ids': Ids)
    requires true == IsIndex(keys, ss) && true == FamilyKeys(keys, v) && start == Seek(keys, [VersionByte(v)]) <= i < |keys| && OfFamily(keys, v, i)
    requires true == lpm.Valid() && lpm.version == v && lpm.merge == RouteLPM.Refuse
    requires true == Scanned(lpm.tree, |lpm.nodes|, keys, v, start, i, current, ids)
    modifies lpm
    ensures r.Err? ==> r.error == TooManyNodes && 2 * (i - start) + 1 > MAX_UINT32
    ensures r.Ok? ==> true == lpm.Valid() && true == Scanned(lpm.tree, |lpm.nodes|, keys, v, start, i + 1, current', ids')
  {
    r, current', ids' := Ok(()), keys[i][..PREFIX_KEY_SIZE], [IndexId(keys[i])];
    if i == start {
      FirstOpens(keys, v, i);
      StoredNothing(lpm.Stored(), keys, v, i, current');
    } else if current' != current {
      r := Flush(lpm, v, current, ids, keys, ss, i, current');
      if r.Err? {
        return;
      }
    } else {
      ScanExtends(lpm.tree, |lpm.nodes|, keys, v, start, i, current, ids);
      ids' := ids + ids';
      return;
    }
    ScanOpens(lpm.tree, |lpm.nodes|, keys, v, start, i);
  }

  lemma StoredNothing(stored: map<Bits, Ids>, keys: seq<StoreKey>, v: Version, n: nat, open: StoreKey)
    requires FamilyKeys(keys, v) && n <= |keys| && n <= Seek(keys, [VersionByte(v)])
    requires true == GroupsStored(stored, keys, v, n, [])
    ensures true == GroupsStored(stored, keys, v, n, open)
  {
    NothingBefore(keys, v);
    forall k
      ensures k !in stored
    {
      assert !StoredFrom(keys, v, n, [], k);
    }
  }

  /** One pass over the family's keys. No error but a full node table is possible, and that
      takes 2^31 keys: in particular no prefix is ever inserted twice. Laid end to end, the
      stored groups are the scan. */
  method CollectGroups(keys: seq<StoreKey>, v: Version, ghost ss: seq<Source>)
    returns (lpm: Builder<Ids>, r: TrieBuilder.Result<()>)
    requires true == IsIndex(keys, ss) && true == FamilyKeys(keys, v)
    ensures r.Err? ==> r.error == TooManyNodes && 2 * |keys| + 1 > MAX_UINT32
    ensures r.Ok? ==> true == lpm.Valid() && lpm.version == v
    ensures r.Ok? ==> true == GroupsStored(lpm.Stored(), keys, v, |keys|, [])
    ensures r.Ok? ==> Counted(lpm.tree, keys, v, |keys|, 0)
  {
    lpm := new Builder(v, RouteLPM.Refuse);
    NothingYet(lpm.tree, keys, v);
    r := CollectFrom(lpm, keys, v, ss, Seek(keys, [VersionByte(v)]));
  }

  /** The loop of the scan, from the first key of the family to its last. */
  method CollectFrom(lpm: Builder<Ids>, keys: seq<StoreKey>, v: Version, ghost ss: seq<Source>, start: nat)
    returns (r: TrieBuilder.Result<()>)
    requires true == IsIndex(keys, ss) && true == FamilyKeys(keys, v) && start == Seek(keys, [VersionByte(v)]) <= |keys|
    requires true == lpm.Valid() && lpm.version == v && lpm.merge == RouteLPM.Refuse
    requires true == Scanned(lpm.tree, |lpm.nodes|, keys, v, start, start, [], [])
    modifies lpm
    ensures r.Err? ==> r.error == TooManyNodes && 2 * |keys| + 1 > MAX_UINT32
    ensures r.Ok? ==> true == lpm.Valid()
    ensures r.Ok? ==> true == GroupsStored(lpm.Stored(), keys, v, |keys|, [])
    ensures r.Ok? ==> Counted(lpm.tree, keys, v, |keys|, 0)
  {
    var i := start;
    var current: StoreKey, ids: Ids := [], [];
    while i < |keys| && keys[i][0] == VersionByte(v)
      invariant start <= i <= |keys|
      invariant true == lpm.Valid() && true == Scanned(lpm.tree, |lpm.nodes|, keys, v, start, i, current, ids)
      decreases |keys| - i
    {
      r, current, ids := Advance(lpm, keys, v, ss, start, i, current, ids);
      if r.Err? {
        return;
      }
      i := i + 1;
    }
    r := FlushLast(lpm, keys, v, ss, start, i, current, ids);
  }

  lemma NothingYet(t: Tree<Ids>, keys: seq<StoreKey>, v: Version)
    requires FamilyKeys(keys, v) && t == Node(1, [], None, Empty, Empty)
    ensures var start := Seek(keys, [VersionByte(v)]); true == Scanned(t, 1, keys, v, start, start, [], [])
  {
    NothingBefore(keys, v);
    NoFamilyIds(keys, v, 0, Seek(keys, [VersionByte(v)]));
    assert Contents(t) == map[];
  }

  /** The end of the scan: the last run is flushed too. */
  method FlushLast(lpm: Builder<Ids>, keys: seq<StoreKey>, v: Version, ghost ss: seq<Source>, start: nat, i: nat,
                   current: StoreKey, ids: Ids)
    returns (r: TrieBuilder.Result<()>)
    requires true == IsIndex(keys, ss) && true == FamilyKeys(keys, v) && start == Seek(keys, [VersionByte(v)]) <= i <= |keys|
    requires i < |keys| ==> keys[i][0] != VersionByte(v)
    requires true == lpm.Valid() && lpm.version == v && lpm.merge == RouteLPM.Refuse
    requires true == Scanned(lpm.tree, |lpm.nodes|, keys, v, start, i, current, ids)
    modifies lpm
    ensures r.Err? ==> r.error == TooManyNodes && 2 * (i - start) + 1 > MAX_UINT32
    ensures r.Ok? ==> true == lpm.Valid() && true == GroupsStored(lpm.Stored(), keys, v, |keys|, [])
    ensures r.Ok? ==> Counted(lpm.tree, keys, v, |keys|, 0)
  {
    r := Ok(());
    if i > start {
      if i < |keys| {
        FamiliesPart(keys, v, i);
      }
      r := Flush(lpm, v, current, ids, keys, ss, i, []);
      if r.Err? {
        return;
      }
    }
    ScanComplete(lpm.Stored(), keys, v, start, i);
    FamilyOver(keys, v, i);
    NoFamilyIds(keys, v, i, |keys|);
  }

  lemma NothingBefore(keys: seq<StoreKey>, v: Version)
    requires FamilyKeys(keys, v)
    ensures forall j :: 0 <= j < Seek(keys, [VersionByte(v)]) ==> !OfFamily(keys, v, j)
  {
    forall j | 0 <= j < Seek(keys, [VersionByte(v)])
      ensures !OfFamily(keys, v, j)
    {
      SeekFamily(keys, v, j);
    }
  }

  lemma FamiliesPart(keys: seq<StoreKey>, v: Version, i: nat)
    requires AllKeys(keys) && 0 < i < |keys| && OfFamily(keys, v, i - 1) && keys[i][0] != VersionByte(v)
    ensures keys[i][..PREFIX_KEY_SIZE] != keys[i - 1][..PREFIX_KEY_SIZE]
  {
    assert keys[i][..PREFIX_KEY_SIZE][0] == keys[i][0];
    assert keys[i - 1][..PREFIX_KEY_SIZE][0] == keys[i - 1][0];
  }

  lemma FirstOpens(keys: seq<StoreKey>, v: Version, i: nat)
    requires FamilyKeys(keys, v) && i < |keys| && OfFamily(keys, v, i) && i == Seek(keys, [VersionByte(v)])
    ensures i > 0 ==> keys[i - 1][..PREFIX_KEY_SIZE] != keys[i][..PREFIX_KEY_SIZE]
  {
    if i > 0 {
      SeekFamily(keys, v, i - 1);
      assert keys[i][..PREFIX_KEY_SIZE][0] == keys[i][0];
      assert keys[i - 1][..PREFIX_KEY_SIZE][0] == keys[i - 1][0];
    }
  }

  lemma FamilyOver(keys: seq<StoreKey>, v: Version, n: nat)
    requires FamilyKeys(keys, v) && Seek(keys, [VersionByte(v)]) <= n <= |keys| && (n < |keys| ==> keys[n][0] != VersionByte(v))
    ensures forall i :: n <= i < |keys| ==> !OfFamily(keys, v, i)
  {
    forall i | n <= i < |keys|
      ensures !OfFamily(keys, v, i)
    {
      SeekFamily(keys, v, n);
      FirstByteAscends(keys, n, i);
    }
  }

  lemma ScanComplete(stored: map<Bits, Ids>, keys: seq<StoreKey>, v: Version, start: nat, n: nat)
    requires FamilyKeys(keys, v) && start == Seek(keys, [VersionByte(v)]) <= n <= |keys|
    requires n < |keys| ==> keys[n][0] != VersionByte(v)
    requires true == GroupsStored(stored, keys, v, n, [])
    ensures true == GroupsStored(stored, keys, v, |keys|, [])
  {
    FamilyOver(keys, v, n);
    StoredUpTo(stored, keys, v, n, |keys|, []);
  }

  lemma RunStarts(keys: seq<StoreKey>, i: nat)
    requires AllKeys(keys) && i < |keys|
    requires i > 0 ==> keys[i - 1][..PREFIX_KEY_SIZE] != keys[i][..PREFIX_KEY_SIZE]
    ensures GroupUpTo(keys, keys[i][..PREFIX_KEY_SIZE], i) == []
  {
    var base := keys[i][..PREFIX_KEY_SIZE];
    forall j | 0 <= j < i
      ensures keys[j][..PREFIX_KEY_SIZE] != base
    {
      if j < i - 1 && keys[j][..PREFIX_KEY_SIZE] == base {
        Contiguous(keys, j, i - 1, i);
      }
    }
    GroupEmpty(keys, base, 0, i);
  }

  // ---------- the groups end to end ----------

  ghost predicate StartsRun(keys: seq<StoreKey>, v: Version, i: nat)
    requires AllKeys(keys) && i < |keys|
  {
    OfFamily(keys, v, i) && (i == 0 || keys[i - 1][..PREFIX_KEY_SIZE] != keys[i][..PREFIX_KEY_SIZE])
  }

  /** For each run started before n, in order, the IDs of its prefix among the first m keys. */
  ghost function RunsLaid(keys: seq<StoreKey>, v: Version, n: nat, m: nat): Ids
    requires AllKeys(keys) && n <= |keys| && m <= |keys|
  {
    if n == 0 then [] else
      RunsLaid(keys, v, n - 1, m) + if StartsRun(keys, v, n - 1) then GroupUpTo(keys, keys[n - 1][..PREFIX_KEY_SIZE], m) else []
  }

  /** For each run started before n, in order, the list stored under its prefix. */
  ghost function StoredLaid(stored: map<Bits, Ids>, keys: seq<StoreKey>, v: Version, n: nat): Ids
    requires FamilyKeys(keys, v) && n <= |keys|
  {
    if n == 0 then [] else
      StoredLaid(stored, keys, v, n - 1)
      + if StartsRun(keys, v, n - 1) && KeyBits(keys[n - 1], v) in stored then stored[KeyBits(keys[n - 1], v)] else []
  }

  lemma {:induction false} RunsUntouched(keys: seq<StoreKey>, v: Version, n: nat, m: nat)
    requires AllKeys(keys) && n <= m < |keys|
    requires forall i :: 0 <= i < n && StartsRun(keys, v, i) ==> keys[i][..PREFIX_KEY_SIZE] != keys[m][..PREFIX_KEY_SIZE]
    ensures RunsLaid(keys, v, n, m + 1) == RunsLaid(keys, v, n, m)
  {
    if n > 0 {
      RunsUntouched(keys, v, n - 1, m);
      assert StartsRun(keys, v, n - 1) ==> keys[n - 1][..PREFIX_KEY_SIZE] != keys[m][..PREFIX_KEY_SIZE];
    }
  }

  lemma FreshRun(keys: seq<StoreKey>, v: Version, n: nat, m: nat)
    requires AllKeys(keys) && n <= m < |keys| && (OfFamily(keys, v, m) ==> StartsRun(keys, v, n) && keys[n][..PREFIX_KEY_SIZE] == keys[m][..PREFIX_KEY_SIZE])
    ensures RunsLaid(keys, v, n, m + 1) == RunsLaid(keys, v, n, m)
  {
    forall i | 0 <= i < n && StartsRun(keys, v, i)
      ensures keys[i][..PREFIX_KEY_SIZE] != keys[m][..PREFIX_KEY_SIZE]
    {
      assert keys[i][..PREFIX_KEY_SIZE][0] == keys[i][0] && keys[m][..PREFIX_KEY_SIZE][0] == keys[m][0];
      if OfFamily(keys, v, m) && i < n - 1 && keys[i][..PREFIX_KEY_SIZE] == keys[m][..PREFIX_KEY_SIZE] {
        Contiguous(keys, i, n - 1, n);
      }
    }
    RunsUntouched(keys, v, n, m);
  }

  /** A key that continues a run adds its ID to that run alone. */
  lemma {:induction false} RunGrows(keys: seq<StoreKey>, v: Version, n: nat, m: nat)
    requires AllKeys(keys) && 0 < n <= m < |keys| && OfFamily(keys, v, m) && keys[n - 1][..PREFIX_KEY_SIZE] == keys[m][..PREFIX_KEY_SIZE]
    ensures RunsLaid(keys, v, n, m + 1) == RunsLaid(keys, v, n, m) + [IndexId(keys[m])]
  {
    assert keys[n - 1][..PREFIX_KEY_SIZE][0] == keys[n - 1][0] && keys[m][..PREFIX_KEY_SIZE][0] == keys[m][0];
    if StartsRun(keys, v, n - 1) {
      FreshRun(keys, v, n - 1, m);
    } else {
      RunGrows(keys, v, n - 1, m);
    }
  }

  lemma {:induction false} RunsAreScan(keys: seq<StoreKey>, v: Version, n: nat)
    requires AllKeys(keys) && n <= |keys|
    ensures RunsLaid(keys, v, n, n) == FamilyIds(keys, v, n)
  {
    if n > 0 {
      var m := n - 1;
      RunsAreScan(keys, v, m);
      if OfFamily(keys, v, m) && !StartsRun(keys, v, m) {
        RunGrows(keys, v, m, m);
      } else {
        FreshRun(keys, v, m, m);
        if StartsRun(keys, v, m) {
          RunStarts(keys, m);
        }
      }
    }
  }

  lemma {:induction false} StoredAreRuns(stored: map<Bits, Ids>, keys: seq<StoreKey>, v: Version, n: nat)
    requires FamilyKeys(keys, v) && n <= |keys| && true == GroupsStored(stored, keys, v, |keys|, [])
    ensures StoredLaid(stored, keys, v, n) == RunsLaid(keys, v, n, |keys|)
  {
    if n > 0 {
      StoredAreRuns(stored, keys, v, n - 1);
      if StartsRun(keys, v, n - 1) {
        assert keys[n - 1][..PREFIX_KEY_SIZE] != [];
        assert KeyStored(stored, keys, v, n - 1);
      }
    }
  }

  lemma {:induction false} RunOf(keys: seq<StoreKey>, v: Version, i: nat) returns (start: nat)
    requires AllKeys(keys) && i < |keys| && OfFamily(keys, v, i)
    ensures start <= i && StartsRun(keys, v, start) && keys[start][..PREFIX_KEY_SIZE] == keys[i][..PREFIX_KEY_SIZE]
  {
    start := i;
    if !StartsRun(keys, v, i) {
      assert keys[i - 1][..PREFIX_KEY_SIZE][0] == keys[i - 1][0] && keys[i][..PREFIX_KEY_SIZE][0] == keys[i][0];
      start := RunOf(keys, v, i - 1);
    }
  }

  /** The run that prefix k was stored from. */
  ghost predicate IsRunOf(keys: seq<StoreKey>, v: Version, k: Bits, i: nat)
    requires FamilyKeys(keys, v)
  {
    i < |keys| && StartsRun(keys, v, i) && KeyBits(keys[i], v) == k
  }

  /** Each stored prefix comes from exactly one run, and in the order of the runs the stored
      groups laid end to end are the scan: no ID is lost, repeated or moved. */
  lemma GroupsAreScan(stored: map<Bits, Ids>, keys: seq<StoreKey>, ss: seq<Source>, v: Version)
    requires IsIndex(keys, ss) && FamilyKeys(keys, v) && true == GroupsStored(stored, keys, v, |keys|, [])
    ensures forall k :: k in stored <==> exists i: nat :: IsRunOf(keys, v, k, i)
    ensures forall k, i: nat, j: nat :: IsRunOf(keys, v, k, i) && IsRunOf(keys, v, k, j) ==> i == j
    ensures StoredLaid(stored, keys, v, |keys|) == FamilyIds(keys, v, |keys|)
  {
    forall k
      ensures k in stored <==> exists i: nat :: IsRunOf(keys, v, k, i)
    {
      StoredIsRun(stored, keys, ss, v, k);
    }
    forall k, i: nat, j: nat | IsRunOf(keys, v, k, i) && IsRunOf(keys, v, k, j)
      ensures i == j
    {
      OneRun(keys, ss, v, i, j);
      OneRun(keys, ss, v, j, i);
    }
    StoredAreRuns(stored, keys, v, |keys|);
    RunsAreScan(keys, v, |keys|);
  }

  lemma StoredIsRun(stored: map<Bits, Ids>, keys: seq<StoreKey>, ss: seq<Source>, v: Version, k: Bits)
    requires IsIndex(keys, ss) && FamilyKeys(keys, v) && true == GroupsStored(stored, keys, v, |keys|, [])
    ensures k in stored <==> exists i: nat :: IsRunOf(keys, v, k, i)
  {
    if k in stored {
      assert StoredFrom(keys, v, |keys|, [], k);
      var j :| 0 <= j < |keys| && OfFamily(keys, v, j) && keys[j][..PREFIX_KEY_SIZE] != [] && KeyBits(keys[j], v) == k;
      var i := RunOf(keys, v, j);
      BitsTellPrefixes(keys, ss, v, i, j);
      assert IsRunOf(keys, v, k, i);
    }
    forall i: nat | IsRunOf(keys, v, k, i)
      ensures k in stored
    {
      assert keys[i][..PREFIX_KEY_SIZE] != [];
      assert KeyStored(stored, keys, v, i);
    }
  }

  lemma OneRun(keys: seq<StoreKey>, ss: seq<Source>, v: Version, i: nat, j: nat)
    requires IsIndex(keys, ss) && FamilyKeys(keys, v) && i < |keys| && j < |keys| && StartsRun(keys, v, i) && StartsRun(keys, v, j)
    requires KeyBits(keys[i], v) == KeyBits(keys[j], v)
    ensures j <= i
  {
    BitsTellPrefixes(keys, ss, v, i, j);
    if i < j - 1 {
      Contiguous(keys, i, j - 1, j);
    }
  }

  // ---------- what the selector answers ----------

  /** The stored prefix of a record's block around x. */
  lemma HitIsStored(stored: map<Bits, Ids>, keys: seq<StoreKey>, ss: seq<Source>, v: Version, a: Address, id: nat)
    requires IsIndex(keys, ss) && FamilyKeys(keys, v)
    requires true == GroupsStored(stored, keys, v, |keys|, []) && IsHit(ss, v, Num(a, v), id)
    ensures var x := Num(a, v); var b := BlockAt(x, ExpAt(ss[id - 1], x));
      && KeyOf(b, v) in stored && KeyOf(b, v) <= Key(a, v, Width(v))
      && stored[KeyOf(b, v)] == Group(keys, PrefixKey(v, b))
  {
    var x := Num(a, v);
    var b := BlockAt(x, ExpAt(ss[id - 1], x));
    NumIsKeyValue(a, v);
    BlockHits(ss, v, x, b.exp, id);
    BlockAtFits(v, x, b.exp);
    BlockAtHas(x, b.exp);
    var i := EntryIsKey(keys, ss, v, b, id);
    BlockKeyFields(keys[i], v, b);
    assert OfFamily(keys, v, i) && keys[i][..PREFIX_KEY_SIZE] != [];
    assert KeyStored(stored, keys, v, i);
    BlockHasKey(b, v, a);
  }

  /** A stored prefix of the address is some record's block around it. */
  lemma StoredIsBlock(stored: map<Bits, Ids>, keys: seq<StoreKey>, ss: seq<Source>, v: Version, a: Address, k: Bits)
    returns (e: nat)
    requires IsIndex(keys, ss) && FamilyKeys(keys, v)
    requires true == GroupsStored(stored, keys, v, |keys|, []) && k in stored && k <= Key(a, v, Width(v))
    ensures e <= Width(v) && k == KeyOf(BlockAt(Num(a, v), e), v)
    ensures stored[k] == Group(keys, PrefixKey(v, BlockAt(Num(a, v), e))) && stored[k] != []
  {
    assert StoredFrom(keys, v, |keys|, [], k);
    var i :| 0 <= i < |keys| && OfFamily(keys, v, i) && keys[i][..PREFIX_KEY_SIZE] != [] && KeyBits(keys[i], v) == k;
    var w, b, id := IndexedKey(keys, ss, i);
    BlockKeyFields(keys[i], w, b);
    assert KeyStored(stored, keys, v, i);
    BlockHasKey(b, v, a);
    OnlyBlockAt(b, Num(a, v));
    GroupIn(keys, PrefixKey(v, b), |keys|, id);
    e := b.exp;
  }

  /** The longest stored prefix is at least as long as any record's component. */
  lemma LongestIsShortestBlock(stored: map<Bits, Ids>, keys: seq<StoreKey>, ss: seq<Source>, v: Version, a: Address, e: nat, id: nat)
    requires IsIndex(keys, ss) && FamilyKeys(keys, v) && e <= Width(v)
    requires true == GroupsStored(stored, keys, v, |keys|, [])
    requires IsLongestKey(stored, Key(a, v, Width(v)), KeyOf(BlockAt(Num(a, v), e), v))
    requires IsHit(ss, v, Num(a, v), id)
    ensures e <= ExpAt(ss[id - 1], Num(a, v))
  {
    HitIsStored(stored, keys, ss, v, a, id);
  }

  /** The longest stored match of an address names the records whose prefix is longest. */
  lemma LongestMatchIsExact(stored: map<Bits, Ids>, keys: seq<StoreKey>, ss: seq<Source>, v: Version, a: Address, r: Option<Ids>)
    requires IsIndex(keys, ss) && FamilyKeys(keys, v)
    requires true == GroupsStored(stored, keys, v, |keys|, []) && IsLongestMatch(stored, Key(a, v, Width(v)), r)
    ensures true == IsLongestHits(if r.None? then [] else r.value, ss, v, Num(a, v))
  {
    var x, q := Num(a, v), Key(a, v, Width(v));
    NumIsKeyValue(a, v);
    if r.None? {
      forall id
        ensures !IsHit(ss, v, x, id)
      {
        if IsHit(ss, v, x, id) {
          HitIsStored(stored, keys, ss, v, a, id);
        }
      }
    } else {
      var k :| IsLongestKey(stored, q, k) && stored[k] == r.value;
      var e := StoredIsBlock(stored, keys, ss, v, a, k);
      LongestGroup(stored, keys, ss, v, a, e);
    }
  }

  lemma GroupIsLeastSize(keys: seq<StoreKey>, ss: seq<Source>, v: Version, x: nat, e: nat, id: nat)
    requires IsIndex(keys, ss) && AllKeys(keys) && x < Pow2(Width(v)) && e <= Width(v)
    requires Group(keys, PrefixKey(v, BlockAt(x, e))) != []
    requires forall other :: IsHit(ss, v, x, other) ==> e <= ExpAt(ss[other - 1], x)
    ensures id in Group(keys, PrefixKey(v, BlockAt(x, e))) <==> IsLongestHit(ss, v, x, id)
  {
    var first := Group(keys, PrefixKey(v, BlockAt(x, e)))[0];
    GroupOfSize(keys, ss, v, x, e, first);
    GroupOfSize(keys, ss, v, x, e, id);
    LongestHitBySize(ss, v, x, e, first, id);
  }

  lemma LongestGroup(stored: map<Bits, Ids>, keys: seq<StoreKey>, ss: seq<Source>, v: Version, a: Address, e: nat)
    requires IsIndex(keys, ss) && FamilyKeys(keys, v) && e <= Width(v)
    requires true == GroupsStored(stored, keys, v, |keys|, [])
    requires IsLongestKey(stored, Key(a, v, Width(v)), KeyOf(BlockAt(Num(a, v), e), v))
    requires Group(keys, PrefixKey(v, BlockAt(Num(a, v), e))) != []
    ensures true == IsLongestHits(Group(keys, PrefixKey(v, BlockAt(Num(a, v), e))), ss, v, Num(a, v))
  {
    var x := Num(a, v);
    NumIsKeyValue(a, v);
    forall other | IsHit(ss, v, x, other)
      ensures e <= ExpAt(ss[other - 1], x)
    {
      LongestIsShortestBlock(stored, keys, ss, v, a, e, other);
    }
    SmallestGroup(keys, ss, v, x, e);
  }

  lemma SmallestGroup(keys: seq<StoreKey>, ss: seq<Source>, v: Version, x: nat, e: nat)
    requires IsIndex(keys, ss) && AllKeys(keys) && x < Pow2(Width(v)) && e <= Width(v)
    requires Group(keys, PrefixKey(v, BlockAt(x, e))) != []
    requires forall other :: IsHit(ss, v, x, other) ==> e <= ExpAt(ss[other - 1], x)
    ensures true == IsLongestHits(Group(keys, PrefixKey(v, BlockAt(x, e))), ss, v, x)
  {
    GroupAscends(keys, PrefixKey(v, BlockAt(x, e)), |keys|);
    forall id
      ensures id in Group(keys, PrefixKey(v, BlockAt(x, e))) <==> IsLongestHit(ss, v, x, id)
    {
      GroupIsLeastSize(keys, ss, v, x, e, id);
    }
  }

  // ---------- the whole path ----------

  /** The bytes hold a trie with one entry per route prefix. */
  ghost predicate IsSelector(value: seq<Byte>, keys: seq<StoreKey>, v: Version, nodes: seq<RouteLPM.Node>, t: Tree<Ids>)
    requires FamilyKeys(keys, v)
  {
    && RouteLPM.IsEncoding(value, nodes, v) && ValidTree(nodes, v, t) && RouteLPM.NoEmptyLists(t)
    && GroupsStored(Contents(t), keys, v, |keys|, [])
  }

  /** The bytes are such a selector. */
  ghost predicate IsWritten(value: seq<Byte>, keys: seq<StoreKey>, v: Version)
    requires FamilyKeys(keys, v)
  {
    exists nodes, t :: IsSelector(value, keys, v, nodes, t)
  }

  lemma {:induction false} TreeIds(nodes: seq<RouteLPM.Node>, v: Version, t: Tree<Ids>, r: nat)
    requires Holds(nodes, v, t) && IsPatricia(t) && r in Refs(t)
    ensures 1 <= r <= |nodes|
    ensures nodes[r - 1].payload.Some? ==> exists k :: k in Contents(t) && Contents(t)[k] == nodes[r - 1].payload.value
  {
    FindIsContents(t, t.key);
    if r != t.ref {
      var b := if r in Refs(t.zero) then 0 else 1;
      TreeIds(nodes, v, Child(t, b), r);
      if nodes[r - 1].payload.Some? {
        var k :| k in Contents(Child(t, b)) && Contents(Child(t, b))[k] == nodes[r - 1].payload.value;
        FindIsContents(Child(t, b), k);
        FindExtends(Child(t, b), t.key + [b], k);
        StemNext(t.key, b, k);
        FindIsContents(t, k);
      }
    }
  }

  lemma {:induction false} IdsFromNodes(nodes: seq<RouteLPM.Node>, n: nat, id: Word) returns (i: nat)
    requires n <= |nodes| && id in RouteLPM.IdsUpTo(nodes, n)
    ensures i < n && id in RouteLPM.IdsOf(nodes[i])
  {
    if id in RouteLPM.IdsOf(nodes[n - 1]) {
      i := n - 1;
    } else {
      i := IdsFromNodes(nodes, n - 1, id);
    }
  }

  /** Stored IDs are those of records, so none is zero. */
  lemma NoZeroId(stored: map<Bits, Ids>, keys: seq<StoreKey>, ss: seq<Source>, v: Version, k: Bits)
    requires IsIndex(keys, ss) && FamilyKeys(keys, v)
    requires true == GroupsStored(stored, keys, v, |keys|, []) && k in stored
    ensures 0 !in stored[k] && stored[k] != []
  {
    assert StoredFrom(keys, v, |keys|, [], k);
    var i :| 0 <= i < |keys| && OfFamily(keys, v, i) && keys[i][..PREFIX_KEY_SIZE] != [] && KeyBits(keys[i], v) == k;
    var w, b, id := IndexedKey(keys, ss, i);
    BlockKeyFields(keys[i], w, b);
    assert KeyStored(stored, keys, v, i);
    GroupIn(keys, PrefixKey(v, b), |keys|, id);
    GroupIsExact(keys, ss, v, b, 0);
  }

  lemma {:induction false} NoEmptyNodes(t: Tree<Ids>)
    requires IsPatricia(t) && forall k :: k in Contents(t) ==> Contents(t)[k] != []
    ensures RouteLPM.NoEmptyLists(t)
  {
    if t.Node? {
      FindIsContents(t, t.key);
      forall b: Bit, k | k in Contents(Child(t, b))
        ensures Contents(Child(t, b))[k] != []
      {
        FindIsContents(Child(t, b), k);
        FindExtends(Child(t, b), t.key + [b], k);
        StemNext(t.key, b, k);
        FindIsContents(t, k);
      }
      assert Child(t, 0) == t.zero && Child(t, 1) == t.one;
      NoEmptyNodes(t.zero);
      NoEmptyNodes(t.one);
    }
  }

  /** No list in the trie is empty or holds a zero, so the encoder refuses nothing but size. */
  lemma StoredEncodes(nodes: seq<RouteLPM.Node>, keys: seq<StoreKey>, ss: seq<Source>, v: Version, t: Tree<Ids>)
    requires IsIndex(keys, ss) && FamilyKeys(keys, v) && ValidTree(nodes, v, t)
    requires true == GroupsStored(Contents(t), keys, v, |keys|, [])
    ensures 0 !in RouteLPM.AllIds(nodes) && true == RouteLPM.NoEmptyLists(t)
  {
    forall k | k in Contents(t)
      ensures 0 !in Contents(t)[k] && Contents(t)[k] != []
    {
      NoZeroId(Contents(t), keys, ss, v, k);
    }
    NoEmptyNodes(t);
    if 0 in RouteLPM.AllIds(nodes) {
      var i := IdsFromNodes(nodes, |nodes|, 0);
      TreeIds(nodes, v, t, i + 1);
    }
  }

  datatype Written = Selector(value: seq<Byte>) | FullTable | TooManyIds

  /** One family's selector: one pass over the index, then the flattened trie. Only an index of
      more keys than there are node numbers or word-sized counts prevents it. */
  method WriteRouteLPM(keys: seq<StoreKey>, v: Version, ghost ss: seq<Source>) returns (r: Written)
    requires IsIndex(keys, ss) && FamilyKeys(keys, v)
    ensures r.FullTable? ==> 2 * |keys| + 1 > MAX_UINT32
    ensures r.TooManyIds? ==> |keys| > MAX_UINT32
    ensures r.Selector? ==> IsWritten(r.value, keys, v)
  {
    var lpm, collected := CollectGroups(keys, v, ss);
    if collected.Err? {
      return FullTable;
    }
    StoredEncodes(lpm.nodes, keys, ss, v, lpm.tree);
    RouteLPM.IdsOfTree(lpm.nodes, v, lpm.tree);
    var encoded := RouteLPM.Encode(lpm);
    match encoded
    case TooManyIds => r := TooManyIds;
    case ZeroId => assert false;
    case Encoded(value) =>
      assert true == IsSelector(value, keys, v, lpm.nodes, lpm.tree);
      r := Selector(value);
  }

  /** A lookup in a written selector finds the records whose route is longest around the address,
      unmapped, by ascending ID. */
  method LookupRoutes(value: seq<Byte>, a: Address, v: Version, ghost keys: seq<StoreKey>, ghost ss: seq<Source>)
    returns (ids: Ids)
    requires IsIndex(keys, ss) && FamilyKeys(keys, v) && IsWritten(value, keys, v)
    ensures true == IsLongestHits(ids, ss, v, Num(Unmapped(a, v), v))
  {
    ghost var q := Unmapped(a, v);
    ghost var nodes, t :| IsSelector(value, keys, v, nodes, t);
    RouteLPM.HeaderOfEncoding(value, nodes, v);
    var found := RouteLPM.Lookup(value, a, v, nodes, t);
    ids := found.ids;
    DeepestIsLongestMatch(t, Key(q, v, Width(v)));
    LongestMatchIsExact(Contents(t), keys, ss, v, q, Deepest(t, Key(q, v, Width(v)), None));
  }
}
