/** Building the indexes: every record puts one key per CIDR piece into the prefix index and one
    key into the range index. */
module IndexWriter {
  import opened Bytes
  import opened Words
  import opened Addresses
  import opened Cover
  import opened Sources
  import opened Mapped
  import opened PointIndex
  import opened RangePages

  /** A bucket's Put of a key: the keys stay in bytewise order, a key that is there stays once. */
  function PutKey(keys: seq<StoreKey>, key: StoreKey): (r: seq<StoreKey>)
    requires Sorted(keys)
    ensures Sorted(r) && forall k :: k in r <==> k == key || k in keys
  {
    if key in keys then keys else InsertKey(keys, key)
  }

  // ---------- the prefix index ----------

  /** The key belongs to one of the first n records. */
  ghost predicate IsEntryOf(ss: seq<Source>, key: StoreKey, n: nat)
    requires ValidSources(ss)
  {
    exists v, b, id: nat :: id <= n && HasEntry(ss, v, b, id) && EntryKey(ss, v, b, id) == key
  }

  ghost predicate Indexed(keys: seq<StoreKey>, ss: seq<Source>, n: nat)
    requires ValidSources(ss)
  {
    Sorted(keys) && forall key :: key in keys <==> IsEntryOf(ss, key, n)
  }

  /** The keys of one record's blocks, up to the j-th. */
  ghost predicate IsBlockKeyOf(s: Source, id: Word, j: nat, key: StoreKey)
    requires ValidSource(s) && j <= |s.blocks|
  {
    exists i :: 0 <= i < j && key == IndexKey(s.version, s.blocks[i], id)
  }

  lemma EntryStays(ss: seq<Source>, key: StoreKey, n: nat)
    requires ValidSources(ss) && IsEntryOf(ss, key, n)
    ensures IsEntryOf(ss, key, n + 1)
  {
    var v, b, id: nat :| id <= n && HasEntry(ss, v, b, id) && EntryKey(ss, v, b, id) == key;
  }

  lemma BlockIsEntry(ss: seq<Source>, key: StoreKey, n: nat)
    requires ValidSources(ss) && n < |ss| && IsBlockKeyOf(ss[n], n + 1, |ss[n].blocks|, key)
    ensures IsEntryOf(ss, key, n + 1)
  {
    assert ValidSource(ss[n]);
    var i :| 0 <= i < |ss[n].blocks| && key == IndexKey(ss[n].version, ss[n].blocks[i], n + 1);
    assert HasEntry(ss, ss[n].version, ss[n].blocks[i], n + 1);
    assert EntryKey(ss, ss[n].version, ss[n].blocks[i], n + 1) == key;
  }

  lemma EntryIsNewOrOld(ss: seq<Source>, key: StoreKey, n: nat)
    requires ValidSources(ss) && n < |ss| && IsEntryOf(ss, key, n + 1)
    ensures IsEntryOf(ss, key, n) || IsBlockKeyOf(ss[n], n + 1, |ss[n].blocks|, key)
  {
    var v, b, id: nat :| id <= n + 1 && HasEntry(ss, v, b, id) && EntryKey(ss, v, b, id) == key;
    if id == n + 1 {
      var i :| 0 <= i < |ss[n].blocks| && ss[n].blocks[i] == b;
    }
  }

  lemma IndexedNext(before: seq<StoreKey>, after: seq<StoreKey>, ss: seq<Source>, n: nat)
    requires ValidSources(ss) && n < |ss| && Indexed(before, ss, n) && Sorted(after)
    requires forall key :: key in after <==> key in before || IsBlockKeyOf(ss[n], n + 1, |ss[n].blocks|, key)
    ensures true == Indexed(after, ss, n + 1)
  {
    forall key
      ensures key in after <==> IsEntryOf(ss, key, n + 1)
    {
      if IsEntryOf(ss, key, n) {
        EntryStays(ss, key, n);
      }
      if IsBlockKeyOf(ss[n], n + 1, |ss[n].blocks|, key) {
        BlockIsEntry(ss, key, n);
      }
      if IsEntryOf(ss, key, n + 1) {
        EntryIsNewOrOld(ss, key, n);
      }
    }
  }

  lemma IndexedIsStored(keys: seq<StoreKey>, ss: seq<Source>)
    requires ValidSources(ss) && Indexed(keys, ss, |ss|)
    ensures IsStored(keys, ss)
  {
    forall i: nat | i < |keys|
      ensures IsEntryKey(ss, keys[i])
    {
      assert keys[i] in keys;
      assert IsEntryOf(ss, keys[i], |ss|);
      var v, b, id: nat :| id <= |ss| && HasEntry(ss, v, b, id) && EntryKey(ss, v, b, id) == keys[i];
    }
    forall v, b, id: nat | HasEntry(ss, v, b, id)
      ensures EntryKey(ss, v, b, id) in keys
    {
      assert IsEntryOf(ss, EntryKey(ss, v, b, id), |ss|);
    }
  }

  /** The index key of one piece. */
  function PieceKey(v: Version, piece: Piece, id: Word): StoreKey
    requires 0 <= piece.length <= Width(v)
  {
    StoredKey(v, Block(piece.base, Width(v) - piece.length)) + PutWord(id)
  }

  method PutPieces(before: seq<StoreKey>, prefixes: seq<Piece>, id: Word, v: Version, ghost s: Source) returns (keys: seq<StoreKey>)
    requires Sorted(before) && ValidSource(s) && s.version == v && |prefixes| == |s.blocks|
    requires forall j :: 0 <= j < |prefixes| ==> prefixes[j] == PieceOf(s.blocks[j], Width(v))
    ensures Sorted(keys) && forall key :: key in keys <==> key in before || IsBlockKeyOf(s, id, |s.blocks|, key)
  {
    keys := before;
    for j := 0 to |prefixes|
      invariant Sorted(keys) && forall key :: key in keys <==> key in before || IsBlockKeyOf(s, id, j, key)
    {
      ghost var was := keys;
      var key := PieceKey(v, prefixes[j], id);
      keys := PutKey(keys, key);
      forall k
        ensures IsBlockKeyOf(s, id, j + 1, k) <==> k == key || IsBlockKeyOf(s, id, j, k)
      {
        assert key == IndexKey(v, s.blocks[j], id);
        if IsBlockKeyOf(s, id, j, k) {
          var i :| 0 <= i < j && k == IndexKey(v, s.blocks[i], id);
          assert 0 <= i < j + 1;
        }
      }
    }
  }

  method PutRecord(before: seq<StoreKey>, rs: seq<Bounds>, i: nat, ghost s: Source) returns (keys: seq<StoreKey>)
    requires AllBounds(rs) && i < |rs| && s == SourcesOf(rs)[i] && ValidSource(s) && Sorted(before)
    ensures Sorted(keys) && forall key :: key in keys <==> key in before || IsBlockKeyOf(s, i + 1, |s.blocks|, key)
  {
    var record := rs[i];
    NumIsKeyValue(record.end, record.version);
    var prefixes := RangePrefixes(Num(record.start, record.version), Num(record.end, record.version), Width(record.version));
    PiecesOfRecord(rs, i);
    keys := PutPieces(before, prefixes, i + 1, record.version, s);
  }

  /** The prefix index of all allocations or geofeeds. */
  method IndexRanges(rs: seq<Bounds>) returns (keys: seq<StoreKey>)
    requires AllBounds(rs)
    ensures IsStored(keys, SourcesOf(rs))
    ensures AllClear(rs) ==> IsIndex(keys, SourcesOf(rs))
  {
    ghost var ss := SourcesOf(rs);
    keys := [];
    for i := 0 to |rs|
      invariant true == Indexed(keys, ss, i)
    {
      ghost var before := keys;
      keys := PutRecord(keys, rs, i, ss[i]);
      IndexedNext(before, keys, ss, i);
    }
    IndexedIsStored(keys, ss);
    if AllClear(rs) {
      ClearSources(rs);
    }
  }

  // ---------- the range index ----------

  ghost predicate IsRecordKeyOf(rs: seq<Bounds>, key: StoreKey, n: nat) {
    exists id: Word :: 1 <= id <= n && id <= |rs| && key == KeyOfRecord(rs, id)
  }

  /** The range index of all records. */
  method IndexBounds(rs: seq<Bounds>) returns (keys: seq<StoreKey>)
    requires AllBounds(rs)
    ensures IsRangeIndex(keys, rs)
  {
    keys := [];
    for i := 0 to |rs|
      invariant Sorted(keys) && forall key :: key in keys <==> IsRecordKeyOf(rs, key, i)
    {
      var id: Word := i + 1;
      keys := PutKey(keys, RangeKey(rs[i].version, rs[i].start, rs[i].end, id));
      forall key
        ensures IsRecordKeyOf(rs, key, i + 1) <==> key == KeyOfRecord(rs, id) || IsRecordKeyOf(rs, key, i)
      {
      }
    }
    forall i: nat | i < |keys|
      ensures IsRangeKey(rs, keys[i]) && |keys[i]| == RANGE_KEY_SIZE
    {
      assert keys[i] in keys;
      assert IsRecordKeyOf(rs, keys[i], |rs|);
      var id: Word :| 1 <= id <= |rs| && keys[i] == KeyOfRecord(rs, id);
    }
    forall id: Word | 1 <= id <= |rs|
      ensures KeyOfRecord(rs, id) in keys
    {
      assert IsRecordKeyOf(rs, KeyOfRecord(rs, id), |rs|);
    }
  }

  // ---------- routes ----------

  function RouteBlock(p: Cidr): Block
    requires ValidCidr(p)
  {
    BlockAt(Num(p.address, p.version), Width(p.version) - p.length)
  }

  /** A stored route: its network, which an import has unmapped, and its length. */
  ghost predicate ValidRoute(p: Cidr) {
    ValidCidr(p) && Canonical(p.address, p.version) && !IsMapped(p.version, RouteBlock(p).base)
  }

  ghost predicate AllRoutes(ps: seq<Cidr>) {
    |ps| <= MAX_UINT32 && forall i :: 0 <= i < |ps| ==> ValidRoute(ps[i])
  }

  /** What is stored of a parsed prefix: its network, masked and then unmapped. Any prefix makes a
      valid route. */
  method ImportRoute(p: Cidr) returns (route: Cidr)
    requires ValidCidr(p) && Canonical(p.address, p.version)
    ensures ValidRoute(route) && route.version == p.version && route.length == p.length
    ensures RouteBlock(route) == UnmapBlock(p.version, RouteBlock(p)) && Num(route.address, p.version) == RouteBlock(route).base
  {
    var v, b := p.version, RouteBlock(p);
    var masked := Masked(p.address, v, p.length);
    MaskedIsBlock(p.address, v, p.length, masked);
    BlockAtHas(Num(p.address, v), b.exp);
    NumOfAddress(b.base, v);
    UnmappedNum(masked, v);
    UnmapAligned(v, b);
    OnlyBlockAt(UnmapBlock(v, b), Unmap(v, b.base));
    route := Cidr(v, Unmapped(masked, v), p.length);
  }

  lemma RouteBlockFits(p: Cidr)
    requires ValidCidr(p)
    ensures ValidSource(RouteSource(p.version, RouteBlock(p)))
  {
    var b, top := RouteBlock(p), Pow2(Width(p.version));
    NumIsKeyValue(p.address, p.version);
    BlockAtHas(Num(p.address, p.version), b.exp);
    PowerMultiple(b.exp, Width(p.version));
    MultipleGap(b.base, top, Pow2(b.exp));
    RouteSourceValid(p.version, b);
  }

  ghost function RouteSources(ps: seq<Cidr>): (ss: seq<Source>)
    requires AllRoutes(ps)
    ensures |ss| == |ps| && forall i :: 0 <= i < |ss| ==> ss[i] == RouteSource(ps[i].version, RouteBlock(ps[i]))
    ensures ValidSources(ss) && AllPlain(ss)
  {
    forall i | 0 <= i < |ps|
      ensures ValidSource(RouteSource(ps[i].version, RouteBlock(ps[i]))) && PlainSource(RouteSource(ps[i].version, RouteBlock(ps[i])))
    {
      RouteBlockFits(ps[i]);
    }
    seq(|ps|, i requires 0 <= i < |ps| && ValidRoute(ps[i]) => RouteSource(ps[i].version, RouteBlock(ps[i])))
  }

  /** The prefix index of all routes: each has one key. */
  method IndexRoutes(ps: seq<Cidr>) returns (keys: seq<StoreKey>)
    requires AllRoutes(ps)
    ensures IsIndex(keys, RouteSources(ps))
  {
    ghost var ss := RouteSources(ps);
    keys := [];
    for i := 0 to |ps|
      invariant true == Indexed(keys, ss, i)
    {
      ghost var before := keys;
      keys := PutRoute(keys, ps[i], i + 1, ss[i]);
      IndexedNext(before, keys, ss, i);
    }
    IndexedIsStored(keys, ss);
  }

  /** A key of the route index names a route, and the route has no other key. */
  lemma KeyOfRoute(keys: seq<StoreKey>, ps: seq<Cidr>, i: nat)
    requires AllRoutes(ps) && IsIndex(keys, RouteSources(ps)) && AllKeys(keys) && i < |keys|
    ensures var id := IndexId(keys[i]); 1 <= id <= |ps| && keys[i] == IndexKey(ps[id - 1].version, RouteBlock(ps[id - 1]), id)
  {
    var v, b, id := KeyIsEntry(keys, RouteSources(ps), i);
  }

  lemma KeysNameRoutes(keys: seq<StoreKey>, ps: seq<Cidr>, i: nat, j: nat)
    requires AllRoutes(ps) && IsIndex(keys, RouteSources(ps)) && AllKeys(keys) && i < j < |keys|
    ensures IndexId(keys[i]) != IndexId(keys[j])
  {
    KeyOfRoute(keys, ps, i);
    KeyOfRoute(keys, ps, j);
    assert Precedes(keys, i, j);
    LexIrreflexive(keys[j]);
  }

  /** So a route index never outgrows the ID space. */
  lemma RouteKeysAreFew(keys: seq<StoreKey>, ps: seq<Cidr>)
    requires AllRoutes(ps) && IsIndex(keys, RouteSources(ps))
    ensures |keys| <= |ps|
  {
    IndexKeysSized(keys, RouteSources(ps));
    forall i | 0 <= i < |keys|
      ensures 1 <= IndexId(keys[i]) <= |ps|
    {
      KeyOfRoute(keys, ps, i);
    }
    var js: seq<nat> := seq(|keys|, i requires 0 <= i < |keys| => IndexId(keys[i]) - 1);
    forall i, j | 0 <= i < j < |js|
      ensures js[i] != js[j]
    {
      KeysNameRoutes(keys, ps, i, j);
    }
    DistinctIndices(js, |ps|);
  }

  method PutRoute(before: seq<StoreKey>, p: Cidr, id: Word, ghost s: Source) returns (keys: seq<StoreKey>)
    requires Sorted(before) && ValidRoute(p) && s == RouteSource(p.version, RouteBlock(p)) && ValidSource(s)
    ensures Sorted(keys) && forall key :: key in keys <==> key in before || IsBlockKeyOf(s, id, |s.blocks|, key)
  {
    var base := PutPrefixKey(p.address, p.version, p.length);
    keys := PutKey(before, base + PutWord(id));
    assert base + PutWord(id) == IndexKey(s.version, RouteBlock(p), id);
    forall key
      ensures IsBlockKeyOf(s, id, |s.blocks|, key) <==> key == base + PutWord(id)
    {
      OneBlockKey(s, id, RouteBlock(p), key);
    }
  }

  lemma OneBlockKey(s: Source, id: Word, b: Block, key: StoreKey)
    requires ValidSource(s) && s.blocks == [b]
    ensures IsBlockKeyOf(s, id, |s.blocks|, key) <==> key == IndexKey(s.version, b, id)
  {
    assert s.blocks[0] == b;
  }

  // ---------- the range of a prefix ----------

  /** b | 1 << (7 - i). */
  function SetBit(b: Byte, i: nat): (r: int)
    requires i < 8
    ensures 0 <= r < 256
  {
    SetBitBits(b, i);
    if ByteBits(b)[i] == 1 then b else b + Pow2(7 - i)
  }

  lemma {:induction false} SetBitOf(n: nat, k: nat, i: nat)
    requires i < k && n < Pow2(k) && BitsOf(n, k)[i] == 0
    ensures n + Pow2(k - 1 - i) < Pow2(k) && BitsOf(n + Pow2(k - 1 - i), k) == BitsOf(n, k)[i := 1]
  {
    if i < k - 1 {
      SetBitOf(n / 2, k - 1, i);
      var q := Pow2(k - 2 - i);
      assert Pow2(k - 1 - i) == 2 * q && (n + 2 * q) / 2 == n / 2 + q && (n + 2 * q) % 2 == n % 2;
    }
  }

  lemma SetBitBits(b: Byte, i: nat)
    requires i < 8
    ensures ByteBits(b)[i] == 0 ==> b + Pow2(7 - i) < 256 && ByteBits(b + Pow2(7 - i)) == ByteBits(b)[i := 1]
  {
    assert Pow2(8) == 256;
    if ByteBits(b)[i] == 0 {
      SetBitOf(b, 8, i);
    }
  }

  lemma SetBitAt(b: Byte, i: nat, j: nat)
    requires i < 8 && j < 8
    ensures ByteBits(SetBit(b, i))[j] == if j == i then 1 else ByteBits(b)[j]
  {
    SetBitBits(b, i);
  }

  /** A stored route's network is not mapped, so unmapping leaves it. */
  method RouteStart(p: Cidr) returns (start: Address)
    requires ValidRoute(p)
    ensures Canonical(start, p.version) && Key(start, p.version, p.length) == Key(p.address, p.version, p.length)
    ensures forall i :: p.length <= i < Width(p.version) ==> BitAt(Tail(start, p.version), i) == 0
  {
    var v := p.version;
    var masked := Masked(p.address, v, p.length);
    MaskedIsBlock(p.address, v, p.length, masked);
    StoredAddress(masked, RouteBlock(p).base, v);
    start := Unmapped(masked, v);
  }

  /** The first and last address of a route: the masked network, and the same with every bit
      behind the prefix set. */
  method PrefixRange(p: Cidr) returns (start: Address, end: Address)
    requires ValidRoute(p)
    ensures Canonical(start, p.version) && Canonical(end, p.version)
    ensures Num(start, p.version) == RouteBlock(p).base && Num(end, p.version) == End(RouteBlock(p)) - 1
  {
    var v, w := p.version, Width(p.version);
    start := RouteStart(p);
    end := start;
    for bit := p.length to w
      invariant Canonical(end, v)
      invariant forall i :: 0 <= i < w ==> BitAt(Tail(end, v), i) == if p.length <= i < bit then 1 else BitAt(Tail(start, v), i)
    {
      ghost var before: Address := end;
      var index := Offset(v) + bit / 8;
      end := end[index := SetBit(end[index], bit % 8)];
      assert end[..Offset(v)] == before[..Offset(v)];
      forall i | 0 <= i < w
        ensures BitAt(Tail(end, v), i) == if i == bit then 1 else BitAt(Tail(before, v), i)
      {
        SetBitAt(before[index], bit % 8, i % 8);
      }
    }
    RangeOfPrefix(p, start, end);
  }

  lemma RangeOfPrefix(p: Cidr, start: Address, end: Address)
    requires ValidRoute(p) && Canonical(start, p.version) && Canonical(end, p.version)
    requires Key(start, p.version, p.length) == Key(p.address, p.version, p.length)
    requires forall i :: p.length <= i < Width(p.version) ==> BitAt(Tail(start, p.version), i) == 0
    requires forall i :: 0 <= i < Width(p.version) ==>
      BitAt(Tail(end, p.version), i) == if p.length <= i then 1 else BitAt(Tail(start, p.version), i)
    ensures Num(start, p.version) == RouteBlock(p).base && Num(end, p.version) == End(RouteBlock(p)) - 1
  {
    var v, w, n := p.version, Width(p.version), Width(p.version) - p.length;
    var k, ones: Bits := Key(start, v, p.length), seq(n, _ => 1);
    MaskedIsBlock(p.address, v, p.length, start);
    NumIsKeyValue(p.address, v);
    BlockAtFits(v, Num(p.address, v), n);
    NumOfAddress(RouteBlock(p).base, v);
    assert Key(start, v, w) == k + seq(n, _ => 0);
    assert Key(end, v, w) == k + ones;
    PaddedValue(k, n);
    ValueConcat(k, ones);
    OnesValue(n);
    NumIsKeyValue(start, v);
    NumIsKeyValue(end, v);
  }

  lemma {:induction false} OnesValue(n: nat)
    ensures Value(seq(n, _ => 1)) == Pow2(n) - 1
  {
    if n > 0 {
      var ones: Bits := seq(n, _ => 1);
      assert ones[..n - 1] == seq(n - 1, _ => 1);
      OnesValue(n - 1);
    }
  }

  /** The range index's records of all routes. They span what the prefix index has for them, so
      the same records stand behind both indexes. */
  method RouteRanges(ps: seq<Cidr>) returns (rs: seq<Bounds>)
    requires AllRoutes(ps)
    ensures AreRecords(rs, RouteSources(ps))
  {
    rs := [];
    for i := 0 to |ps|
      invariant |rs| == i && forall j :: 0 <= j < i ==> ValidBounds(rs[j]) && Spans(RouteSources(ps)[j], rs[j])
    {
      RouteBlockFits(ps[i]);
      var start, end := PrefixRange(ps[i]);
      rs := rs + [Bounds(ps[i].version, start, end)];
    }
  }
}
