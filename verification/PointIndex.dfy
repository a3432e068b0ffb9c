/** The prefix index of a bucket: byte keys in bytewise order, read with a Seek/Next cursor. */
module PointIndex {
  import opened Bytes
  import opened Words
  import opened Addresses
  import opened Cover
  import opened Sources
  import opened Mapped

  const PREFIX_KEY_SIZE := 18
  const INDEX_KEY_SIZE := 22

  type StoreKey = seq<Byte>

  /** A bucket's keys, as its cursor visits them. */
  ghost predicate Sorted(keys: seq<StoreKey>) {
    forall i, j :: 0 <= i < j < |keys| ==> Precedes(keys, i, j)
  }

  ghost predicate Precedes(keys: seq<StoreKey>, i: nat, j: nat)
    requires i < |keys| && j < |keys|
  {
    LexLess(keys[i], keys[j])
  }

  /** The position a cursor has after Seek: the first key not below the target. */
  function Seek(keys: seq<StoreKey>, target: StoreKey): (i: nat)
    ensures i <= |keys|
    ensures i < |keys| ==> !LexLess(keys[i], target)
  {
    SeekFrom(keys, target, 0)
  }

  function SeekFrom(keys: seq<StoreKey>, target: StoreKey, from: nat): (i: nat)
    requires from <= |keys|
    ensures from <= i <= |keys|
    ensures i < |keys| ==> !LexLess(keys[i], target)
    decreases |keys| - from
  {
    if from < |keys| && LexLess(keys[from], target) then SeekFrom(keys, target, from + 1) else from
  }

  lemma {:induction false} SeekPasses(keys: seq<StoreKey>, target: StoreKey, from: nat, j: nat)
    requires from <= |keys| && from <= j < SeekFrom(keys, target, from)
    ensures LexLess(keys[j], target)
    decreases |keys| - from
  {
    if from < j {
      SeekPasses(keys, target, from + 1, j);
    }
  }

  lemma BeforeSeekOn(keys: seq<StoreKey>, target: StoreKey, j: nat)
    requires j < Seek(keys, target)
    ensures LexLess(keys[j], target)
  {
    SeekPasses(keys, target, 0, j);
  }

  lemma FromSeekOn(keys: seq<StoreKey>, target: StoreKey, j: nat)
    requires Sorted(keys) && Seek(keys, target) <= j < |keys|
    ensures !LexLess(keys[j], target)
  {
    var i := Seek(keys, target);
    if i < j && LexLess(keys[j], target) {
      assert Precedes(keys, i, j);
      LexTransitive(keys[i], keys[j], target);
    }
  }

  // ---------- key layout ----------

  function PrefixKey(v: Version, b: Block): (k: StoreKey)
    requires b.exp <= Width(v)
    ensures |k| == PREFIX_KEY_SIZE
  {
    [VersionByte(v)] + AddressOf(b.base, v) + [Width(v) - b.exp]
  }

  /** The key a block is stored and sought under: that of the unmapped block. */
  function StoredKey(v: Version, b: Block): (k: StoreKey)
    requires b.exp <= Width(v)
    ensures |k| == PREFIX_KEY_SIZE
  {
    PrefixKey(v, UnmapBlock(v, b))
  }

  function IndexKey(v: Version, b: Block, id: Word): (k: StoreKey)
    requires b.exp <= Width(v)
    ensures |k| == INDEX_KEY_SIZE
  {
    StoredKey(v, b) + PutWord(id)
  }

  function IndexId(key: StoreKey): Word
    requires |key| == INDEX_KEY_SIZE
  {
    GetWord(key[PREFIX_KEY_SIZE..])
  }

  lemma IndexKeyParts(v: Version, b: Block, id: Word)
    requires b.exp <= Width(v)
    ensures IndexKey(v, b, id)[..PREFIX_KEY_SIZE] == StoredKey(v, b)
    ensures IndexId(IndexKey(v, b, id)) == id
  {
    assert IndexKey(v, b, id)[PREFIX_KEY_SIZE..] == PutWord(id);
    WordRoundTrip(id);
  }

  lemma PrefixKeyInjective(v: Version, b: Block, w: Version, c: Block)
    requires b.exp <= Width(v) && c.exp <= Width(w)
    requires b.base < Pow2(Width(v)) && c.base < Pow2(Width(w))
    requires PrefixKey(v, b) == PrefixKey(w, c)
    ensures v == w && b == c
  {
    assert PrefixKey(v, b)[0] == VersionByte(v) && PrefixKey(w, c)[0] == VersionByte(w);
    assert PrefixKey(v, b)[17] == Width(v) - b.exp && PrefixKey(w, c)[17] == Width(w) - c.exp;
    assert PrefixKey(v, b)[1..17] == AddressOf(b.base, v) && PrefixKey(w, c)[1..17] == AddressOf(c.base, w);
    NumOfAddress(b.base, v);
    NumOfAddress(c.base, v);
  }

  /** Two blocks share a key exactly when they are the same once unmapped: a block that begins
      among the mapped addresses and its image among the lowest ones cannot be told apart. */
  lemma StoredKeyExact(v: Version, b: Block, w: Version, c: Block)
    requires b.exp <= Width(v) && c.exp <= Width(w)
    requires b.base < Pow2(Width(v)) && c.base < Pow2(Width(w))
    ensures StoredKey(v, b) == StoredKey(w, c) <==> v == w && UnmapBlock(v, b) == UnmapBlock(w, c)
  {
    if StoredKey(v, b) == StoredKey(w, c) {
      PrefixKeyInjective(v, UnmapBlock(v, b), w, UnmapBlock(w, c));
    }
  }

  // ---------- what an index contains ----------

  ghost predicate HasEntry(ss: seq<Source>, v: Version, b: Block, id: nat) {
    1 <= id <= |ss| && ss[id - 1].version == v && b in ss[id - 1].blocks
  }

  ghost predicate IsEntryKey(ss: seq<Source>, key: StoreKey)
    requires ValidSources(ss)
  {
    exists v, b, id :: HasEntry(ss, v, b, id) && EntryKey(ss, v, b, id) == key
  }

  ghost function EntryKey(ss: seq<Source>, v: Version, b: Block, id: nat): StoreKey
    requires ValidSources(ss) && HasEntry(ss, v, b, id)
  {
    assert ValidSource(ss[id - 1]);
    IndexKey(v, b, id)
  }

  /** The two halves of IsStored feed each other's quantifiers, so each waits to be asked. */
  ghost predicate AskKey(i: nat) {
    true
  }

  ghost predicate AskEntry(v: Version, b: Block, id: nat) {
    true
  }

  /** The bucket holds one key for each block of each record. */
  ghost predicate IsStored(keys: seq<StoreKey>, ss: seq<Source>) {
    && ValidSources(ss) && Sorted(keys)
    && (forall i: nat {:trigger AskKey(i)} :: i < |keys| ==> IsEntryKey(ss, keys[i]))
    && (forall v, b, id: nat {:trigger AskEntry(v, b, id)} :: HasEntry(ss, v, b, id) ==> EntryKey(ss, v, b, id) in keys)
  }

  /** And no block begins among the mapped addresses, so keys tell blocks apart. */
  ghost predicate IsIndex(keys: seq<StoreKey>, ss: seq<Source>) {
    IsStored(keys, ss) && AllPlain(ss)
  }

  /** Every key is a record's: its block, then its ID. */
  lemma KeyIsStored(keys: seq<StoreKey>, ss: seq<Source>, i: nat) returns (v: Version, b: Block, id: Word)
    requires IsStored(keys, ss) && i < |keys|
    ensures HasEntry(ss, v, b, id) && ValidSource(ss[id - 1]) && keys[i] == EntryKey(ss, v, b, id)
    ensures b.exp <= Width(v) && |keys[i]| == INDEX_KEY_SIZE && keys[i][..PREFIX_KEY_SIZE] == StoredKey(v, b) && IndexId(keys[i]) == id
  {
    assert AskKey(i);
    var w, c, n :| HasEntry(ss, w, c, n) && EntryKey(ss, w, c, n) == keys[i];
    v, b, id := w, c, n;
    assert ValidSource(ss[id - 1]);
    IndexKeyParts(v, b, id);
  }

  /** Every block of a record has its key. */
  lemma StoredIsKey(keys: seq<StoreKey>, ss: seq<Source>, v: Version, b: Block, id: Word) returns (i: nat)
    requires IsStored(keys, ss) && HasEntry(ss, v, b, id)
    ensures i < |keys| && ValidSource(ss[id - 1]) && keys[i] == EntryKey(ss, v, b, id)
    ensures b.exp <= Width(v) && |keys[i]| == INDEX_KEY_SIZE && keys[i][..PREFIX_KEY_SIZE] == StoredKey(v, b) && IndexId(keys[i]) == id
  {
    assert AskEntry(v, b, id) && ValidSource(ss[id - 1]);
    i :| 0 <= i < |keys| && keys[i] == EntryKey(ss, v, b, id);
    IndexKeyParts(v, b, id);
  }

  lemma PlainEntry(ss: seq<Source>, v: Version, b: Block, id: nat)
    requires ValidSources(ss) && AllPlain(ss) && HasEntry(ss, v, b, id)
    ensures ValidSource(ss[id - 1]) && b.exp <= Width(v) && !IsMapped(v, b.base) && StoredKey(v, b) == PrefixKey(v, b)
  {
    assert ValidSource(ss[id - 1]) && PlainSource(ss[id - 1]);
    var i :| 0 <= i < |ss[id - 1].blocks| && ss[id - 1].blocks[i] == b;
  }

  lemma KeyIsEntry(keys: seq<StoreKey>, ss: seq<Source>, i: nat) returns (v: Version, b: Block, id: Word)
    requires IsIndex(keys, ss) && i < |keys|
    ensures !IsMapped(v, b.base) && HasEntry(ss, v, b, id) && ValidSource(ss[id - 1]) && keys[i] == EntryKey(ss, v, b, id)
    ensures |keys[i]| == INDEX_KEY_SIZE && keys[i][..PREFIX_KEY_SIZE] == PrefixKey(v, b) && IndexId(keys[i]) == id
  {
    v, b, id := KeyIsStored(keys, ss, i);
    PlainEntry(ss, v, b, id);
  }

  lemma EntryIsKey(keys: seq<StoreKey>, ss: seq<Source>, v: Version, b: Block, id: Word) returns (i: nat)
    requires IsIndex(keys, ss) && HasEntry(ss, v, b, id)
    ensures i < |keys| && ValidSource(ss[id - 1]) && keys[i] == EntryKey(ss, v, b, id)
    ensures |keys[i]| == INDEX_KEY_SIZE && keys[i][..PREFIX_KEY_SIZE] == PrefixKey(v, b) && IndexId(keys[i]) == id
  {
    i := StoredIsKey(keys, ss, v, b, id);
    PlainEntry(ss, v, b, id);
  }

  // ---------- runs of keys with one prefix ----------

  ghost predicate AllKeys(keys: seq<StoreKey>) {
    Sorted(keys) && forall i :: 0 <= i < |keys| ==> |keys[i]| == INDEX_KEY_SIZE
  }

  lemma IndexKeysSized(keys: seq<StoreKey>, ss: seq<Source>)
    requires IsStored(keys, ss)
    ensures AllKeys(keys)
  {
    forall i | 0 <= i < |keys|
      ensures |keys[i]| == INDEX_KEY_SIZE
    {
      var v, b, id := KeyIsStored(keys, ss, i);
    }
  }

  /** The IDs, in key order, of the keys with a given prefix among the first n. */
  function GroupUpTo(keys: seq<StoreKey>, base: StoreKey, n: nat): seq<Word>
    requires n <= |keys| && forall i :: 0 <= i < |keys| ==> |keys[i]| == INDEX_KEY_SIZE
  {
    if n == 0 then []
    else if keys[n - 1][..PREFIX_KEY_SIZE] != base then GroupUpTo(keys, base, n - 1)
    else GroupUpTo(keys, base, n - 1) + [IndexId(keys[n - 1])]
  }

  function Group(keys: seq<StoreKey>, base: StoreKey): seq<Word>
    requires forall i :: 0 <= i < |keys| ==> |keys[i]| == INDEX_KEY_SIZE
  {
    GroupUpTo(keys, base, |keys|)
  }

  const ZERO_ID: seq<Byte> := [0, 0, 0, 0]

  lemma NothingBelowZero(w: seq<Byte>)
    requires |w| == 4
    ensures !LexLess(w, ZERO_ID)
  {
    LexIsNumeric(w, ZERO_ID);
    assert NumberOf(ZERO_ID, 1) == 0 && NumberOf(ZERO_ID, 2) == 0 && NumberOf(ZERO_ID, 3) == 0;
  }

  lemma BeforeSeek(keys: seq<StoreKey>, base: StoreKey, j: nat)
    requires AllKeys(keys) && |base| == PREFIX_KEY_SIZE && j < Seek(keys, base + ZERO_ID)
    ensures keys[j][..PREFIX_KEY_SIZE] != base
  {
    var p, w := keys[j][..PREFIX_KEY_SIZE], keys[j][PREFIX_KEY_SIZE..];
    assert keys[j] == p + w;
    BeforeSeekOn(keys, base + ZERO_ID, j);
    LexFields(p, w, base, ZERO_ID);
    NothingBelowZero(w);
    LexIrreflexive(base);
  }

  lemma AfterRun(keys: seq<StoreKey>, base: StoreKey, j: nat, k: nat)
    requires AllKeys(keys) && |base| == PREFIX_KEY_SIZE
    requires Seek(keys, base + ZERO_ID) <= j < k < |keys| && keys[j][..PREFIX_KEY_SIZE] != base
    ensures keys[k][..PREFIX_KEY_SIZE] != base
  {
    var p, w, r, u := keys[j][..PREFIX_KEY_SIZE], keys[j][PREFIX_KEY_SIZE..], keys[k][..PREFIX_KEY_SIZE], keys[k][PREFIX_KEY_SIZE..];
    assert keys[j] == p + w && keys[k] == r + u;
    FromSeekOn(keys, base + ZERO_ID, j);
    assert Precedes(keys, j, k);
    LexFields(p, w, base, ZERO_ID);
    LexFields(p, w, r, u);
  }

  lemma {:induction false} GroupEmpty(keys: seq<StoreKey>, base: StoreKey, n: nat, m: nat)
    requires AllKeys(keys) && n <= m <= |keys|
    requires forall i :: n <= i < m ==> keys[i][..PREFIX_KEY_SIZE] != base
    ensures GroupUpTo(keys, base, m) == GroupUpTo(keys, base, n)
  {
    if n < m {
      GroupEmpty(keys, base, n, m - 1);
    }
  }

  lemma GroupStartsAtSeek(keys: seq<StoreKey>, base: StoreKey)
    requires AllKeys(keys) && |base| == PREFIX_KEY_SIZE
    ensures GroupUpTo(keys, base, Seek(keys, base + ZERO_ID)) == []
  {
    var i := Seek(keys, base + ZERO_ID);
    forall j | 0 <= j < i
      ensures keys[j][..PREFIX_KEY_SIZE] != base
    {
      BeforeSeek(keys, base, j);
    }
    GroupEmpty(keys, base, 0, i);
  }

  lemma GroupEndsWithRun(keys: seq<StoreKey>, base: StoreKey, j: nat)
    requires AllKeys(keys) && |base| == PREFIX_KEY_SIZE && Seek(keys, base + ZERO_ID) <= j <= |keys|
    requires j < |keys| ==> keys[j][..PREFIX_KEY_SIZE] != base
    ensures GroupUpTo(keys, base, j) == Group(keys, base)
  {
    forall k | j <= k < |keys|
      ensures keys[k][..PREFIX_KEY_SIZE] != base
    {
      if j < k {
        AfterRun(keys, base, j, k);
      }
    }
    GroupEmpty(keys, base, j, |keys|);
  }

  lemma {:induction false} GroupPrefix(keys: seq<StoreKey>, base: StoreKey, n: nat, m: nat)
    requires AllKeys(keys) && n <= m <= |keys|
    ensures GroupUpTo(keys, base, n) <= GroupUpTo(keys, base, m)
  {
    if n < m {
      GroupPrefix(keys, base, n, m - 1);
    }
  }

  // ---------- the point query ----------

  function BlockKey(v: Version, x: nat, length: nat): StoreKey
    requires length <= Width(v)
  {
    StoredKey(v, BlockAt(x, Width(v) - length))
  }

  /** What the index holds for prefixes of the given length and shorter, longest first. */
  function MatchesFrom(keys: seq<StoreKey>, v: Version, x: nat, length: int): seq<Word>
    requires length <= Width(v) && forall i :: 0 <= i < |keys| ==> |keys[i]| == INDEX_KEY_SIZE
    decreases length + 1
  {
    if length < 0 then [] else Group(keys, BlockKey(v, x, length)) + MatchesFrom(keys, v, x, length - 1)
  }

  function Matches(keys: seq<StoreKey>, v: Version, x: nat): seq<Word>
    requires forall i :: 0 <= i < |keys| ==> |keys[i]| == INDEX_KEY_SIZE
  {
    MatchesFrom(keys, v, x, Width(v))
  }

  /** The first limit of ids; all of them for limit zero. */
  function Limited(ids: seq<Word>, limit: nat): seq<Word> {
    if limit == 0 || |ids| <= limit then ids else ids[..limit]
  }

  /** PutPrefixKey: the key of the length-bit prefix of an address. The address is masked first
      and unmapped then. */
  method PutPrefixKey(address: Address, v: Version, length: nat) returns (key: StoreKey)
    requires Canonical(address, v) && length <= Width(v)
    ensures key == BlockKey(v, Num(address, v), length)
  {
    var masked := Masked(address, v, length);
    MaskedIsBlock(address, v, length, masked);
    StoredAddress(masked, BlockAt(Num(address, v), Width(v) - length).base, v);
    key := [VersionByte(v)] + Unmapped(masked, v) + [length];
  }

  lemma StoredAddress(a: Address, base: nat, v: Version)
    requires Canonical(a, v) && a == AddressOf(base, v) && base < Pow2(Width(v))
    ensures Unmapped(a, v) == AddressOf(Unmap(v, base), v)
  {
    NumOfAddress(base, v);
    UnmappedNum(a, v);
    AddressOfNum(Unmapped(a, v), v);
  }

  lemma MaskedIsBlock(a: Address, v: Version, length: nat, masked: Address)
    requires Canonical(a, v) && length <= Width(v) && Canonical(masked, v)
    requires Key(masked, v, length) == Key(a, v, length)
    requires forall i :: length <= i < Width(v) ==> BitAt(Tail(masked, v), i) == 0
    ensures masked == AddressOf(BlockAt(Num(a, v), Width(v) - length).base, v)
    ensures BlockAt(Num(a, v), Width(v) - length).base < Pow2(Width(v))
  {
    var w := Width(v);
    var zeros: Bits := seq(w - length, _ => 0);
    var k := Key(a, v, length);
    KeyTake(masked, v, w, length);
    assert Key(masked, v, w) == k + zeros;
    PaddedValue(k, w - length);
    NumIsKeyValue(masked, v);
    KeyValue(a, v, length);
    AddressOfNum(masked, v);
    NumIsKeyValue(a, v);
    BlockAtHas(Num(a, v), Width(v) - length);
  }

  lemma PaddedValue(k: Bits, n: nat)
    ensures Value(k + seq(n, _ => 0)) == Value(k) * Pow2(n)
  {
    ValueConcat(k, seq(n, _ => 0));
    ZeroValue(n);
  }

  lemma {:induction false} ZeroValue(n: nat)
    ensures Value(seq(n, _ => 0)) == 0
  {
    if n > 0 {
      var z: Bits := seq(n, _ => 0);
      assert z[..n - 1] == seq(n - 1, _ => 0);
      ZeroValue(n - 1);
    }
  }

  /** What a run of appends has reached: everything so far, or a full page. */
  ghost predicate Reached(ids: seq<Word>, limit: nat, whole: seq<Word>, rest: seq<Word>) {
    if limit == 0 || |ids| < limit then whole == ids + rest else |ids| == limit && ids <= whole
  }

  /** The IDs of the records indexed under a prefix of the address, longest prefix first; at
      most limit of them unless limit is zero. */
  method MatchingIds(keys: seq<StoreKey>, address: Address, v: Version, limit: nat) returns (ids: seq<Word>)
    requires AllKeys(keys) && Canonical(address, v)
    ensures ids == Limited(Matches(keys, v, Num(address, v)), limit)
    ensures var all := Matches(keys, v, Num(address, v)); ids <= all && |ids| == if limit == 0 || |all| <= limit then |all| else limit
  {
    ghost var x := Num(address, v);
    ghost var whole := Matches(keys, v, x);
    ids := [];
    var length: int := Width(v);
    while length >= 0 && (limit == 0 || |ids| < limit)
      invariant -1 <= length <= Width(v)
      invariant true == Reached(ids, limit, whole, MatchesFrom(keys, v, x, length))
    {
      var base := PutPrefixKey(address, v, length);
      ids := AppendRun(keys, base, ids, limit, whole, MatchesFrom(keys, v, x, length - 1));
      length := length - 1;
    }
  }

  /** The inner loop: from Seek on while the prefix stays. */
  method AppendRun(keys: seq<StoreKey>, base: StoreKey, before: seq<Word>, limit: nat, ghost whole: seq<Word>, ghost rest: seq<Word>)
    returns (ids: seq<Word>)
    requires AllKeys(keys) && |base| == PREFIX_KEY_SIZE && (limit == 0 || |before| < limit)
    requires whole == before + (Group(keys, base) + rest)
    ensures true == Reached(ids, limit, whole, rest)
  {
    ids := before;
    var i := Seek(keys, base + ZERO_ID);
    GroupStartsAtSeek(keys, base);
    while (limit == 0 || |ids| < limit) && i < |keys| && keys[i][..PREFIX_KEY_SIZE] == base
      invariant Seek(keys, base + ZERO_ID) <= i <= |keys|
      invariant ids == before + GroupUpTo(keys, base, i)
      invariant limit == 0 || |ids| <= limit
      decreases |keys| - i
    {
      ids := ids + [IndexId(keys[i])];
      i := i + 1;
    }
    if limit == 0 || |ids| < limit {
      GroupEndsWithRun(keys, base, i);
    } else {
      GroupPrefix(keys, base, i, |keys|);
    }
  }

  // ---------- the point query is exact ----------

  lemma {:induction false} GroupIn(keys: seq<StoreKey>, base: StoreKey, n: nat, id: Word)
    requires AllKeys(keys) && n <= |keys|
    ensures id in GroupUpTo(keys, base, n) <==>
      exists i :: 0 <= i < n && keys[i][..PREFIX_KEY_SIZE] == base && IndexId(keys[i]) == id
  {
    if n > 0 {
      GroupIn(keys, base, n - 1, id);
    }
  }

  lemma RunAscends(keys: seq<StoreKey>, base: StoreKey, i: nat, j: nat)
    requires AllKeys(keys) && i < j < |keys|
    requires keys[i][..PREFIX_KEY_SIZE] == base && keys[j][..PREFIX_KEY_SIZE] == base
    ensures IndexId(keys[i]) < IndexId(keys[j])
  {
    var w, u := keys[i][PREFIX_KEY_SIZE..], keys[j][PREFIX_KEY_SIZE..];
    assert keys[i] == base + w && keys[j] == base + u;
    assert Precedes(keys, i, j);
    LexFields(base, w, base, u);
    LexIrreflexive(base);
    LexIsNumeric(w, u);
  }

  lemma {:induction false} GroupAscends(keys: seq<StoreKey>, base: StoreKey, n: nat)
    requires AllKeys(keys) && n <= |keys|
    ensures Ascending(GroupUpTo(keys, base, n))
  {
    if n > 0 {
      GroupAscends(keys, base, n - 1);
      if keys[n - 1][..PREFIX_KEY_SIZE] == base {
        var g := GroupUpTo(keys, base, n - 1);
        forall k | 0 <= k < |g|
          ensures g[k] < IndexId(keys[n - 1])
        {
          GroupIn(keys, base, n - 1, g[k]);
          var i :| 0 <= i < n - 1 && keys[i][..PREFIX_KEY_SIZE] == base && IndexId(keys[i]) == g[k];
          RunAscends(keys, base, i, n - 1);
        }
      }
    }
  }

  lemma BlockInSource(s: Source, b: Block)
    requires ValidSource(s) && b in s.blocks
    ensures Aligned(b) && b.exp <= Width(s.version) && s.start <= b.base && End(b) <= s.last + 1
  {
    var j :| 0 <= j < |s.blocks| && s.blocks[j] == b;
    assert Has(s.blocks[j], b.base) && Has(s.blocks[j], End(b) - 1);
    TilesCover(s.blocks, s.start, s.last, b.base);
    TilesCover(s.blocks, s.start, s.last, End(b) - 1);
  }

  lemma EntryInGroup(keys: seq<StoreKey>, ss: seq<Source>, v: Version, b: Block, id: nat)
    requires IsIndex(keys, ss) && AllKeys(keys) && HasEntry(ss, v, b, id)
    ensures ValidSource(ss[id - 1]) && b.exp <= Width(v) && id in Group(keys, PrefixKey(v, b))
  {
    var i := EntryIsKey(keys, ss, v, b, id);
    GroupIn(keys, PrefixKey(v, b), |keys|, id);
  }

  lemma KeyFromEntry(keys: seq<StoreKey>, ss: seq<Source>, v: Version, b: Block, i: nat)
    requires IsIndex(keys, ss) && AllKeys(keys) && b.exp <= Width(v) && b.base < Pow2(Width(v))
    requires i < |keys| && keys[i][..PREFIX_KEY_SIZE] == PrefixKey(v, b)
    ensures HasEntry(ss, v, b, IndexId(keys[i]))
  {
    var w, c, other := KeyIsEntry(keys, ss, i);
    BlockInSource(ss[other - 1], c);
    PrefixKeyInjective(v, b, w, c);
  }

  /** The IDs under one prefix are those of the records that have that block. */
  lemma GroupIsExact(keys: seq<StoreKey>, ss: seq<Source>, v: Version, b: Block, id: nat)
    requires IsIndex(keys, ss) && AllKeys(keys) && b.exp <= Width(v) && b.base < Pow2(Width(v))
    ensures id in Group(keys, PrefixKey(v, b)) <==> HasEntry(ss, v, b, id)
  {
    var base := PrefixKey(v, b);
    if HasEntry(ss, v, b, id) {
      EntryInGroup(keys, ss, v, b, id);
    }
    if id in Group(keys, base) {
      GroupIn(keys, base, |keys|, id);
      var i :| 0 <= i < |keys| && keys[i][..PREFIX_KEY_SIZE] == base && IndexId(keys[i]) == id;
      KeyFromEntry(keys, ss, v, b, i);
    }
  }

  /** ids lists every record that contains x in a block of size exponent at least e, in order. */
  ghost predicate InOrderFrom(ids: seq<nat>, ss: seq<Source>, v: Version, x: nat, e: int)
    requires ValidSources(ss)
  {
    && (forall id :: id in ids <==> IsHit(ss, v, x, id) && ExpAt(ss[id - 1], x) >= e)
    && (forall i, j :: 0 <= i < j < |ids| ==> ids[i] in ids && ids[j] in ids && Before(ss, v, x, ids[i], ids[j]))
  }

  lemma BlockHits(ss: seq<Source>, v: Version, x: nat, e: nat, id: nat)
    requires ValidSources(ss)
    ensures HasEntry(ss, v, BlockAt(x, e), id) <==> IsHit(ss, v, x, id) && ExpAt(ss[id - 1], x) == e
  {
    BlockAtHas(x, e);
    if HasEntry(ss, v, BlockAt(x, e), id) {
      BlockThroughHit(ss[id - 1], x, BlockAt(x, e));
    }
    if IsHit(ss, v, x, id) && ExpAt(ss[id - 1], x) == e {
      HitThroughBlock(ss[id - 1], x);
    }
  }

  lemma BlockAtFits(v: Version, x: nat, e: nat)
    requires x < Pow2(Width(v)) && e <= Width(v)
    ensures BlockAt(x, e).base < Pow2(Width(v))
  {
    BlockAtHas(x, e);
  }

  /** The IDs under the prefix of one length are the records that contain x in a block of that
      size. */
  lemma GroupOfSize(keys: seq<StoreKey>, ss: seq<Source>, v: Version, x: nat, e: nat, id: nat)
    requires IsIndex(keys, ss) && AllKeys(keys) && x < Pow2(Width(v)) && e <= Width(v)
    ensures id in Group(keys, PrefixKey(v, BlockAt(x, e))) <==> IsHit(ss, v, x, id) && ExpAt(ss[id - 1], x) == e
  {
    BlockAtFits(v, x, e);
    GroupIsExact(keys, ss, v, BlockAt(x, e), id);
    BlockHits(ss, v, x, e, id);
  }

  /** A group of one size in front of everything of larger sizes. */
  lemma OrderExtends(group: seq<nat>, rest: seq<nat>, ss: seq<Source>, v: Version, x: nat, e: int)
    requires ValidSources(ss) && Ascending(group) && InOrderFrom(rest, ss, v, x, e + 1)
    requires forall id :: id in group <==> IsHit(ss, v, x, id) && ExpAt(ss[id - 1], x) == e
    ensures InOrderFrom(group + rest, ss, v, x, e)
  {
    var ids := group + rest;
    forall i, j | 0 <= i < j < |ids|
      ensures ids[i] in ids && ids[j] in ids && Before(ss, v, x, ids[i], ids[j])
    {
      assert (i < |group| ==> group[i] in group) && (i >= |group| ==> rest[i - |group|] in rest);
      assert (j < |group| ==> group[j] in group) && (j >= |group| ==> rest[j - |group|] in rest);
    }
  }

  lemma GroupBeforeRest(keys: seq<StoreKey>, ss: seq<Source>, v: Version, x: nat, e: nat, rest: seq<Word>)
    requires IsIndex(keys, ss) && AllKeys(keys) && x < Pow2(Width(v)) && e <= Width(v)
    requires true == InOrderFrom(rest, ss, v, x, e + 1)
    ensures true == InOrderFrom(Group(keys, PrefixKey(v, BlockAt(x, e))) + rest, ss, v, x, e)
  {
    var group := Group(keys, PrefixKey(v, BlockAt(x, e)));
    GroupAscends(keys, PrefixKey(v, BlockAt(x, e)), |keys|);
    forall id: nat
      ensures id in group <==> IsHit(ss, v, x, id) && ExpAt(ss[id - 1], x) == e
    {
      GroupOfSize(keys, ss, v, x, e, id);
    }
    OrderExtends(group, rest, ss, v, x, e);
  }

  lemma {:induction false} MatchesInOrder(keys: seq<StoreKey>, ss: seq<Source>, v: Version, x: nat, length: int)
    requires IsIndex(keys, ss) && AllKeys(keys) && x < Pow2(Width(v)) && !IsMapped(v, x) && -1 <= length <= Width(v)
    ensures true == InOrderFrom(MatchesFrom(keys, v, x, length), ss, v, x, Width(v) - length)
    decreases length + 1
  {
    if length >= 0 {
      BlockAtHas(x, Width(v) - length);
      PlainAncestor(v, BlockAt(x, Width(v) - length), x);
      MatchesInOrder(keys, ss, v, x, length - 1);
      GroupBeforeRest(keys, ss, v, x, Width(v) - length, MatchesFrom(keys, v, x, length - 1));
    }
  }

  /** A point query returns every record that contains the address, once, longest component
      first and then by ascending ID. */
  lemma PointQueryIsExact(keys: seq<StoreKey>, ss: seq<Source>, v: Version, x: nat)
    requires IsIndex(keys, ss) && AllKeys(keys) && x < Pow2(Width(v)) && !IsMapped(v, x)
    ensures InMatchOrder(Matches(keys, v, x), ss, v, x)
  {
    MatchesInOrder(keys, ss, v, x, Width(v));
  }

  lemma GroupOfFamily(keys: seq<StoreKey>, ss: seq<Source>, v: Version, b: Block, id: Word)
    requires IsStored(keys, ss) && AllKeys(keys) && b.exp <= Width(v) && id in Group(keys, StoredKey(v, b))
    ensures 1 <= id <= |ss| && ss[id - 1].version == v
  {
    var base := StoredKey(v, b);
    GroupIn(keys, base, |keys|, id);
    var i :| 0 <= i < |keys| && keys[i][..PREFIX_KEY_SIZE] == base && IndexId(keys[i]) == id;
    var w, c, other := KeyIsStored(keys, ss, i);
    assert base[0] == VersionByte(v) && StoredKey(w, c)[0] == VersionByte(w);
  }

  /** Whatever the address, a point query lists records of its family. */
  lemma {:induction false} MatchesOfFamily(keys: seq<StoreKey>, ss: seq<Source>, v: Version, x: nat, length: int)
    requires true == IsStored(keys, ss) && AllKeys(keys) && length <= Width(v)
    ensures forall id :: id in MatchesFrom(keys, v, x, length) ==> 1 <= id <= |ss| && ss[id - 1].version == v
    decreases length + 1
  {
    if length >= 0 {
      MatchesOfFamily(keys, ss, v, x, length - 1);
      GroupsOfFamily(keys, ss, v, BlockAt(x, Width(v) - length));
      assert MatchesFrom(keys, v, x, length) == Group(keys, BlockKey(v, x, length)) + MatchesFrom(keys, v, x, length - 1);
    }
  }

  lemma GroupsOfFamily(keys: seq<StoreKey>, ss: seq<Source>, v: Version, b: Block)
    requires true == IsStored(keys, ss) && AllKeys(keys) && b.exp <= Width(v)
    ensures forall id :: id in Group(keys, StoredKey(v, b)) ==> 1 <= id <= |ss| && ss[id - 1].version == v
  {
    forall id | id in Group(keys, StoredKey(v, b))
      ensures 1 <= id <= |ss| && ss[id - 1].version == v
    {
      GroupOfFamily(keys, ss, v, b, id);
    }
  }
}
