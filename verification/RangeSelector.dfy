/** The allocation and geofeed selectors from end to end: every record's range is cut into its
    CIDR pieces, the trie keeps the best record per piece, and a lookup in the trie's bytes
    finds the narrowest range that contains an address. */
module RangeSelector {
  import opened Bytes
  import opened Words
  import opened Addresses
  import opened Cover
  import opened Sources
  import opened Mapped
  import opened PointIndex
  import opened Patricia
  import opened TrieBuilder
  import opened SelectionLPM

  /** One component of one record. */
  datatype Entry = Entry(block: Block, id: Word)

  ghost function RecordCandidate(ss: seq<Source>, v: Version, id: Word): Candidate
    requires ValidSources(ss) && 1 <= id <= |ss|
  {
    assert ValidSource(ss[id - 1]);
    Candidate(id, AddressOf(ss[id - 1].last - ss[id - 1].start, v))
  }

  ghost predicate EntryFits(ss: seq<Source>, v: Version, e: Entry)
    requires ValidSources(ss)
  {
    HasEntry(ss, v, e.block, e.id) && e.block.exp <= Width(v) && Aligned(e.block) && e.block.base < Pow2(Width(v))
  }

  lemma SourceEntryFits(ss: seq<Source>, v: Version, e: Entry)
    requires ValidSources(ss) && HasEntry(ss, v, e.block, e.id)
    ensures EntryFits(ss, v, e)
  {
    BlockInSource(ss[e.id - 1], e.block);
  }

  // ---------- what the trie keeps of the components inserted ----------

  /** Each component's key holds the least candidate among the components with that key. The
      components form a set: their order of insertion does not matter. */
  ghost predicate Keeps(stored: map<Bits, Candidate>, log: set<Entry>, ss: seq<Source>, v: Version)
    requires ValidSources(ss)
  {
    && (forall e :: e in log ==> EntryFits(ss, v, e) && AtLeastAsGood(stored, ss, v, e))
    && (forall k :: k in stored ==> KeptFrom(stored[k], log, ss, v, k))
  }

  ghost predicate AtLeastAsGood(stored: map<Bits, Candidate>, ss: seq<Source>, v: Version, e: Entry)
    requires ValidSources(ss) && EntryFits(ss, v, e)
  {
    var k := KeyOf(e.block, v);
    k in stored && !CandidateLess(RecordCandidate(ss, v, e.id), stored[k])
  }

  ghost predicate KeptFrom(c: Candidate, log: set<Entry>, ss: seq<Source>, v: Version, k: Bits)
    requires ValidSources(ss)
  {
    exists e :: e in log && EntryFits(ss, v, e) && KeyOf(e.block, v) == k && c == RecordCandidate(ss, v, e.id)
  }

  /** Not being less chains, and nothing is less than itself. */
  lemma CandidateChain(c: Candidate, kept: Candidate, e: Candidate)
    ensures !CandidateLess(c, c)
    ensures CandidateLess(c, kept) && !CandidateLess(e, kept) ==> !CandidateLess(e, c)
  {
    LexIrreflexive(c.width);
    LexTotal(c.width, kept.width);
    LexTotal(e.width, kept.width);
    if LexLess(e.width, c.width) && LexLess(c.width, kept.width) {
      LexTransitive(e.width, c.width, kept.width);
    }
    LexIrreflexive(kept.width);
  }

  lemma KeepsOneMore(stored: map<Bits, Candidate>, log: set<Entry>, ss: seq<Source>, v: Version, e: Entry)
    requires ValidSources(ss) && true == Keeps(stored, log, ss, v) && EntryFits(ss, v, e)
    ensures var k := KeyOf(e.block, v);
      true == Keeps(stored[k := Lesser(stored, k, RecordCandidate(ss, v, e.id))], log + {e}, ss, v)
  {
    var k, c := KeyOf(e.block, v), RecordCandidate(ss, v, e.id);
    var after, more := stored[k := Lesser(stored, k, c)], log + {e};
    forall f | f in more
      ensures EntryFits(ss, v, f) && AtLeastAsGood(after, ss, v, f)
    {
      if f in log {
        StaysAsGood(stored, ss, v, f, k, c);
      } else {
        CandidateChain(c, c, c);
      }
    }
    forall l | l in after
      ensures KeptFrom(after[l], more, ss, v, l)
    {
      if l in stored && after[l] == stored[l] {
        StaysKept(stored[l], log, ss, v, l, e);
      } else {
        assert e in more;
      }
    }
  }

  lemma StaysAsGood(stored: map<Bits, Candidate>, ss: seq<Source>, v: Version, e: Entry, k: Bits, c: Candidate)
    requires ValidSources(ss) && EntryFits(ss, v, e) && AtLeastAsGood(stored, ss, v, e)
    ensures AtLeastAsGood(stored[k := Lesser(stored, k, c)], ss, v, e)
  {
    if k in stored {
      CandidateChain(c, stored[k], RecordCandidate(ss, v, e.id));
    }
  }

  lemma StaysKept(c: Candidate, log: set<Entry>, ss: seq<Source>, v: Version, k: Bits, e: Entry)
    requires ValidSources(ss) && KeptFrom(c, log, ss, v, k)
    ensures KeptFrom(c, log + {e}, ss, v, k)
  {
    var f :| f in log && EntryFits(ss, v, f) && KeyOf(f.block, v) == k && c == RecordCandidate(ss, v, f.id);
    assert f in log + {e};
  }

  /** So the components alone decide what the trie keeps: two orders of insertion end with the
      same contents. */
  lemma OrderIsIrrelevant(a: map<Bits, Candidate>, b: map<Bits, Candidate>, log: set<Entry>, ss: seq<Source>, v: Version)
    requires ValidSources(ss) && Keeps(a, log, ss, v) && Keeps(b, log, ss, v)
    ensures a == b
  {
    forall k | k in a || k in b
      ensures k in a && k in b && a[k] == b[k]
    {
      if k in a {
        SameKept(a, b, log, ss, v, k);
      } else {
        SameKept(b, a, log, ss, v, k);
      }
    }
  }

  lemma SameKept(a: map<Bits, Candidate>, b: map<Bits, Candidate>, log: set<Entry>, ss: seq<Source>, v: Version, k: Bits)
    requires ValidSources(ss) && Keeps(a, log, ss, v) && Keeps(b, log, ss, v) && k in a
    ensures k in b && a[k] == b[k]
  {
    assert KeptFrom(a[k], log, ss, v, k);
    var e :| e in log && EntryFits(ss, v, e) && KeyOf(e.block, v) == k && a[k] == RecordCandidate(ss, v, e.id);
    assert AtLeastAsGood(b, ss, v, e);
    assert KeptFrom(b[k], log, ss, v, k);
    var f :| f in log && EntryFits(ss, v, f) && KeyOf(f.block, v) == k && b[k] == RecordCandidate(ss, v, f.id);
    assert AtLeastAsGood(a, ss, v, f);
    LexTotal(a[k].width, b[k].width);
  }

  // ---------- the narrowest range ----------

  /** The narrower range, then the longer component around x, then the lower record ID. */
  ghost predicate Narrower(ss: seq<Source>, v: Version, x: nat, a: nat, b: nat)
    requires ValidSources(ss) && IsHit(ss, v, x, a) && IsHit(ss, v, x, b)
  {
    var s, t := ss[a - 1], ss[b - 1];
    var w, u := s.last - s.start, t.last - t.start;
    w < u || (w == u && (ExpAt(s, x) < ExpAt(t, x) || (ExpAt(s, x) == ExpAt(t, x) && a < b)))
  }

  /** id is a record that contains x and is narrower than every other that does; zero when
      there is none. */
  ghost predicate IsNarrowest(ss: seq<Source>, v: Version, x: nat, id: nat)
    requires ValidSources(ss)
  {
    if id == 0 then forall other :: !IsHit(ss, v, x, other) else
      IsHit(ss, v, x, id) && forall other :: IsHit(ss, v, x, other) && other != id ==> Narrower(ss, v, x, id, other)
  }

  ghost function HitChoice(ss: seq<Source>, v: Version, x: nat, id: Word): Choice
    requires ValidSources(ss) && IsHit(ss, v, x, id)
  {
    Choice(Tail(RecordCandidate(ss, v, id).width, v), Width(v) - ExpAt(ss[id - 1], x), id)
  }

  lemma WidthOrder(m: nat, n: nat, v: Version)
    requires m < Pow2(Width(v)) && n < Pow2(Width(v))
    ensures LexLess(Tail(AddressOf(m, v), v), Tail(AddressOf(n, v), v)) <==> m < n
    ensures LexLess(AddressOf(m, v), AddressOf(n, v)) <==> m < n
    ensures AddressOf(m, v) == AddressOf(n, v) <==> m == n
    ensures Tail(AddressOf(m, v), v) == Tail(AddressOf(n, v), v) <==> m == n
  {
    NumOfAddress(m, v);
    NumOfAddress(n, v);
    AddressOrder(AddressOf(m, v), AddressOf(n, v), v);
    LexIsNumeric(Tail(AddressOf(m, v), v), Tail(AddressOf(n, v), v));
  }

  lemma ChoiceByNumbers(v: Version, m: nat, n: nat, e: nat, f: nat, a: Word, b: Word)
    requires m < Pow2(Width(v)) && n < Pow2(Width(v)) && e <= Width(v) && f <= Width(v)
    ensures ChoiceLess(Choice(Tail(AddressOf(m, v), v), Width(v) - e, a), Choice(Tail(AddressOf(n, v), v), Width(v) - f, b)) <==>
            m < n || (m == n && (e < f || (e == f && a < b)))
  {
    WidthOrder(m, n, v);
  }

  lemma ChoiceOfHits(ss: seq<Source>, v: Version, x: nat, a: Word, b: Word)
    requires ValidSources(ss) && IsHit(ss, v, x, a) && IsHit(ss, v, x, b)
    ensures ChoiceLess(HitChoice(ss, v, x, a), HitChoice(ss, v, x, b)) <==> Narrower(ss, v, x, a, b)
  {
    var s, t := ss[a - 1], ss[b - 1];
    assert ValidSource(s) && ValidSource(t);
    ChoiceByNumbers(v, s.last - s.start, t.last - t.start, ExpAt(s, x), ExpAt(t, x), a, b);
  }

  lemma CandidateByNumbers(v: Version, k: Bits, m: nat, n: nat, a: Word, b: Word)
    requires m < Pow2(Width(v)) && n < Pow2(Width(v))
    ensures CandidateLess(Candidate(a, AddressOf(m, v)), Candidate(b, AddressOf(n, v))) <==>
            ChoiceLess(ChoiceAt(k, Candidate(a, AddressOf(m, v)), v), ChoiceAt(k, Candidate(b, AddressOf(n, v)), v))
  {
    WidthOrder(m, n, v);
  }

  /** Per component the better candidate is the better choice. */
  lemma CandidateIsChoice(ss: seq<Source>, v: Version, k: Bits, a: Word, b: Word)
    requires ValidSources(ss) && 1 <= a <= |ss| && 1 <= b <= |ss| && ss[a - 1].version == ss[b - 1].version == v
    ensures CandidateLess(RecordCandidate(ss, v, a), RecordCandidate(ss, v, b)) <==>
            ChoiceLess(ChoiceAt(k, RecordCandidate(ss, v, a), v), ChoiceAt(k, RecordCandidate(ss, v, b), v))
  {
    var s, t := ss[a - 1], ss[b - 1];
    assert ValidSource(s) && ValidSource(t);
    CandidateByNumbers(v, k, s.last - s.start, t.last - t.start, a, b);
  }

  /** Every component of every record of the family is in. */
  ghost predicate Complete(log: set<Entry>, ss: seq<Source>, v: Version)
    requires ValidSources(ss)
  {
    forall b, id :: HasEntry(ss, v, b, id) ==> Entry(b, id) in log
  }

  lemma EntryChoice(ss: seq<Source>, v: Version, a: Address, e: Entry)
    requires ValidSources(ss) && EntryFits(ss, v, e)
    ensures KeyOf(e.block, v) <= Key(a, v, Width(v)) <==> Has(e.block, Num(a, v))
    ensures Has(e.block, Num(a, v)) ==> IsHit(ss, v, Num(a, v), e.id)
    ensures Has(e.block, Num(a, v)) ==>
      ChoiceAt(KeyOf(e.block, v), RecordCandidate(ss, v, e.id), v) == HitChoice(ss, v, Num(a, v), e.id)
  {
    BlockHasKey(e.block, v, a);
    if Has(e.block, Num(a, v)) {
      BlockThroughHit(ss[e.id - 1], Num(a, v), e.block);
    }
  }

  /** A hit's component around the address is stored, with a choice at least as good. */
  lemma HitKept(stored: map<Bits, Candidate>, log: set<Entry>, ss: seq<Source>, v: Version, a: Address, id: Word)
    returns (k: Bits)
    requires ValidSources(ss) && true == Keeps(stored, log, ss, v) && Complete(log, ss, v) && IsHit(ss, v, Num(a, v), id)
    ensures k in stored && k <= Key(a, v, Width(v))
    ensures !ChoiceLess(HitChoice(ss, v, Num(a, v), id), ChoiceAt(k, stored[k], v))
  {
    var x := Num(a, v);
    var e := Entry(BlockAt(x, ExpAt(ss[id - 1], x)), id);
    HitThroughBlock(ss[id - 1], x);
    BlockAtHas(x, e.block.exp);
    assert e in log;
    EntryChoice(ss, v, a, e);
    k := KeyOf(e.block, v);
    assert AtLeastAsGood(stored, ss, v, e) && KeptFrom(stored[k], log, ss, v, k);
    var f :| f in log && EntryFits(ss, v, f) && KeyOf(f.block, v) == k && stored[k] == RecordCandidate(ss, v, f.id);
    CandidateIsChoice(ss, v, k, id, f.id);
  }

  /** The best stored choice for an address is the narrowest record that contains it. */
  lemma BestIsNarrowest(stored: map<Bits, Candidate>, log: set<Entry>, ss: seq<Source>, v: Version, a: Address, r: Option<Choice>)
    requires ValidSources(ss) && true == Keeps(stored, log, ss, v) && Complete(log, ss, v)
    requires true == IsBest(stored, Key(a, v, Width(v)), v, r)
    ensures true == IsNarrowest(ss, v, Num(a, v), if r.None? then 0 else r.value.id)
  {
    var x, q := Num(a, v), Key(a, v, Width(v));
    if r.None? {
      forall other
        ensures !IsHit(ss, v, x, other)
      {
        if IsHit(ss, v, x, other) {
          var k := HitKept(stored, log, ss, v, a, other);
        }
      }
    } else {
      var k :| k in stored && k <= q && r.value == ChoiceAt(k, stored[k], v);
      assert KeptFrom(stored[k], log, ss, v, k);
      var e :| e in log && EntryFits(ss, v, e) && KeyOf(e.block, v) == k && stored[k] == RecordCandidate(ss, v, e.id);
      EntryChoice(ss, v, a, e);
      forall other | IsHit(ss, v, x, other) && other != e.id
        ensures Narrower(ss, v, x, e.id, other)
      {
        var l := HitKept(stored, log, ss, v, a, other);
        LeastTransitive(r.value, ChoiceAt(l, stored[l], v), HitChoice(ss, v, x, other));
        ChoiceOfHits(ss, v, x, other, e.id);
        ChoiceOfHits(ss, v, x, e.id, other);
      }
    }
  }

  // ---------- the whole path ----------

  ghost predicate Ready(lpm: Builder<Candidate>, log: set<Entry>, ss: seq<Source>)
    requires ValidSources(ss)
    reads lpm
  {
    lpm.Valid() && lpm.merge == KeepLess && Keeps(lpm.Stored(), log, ss, lpm.version)
  }

  ghost function Components(s: Source, id: Word, n: nat): set<Entry>
    requires n <= |s.blocks|
  {
    set j | 0 <= j < n :: Entry(s.blocks[j], id)
  }

  lemma RecordEntry(ss: seq<Source>, v: Version, record: Bounds, id: Word, j: nat)
    requires ValidSources(ss) && 1 <= id <= |ss| && ValidBounds(record) && Spans(ss[id - 1], record)
    requires record.version == v && j < |ss[id - 1].blocks|
    ensures EntryFits(ss, v, Entry(ss[id - 1].blocks[j], id))
  {
    SourceEntryFits(ss, v, Entry(ss[id - 1].blocks[j], id));
  }

  lemma RecordWidth(ss: seq<Source>, v: Version, record: Bounds, id: Word)
    requires ValidSources(ss) && 1 <= id <= |ss| && ValidBounds(record) && Spans(ss[id - 1], record)
    requires record.version == v
    ensures RecordCandidate(ss, v, id) == Candidate(id, SpanWidth(record.start, record.end))
  {
    SpanOfRange(record.start, record.end, v);
  }

  /** Cuts one record's range into pieces and inserts each. */
  method InsertRange(lpm: Builder<Candidate>, record: Bounds, id: Word, ghost rs: seq<Bounds>, ghost ss: seq<Source>, ghost log: set<Entry>)
    returns (r: TrieBuilder.Result<()>)
    requires AllBounds(rs) && ss == SourcesOf(rs) && 1 <= id <= |rs| && record == rs[id - 1] && record.version == lpm.version
    requires true == Ready(lpm, log, ss) && PlainSource(ss[id - 1])
    modifies lpm
    ensures r.Err? ==> |old(lpm.nodes)| + 2 * |ss[id - 1].blocks| > MAX_UINT32
    ensures r.Ok? ==> |lpm.nodes| <= |old(lpm.nodes)| + 2 * |ss[id - 1].blocks|
    ensures r.Ok? ==> true == Ready(lpm, log + Components(ss[id - 1], id, |ss[id - 1].blocks|), ss)
  {
    NumIsKeyValue(record.end, record.version);
    var prefixes := RangePrefixes(Num(record.start, record.version), Num(record.end, record.version), Width(record.version));
    PiecesOfRecord(rs, id - 1);
    r := InsertPieces(lpm, prefixes, record, id, ss, log);
  }

  lemma ComponentsGrow(log: set<Entry>, s: Source, id: Word, n: nat)
    requires n <= |s.blocks|
    ensures n == 0 ==> log + Components(s, id, n) == log
    ensures n < |s.blocks| ==> log + Components(s, id, n + 1) == log + Components(s, id, n) + {Entry(s.blocks[n], id)}
  {
  }

  method InsertPieces(lpm: Builder<Candidate>, prefixes: seq<Piece>, record: Bounds, id: Word, ghost ss: seq<Source>, ghost log: set<Entry>)
    returns (r: TrieBuilder.Result<()>)
    requires ValidSources(ss) && 1 <= id <= |ss| && ValidBounds(record) && Spans(ss[id - 1], record) && record.version == lpm.version
    requires |prefixes| == |ss[id - 1].blocks|
    requires forall j :: 0 <= j < |prefixes| ==> prefixes[j] == PieceOf(ss[id - 1].blocks[j], Width(lpm.version))
    requires true == Ready(lpm, log, ss) && PlainSource(ss[id - 1])
    modifies lpm
    ensures r.Err? ==> |old(lpm.nodes)| + 2 * |prefixes| > MAX_UINT32
    ensures r.Ok? ==> |lpm.nodes| <= |old(lpm.nodes)| + 2 * |prefixes|
    ensures r.Ok? ==> true == Ready(lpm, log + Components(ss[id - 1], id, |ss[id - 1].blocks|), ss)
  {
    ghost var s := ss[id - 1];
    ghost var more := log;
    ComponentsGrow(log, s, id, 0);
    for j := 0 to |prefixes|
      invariant more == log + Components(s, id, j)
      invariant true == Ready(lpm, more, ss) && |lpm.nodes| <= |old(lpm.nodes)| + 2 * j
    {
      RecordEntry(ss, lpm.version, record, id, j);
      r := InsertPiece(lpm, prefixes[j], record, id, ss, more, s.blocks[j]);
      if r.Err? {
        return;
      }
      ComponentsGrow(log, s, id, j);
      more := more + {Entry(s.blocks[j], id)};
    }
    return Ok(());
  }

  lemma PieceKept(before: map<Bits, Candidate>, after: map<Bits, Candidate>, log: set<Entry>, ss: seq<Source>, v: Version,
                  record: Bounds, id: Word, b: Block)
    requires ValidSources(ss) && EntryFits(ss, v, Entry(b, id)) && true == Keeps(before, log, ss, v)
    requires ValidBounds(record) && record.version == v && Spans(ss[id - 1], record)
    requires after == before[KeyOf(b, v) := Lesser(before, KeyOf(b, v), Candidate(id, SpanWidth(record.start, record.end)))]
    ensures true == Keeps(after, log + {Entry(b, id)}, ss, v)
  {
    RecordWidth(ss, v, record, id);
    KeepsOneMore(before, log, ss, v, Entry(b, id));
  }

  method InsertPiece(lpm: Builder<Candidate>, piece: Piece, record: Bounds, id: Word, ghost ss: seq<Source>, ghost log: set<Entry>, ghost b: Block)
    returns (r: TrieBuilder.Result<()>)
    requires ValidSources(ss) && EntryFits(ss, lpm.version, Entry(b, id)) && piece == PieceOf(b, Width(lpm.version))
    requires ValidBounds(record) && record.version == lpm.version && Spans(ss[id - 1], record)
    requires true == Ready(lpm, log, ss) && !IsMapped(lpm.version, b.base)
    modifies lpm
    ensures r.Err? ==> |old(lpm.nodes)| + 2 > MAX_UINT32
    ensures r.Ok? ==> |lpm.nodes| <= |old(lpm.nodes)| + 2
    ensures r.Ok? ==> true == Ready(lpm, log + {Entry(b, id)}, ss)
  {
    var prefix := Cidr(lpm.version, AddressOf(piece.base, lpm.version), piece.length);
    NumOfAddress(piece.base, lpm.version);
    PlainBits(prefix.address, lpm.version, piece.length);
    r := SelectionLPM.Insert(lpm, prefix, id, record.start, record.end);
    if r.Ok? {
      PieceKept(old(lpm.Stored()), lpm.Stored(), log, ss, lpm.version, record, id, b);
    }
  }

  ghost predicate CompleteUpTo(log: set<Entry>, ss: seq<Source>, v: Version, n: nat)
    requires ValidSources(ss)
  {
    forall b, id: nat :: id <= n && HasEntry(ss, v, b, id) ==> Entry(b, id) in log
  }

  lemma OneMoreRecord(log: set<Entry>, ss: seq<Source>, v: Version, n: nat)
    requires ValidSources(ss) && n < |ss| && CompleteUpTo(log, ss, v, n)
    ensures CompleteUpTo(log + Components(ss[n], n + 1, |ss[n].blocks|), ss, v, n + 1)
    ensures ss[n].version != v ==> CompleteUpTo(log, ss, v, n + 1)
  {
    var more := log + Components(ss[n], n + 1, |ss[n].blocks|);
    forall b, id: nat | id <= n + 1 && HasEntry(ss, v, b, id)
      ensures Entry(b, id) in more
    {
      if id == n + 1 {
        var j :| 0 <= j < |ss[n].blocks| && ss[n].blocks[j] == b;
      }
    }
  }

  /** The bytes hold a trie with the best record of every component of the family. */
  ghost predicate IsSelector(value: seq<Byte>, ss: seq<Source>, v: Version, nodes: seq<Node>, t: Tree<Candidate>, log: set<Entry>)
    requires ValidSources(ss)
  {
    && IsEncoding(value, nodes, v) && ValidTree(nodes, v, t) && NoZeroIds(t)
    && Keeps(Contents(t), log, ss, v) && Complete(log, ss, v)
  }

  lemma {:induction false} KeptIdsNotZero(t: Tree<Candidate>)
    requires IsPatricia(t) && forall k :: k in Contents(t) ==> Contents(t)[k].id != 0
    ensures NoZeroIds(t)
  {
    if t.Node? {
      FindIsContents(t, t.key);
      forall b: Bit, k | k in Contents(Child(t, b))
        ensures Contents(Child(t, b))[k].id != 0
      {
        FindIsContents(Child(t, b), k);
        FindExtends(Child(t, b), t.key + [b], k);
        StemNext(t.key, b, k);
        FindIsContents(t, k);
      }
      assert Child(t, 0) == t.zero && Child(t, 1) == t.one;
      KeptIdsNotZero(t.zero);
      KeptIdsNotZero(t.one);
    }
  }

  lemma KeptHasIds(t: Tree<Candidate>, log: set<Entry>, ss: seq<Source>, v: Version)
    requires ValidSources(ss) && IsPatricia(t) && true == Keeps(Contents(t), log, ss, v)
    ensures true == NoZeroIds(t)
  {
    forall k | k in Contents(t)
      ensures Contents(t)[k].id != 0
    {
      assert KeptFrom(Contents(t)[k], log, ss, v, k);
    }
    KeptIdsNotZero(t);
  }

  /** How many CIDR pieces the family's first n records have. */
  ghost function PieceCount(ss: seq<Source>, v: Version, n: nat): nat
    requires n <= |ss|
  {
    if n == 0 then 0 else PieceCount(ss, v, n - 1) + if ss[n - 1].version == v then |ss[n - 1].blocks| else 0
  }

  /** At most 254 pieces for each record. */
  lemma {:induction false} PiecesAreFew(rs: seq<Bounds>, v: Version, n: nat)
    requires AllBounds(rs) && n <= |rs|
    ensures PieceCount(SourcesOf(rs), v, n) <= 254 * n
  {
    if n > 0 {
      var r := rs[n - 1];
      PiecesAreFew(rs, v, n - 1);
      assert ValidBounds(r) && SourcesOf(rs)[n - 1] == SourceOf(r);
      NumIsKeyValue(r.end, r.version);
      GreedyIsShort(Num(r.start, r.version), Num(r.end, r.version), Width(r.version));
    }
  }

  lemma {:induction false} PieceCountGrows(ss: seq<Source>, v: Version, n: nat, m: nat)
    requires n <= m <= |ss|
    ensures PieceCount(ss, v, n) <= PieceCount(ss, v, m)
  {
    if n < m {
      PieceCountGrows(ss, v, n, m - 1);
    }
  }

  /** The first n records are in, with at most two nodes for each of their pieces. */
  ghost predicate Taken(lpm: Builder<Candidate>, log: set<Entry>, ss: seq<Source>, n: nat)
    requires ValidSources(ss) && n <= |ss|
    reads lpm
  {
    && Ready(lpm, log, ss) && CompleteUpTo(log, ss, lpm.version, n)
    && |lpm.nodes| <= 2 * PieceCount(ss, lpm.version, n) + 1
  }

  method InsertRecord(lpm: Builder<Candidate>, rs: seq<Bounds>, i: nat, ghost ss: seq<Source>, ghost before: set<Entry>)
    returns (r: TrieBuilder.Result<()>, ghost log: set<Entry>)
    requires AllBounds(rs) && i < |rs| && ss == SourcesOf(rs) && true == Taken(lpm, before, ss, i) && PlainSource(ss[i])
    modifies lpm
    ensures r.Err? ==> 2 * PieceCount(ss, lpm.version, i + 1) + 1 > MAX_UINT32
    ensures r.Ok? ==> true == Taken(lpm, log, ss, i + 1)
  {
    log := before;
    OneMoreRecord(log, ss, lpm.version, i);
    if rs[i].version != lpm.version {
      return Ok(()), log;
    }
    r := InsertRange(lpm, rs[i], i + 1, rs, ss, log);
    log := log + Components(ss[i], i + 1, |ss[i].blocks|);
  }

  /** Every record of the family, in ID order. */
  method InsertRecords(lpm: Builder<Candidate>, rs: seq<Bounds>, ghost ss: seq<Source>)
    returns (r: TrieBuilder.Result<()>, ghost log: set<Entry>)
    requires AllBounds(rs) && ss == SourcesOf(rs) && true == Taken(lpm, {}, ss, 0) && AllPlain(ss)
    modifies lpm
    ensures r.Err? ==> 2 * PieceCount(ss, lpm.version, |ss|) + 1 > MAX_UINT32
    ensures r.Ok? ==> true == Taken(lpm, log, ss, |ss|)
  {
    log := {};
    for i := 0 to |rs|
      invariant true == Taken(lpm, log, ss, i)
    {
      PieceCountGrows(ss, lpm.version, i + 1, |ss|);
      assert PlainSource(ss[i]);
      r, log := InsertRecord(lpm, rs, i, ss, log);
      if r.Err? {
        return;
      }
    }
    r := Ok(());
  }

  /** The bytes are such a selector. */
  ghost predicate IsWritten(value: seq<Byte>, ss: seq<Source>, v: Version)
    requires ValidSources(ss)
  {
    exists nodes, t, log :: IsSelector(value, ss, v, nodes, t, log)
  }

  /** One family's selector over all records. Nothing but a full node table prevents it, and
      that takes half as many pieces as there are node numbers. */
  method WriteSelectionLPM(rs: seq<Bounds>, v: Version) returns (r: Option<seq<Byte>>)
    requires AllBounds(rs) && AllClear(rs)
    ensures r.None? ==> 2 * PieceCount(SourcesOf(rs), v, |rs|) + 1 > MAX_UINT32
    ensures r.Some? ==> IsWritten(r.value, SourcesOf(rs), v)
  {
    var lpm := new Builder(v, KeepLess);
    var inserted;
    ghost var log;
    ClearSources(rs);
    inserted, log := InsertRecords(lpm, rs, SourcesOf(rs));
    if inserted.Err? {
      return None;
    }
    KeptHasIds(lpm.tree, log, SourcesOf(rs), v);
    var value := SelectionLPM.Encode(lpm);
    assert true == IsSelector(value, SourcesOf(rs), v, lpm.nodes, lpm.tree, log);
    r := Some(value);
  }

  /** A lookup in a written selector finds the narrowest record that contains the address,
      unmapped. */
  method LookupRange(value: seq<Byte>, a: Address, v: Version, ghost ss: seq<Source>) returns (id: Word)
    requires ValidSources(ss) && IsWritten(value, ss, v)
    ensures true == IsNarrowest(ss, v, Num(Unmapped(a, v), v), id)
  {
    ghost var q := Unmapped(a, v);
    ghost var nodes, t, log :| IsSelector(value, ss, v, nodes, t, log);
    HeaderOfEncoding(value, nodes, v);
    var found := SelectionLPM.Lookup(value, a, v, nodes, t);
    id := found.id;
    SelectIsBest(t, Key(q, v, Width(v)), v);
    BestIsNarrowest(Contents(t), log, ss, v, q, Select(t, Key(q, v, Width(v)), v, None));
  }
}
