/** The allocation and geofeed selectors: a Patricia trie from CIDR components to the best
    source record that has that component, flattened to bytes and walked there. */
module SelectionLPM {
  import opened Bytes
  import opened Words
  import opened Addresses
  import opened Patricia
  import opened TrieBuilder

  const HEADER_SIZE := 16
  const MAGIC: seq<Byte> := [83, 76, 80, 50]  // "SLP2"

  datatype Candidate = Candidate(id: Word, width: Address)
  type Node = Record<Candidate>

  function AddressBytes(v: Version): nat {
    Width(v) / 8
  }

  function NodeSize(v: Version): nat {
    if v.V4? then 21 else 45
  }

  /** Within one component: the narrower source range, then the lower record ID. */
  predicate CandidateLess(a: Candidate, b: Candidate) {
    LexLess(a.width, b.width) || (a.width == b.width && a.id < b.id)
  }

  /** A component may be inserted again; the lesser candidate stays. */
  function KeepLess(kept: Candidate, again: Candidate): Option<Candidate> {
    Some(if CandidateLess(again, kept) then again else kept)
  }

  /** The better of a candidate and the one already at its component. */
  function Lesser(stored: map<Bits, Candidate>, k: Bits, c: Candidate): Candidate {
    if k in stored && !CandidateLess(c, stored[k]) then stored[k] else c
  }

  /** The width a record is ranked by: end minus start modulo 2^128, whatever the two are. */
  function SpanWidth(start: Address, end: Address): Address {
    ToBigEndian((BigEndian(end) - BigEndian(start)) % Pow2(8 * |start|), 16)
  }

  lemma WidthIsSpan(start: Address, end: Address, width: Address)
    requires BigEndian(width) == (BigEndian(end) - BigEndian(start)) % Pow2(8 * |width|)
    ensures width == SpanWidth(start, end)
  {
    FromBigEndianInverse(width);
  }

  /** For a range of one version, in order, that is the difference of the two numbers. */
  lemma SpanOfRange(start: Address, end: Address, v: Version)
    requires Canonical(start, v) && Canonical(end, v) && Num(start, v) <= Num(end, v)
    ensures SpanWidth(start, end) == AddressOf(Num(end, v) - Num(start, v), v)
  {
    var width := SpanWidth(start, end);
    ToBigEndianInverse((BigEndian(end) - BigEndian(start)) % Pow2(8 * |start|), |start|);
    WidthOfRange(start, end, width, v);
    AddressOfNum(width, v);
  }

  /** The range builder's Insert: a component of record id, which spans start to end. */
  method Insert(b: Builder<Candidate>, prefix: Cidr, id: Word, start: Address, end: Address) returns (r: Result<()>)
    requires b.Valid() && ValidCidr(prefix) && b.merge == KeepLess
    modifies b
    ensures r.Ok? ==> b.Valid() && prefix.version == b.version && id != 0 && |b.nodes| <= |old(b.nodes)| + 2
    ensures r.Ok? ==>
      var k := StoredBits(prefix.address, b.version, prefix.length);
      b.Stored() == old(b.Stored())[k := Lesser(old(b.Stored()), k, Candidate(id, SpanWidth(start, end)))]
    ensures r.Err? ==> match r.error
      case WrongFamily => prefix.version != b.version
      case NoRecordID => id == 0
      case TooManyNodes => |old(b.nodes)| + 2 > MAX_UINT32
      case _ => false
  {
    if prefix.version != b.version {
      return Err(WrongFamily);
    }
    if id == 0 {
      return Err(NoRecordID);
    }
    var width := RangeWidth(start, end);
    WidthIsSpan(start, end, width);
    r := b.Insert(prefix, Candidate(id, width));
  }

  // ---------- what a walk chooses ----------

  /** A record met on the walk: its range width, the length of the component it was met at. */
  datatype Choice = Choice(width: seq<Byte>, length: nat, id: Word)

  /** The narrower range, then the longer component, then the lower record ID. */
  predicate ChoiceLess(a: Choice, b: Choice) {
    || LexLess(a.width, b.width)
    || (a.width == b.width && (a.length > b.length || (a.length == b.length && a.id < b.id)))
  }

  lemma ChoiceOrder(a: Choice, b: Choice, c: Choice)
    ensures !ChoiceLess(a, a)
    ensures ChoiceLess(a, b) || a == b || ChoiceLess(b, a)
    ensures ChoiceLess(a, b) && ChoiceLess(b, c) ==> ChoiceLess(a, c)
  {
    LexIrreflexive(a.width);
    LexTotal(a.width, b.width);
    if LexLess(a.width, b.width) && LexLess(b.width, c.width) {
      LexTransitive(a.width, b.width, c.width);
    }
  }

  function ChoiceAt(k: Bits, c: Candidate, v: Version): Choice {
    Choice(Tail(c.width, v), |k|, c.id)
  }

  function Better(best: Option<Choice>, c: Choice): Option<Choice> {
    if best.None? || ChoiceLess(c, best.value) then Some(c) else best
  }

  /** The walk's running best, as a function of the trie. */
  function Select(t: Tree<Candidate>, q: Bits, v: Version, best: Option<Choice>): Option<Choice> {
    if t.Empty? || !(t.key <= q) then best else
      var best' := if t.payload.Some? then Better(best, ChoiceAt(t.key, t.payload.value, v)) else best;
      if |t.key| == |q| then best' else Select(Child(t, q[|t.key|]), q, v, best')
  }

  /** "Not better than" chains: r is at least as good as b, and b as c. */
  lemma LeastTransitive(r: Choice, b: Choice, c: Choice)
    requires !ChoiceLess(b, r) && !ChoiceLess(c, b)
    ensures !ChoiceLess(c, r)
  {
    ChoiceOrder(b, r, c);
    ChoiceOrder(c, b, r);
    ChoiceOrder(r, b, c);
    ChoiceOrder(c, r, c);
    ChoiceOrder(r, c, r);
    ChoiceOrder(b, c, r);
  }

  function Fold(best: Option<Choice>, cs: seq<Choice>): Option<Choice>
    decreases |cs|
  {
    if cs == [] then best else Fold(Better(best, cs[0]), cs[1..])
  }

  /** Keeping the better of two, over and over, keeps the best of all. */
  lemma {:induction false} FoldIsLeast(best: Option<Choice>, cs: seq<Choice>)
    ensures var r := Fold(best, cs);
      && (r.None? <==> best.None? && cs == [])
      && (r.Some? ==> r == best || r.value in cs)
      && (r.Some? && best.Some? ==> !ChoiceLess(best.value, r.value))
      && (r.Some? ==> forall c :: c in cs ==> !ChoiceLess(c, r.value))
    decreases |cs|
  {
    if cs != [] {
      var c := cs[0];
      var b := Better(best, c);
      FoldIsLeast(b, cs[1..]);
      var r := Fold(best, cs).value;
      ChoiceOrder(c, c, c);
      LeastTransitive(r, b.value, c);
      if best.Some? {
        ChoiceOrder(best.value, c, best.value);
        LeastTransitive(r, b.value, best.value);
      }
    } else if best.Some? {
      ChoiceOrder(best.value, best.value, best.value);
    }
  }

  /** The choices met on the walk towards q. */
  function Choices(t: Tree<Candidate>, q: Bits, v: Version): seq<Choice> {
    if t.Empty? || !(t.key <= q) then []
    else if |t.key| == |q| then OwnChoice(t, v)
    else OwnChoice(t, v) + Choices(Child(t, q[|t.key|]), q, v)
  }

  function OwnChoice(t: Tree<Candidate>, v: Version): seq<Choice>
    requires t.Node?
  {
    if t.payload.Some? then [ChoiceAt(t.key, t.payload.value, v)] else []
  }

  lemma {:induction false} SelectIsFold(t: Tree<Candidate>, q: Bits, v: Version, best: Option<Choice>)
    ensures Select(t, q, v, best) == Fold(best, Choices(t, q, v))
  {
    if t.Node? && t.key <= q {
      var best' := if t.payload.Some? then Better(best, ChoiceAt(t.key, t.payload.value, v)) else best;
      if |t.key| < |q| {
        var c := Child(t, q[|t.key|]);
        SelectIsFold(c, q, v, best');
        if t.payload.Some? {
          assert Choices(t, q, v)[1..] == Choices(c, q, v);
        } else {
          assert Choices(t, q, v) == Choices(c, q, v);
        }
      }
    }
  }

  lemma {:induction false} ChoicesFollowChain(t: Tree<Candidate>, q: Bits, v: Version)
    requires IsPatricia(t)
    ensures |Choices(t, q, v)| == |Chain(t, q)|
    ensures forall i :: 0 <= i < |Chain(t, q)| ==>
      Find(t, Chain(t, q)[i]).Some? && Choices(t, q, v)[i] == ChoiceAt(Chain(t, q)[i], Find(t, Chain(t, q)[i]).value, v)
  {
    if t.Node? && t.key <= q && |t.key| < |q| {
      var b := q[|t.key|];
      var c := Child(t, b);
      ChoicesFollowChain(c, q, v);
      ChainIncreases(c, q, t.key + [b]);
      forall i | 0 <= i < |Chain(c, q)|
        ensures Find(t, Chain(c, q)[i]) == Find(c, Chain(c, q)[i])
      {
        StemNext(t.key, b, Chain(c, q)[i]);
      }
    }
  }

  ghost predicate IsCandidate(stored: map<Bits, Candidate>, q: Bits, v: Version, c: Choice) {
    exists k :: k in stored && k <= q && c == ChoiceAt(k, stored[k], v)
  }

  /** r is the best choice among all stored components that contain the address. */
  ghost predicate IsBest(stored: map<Bits, Candidate>, q: Bits, v: Version, r: Option<Choice>) {
    match r
    case None => forall k :: k in stored ==> !(k <= q)
    case Some(c) =>
      && IsCandidate(stored, q, v, c)
      && forall k :: k in stored && k <= q ==> !ChoiceLess(ChoiceAt(k, stored[k], v), c)
  }

  /** Walking down the trie chooses the best among everything stored. */
  lemma SelectIsBest(t: Tree<Candidate>, q: Bits, v: Version)
    requires IsPatricia(t)
    ensures IsBest(Contents(t), q, v, Select(t, q, v, None))
  {
    var chain, cs, r := Chain(t, q), Choices(t, q, v), Select(t, q, v, None);
    SelectIsFold(t, q, v, None);
    FoldIsLeast(None, cs);
    ChoicesFollowChain(t, q, v);
    ChainIsExact(t, q);
    forall i | 0 <= i < |chain|
      ensures chain[i] in Contents(t) && cs[i] == ChoiceAt(chain[i], Contents(t)[chain[i]], v)
    {
      FindIsContents(t, chain[i]);
    }
    forall k | k in Contents(t) && k <= q
      ensures r.Some? && !ChoiceLess(ChoiceAt(k, Contents(t)[k], v), r.value)
    {
      assert k in chain;
      var i :| 0 <= i < |chain| && chain[i] == k;
      assert cs[i] in cs;
    }
    if r.Some? {
      var i :| 0 <= i < |cs| && cs[i] == r.value;
      assert chain[i] in chain;
    }
  }

  // ---------- encoding ----------

  function IdOf(n: Node): Word {
    if n.payload.None? then 0 else n.payload.value.id
  }

  function WidthOf(n: Node): Address {
    if n.payload.None? then ZERO_ADDRESS else n.payload.value.width
  }

  predicate Fits(n: Node) {
    n.length < 256 && n.zero <= MAX_UINT32 && n.one <= MAX_UINT32
  }

  predicate Encodable(nodes: seq<Node>) {
    1 <= |nodes| <= MAX_UINT32 && forall i :: 0 <= i < |nodes| ==> Fits(nodes[i])
  }

  function HeaderBytes(v: Version, nodeCount: Word): (bs: seq<Byte>)
    ensures |bs| == HEADER_SIZE
  {
    MAGIC + [VersionByte(v), 0, 0, 0] + PutWord(nodeCount) + [0, 0, 0, 0]
  }

  function NodeBytes(n: Node, v: Version): (bs: seq<Byte>)
    requires Fits(n)
    ensures |bs| == NodeSize(v)
  {
    Tail(n.prefix, v) + [n.length] + PutWord(n.zero) + PutWord(n.one) + PutWord(IdOf(n)) + Tail(WidthOf(n), v)
  }

  ghost function NodeCells(nodes: seq<Node>, v: Version): (cells: seq<seq<Byte>>)
    requires Encodable(nodes)
    ensures |cells| == |nodes| && AllOfSize(cells, NodeSize(v))
  {
    seq(|nodes|, i requires 0 <= i < |nodes| && Encodable(nodes) => NodeBytes(nodes[i], v))
  }

  /** The first `index` node cells are in the buffer. */
  ghost predicate Written(value: seq<Byte>, header: seq<Byte>, size: nat, cells: seq<seq<Byte>>, index: nat)
    requires index <= |cells|
  {
    && |header| == HEADER_SIZE && AllOfSize(cells, size)
    && |value| == HEADER_SIZE + size * |cells|
    && Layout(value, header, size, cells[..index], |value|, [])
  }

  ghost predicate IsEncoding(value: seq<Byte>, nodes: seq<Node>, v: Version) {
    && Encodable(nodes)
    && Written(value, HeaderBytes(v, |nodes|), NodeSize(v), NodeCells(nodes, v), |nodes|)
  }

  /** Every array position is a tree node, so its fields fit their bytes. */
  lemma {:induction false} HeldFields(nodes: seq<Node>, v: Version, t: Tree<Candidate>, r: nat)
    requires Holds(nodes, v, t) && r in Refs(t) && |nodes| <= MAX_UINT32
    ensures 1 <= r <= |nodes| && Fits(nodes[r - 1])
  {
    if r in Refs(t.zero) {
      HeldFields(nodes, v, t.zero, r);
    } else if r in Refs(t.one) {
      HeldFields(nodes, v, t.one, r);
    }
  }

  lemma ValidIsEncodable(nodes: seq<Node>, v: Version, t: Tree<Candidate>)
    requires ValidTree(nodes, v, t)
    ensures Encodable(nodes)
  {
    assert t.ref in Refs(t);
    forall i | 0 <= i < |nodes|
      ensures Fits(nodes[i])
    {
      HeldFields(nodes, v, t, i + 1);
    }
  }

  method WriteHeader(encoded: array<Byte>, header: seq<Byte>, size: nat, ghost cells: seq<seq<Byte>>)
    requires |header| == HEADER_SIZE && AllOfSize(cells, size)
    requires encoded.Length == HEADER_SIZE + size * |cells|
    modifies encoded
    ensures true == Written(encoded[..], header, size, cells, 0)
  {
    CopyInto(encoded, 0, header);
    assert encoded[..][0..16] == encoded[0..16];
  }

  method WriteNode(encoded: array<Byte>, header: seq<Byte>, size: nat, cell: seq<Byte>, ghost cells: seq<seq<Byte>>, index: nat)
    requires index < |cells| && cell == cells[index]
    requires true == Written(encoded[..], header, size, cells, index)
    modifies encoded
    ensures true == Written(encoded[..], header, size, cells, index + 1)
  {
    ghost var before := encoded[..];
    StrideMonotone(size, index, |cells|);
    CopyInto(encoded, HEADER_SIZE + size * index, cell);
    LayoutNode(before, encoded[..], header, size, cells[..index], cell, |before|, []);
    assert cells[..index + 1] == cells[..index] + [cells[index]];
  }

  method WriteAll(encoded: array<Byte>, header: seq<Byte>, nodes: seq<Node>, v: Version)
    requires Encodable(nodes)
    requires true == Written(encoded[..], header, NodeSize(v), NodeCells(nodes, v), 0)
    modifies encoded
    ensures true == Written(encoded[..], header, NodeSize(v), NodeCells(nodes, v), |nodes|)
  {
    ghost var cells := NodeCells(nodes, v);
    for index := 0 to |nodes|
      invariant true == Written(encoded[..], header, NodeSize(v), cells, index)
    {
      WriteNode(encoded, header, NodeSize(v), NodeBytes(nodes[index], v), cells, index);
    }
  }

  method Encode(b: Builder<Candidate>) returns (value: seq<Byte>)
    requires b.Valid()
    ensures true == IsEncoding(value, b.nodes, b.version)
  {
    var nodes := b.nodes;
    ValidIsEncodable(nodes, b.version, b.tree);
    var encoded := new Byte[HEADER_SIZE + NodeSize(b.version) * |nodes|];
    var header := HeaderBytes(b.version, |nodes|);
    WriteHeader(encoded, header, NodeSize(b.version), NodeCells(nodes, b.version));
    WriteAll(encoded, header, nodes, b.version);
    return encoded[..];
  }

  // ---------- lookup ----------

  datatype Decoded = Decoded(prefix: seq<Byte>, length: Byte, zero: Word, one: Word, id: Word, width: seq<Byte>)

  function DecodeCell(cell: seq<Byte>, v: Version): Decoded
    requires |cell| == NodeSize(v)
  {
    var a := AddressBytes(v);
    Decoded(cell[..a], cell[a], GetWord(cell[a + 1..a + 5]), GetWord(cell[a + 5..a + 9]),
            GetWord(cell[a + 9..a + 13]), cell[a + 13..])
  }

  lemma DecodesCell(n: Node, v: Version)
    requires Fits(n)
    ensures DecodeCell(NodeBytes(n, v), v) ==
            Decoded(Tail(n.prefix, v), n.length, n.zero, n.one, IdOf(n), Tail(WidthOf(n), v))
  {
    var bs, a := NodeBytes(n, v), AddressBytes(v);
    assert bs[..a] == Tail(n.prefix, v);
    assert bs[a + 1..a + 5] == PutWord(n.zero);
    assert bs[a + 5..a + 9] == PutWord(n.one);
    assert bs[a + 9..a + 13] == PutWord(IdOf(n));
    assert bs[a + 13..] == Tail(WidthOf(n), v);
    WordRoundTrip(n.zero);
    WordRoundTrip(n.one);
    WordRoundTrip(IdOf(n));
  }

  function NodeOffset(v: Version, index: nat): nat {
    HEADER_SIZE + NodeSize(v) * index
  }

  /** Reading a node back from the bytes gives the node that was written. */
  lemma DecodesNode(value: seq<Byte>, nodes: seq<Node>, v: Version, i: nat)
    requires IsEncoding(value, nodes, v) && i < |nodes|
    ensures var o := NodeOffset(v, i);
      && o + NodeSize(v) <= |value|
      && DecodeCell(value[o..o + NodeSize(v)], v) ==
         Decoded(Tail(nodes[i].prefix, v), nodes[i].length, nodes[i].zero, nodes[i].one, IdOf(nodes[i]), Tail(WidthOf(nodes[i]), v))
  {
    assert CellAt(value, NodeOffset(v, i), NodeCells(nodes, v)[..|nodes|][i]);
    DecodesCell(nodes[i], v);
  }

  datatype LookupError = BadHeader | NoRoot | BadLength
  datatype LookupResult = Found(id: Word) | Failed(error: LookupError)

  predicate HeaderAccepted(value: seq<Byte>, v: Version) {
    && |value| >= HEADER_SIZE && value[..4] == MAGIC && value[4] == VersionByte(v)
    && var nodeCount: nat := GetWord(value[8..12]);
    nodeCount != 0 && |value| == HEADER_SIZE + NodeSize(v) * nodeCount
  }

  lemma HeaderOfEncoding(value: seq<Byte>, nodes: seq<Node>, v: Version)
    requires IsEncoding(value, nodes, v)
    ensures HeaderAccepted(value, v)
  {
    var header := HeaderBytes(v, |nodes|);
    assert CellAt(value, 0, header);
    assert value[0..16] == header;
    SubSlice(value, 0, 16, 0, 4);
    SubSlice(value, 0, 16, 4, 5);
    SubSlice(value, 0, 16, 8, 12);
    assert value[4] == value[4..5][0] == header[4..5][0];
    assert header[8..12] == PutWord(|nodes|);
    WordRoundTrip(|nodes|);
  }

  /** No node holds record zero: Insert refuses it. */
  ghost predicate NoZeroIds(t: Tree<Candidate>) {
    t.Node? ==> (t.payload.Some? ==> t.payload.value.id != 0) && NoZeroIds(t.zero) && NoZeroIds(t.one)
  }

  lemma SelectStep(cur: Tree<Candidate>, q: Bits, v: Version, best: Option<Choice>)
    requires cur.Node? && cur.key <= q
    ensures var best' := if cur.payload.Some? then Better(best, ChoiceAt(cur.key, cur.payload.value, v)) else best;
      Select(cur, q, v, best) == if |cur.key| == |q| then best' else Select(Child(cur, q[|cur.key|]), q, v, best')
  {
  }

  /** Looks an address up in the encoded trie; zero means no range contains it. The ghost
      arguments say which trie the bytes hold; a value whose header is accepted is taken to
      hold it. */
  method Lookup(value: seq<Byte>, query: Address, v: Version, ghost nodes: seq<Node>, ghost t: Tree<Candidate>)
    returns (r: LookupResult)
    requires HeaderAccepted(value, v) ==>
      true == IsEncoding(value, nodes, v) && t.Node? && t.ref == 1 && true == Holds(nodes, v, t) && true == NoZeroIds(t)
    ensures r.Failed? <==> !HeaderAccepted(value, v)
    ensures r.Found? ==>
      var best := Select(t, Key(Unmapped(query, v), v, Width(v)), v, None);
      r.id == if best.None? then 0 else best.value.id
  {
    if |value| < HEADER_SIZE || value[..4] != MAGIC || value[4] != VersionByte(v) {
      return Failed(BadHeader);
    }
    var nodeCount: nat := GetWord(value[8..12]);
    if nodeCount == 0 {
      return Failed(NoRoot);
    }
    if |value| != HEADER_SIZE + NodeSize(v) * nodeCount {
      return Failed(BadLength);
    }
    var best := Walk(value, Unmapped(query, v), v, nodes, t);
    return Found(if best.None? then 0 else best.value.id);
  }

  method Walk(value: seq<Byte>, query: Address, v: Version, ghost nodes: seq<Node>, ghost t: Tree<Candidate>)
    returns (best: Option<Choice>)
    requires true == IsEncoding(value, nodes, v)
    requires t.Node? && t.ref == 1 && true == Holds(nodes, v, t) && true == NoZeroIds(t)
    ensures best == Select(t, Key(query, v, Width(v)), v, None)
  {
    ghost var q := Key(query, v, Width(v));
    ghost var cur := t;
    var current := 0;
    best := None;
    while true
      invariant cur.Node? && current == cur.ref - 1
      invariant true == Holds(nodes, v, cur)
      invariant true == NoZeroIds(cur)
      invariant Select(t, q, v, None) == Select(cur, q, v, best)
      decreases cur
    {
      DecodesNode(value, nodes, v, current);
      var offset := NodeOffset(v, current);
      var node := DecodeCell(value[offset..offset + NodeSize(v)], v);
      var matches := AddressMatches(query, node.prefix, v, node.length);
      assert matches <==> cur.key <= q;
      if !matches {
        return;
      }
      SelectStep(cur, q, v, best);
      if node.id != 0 {
        best := Better(best, Choice(node.width, node.length, node.id));
      }
      if node.length >= Width(v) {
        return;
      }
      var branch := BitAt(query[Offset(v)..], node.length);
      var next := if branch == 0 then node.zero else node.one;
      cur := Child(cur, branch);
      if next == 0 {
        return;
      }
      current := next - 1;
    }
  }
}
