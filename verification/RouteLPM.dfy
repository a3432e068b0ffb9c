/** The route selector: a Patricia trie from prefixes to route-ID lists, flattened to bytes
    and walked there. */
module RouteLPM {
  import opened Bytes
  import opened Words
  import opened Addresses
  import opened Patricia
  import opened TrieBuilder

  const HEADER_SIZE := 16
  const NODE_SIZE := 33
  const MAGIC: seq<Byte> := [77, 76, 80, 50]  // "MLP2"

  type Ids = seq<Word>
  type Node = Record<Ids>

  /** A prefix may be inserted once. */
  function Refuse(kept: Ids, again: Ids): Option<Ids> {
    None
  }

  function IdsOf(n: Node): Ids {
    if n.payload.None? then [] else n.payload.value
  }

  /** The IDs of the first n nodes in array order. */
  function IdsUpTo(nodes: seq<Node>, n: nat): Ids
    requires n <= |nodes|
  {
    if n == 0 then [] else IdsUpTo(nodes, n - 1) + IdsOf(nodes[n - 1])
  }

  /** The tail of the encoding: every node's IDs in array order. */
  function AllIds(nodes: seq<Node>): Ids {
    IdsUpTo(nodes, |nodes|)
  }

  lemma {:induction false} IdsFit(nodes: seq<Node>, i: nat, n: nat)
    requires i <= n <= |nodes|
    ensures IdsUpTo(nodes, i) <= IdsUpTo(nodes, n)
  {
    if i < n {
      IdsFit(nodes, i, n - 1);
    }
  }

  /** Where the IDs of node i begin among all IDs. */
  function IdOffset(nodes: seq<Node>, i: nat): (offset: nat)
    requires i < |nodes|
  {
    |IdsUpTo(nodes, i)|
  }

  lemma NodeIds(nodes: seq<Node>, i: nat)
    requires i < |nodes|
    ensures IdOffset(nodes, i) + |IdsOf(nodes[i])| == |IdsUpTo(nodes, i + 1)| <= |AllIds(nodes)|
    ensures forall j :: 0 <= j < |IdsOf(nodes[i])| ==> AllIds(nodes)[IdOffset(nodes, i) + j] == IdsOf(nodes[i])[j]
  {
    var start, ids, all, upTo := IdOffset(nodes, i), IdsOf(nodes[i]), AllIds(nodes), IdsUpTo(nodes, i + 1);
    IdsFit(nodes, i + 1, |nodes|);
    forall j | 0 <= j < |ids|
      ensures all[start + j] == ids[j]
    {
      assert upTo[start + j] == ids[j];
    }
  }

  predicate Encodable(nodes: seq<Node>) {
    && 1 <= |nodes| <= MAX_UINT32 && |AllIds(nodes)| <= MAX_UINT32
    && forall i :: 0 <= i < |nodes| ==> nodes[i].length < 256 && nodes[i].zero <= MAX_UINT32 && nodes[i].one <= MAX_UINT32
  }

  function HeaderBytes(v: Version, nodeCount: Word, idCount: Word): (bs: seq<Byte>)
    ensures |bs| == HEADER_SIZE
  {
    MAGIC + [VersionByte(v), 0, 0, 0] + PutWord(nodeCount) + PutWord(idCount)
  }

  function NodeBytes(n: Node, idOffset: nat): (bs: seq<Byte>)
    requires n.length < 256 && n.zero <= MAX_UINT32 && n.one <= MAX_UINT32
    requires idOffset <= MAX_UINT32 && |IdsOf(n)| <= MAX_UINT32
    ensures |bs| == NODE_SIZE
  {
    n.prefix + [n.length] + PutWord(n.zero) + PutWord(n.one) + PutWord(idOffset) + PutWord(|IdsOf(n)|)
  }

  ghost function NodeCells(nodes: seq<Node>): (cells: seq<seq<Byte>>)
    requires Encodable(nodes)
    ensures |cells| == |nodes| && AllOfSize(cells, NODE_SIZE)
  {
    seq(|nodes|, i requires 0 <= i < |nodes| && Encodable(nodes) => NodeCell(nodes, i))
  }

  function NodeCell(nodes: seq<Node>, i: nat): (cell: seq<Byte>)
    requires Encodable(nodes) && i < |nodes|
    ensures |cell| == NODE_SIZE
  {
    NodeIds(nodes, i);
    NodeBytes(nodes[i], IdOffset(nodes, i))
  }

  ghost function IdCells(ids: Ids): (cells: seq<seq<Byte>>)
    ensures |cells| == |ids| && AllOfSize(cells, 4)
  {
    seq(|ids|, i requires 0 <= i < |ids| => PutWord(ids[i]))
  }

  /** The first `index` node cells and the first `written` IDs are in the buffer. */
  ghost predicate Written(value: seq<Byte>, header: seq<Byte>, cells: seq<seq<Byte>>, all: Ids, index: nat, written: nat)
    requires index <= |cells| && written <= |all|
  {
    && |header| == HEADER_SIZE && AllOfSize(cells, NODE_SIZE)
    && |value| == HEADER_SIZE + NODE_SIZE * |cells| + 4 * |all|
    && Layout(value, header, NODE_SIZE, cells[..index], HEADER_SIZE + NODE_SIZE * |cells|, IdCells(all)[..written])
  }

  /** value is a header, the node cells in array order, then every ID. */
  ghost predicate IsEncoding(value: seq<Byte>, nodes: seq<Node>, v: Version) {
    && Encodable(nodes)
    && Written(value, HeaderBytes(v, |nodes|, |AllIds(nodes)|), NodeCells(nodes), AllIds(nodes), |nodes|, |AllIds(nodes)|)
  }

  datatype LookupError = BadHeader | NoRoot | BadLength | MissingNode | BadIds
  datatype LookupResult = Found(ids: Ids) | Failed(error: LookupError)

  datatype Decoded = Decoded(prefix: Address, length: Byte, zero: Word, one: Word, idOffset: Word, idCount: Word)

  function DecodeNode(value: seq<Byte>, index: nat): Decoded
    requires HEADER_SIZE + NODE_SIZE * index + NODE_SIZE <= |value|
  {
    var offset := HEADER_SIZE + NODE_SIZE * index;
    DecodeCell(value[offset..offset + NODE_SIZE])
  }

  function DecodeCell(cell: seq<Byte>): Decoded
    requires |cell| == NODE_SIZE
  {
    Decoded(cell[..16], cell[16], GetWord(cell[17..21]), GetWord(cell[21..25]),
            GetWord(cell[25..29]), GetWord(cell[29..33]))
  }

  lemma DecodesCell(n: Node, idOffset: nat)
    requires n.length < 256 && n.zero <= MAX_UINT32 && n.one <= MAX_UINT32
    requires idOffset <= MAX_UINT32 && |IdsOf(n)| <= MAX_UINT32
    ensures DecodeCell(NodeBytes(n, idOffset)) ==
            Decoded(n.prefix, n.length, n.zero, n.one, idOffset, |IdsOf(n)|)
  {
    var bs := NodeBytes(n, idOffset);
    assert bs == (n.prefix + [n.length]) + (PutWord(n.zero) + PutWord(n.one)) + (PutWord(idOffset) + PutWord(|IdsOf(n)|));
    assert bs[..16] == n.prefix;
    assert bs[17..21] == PutWord(n.zero);
    assert bs[21..25] == PutWord(n.one);
    assert bs[25..29] == PutWord(idOffset);
    assert bs[29..33] == PutWord(|IdsOf(n)|);
    WordRoundTrip(n.zero);
    WordRoundTrip(n.one);
    WordRoundTrip(idOffset);
    WordRoundTrip(|IdsOf(n)|);
  }

  lemma EncodedCell(value: seq<Byte>, nodes: seq<Node>, v: Version, i: nat)
    requires IsEncoding(value, nodes, v) && i < |nodes|
    ensures HEADER_SIZE + NODE_SIZE * i + NODE_SIZE <= |value|
    ensures value[HEADER_SIZE + NODE_SIZE * i..HEADER_SIZE + NODE_SIZE * i + NODE_SIZE] == NodeCell(nodes, i)
  {
    assert CellAt(value, HEADER_SIZE + NODE_SIZE * i, NodeCells(nodes)[..|nodes|][i]);
  }

  /** Reading a node back from the bytes gives the node that was written. */
  lemma DecodesNode(value: seq<Byte>, nodes: seq<Node>, v: Version, i: nat)
    requires IsEncoding(value, nodes, v) && i < |nodes|
    ensures HEADER_SIZE + NODE_SIZE * i + NODE_SIZE <= |value|
    ensures IdOffset(nodes, i) + |IdsOf(nodes[i])| <= |AllIds(nodes)|
    ensures DecodeNode(value, i) ==
            Decoded(nodes[i].prefix, nodes[i].length, nodes[i].zero, nodes[i].one, IdOffset(nodes, i), |IdsOf(nodes[i])|)
  {
    EncodedCell(value, nodes, v, i);
    NodeIds(nodes, i);
    DecodesCell(nodes[i], IdOffset(nodes, i));
    assert DecodeNode(value, i) == DecodeCell(NodeCell(nodes, i));
  }

  // ---------- how many IDs there are ----------

  ghost function TreeTotal(t: Tree<Ids>): nat {
    if t.Empty? then 0 else (if t.payload.Some? then |t.payload.value| else 0) + TreeTotal(t.zero) + TreeTotal(t.one)
  }

  /** An insertion adds its own IDs to the trie and takes none away. */
  lemma {:induction false} InsertAddsIds(t: Tree<Ids>, next: nat, k: Bits, ids: Ids)
    requires Inserted(t, next, k, ids, Refuse).Some?
    ensures TreeTotal(Inserted(t, next, k, ids, Refuse).value) == TreeTotal(t) + |ids|
  {
    if t.Node? && CommonLength(t.key, k) == |t.key| < |k| {
      InsertAddsIds(Child(t, k[|t.key|]), next, k, ids);
    }
  }

  /** The IDs of those of the first n array positions that are in a set. */
  ghost function TotalAt(nodes: seq<Node>, n: nat, refs: set<nat>): nat
    requires n <= |nodes|
  {
    if n == 0 then 0 else TotalAt(nodes, n - 1, refs) + if n in refs then |IdsOf(nodes[n - 1])| else 0
  }

  lemma {:induction false} TotalSum(nodes: seq<Node>, n: nat, a: set<nat>, b: set<nat>)
    requires n <= |nodes| && a !! b
    ensures TotalAt(nodes, n, a + b) == TotalAt(nodes, n, a) + TotalAt(nodes, n, b)
  {
    if n > 0 {
      TotalSum(nodes, n - 1, a, b);
    }
  }

  lemma {:induction false} TotalOfOne(nodes: seq<Node>, n: nat, r: nat)
    requires n <= |nodes| && 1 <= r <= |nodes|
    ensures TotalAt(nodes, n, {r}) == if r <= n then |IdsOf(nodes[r - 1])| else 0
  {
    if n > 0 {
      TotalOfOne(nodes, n - 1, r);
    }
  }

  lemma {:induction false} TotalOfNone(nodes: seq<Node>, n: nat)
    requires n <= |nodes|
    ensures TotalAt(nodes, n, {}) == 0
  {
    if n > 0 {
      TotalOfNone(nodes, n - 1);
    }
  }

  lemma {:induction false} TotalOfAll(nodes: seq<Node>, n: nat, refs: set<nat>)
    requires n <= |nodes| && forall r :: 1 <= r <= n ==> r in refs
    ensures TotalAt(nodes, n, refs) == |IdsUpTo(nodes, n)|
  {
    if n > 0 {
      TotalOfAll(nodes, n - 1, refs);
    }
  }

  lemma {:induction false} TotalOfTree(nodes: seq<Node>, v: Version, t: Tree<Ids>)
    requires Holds(nodes, v, t) && Distinct(t)
    ensures TotalAt(nodes, |nodes|, Refs(t)) == TreeTotal(t)
  {
    if t.Empty? {
      TotalOfNone(nodes, |nodes|);
    } else {
      var n := |nodes|;
      TotalOfTree(nodes, v, t.zero);
      TotalOfTree(nodes, v, t.one);
      TotalOfOne(nodes, n, t.ref);
      TotalSum(nodes, n, {t.ref}, Refs(t.zero));
      TotalSum(nodes, n, {t.ref} + Refs(t.zero), Refs(t.one));
    }
  }

  /** The array holds as many IDs as the trie. */
  lemma IdsOfTree(nodes: seq<Node>, v: Version, t: Tree<Ids>)
    requires ValidTree(nodes, v, t)
    ensures |AllIds(nodes)| == TreeTotal(t)
  {
    TotalOfTree(nodes, v, t);
    TotalOfAll(nodes, |nodes|, Refs(t));
  }

  // ---------- insertion ----------

  /** The route builder's Insert: a list without IDs is refused, and so is a prefix that is
      already there. */
  method Insert(b: Builder<Ids>, prefix: Cidr, ids: Ids) returns (r: Result<()>)
    requires b.Valid() && ValidCidr(prefix) && b.merge == Refuse
    modifies b
    ensures r.Ok? ==> b.Valid() && prefix.version == b.version && ids != [] && |b.nodes| <= |old(b.nodes)| + 2
    ensures r.Ok? ==>
      var k := StoredBits(prefix.address, b.version, prefix.length);
      k !in old(b.Stored()) && b.Stored() == old(b.Stored())[k := ids]
    ensures r.Ok? ==> TreeTotal(b.tree) == TreeTotal(old(b.tree)) + |ids|
    ensures r.Err? ==> match r.error
      case WrongFamily => prefix.version != b.version
      case NoRecordID => ids == []
      case Duplicate => prefix.version == b.version && StoredBits(prefix.address, b.version, prefix.length) in old(b.Stored())
      case TooManyNodes => |old(b.nodes)| + 2 > MAX_UINT32
      case _ => false
  {
    if prefix.version == b.version && ids == [] {
      return Err(NoRecordID);
    }
    ghost var t, next, k := b.tree, |b.nodes| + 1, if ValidCidr(prefix) && prefix.length <= Width(b.version) then StoredBits(prefix.address, b.version, prefix.length) else [];
    r := b.Insert(prefix, ids);
    if r.Ok? {
      InsertAddsIds(t, next, k, ids);
    }
  }

  // ---------- encoding ----------

  /** Every array position is a tree node, so its fields fit their bytes. */
  lemma {:induction false} HeldFields(nodes: seq<Node>, v: Version, t: Tree<Ids>, r: nat)
    requires Holds(nodes, v, t) && r in Refs(t)
    ensures 1 <= r <= |nodes|
    ensures nodes[r - 1].length <= Width(v) && nodes[r - 1].zero <= |nodes| && nodes[r - 1].one <= |nodes|
  {
    if r in Refs(t.zero) {
      HeldFields(nodes, v, t.zero, r);
    } else if r in Refs(t.one) {
      HeldFields(nodes, v, t.one, r);
    }
  }

  lemma ValidIsEncodable(nodes: seq<Node>, v: Version, t: Tree<Ids>)
    requires ValidTree(nodes, v, t) && |AllIds(nodes)| <= MAX_UINT32
    ensures Encodable(nodes)
  {
    assert t.ref in Refs(t);
    forall i | 0 <= i < |nodes|
      ensures nodes[i].length < 256 && nodes[i].zero <= MAX_UINT32 && nodes[i].one <= MAX_UINT32
    {
      HeldFields(nodes, v, t, i + 1);
    }
  }

  datatype EncodeResult = Encoded(value: seq<Byte>) | TooManyIds | ZeroId

  method CountIds(nodes: seq<Node>) returns (total: nat)
    ensures total == |AllIds(nodes)|
  {
    total := 0;
    for i := 0 to |nodes|
      invariant total == |IdsUpTo(nodes, i)|
    {
      total := total + |IdsOf(nodes[i])|;
    }
  }

  method WriteHeader(encoded: array<Byte>, header: seq<Byte>, ghost cells: seq<seq<Byte>>, ghost all: Ids)
    requires |header| == HEADER_SIZE && AllOfSize(cells, NODE_SIZE)
    requires encoded.Length == HEADER_SIZE + NODE_SIZE * |cells| + 4 * |all|
    modifies encoded
    ensures true == Written(encoded[..], header, cells, all, 0, 0)
  {
    CopyInto(encoded, 0, header);
    assert encoded[..][0..16] == encoded[0..16];
  }

  method WriteNode(encoded: array<Byte>, header: seq<Byte>, cell: seq<Byte>, ghost cells: seq<seq<Byte>>, ghost all: Ids,
                   index: nat, ghost written: nat)
    requires index < |cells| && written <= |all| && cell == cells[index]
    requires true == Written(encoded[..], header, cells, all, index, written)
    modifies encoded
    ensures true == Written(encoded[..], header, cells, all, index + 1, written)
  {
    ghost var before := encoded[..];
    CopyInto(encoded, HEADER_SIZE + NODE_SIZE * index, cell);
    LayoutNode(before, encoded[..], header, NODE_SIZE, cells[..index], cell,
               HEADER_SIZE + NODE_SIZE * |cells|, IdCells(all)[..written]);
    assert cells[..index + 1] == cells[..index] + [cells[index]];
  }

  method WriteId(encoded: array<Byte>, header: seq<Byte>, nodeCount: nat, ghost cells: seq<seq<Byte>>, ghost all: Ids,
                 ghost index: nat, written: nat, id: Word)
    requires index <= |cells| == nodeCount && written < |all| && id == all[written]
    requires true == Written(encoded[..], header, cells, all, index, written)
    modifies encoded
    ensures true == Written(encoded[..], header, cells, all, index, written + 1)
  {
    ghost var before, ids := encoded[..], IdCells(all);
    CopyInto(encoded, HEADER_SIZE + NODE_SIZE * nodeCount + 4 * written, PutWord(id));
    LayoutId(before, encoded[..], header, NODE_SIZE, cells[..index], HEADER_SIZE + NODE_SIZE * nodeCount,
             ids[..written], PutWord(id));
    assert ids[..written + 1] == ids[..written] + [ids[written]];
  }

  /** Writes one node's IDs; stops at a zero. */
  method WriteIds(encoded: array<Byte>, header: seq<Byte>, nodeCount: nat, ghost cells: seq<seq<Byte>>, ghost all: Ids,
                  ghost index: nat, start: nat, ids: Ids)
    returns (ok: bool)
    requires index <= |cells| == nodeCount && start + |ids| <= |all|
    requires forall j :: 0 <= j < |ids| ==> all[start + j] == ids[j]
    requires true == Written(encoded[..], header, cells, all, index, start)
    modifies encoded
    ensures ok ==> true == Written(encoded[..], header, cells, all, index, start + |ids|)
    ensures if ok then forall j :: start <= j < start + |ids| ==> all[j] != 0 else 0 in all
  {
    for i := 0 to |ids|
      invariant true == Written(encoded[..], header, cells, all, index, start + i)
      invariant forall j :: start <= j < start + i ==> all[j] != 0
    {
      if ids[i] == 0 {
        return false;
      }
      WriteId(encoded, header, nodeCount, cells, all, index, start + i, ids[i]);
    }
    return true;
  }

  /** Flattens the trie. IDs are checked as they are written: zero means "no record". */
  method Encode(b: Builder<Ids>) returns (r: EncodeResult)
    requires b.Valid()
    ensures r.TooManyIds? <==> |AllIds(b.nodes)| > MAX_UINT32
    ensures r.ZeroId? <==> |AllIds(b.nodes)| <= MAX_UINT32 && 0 in AllIds(b.nodes)
    ensures r.Encoded? ==> true == IsEncoding(r.value, b.nodes, b.version)
  {
    var nodes := b.nodes;
    var totalIds := CountIds(nodes);
    if totalIds > MAX_UINT32 {
      return TooManyIds;
    }
    ValidIsEncodable(nodes, b.version, b.tree);
    var encoded := new Byte[HEADER_SIZE + NODE_SIZE * |nodes| + 4 * totalIds];
    var header := HeaderBytes(b.version, |nodes|, totalIds);
    WriteHeader(encoded, header, NodeCells(nodes), AllIds(nodes));
    var ok := WriteAll(encoded, header, nodes);
    return if ok then Encoded(encoded[..]) else ZeroId;
  }

  ghost predicate NonZero(all: Ids, n: nat) {
    n <= |all| && forall j :: 0 <= j < n ==> all[j] != 0
  }

  lemma NonZeroIsWhole(all: Ids)
    requires NonZero(all, |all|)
    ensures 0 !in all
  {
  }

  method WriteAll(encoded: array<Byte>, header: seq<Byte>, nodes: seq<Node>) returns (ok: bool)
    requires Encodable(nodes)
    requires true == Written(encoded[..], header, NodeCells(nodes), AllIds(nodes), 0, 0)
    modifies encoded
    ensures ok <==> 0 !in AllIds(nodes)
    ensures ok ==> true == Written(encoded[..], header, NodeCells(nodes), AllIds(nodes), |nodes|, |AllIds(nodes)|)
  {
    ghost var cells, all := NodeCells(nodes), AllIds(nodes);
    var index, written := 0, 0;
    while index < |nodes|
      invariant index <= |nodes| && written == |IdsUpTo(nodes, index)| <= |all|
      invariant true == Written(encoded[..], header, cells, all, index, written)
      invariant true == NonZero(all, written)
    {
      var idsOk, end := WriteOf(encoded, header, nodes, index, written);
      if !idsOk {
        return false;
      }
      index, written := index + 1, end;
    }
    NonZeroIsWhole(all);
    return true;
  }

  /** One turn of the encoding loop, for the node at an index. */
  method WriteOf(encoded: array<Byte>, header: seq<Byte>, nodes: seq<Node>, index: nat, written: nat) returns (ok: bool, end: nat)
    requires Encodable(nodes) && index < |nodes| && written == |IdsUpTo(nodes, index)| <= |AllIds(nodes)|
    requires true == Written(encoded[..], header, NodeCells(nodes), AllIds(nodes), index, written) && true == NonZero(AllIds(nodes), written)
    modifies encoded
    ensures end == |IdsUpTo(nodes, index + 1)| <= |AllIds(nodes)|
    ensures ok ==> true == Written(encoded[..], header, NodeCells(nodes), AllIds(nodes), index + 1, end)
    ensures if ok then true == NonZero(AllIds(nodes), end) else 0 in AllIds(nodes)
  {
    NodeIds(nodes, index);
    var ids := IdsOf(nodes[index]);
    end := written + |ids|;
    ok := WriteEntry(encoded, header, |nodes|, NodeCells(nodes), AllIds(nodes), index, written, end, NodeCell(nodes, index), ids);
  }

  /** The node's cell, then its IDs. */
  method WriteEntry(encoded: array<Byte>, header: seq<Byte>, nodeCount: nat, ghost cells: seq<seq<Byte>>, ghost all: Ids,
                    index: nat, start: nat, end: nat, cell: seq<Byte>, ids: Ids) returns (ok: bool)
    requires index < |cells| == nodeCount && start + |ids| == end <= |all| && cell == cells[index]
    requires forall j :: 0 <= j < |ids| ==> all[start + j] == ids[j]
    requires true == Written(encoded[..], header, cells, all, index, start) && true == NonZero(all, start)
    modifies encoded
    ensures ok ==> true == Written(encoded[..], header, cells, all, index + 1, end)
    ensures if ok then true == NonZero(all, end) else 0 in all
  {
    WriteNode(encoded, header, cell, cells, all, index, start);
    ok := WriteIds(encoded, header, nodeCount, cells, all, index + 1, start, ids);
  }

  // ---------- lookup ----------

  predicate HeaderAccepted(value: seq<Byte>, v: Version) {
    && |value| >= HEADER_SIZE && value[..4] == MAGIC && value[4] == VersionByte(v)
    && GetWord(value[8..12]) != 0
    && var nodeCount: nat, idCount: nat := GetWord(value[8..12]), GetWord(value[12..16]);
    |value| == HEADER_SIZE + nodeCount * NODE_SIZE + idCount * 4
  }

  lemma HeaderOfEncoding(value: seq<Byte>, nodes: seq<Node>, v: Version)
    requires IsEncoding(value, nodes, v)
    ensures |value| >= HEADER_SIZE && value[..4] == MAGIC && value[4] == VersionByte(v)
    ensures GetWord(value[8..12]) == |nodes| && GetWord(value[12..16]) == |AllIds(nodes)|
    ensures HeaderAccepted(value, v)
  {
    var header := HeaderBytes(v, |nodes|, |AllIds(nodes)|);
    assert CellAt(value, 0, header);
    assert value[0..16] == header;
    SubSlice(value, 0, 16, 0, 4);
    SubSlice(value, 0, 16, 4, 5);
    SubSlice(value, 0, 16, 8, 12);
    SubSlice(value, 0, 16, 12, 16);
    assert value[4] == value[4..5][0] == header[4..5][0];
    assert header[8..12] == PutWord(|nodes|) && header[12..16] == PutWord(|AllIds(nodes)|);
    WordRoundTrip(|nodes|);
    WordRoundTrip(|AllIds(nodes)|);
  }

  lemma EncodedId(value: seq<Byte>, nodes: seq<Node>, v: Version, j: nat)
    requires IsEncoding(value, nodes, v) && j < |AllIds(nodes)|
    ensures var o := HEADER_SIZE + NODE_SIZE * |nodes| + 4 * j;
      o + 4 <= |value| && GetWord(value[o..o + 4]) == AllIds(nodes)[j]
  {
    assert CellAt(value, HEADER_SIZE + NODE_SIZE * |nodes| + 4 * j, IdCells(AllIds(nodes))[..|AllIds(nodes)|][j]);
    WordRoundTrip(AllIds(nodes)[j]);
  }

  /** Copies a run of IDs out of the bytes. */
  method ReadIds(value: seq<Byte>, nodeCount: nat, offset: nat, count: nat, ghost nodes: seq<Node>, ghost v: Version)
    returns (ids: Ids)
    requires true == IsEncoding(value, nodes, v)
    requires |nodes| == nodeCount && offset + count <= |AllIds(nodes)|
    ensures ids == AllIds(nodes)[offset..offset + count]
  {
    ids := [];
    for i := 0 to count
      invariant ids == AllIds(nodes)[offset..offset + i]
    {
      EncodedId(value, nodes, v, offset + i);
      var o := HEADER_SIZE + NODE_SIZE * nodeCount + 4 * (offset + i);
      ids := ids + [GetWord(value[o..o + 4])];
    }
  }

  /** What a walk in the bytes remembers of the deepest match: nothing, or where its IDs lie. */
  ghost predicate Remembers(nodes: seq<Node>, best: Option<Ids>, offset: nat, count: nat) {
    match best
    case None => count == 0
    case Some(ids) =>
      && count == |ids| > 0 && offset + count <= |AllIds(nodes)|
      && ids == AllIds(nodes)[offset..offset + count]
  }

  lemma NodeRemembered(nodes: seq<Node>, i: nat)
    requires i < |nodes| && nodes[i].payload.Some? && nodes[i].payload.value != []
    ensures Remembers(nodes, nodes[i].payload, IdOffset(nodes, i), |IdsOf(nodes[i])|)
  {
    NodeIds(nodes, i);
    var o, ids := IdOffset(nodes, i), IdsOf(nodes[i]);
    assert AllIds(nodes)[o..o + |ids|] == ids;
  }

  /** No node holds an empty list: Insert refuses them. */
  ghost predicate NoEmptyLists(t: Tree<Ids>) {
    t.Node? ==> t.payload != Some([]) && NoEmptyLists(t.zero) && NoEmptyLists(t.one)
  }

  /** One step of the walk at a node that matches. */
  lemma DeepestStep(cur: Tree<Ids>, q: Bits, best: Option<Ids>)
    requires cur.Node? && cur.key <= q
    ensures var best' := if cur.payload.Some? then cur.payload else best;
      Deepest(cur, q, best) == if |cur.key| == |q| then best' else Deepest(Child(cur, q[|cur.key|]), q, best')
  {
  }

  /** An address matches a prefix when their common length is the prefix's. */
  method PrefixMatches(address: Address, prefix: Address, v: Version, length: nat) returns (matches: bool)
    requires length <= Width(v)
    ensures matches <==> Key(prefix, v, length) <= Key(address, v, Width(v))
  {
    var common := CommonPrefix(address, length, prefix, length, v);
    KeyTake(address, v, Width(v), length);
    matches := common == length;
  }

  /** Reads the node a walk has reached and tests its prefix. */
  method Visit(value: seq<Byte>, query: Address, v: Version, current: nat, ghost nodes: seq<Node>, ghost cur: Tree<Ids>)
    returns (node: Decoded, matches: bool)
    requires true == IsEncoding(value, nodes, v)
    requires cur.Node? && current == cur.ref - 1 && Holds(nodes, v, cur)
    ensures current < |nodes| && nodes[current].payload == cur.payload
    ensures node.length == |cur.key| <= Width(v) && node.zero == RefOf(cur.zero) && node.one == RefOf(cur.one)
    ensures node.idOffset == IdOffset(nodes, current) && node.idCount == |IdsOf(nodes[current])|
    ensures matches <==> cur.key <= Key(query, v, Width(v))
  {
    DecodesNode(value, nodes, v, current);
    node := DecodeNode(value, current);
    matches := PrefixMatches(query, node.prefix, v, node.length);
  }

  /** Follows child references in the bytes, remembering where the deepest match's IDs lie. */
  method Walk(value: seq<Byte>, query: Address, v: Version, ghost nodes: seq<Node>, ghost t: Tree<Ids>)
    returns (bestOffset: nat, bestCount: nat)
    requires true == IsEncoding(value, nodes, v)
    requires t.Node? && t.ref == 1 && Holds(nodes, v, t) && NoEmptyLists(t)
    ensures true == Remembers(nodes, Deepest(t, Key(query, v, Width(v)), None), bestOffset, bestCount)
  {
    ghost var q, best := Key(query, v, Width(v)), None;
    ghost var cur := t;
    var current := 0;
    bestOffset, bestCount := 0, 0;
    while true
      invariant cur.Node? && current == cur.ref - 1
      invariant true == Holds(nodes, v, cur)
      invariant true == NoEmptyLists(cur)
      invariant Deepest(t, q, None) == Deepest(cur, q, best)
      invariant true == Remembers(nodes, best, bestOffset, bestCount)
      decreases cur
    {
      var node, matches := Visit(value, query, v, current, nodes, cur);
      if !matches {
        return;
      }
      DeepestStep(cur, q, best);
      if node.idCount > 0 {
        NodeRemembered(nodes, current);
        best := cur.payload;
        bestOffset, bestCount := node.idOffset, node.idCount;
      }
      if node.length >= Width(v) {
        return;
      }
      var branch := BitAt(query[Offset(v)..], node.length);
      var next := if branch == 0 then node.zero else node.one;
      cur := Child(cur, branch);
      if next == 0 {
        return;
      }
      current := next - 1;
    }
  }

  /** Looks an address up in the encoded trie. The ghost arguments say which trie the bytes
      hold; a value whose header is accepted is taken to hold it. */
  method Lookup(value: seq<Byte>, query: Address, v: Version, ghost nodes: seq<Node>, ghost t: Tree<Ids>)
    returns (r: LookupResult)
    requires HeaderAccepted(value, v) ==>
      true == IsEncoding(value, nodes, v) && t.Node? && t.ref == 1 && true == Holds(nodes, v, t) && true == NoEmptyLists(t)
    ensures r.Failed? <==> !HeaderAccepted(value, v)
    ensures r.Found? ==>
      var best := Deepest(t, Key(Unmapped(query, v), v, Width(v)), None);
      r.ids == if best.None? then [] else best.value
  {
    if |value| < HEADER_SIZE || value[..4] != MAGIC || value[4] != VersionByte(v) {
      return Failed(BadHeader);
    }
    var nodeCount: nat, idCount: nat := GetWord(value[8..12]), GetWord(value[12..16]);
    if nodeCount == 0 {
      return Failed(NoRoot);
    }
    if |value| != HEADER_SIZE + nodeCount * NODE_SIZE + idCount * 4 {
      return Failed(BadLength);
    }
    HeaderOfEncoding(value, nodes, v);
    var bestOffset, bestCount := Walk(value, Unmapped(query, v), v, nodes, t);
    if bestCount == 0 {
      return Found([]);
    }
    if bestOffset + bestCount > idCount {
      assert false;
    }
    var ids := ReadIds(value, nodeCount, bestOffset, bestCount, nodes, v);
    return Found(ids);
  }
}
