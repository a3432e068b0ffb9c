/** The builder both selectors share: a growing array of nodes with one-based child
    references. A split appends the new parent after its child, so array order is not tree
    order; the ghost tree says which tree the array holds. */
module TrieBuilder {
  import opened Bytes
  import opened Addresses
  import opened Patricia
  import opened Words

  datatype Error = WrongFamily | NoRecordID | Duplicate | TooManyNodes | MissingNode | RootReplaced

  datatype Result<+T> = Ok(value: T) | Err(error: Error)

  /** A child reference of zero means absent. */
  datatype Record<P> = Record(prefix: Address, length: nat, zero: nat, one: nat, payload: Option<P>)

  function ChildRef<P>(n: Record<P>, b: Bit): nat {
    if b == 0 then n.zero else n.one
  }

  function WithChildRef<P>(n: Record<P>, b: Bit, r: nat): Record<P> {
    if b == 0 then n.(zero := r) else n.(one := r)
  }

  /** The array holds the tree. */
  ghost predicate Holds<P>(nodes: seq<Record<P>>, v: Version, t: Tree<P>) {
    t.Node? ==>
      && 1 <= t.ref <= |nodes|
      && var n := nodes[t.ref - 1];
      && n.length == |t.key| <= Width(v)
      && Key(n.prefix, v, n.length) == t.key
      && n.payload == t.payload
      && n.zero == RefOf(t.zero) && n.one == RefOf(t.one)
      && Holds(nodes, v, t.zero) && Holds(nodes, v, t.one)
  }

  lemma {:induction false} HoldsFrame<P>(nodes: seq<Record<P>>, after: seq<Record<P>>, v: Version, t: Tree<P>)
    requires Holds(nodes, v, t) && |nodes| <= |after|
    requires forall i :: 0 <= i < |nodes| && i + 1 in Refs(t) ==> after[i] == nodes[i]
    ensures Holds(after, v, t)
  {
    if t.Node? {
      HoldsFrame(nodes, after, v, t.zero);
      HoldsFrame(nodes, after, v, t.one);
      assert t.ref in Refs(t) && after[t.ref - 1] == nodes[t.ref - 1];
    }
  }

  lemma {:induction false} HeldRefs<P>(nodes: seq<Record<P>>, v: Version, t: Tree<P>)
    requires Holds(nodes, v, t)
    ensures forall r :: r in Refs(t) ==> 1 <= r <= |nodes|
  {
    if t.Node? {
      HeldRefs(nodes, v, t.zero);
      HeldRefs(nodes, v, t.one);
    }
  }

  lemma PayloadUpdated<P>(nodes: seq<Record<P>>, v: Version, t: Tree<P>, p: P)
    requires t.Node? && Holds(nodes, v, t) && Distinct(t)
    ensures Holds(nodes[t.ref - 1 := nodes[t.ref - 1].(payload := Some(p))], v, t.(payload := Some(p)))
  {
    var after := nodes[t.ref - 1 := nodes[t.ref - 1].(payload := Some(p))];
    HoldsFrame(nodes, after, v, t.zero);
    HoldsFrame(nodes, after, v, t.one);
  }

  /** A node and its child references are in place, whatever its children may hold. */
  ghost predicate HoldsNode<P>(nodes: seq<Record<P>>, v: Version, t: Tree<P>, b: Bit)
    requires t.Node?
  {
    && 1 <= t.ref <= |nodes|
    && var n := nodes[t.ref - 1];
    && n.length == |t.key| <= Width(v)
    && Key(n.prefix, v, n.length) == t.key
    && n.payload == t.payload
    && ChildRef(n, b) == RefOf(Child(t, b))
    && Holds(nodes, v, Child(t, b))
  }

  /** Linking a subtree that lies elsewhere in the array under branch b of a node. */
  lemma ChildLinked<P>(nodes: seq<Record<P>>, v: Version, t: Tree<P>, b: Bit, c: Tree<P>)
    requires t.Node? && HoldsNode(nodes, v, t, 1 - b)
    requires Holds(nodes, v, c) && t.ref !in Refs(c) && t.ref !in Refs(Child(t, 1 - b))
    ensures Holds(nodes[t.ref - 1 := WithChildRef(nodes[t.ref - 1], b, RefOf(c))], v, WithChild(t, b, c))
  {
    var after := nodes[t.ref - 1 := WithChildRef(nodes[t.ref - 1], b, RefOf(c))];
    HoldsFrame(nodes, after, v, c);
    HoldsFrame(nodes, after, v, Child(t, 1 - b));
  }

  /** What an insertion below the subtree t leaves: the array holds the updated tree, and
      positions outside the subtree are untouched. */
  ghost predicate Updated<P>(before: seq<Record<P>>, after: seq<Record<P>>, v: Version, t: Tree<P>,
                             k: Bits, payload: P, merge: Merge<P>, r: Result<nat>)
  {
    var t' := Inserted(t, |before| + 1, k, payload, merge);
    && |before| <= |after| <= MAX_UINT32
    && Elsewhere(before, after, Refs(t))
    && match r
       case Ok(reference) =>
         && t'.Some? && Holds(after, v, t'.value) && reference == RefOf(t'.value)
         && |after| == |before| + Taken(t, k)
       case Err(e) =>
         || (e == Duplicate && t'.None? && after == before)
         || (e == TooManyNodes && |before| + Taken(t, k) > MAX_UINT32)
  }

  ghost predicate Elsewhere<P>(before: seq<Record<P>>, after: seq<Record<P>>, refs: set<nat>) {
    && |before| <= |after|
    && forall i :: 0 <= i < |before| && i + 1 !in refs ==> after[i] == before[i]
  }

  lemma DescentHolds<P>(before: seq<Record<P>>, mid: seq<Record<P>>, v: Version, t: Tree<P>, b: Bit, c: Tree<P>)
    requires t.Node? && Holds(before, v, t) && Distinct(t)
    requires Holds(mid, v, c) && Elsewhere(before, mid, Refs(Child(t, b))) && t.ref !in Refs(c)
    ensures t.ref <= |mid|
    ensures var after := mid[t.ref - 1 := WithChildRef(mid[t.ref - 1], b, RefOf(c))];
      Holds(after, v, WithChild(t, b, c)) && Elsewhere(before, after, Refs(t))
  {
    HoldsFrame(before, mid, v, Child(t, 1 - b));
    assert mid[t.ref - 1] == before[t.ref - 1];
    ChildLinked(mid, v, t, b, c);
  }

  lemma DescentInserted<P>(t: Tree<P>, next: nat, k: Bits, payload: P, merge: Merge<P>)
    requires t.Node? && Distinct(t) && next > 0 && forall r :: r in Refs(t) ==> r < next
    requires CommonLength(t.key, k) == |t.key| < |k|
    ensures var b := k[|t.key|]; var c := Inserted(Child(t, b), next, k, payload, merge);
      && Taken(t, k) == Taken(Child(t, b), k)
      && Inserted(t, next, k, payload, merge) == (if c.None? then None else Some(WithChild(t, b, c.value)))
      && (c.Some? ==> t.ref !in Refs(c.value))
  {
    var b := k[|t.key|];
    assert Refs(Child(t, b)) <= Refs(t) && t.ref in Refs(t);
    InsertTakes(Child(t, b), next, k, payload, merge);
  }

  /** The recursive case of an insertion, once the child has been replaced. */
  lemma DescentUpdated<P>(before: seq<Record<P>>, mid: seq<Record<P>>, v: Version, t: Tree<P>,
                          k: Bits, payload: P, merge: Merge<P>, child: nat)
    requires t.Node? && Holds(before, v, t) && Distinct(t)
    requires CommonLength(t.key, k) == |t.key| < |k|
    requires Updated(before, mid, v, Child(t, k[|t.key|]), k, payload, merge, Ok(child))
    ensures t.ref <= |mid|
    ensures Updated(before, mid[t.ref - 1 := WithChildRef(mid[t.ref - 1], k[|t.key|], child)], v, t,
                    k, payload, merge, Ok(t.ref))
  {
    var b := k[|t.key|];
    var c := Inserted(Child(t, b), |before| + 1, k, payload, merge).value;
    HeldRefs(before, v, t);
    DescentInserted(t, |before| + 1, k, payload, merge);
    DescentHolds(before, mid, v, t, b, c);
  }

  /** A descent that failed below fails here, with nothing of this subtree promised. */
  lemma DescentFailed<P>(before: seq<Record<P>>, mid: seq<Record<P>>, v: Version, t: Tree<P>,
                         k: Bits, payload: P, merge: Merge<P>, e: Error)
    requires t.Node? && Holds(before, v, t) && Distinct(t)
    requires CommonLength(t.key, k) == |t.key| < |k|
    requires Updated(before, mid, v, Child(t, k[|t.key|]), k, payload, merge, Err(e))
    ensures Updated(before, mid, v, t, k, payload, merge, Err(e))
  {
    HeldRefs(before, v, t);
    assert Refs(Child(t, k[|t.key|])) <= Refs(t);
    DescentInserted(t, |before| + 1, k, payload, merge);
  }

  lemma LeafUpdated<P>(before: seq<Record<P>>, after: seq<Record<P>>, v: Version,
                       k: Bits, payload: P, merge: Merge<P>, r: Result<nat>)
    requires r == (if |before| < MAX_UINT32 then Ok(|before| + 1) else Err(TooManyNodes))
    requires |before| <= MAX_UINT32
    requires r.Err? ==> after == before
    requires r.Ok? ==> before <= after && |after| == r.value && Holds(after, v, Leaf(r.value, k, payload))
    ensures Updated(before, after, v, Empty, k, payload, merge, r)
  {
  }

  /** A fresh parent at the end of the array, with the old subtree on its branch. */
  lemma ParentHolds<P>(before: seq<Record<P>>, after: seq<Record<P>>, v: Version, t: Tree<P>, stem: Bits, b: Bit)
    requires t.Node? && Holds(before, v, t) && |after| == |before| + 1 && before <= after && |stem| <= Width(v)
    requires var n := after[|before|];
      n.length == |stem| && Key(n.prefix, v, |stem|) == stem && n.payload.None? &&
      ChildRef(n, b) == t.ref && ChildRef(n, 1 - b) == 0
    ensures Holds(after, v, WithChild(Node(|before| + 1, stem, None, Empty, Empty), b, t))
    ensures |before| + 1 !in Refs(t)
  {
    HoldsFrame(before, after, v, t);
    HeldRefs(before, v, t);
  }

  function SplitTree<P>(t: Tree<P>, next: nat, stem: Bits, b: Bit): Tree<P> {
    WithChild(Node(next, stem, None, Empty, Empty), b, t)
  }

  lemma SplitAtEnd<P>(before: seq<Record<P>>, grown: seq<Record<P>>, v: Version, t: Tree<P>,
                      k: Bits, payload: P, merge: Merge<P>)
    requires t.Node? && CommonLength(t.key, k) == |k| < |t.key|
    requires |grown| == |before| + 1 <= MAX_UINT32 && before <= grown
    requires Distinct(t) && |before| + 1 !in Refs(t)
    requires Holds(grown, v, SplitTree(t, |before| + 1, t.key[..|k|], t.key[|k|]))
    ensures Updated(before, grown[|before| := grown[|before|].(payload := Some(payload))], v, t,
                    k, payload, merge, Ok(|before| + 1))
  {
    var half := SplitTree(t, |before| + 1, t.key[..|k|], t.key[|k|]);
    PayloadUpdated(grown, v, half, payload);
  }

  function Leaf<P>(ref: nat, k: Bits, payload: P): Tree<P> {
    Node(ref, k, Some(payload), Empty, Empty)
  }

  lemma SplitInserted<P>(t: Tree<P>, next: nat, k: Bits, payload: P, merge: Merge<P>)
    requires t.Node? && CommonLength(t.key, k) < |t.key| && CommonLength(t.key, k) < |k|
    ensures var c := CommonLength(t.key, k);
      && Taken(t, k) == 2
      && Inserted(t, next, k, payload, merge) ==
         Some(WithChild(SplitTree(t, next, t.key[..c], t.key[c]), k[c], Leaf(next + 1, k, payload)))
  {
  }

  lemma BothBranchesHold<P>(grown: seq<Record<P>>, full: seq<Record<P>>, v: Version, half: Tree<P>, b: Bit, leaf: Tree<P>)
    requires half.Node? && half.ref == |grown| && |full| == |grown| + 1 && grown <= full
    requires Holds(grown, v, half) && half.ref !in Refs(Child(half, 1 - b))
    requires leaf.Node? && Refs(leaf) == {|full|} && Holds(full, v, leaf)
    ensures Holds(full[|grown| - 1 := WithChildRef(full[|grown| - 1], b, leaf.ref)], v, WithChild(half, b, leaf))
  {
    HoldsFrame(grown, full, v, half);
    assert leaf.ref in Refs(leaf);
    ChildLinked(full, v, half, b, leaf);
  }

  lemma UpdatedTo<P>(before: seq<Record<P>>, after: seq<Record<P>>, v: Version, t: Tree<P>,
                     k: Bits, payload: P, merge: Merge<P>, t': Tree<P>)
    requires Inserted(t, |before| + 1, k, payload, merge) == Some(t')
    requires |after| == |before| + Taken(t, k) && |after| <= MAX_UINT32
    requires Elsewhere(before, after, Refs(t)) && Holds(after, v, t')
    ensures Updated(before, after, v, t, k, payload, merge, Ok(RefOf(t')))
  {
  }

  lemma SplitTakes<P>(t: Tree<P>, k: Bits)
    requires t.Node? && CommonLength(t.key, k) < |t.key|
    ensures Taken(t, k) == if CommonLength(t.key, k) == |k| then 1 else 2
  {
  }

  lemma TooMany<P>(before: seq<Record<P>>, after: seq<Record<P>>, v: Version, t: Tree<P>,
                   k: Bits, payload: P, merge: Merge<P>)
    requires |before| + Taken(t, k) > MAX_UINT32 >= |after| && Elsewhere(before, after, Refs(t))
    ensures Updated(before, after, v, t, k, payload, merge, Err(TooManyNodes))
  {
  }

  lemma SplitFailed<P>(before: seq<Record<P>>, after: seq<Record<P>>, v: Version, t: Tree<P>,
                       k: Bits, payload: P, merge: Merge<P>)
    requires t.Node? && CommonLength(t.key, k) < |t.key| && before <= after
    requires |after| == MAX_UINT32
    requires |before| == MAX_UINT32 || (|after| == |before| + 1 && CommonLength(t.key, k) < |k|)
    ensures true == Updated(before, after, v, t, k, payload, merge, Err(TooManyNodes))
  {
    SplitTakes(t, k);
    assert Elsewhere(before, after, Refs(t));
    TooMany(before, after, v, t, k, payload, merge);
  }

  lemma SplitUpdated<P>(before: seq<Record<P>>, grown: seq<Record<P>>, full: seq<Record<P>>, v: Version, t: Tree<P>,
                        k: Bits, payload: P, merge: Merge<P>)
    requires t.Node? && CommonLength(t.key, k) < |t.key| && CommonLength(t.key, k) < |k|
    requires |grown| == |before| + 1 && before <= grown && |full| == |grown| + 1 <= MAX_UINT32 && grown <= full
    requires |grown| !in Refs(t)
    requires var c := CommonLength(t.key, k); Holds(grown, v, SplitTree(t, |grown|, t.key[..c], t.key[c]))
    requires Holds(full, v, Leaf(|full|, k, payload))
    ensures Updated(before, full[|grown| - 1 := WithChildRef(full[|grown| - 1], k[CommonLength(t.key, k)], |full|)],
                    v, t, k, payload, merge, Ok(|grown|))
  {
    var c := CommonLength(t.key, k);
    var half, leaf := SplitTree(t, |grown|, t.key[..c], t.key[c]), Leaf(|full|, k, payload);
    SplitInserted(t, |before| + 1, k, payload, merge);
    BothBranchesHold(grown, full, v, half, k[c], leaf);
    UpdatedTo(before, full[|grown| - 1 := WithChildRef(full[|grown| - 1], k[c], |full|)], v, t,
              k, payload, merge, WithChild(half, k[c], leaf));
  }

  /** Root at position one with the empty key; every array position is in the tree once. */
  ghost predicate ValidTree<P>(nodes: seq<Record<P>>, v: Version, t: Tree<P>) {
    && t.Node? && t.ref == 1 && t.key == []
    && Holds(nodes, v, t)
    && IsPatricia(t) && Compact(t.zero) && Compact(t.one) && Distinct(t)
    && (forall r: nat :: r in Refs(t) <==> 1 <= r <= |nodes|)
    && |nodes| <= MAX_UINT32
  }

  ghost function PositionsUpTo(n: nat): set<nat> {
    if n == 0 then {} else PositionsUpTo(n - 1) + {n}
  }

  lemma {:induction false} PositionCount(n: nat)
    ensures forall r: nat :: r in PositionsUpTo(n) <==> 1 <= r <= n
    ensures |PositionsUpTo(n)| == n
  {
    if n > 0 {
      PositionCount(n - 1);
    }
  }

  /** With n prefixes stored, the array has at most 2n + 1 nodes. */
  lemma NodesAtMost<P>(nodes: seq<Record<P>>, v: Version, t: Tree<P>)
    requires ValidTree(nodes, v, t)
    ensures |nodes| <= 2 * |Contents(t)| + 1
  {
    PositionCount(|nodes|);
    assert Refs(t) == PositionsUpTo(|nodes|);
    RefsCount(t);
    NodesBounded(t);
  }

  /** An insertion at the root leaves the root where it was. */
  lemma InsertValid<P>(before: seq<Record<P>>, after: seq<Record<P>>, v: Version, t: Tree<P>,
                       k: Bits, payload: P, merge: Merge<P>, root: nat)
    requires ValidTree(before, v, t)
    requires Updated(before, after, v, t, k, payload, merge, Ok(root))
    ensures root == 1 && |after| <= |before| + 2
    ensures ValidTree(after, v, Inserted(t, |before| + 1, k, payload, merge).value)
  {
    var next := |before| + 1;
    var t' := Inserted(t, next, k, payload, merge).value;
    InsertTakes(t, next, k, payload, merge);
    InsertKeepsPatricia(t, next, k, payload, merge, []);
    RootChildren(t, next, k, payload, merge);
  }

  lemma RootChildren<P>(t: Tree<P>, next: nat, k: Bits, payload: P, merge: Merge<P>)
    requires t.Node? && t.key == [] && IsPatricia(t) && Compact(t.zero) && Compact(t.one)
    ensures var r := Inserted(t, next, k, payload, merge);
      r.Some? && r.value.Node? ==> Compact(r.value.zero) && Compact(r.value.one)
  {
    if k != [] {
      var b := k[0];
      InsertKeepsPatricia(Child(t, b), next, k, payload, merge, [b]);
    }
  }

  /** An insertion at the root fails for one of two reasons. */
  lemma InsertFailed<P>(before: seq<Record<P>>, after: seq<Record<P>>, v: Version, t: Tree<P>,
                        k: Bits, payload: P, merge: Merge<P>, e: Error)
    requires IsPatricia(t) && true == Updated(before, after, v, t, k, payload, merge, Err(e))
    ensures e == Duplicate || e == TooManyNodes
    ensures e == Duplicate ==> after == before && k in Contents(t) && merge(Contents(t)[k], payload).None?
    ensures e == TooManyNodes ==> |after| + 2 >= |before| + 2 > MAX_UINT32
  {
    InsertUpdatesContents(t, |before| + 1, k, payload, merge);
    InsertTakesAtMostTwo(t, k);
  }

  class Builder<P> {
    const version: Version
    const merge: Merge<P>
    var nodes: seq<Record<P>>
    ghost var tree: Tree<P>

    ghost predicate Valid()
      reads this
    {
      ValidTree(nodes, version, tree)
    }

    ghost function Stored(): map<Bits, P>
      reads this
    {
      Contents(tree)
    }

    constructor (version: Version, merge: Merge<P>)
      ensures Valid() && Stored() == map[] && |nodes| == 1 && tree == Node(1, [], None, Empty, Empty)
      ensures this.version == version && this.merge == merge
    {
      this.version := version;
      this.merge := merge;
      nodes := [Record(ZERO_ADDRESS, 0, 0, 0, None)];
      tree := Node(1, [], None, Empty, Empty);
    }

    method AppendNode(n: Record<P>) returns (r: Result<nat>)
      requires |nodes| <= MAX_UINT32
      modifies this`nodes
      ensures r == (if |old(nodes)| < MAX_UINT32 then Ok(|old(nodes)| + 1) else Err(TooManyNodes))
      ensures nodes == if r.Ok? then old(nodes) + [n] else old(nodes)
    {
      if |nodes| >= MAX_UINT32 {
        return Err(TooManyNodes);
      }
      nodes := nodes + [n];
      return Ok(|nodes|);
    }

    /** Insertion below an absent child. */
    method AppendLeaf(prefix: Address, length: nat, payload: P) returns (r: Result<nat>)
      requires |nodes| <= MAX_UINT32 && length <= Width(version)
      modifies this`nodes
      ensures r == (if |old(nodes)| < MAX_UINT32 then Ok(|old(nodes)| + 1) else Err(TooManyNodes))
      ensures r.Err? ==> nodes == old(nodes)
      ensures r.Ok? ==> old(nodes) <= nodes && |nodes| == r.value
      ensures r.Ok? ==> Holds(nodes, version, Leaf(r.value, Key(prefix, version, length), payload))
    {
      var masked := Masked(prefix, version, length);
      r := AppendNode(Record(masked, length, 0, 0, Some(payload)));
    }

    method InsertAt(reference: nat, prefix: Address, length: nat, payload: P, ghost t: Tree<P>)
      returns (r: Result<nat>)
      requires |nodes| <= MAX_UINT32 && length <= Width(version)
      requires Holds(nodes, version, t) && Distinct(t) && reference == RefOf(t)
      modifies this`nodes
      ensures true == Updated(old(nodes), nodes, version, t, Key(prefix, version, length), payload, merge, r)
      decreases t
    {
      ghost var k := Key(prefix, version, length);
      if reference == 0 {
        r := AppendLeaf(prefix, length, payload);
        LeafUpdated(old(nodes), nodes, version, k, payload, merge, r);
        return;
      }
      var index := reference - 1;
      var node := nodes[index];
      var common := CommonPrefix(node.prefix, node.length, prefix, length, version);
      KeyTake(node.prefix, version, node.length, common);
      KeyTake(prefix, version, length, common);
      CommonLengthUnique(t.key, k, common);
      if common == node.length {
        if common == length {
          r := Store(reference, payload, t, k);
          return;
        }
        var branch := BitAt(prefix[Offset(version)..], common);
        assert branch == k[common];
        var child := InsertAt(ChildRef(node, branch), prefix, length, payload, Child(t, branch));
        if child.Err? {
          DescentFailed(old(nodes), nodes, version, t, k, payload, merge, child.error);
          return child;
        }
        DescentUpdated(old(nodes), nodes, version, t, k, payload, merge, child.value);
        nodes := nodes[index := WithChildRef(nodes[index], branch, child.value)];
        return Ok(reference);
      }
      r := Split(reference, node, common, prefix, length, payload, t);
    }

    /** The key is already there: keep one payload, or refuse. */
    method Store(reference: nat, payload: P, ghost t: Tree<P>, ghost k: Bits) returns (r: Result<nat>)
      requires |nodes| <= MAX_UINT32
      requires t.Node? && Holds(nodes, version, t) && Distinct(t) && reference == t.ref
      requires CommonLength(t.key, k) == |t.key| == |k|
      modifies this`nodes
      ensures true == Updated(old(nodes), nodes, version, t, k, payload, merge, r)
    {
      var index := reference - 1;
      var node := nodes[index];
      if node.payload.None? {
        PayloadUpdated(nodes, version, t, payload);
        nodes := nodes[index := node.(payload := Some(payload))];
        return Ok(reference);
      }
      var kept := merge(node.payload.value, payload);
      if kept.None? {
        return Err(Duplicate);
      }
      PayloadUpdated(nodes, version, t, kept.value);
      nodes := nodes[index := node.(payload := kept)];
      return Ok(reference);
    }

    /** Appends a branch node that holds the first bits of the prefix and nothing else, with
        the old subtree below it. */
    method AppendParent(reference: nat, node: Record<P>, common: nat, prefix: Address, ghost t: Tree<P>, ghost stem: Bits)
      returns (r: Result<nat>)
      requires |nodes| <= MAX_UINT32 && common <= Width(version)
      requires t.Node? && common < |t.key| && Holds(nodes, version, t) && reference == t.ref && node == nodes[reference - 1]
      requires stem == t.key[..common] == Key(prefix, version, common)
      modifies this`nodes
      ensures r == (if |old(nodes)| < MAX_UINT32 then Ok(|old(nodes)| + 1) else Err(TooManyNodes))
      ensures r.Err? ==> nodes == old(nodes)
      ensures r.Ok? ==> old(nodes) <= nodes && |nodes| == r.value && r.value !in Refs(t)
      ensures r.Ok? ==> Holds(nodes, version, SplitTree(t, r.value, stem, t.key[common]))
    {
      var parentKey := Masked(prefix, version, common);
      r := AppendNode(Record(parentKey, common, 0, 0, None));
      if r.Err? {
        return;
      }
      var existingBranch := BitAt(node.prefix[Offset(version)..], common);
      assert existingBranch == t.key[common];
      nodes := nodes[r.value - 1 := WithChildRef(nodes[r.value - 1], existingBranch, reference)];
      ParentHolds(old(nodes), nodes, version, t, stem, existingBranch);
    }

    /** The new key's place at a fresh parent: the parent itself, or a leaf on its other branch. */
    method FillParent(parent: nat, common: nat, prefix: Address, length: nat, payload: P,
                      ghost t: Tree<P>, ghost before: seq<Record<P>>) returns (r: Result<nat>)
      requires |before| + 1 == |nodes| == parent <= MAX_UINT32 && before <= nodes && length <= Width(version)
      requires t.Node? && Distinct(t) && parent !in Refs(t)
      requires common == CommonLength(t.key, Key(prefix, version, length)) < |t.key|
      requires Holds(nodes, version, SplitTree(t, parent, t.key[..common], t.key[common]))
      modifies this`nodes
      ensures true == Updated(before, nodes, version, t, Key(prefix, version, length), payload, merge, r)
    {
      ghost var k := Key(prefix, version, length);
      if common == length {
        SplitAtEnd(before, nodes, version, t, k, payload, merge);
        nodes := nodes[parent - 1 := nodes[parent - 1].(payload := Some(payload))];
        return Ok(parent);
      }
      var newBranch := BitAt(prefix[Offset(version)..], common);
      r := AppendLeaf(prefix, length, payload);
      if r.Err? {
        SplitFailed(before, nodes, version, t, k, payload, merge);
        return;
      }
      SplitUpdated(before, old(nodes), nodes, version, t, k, payload, merge);
      nodes := nodes[parent - 1 := WithChildRef(nodes[parent - 1], newBranch, r.value)];
      return Ok(parent);
    }

    /** The key parts from the node's key above its end: a new parent takes both. */
    method Split(reference: nat, node: Record<P>, common: nat, prefix: Address, length: nat, payload: P, ghost t: Tree<P>)
      returns (r: Result<nat>)
      requires |nodes| <= MAX_UINT32 && length <= Width(version)
      requires t.Node? && Holds(nodes, version, t) && Distinct(t) && reference == t.ref && node == nodes[reference - 1]
      requires common == CommonLength(t.key, Key(prefix, version, length)) < |t.key|
      modifies this`nodes
      ensures true == Updated(old(nodes), nodes, version, t, Key(prefix, version, length), payload, merge, r)
    {
      KeyTake(prefix, version, length, common);
      r := AppendParent(reference, node, common, prefix, t, t.key[..common]);
      if r.Err? {
        SplitFailed(old(nodes), nodes, version, t, Key(prefix, version, length), payload, merge);
        return;
      }
      r := FillParent(r.value, common, prefix, length, payload, t, old(nodes));
    }

    /** Inserts a prefix of the builder's own family, masked and then unmapped. */
    method Insert(prefix: Cidr, payload: P) returns (r: Result<()>)
      requires Valid() && ValidCidr(prefix)
      modifies this
      ensures r.Ok? ==> prefix.version == version && Valid() && |nodes| <= |old(nodes)| + 2
      ensures r.Ok? ==> Some(tree) == Inserted(old(tree), |old(nodes)| + 1, StoredBits(prefix.address, version, prefix.length), payload, merge)
      ensures r.Ok? ==>
        var k := StoredBits(prefix.address, version, prefix.length);
        && (k in old(Stored()) ==> merge(old(Stored())[k], payload).Some?)
        && Stored() == old(Stored())[k := MergedInto(old(Stored()), k, payload, merge)]
      ensures r.Err? ==> match r.error
        case WrongFamily => prefix.version != version && nodes == old(nodes) && tree == old(tree)
        case Duplicate =>
          && nodes == old(nodes) && tree == old(tree) && prefix.version == version
          && var k := StoredBits(prefix.address, version, prefix.length);
          && k in Stored() && merge(Stored()[k], payload).None?
        case TooManyNodes => |nodes| + 2 >= |old(nodes)| + 2 > MAX_UINT32
        case _ => false
    {
      if prefix.version != version {
        return Err(WrongFamily);
      }
      var masked := Masked(prefix.address, version, prefix.length);
      ghost var k := StoredBits(prefix.address, version, prefix.length);
      MaskedBits(prefix.address, masked, version, prefix.length);
      var root := InsertAt(1, Unmapped(masked, version), prefix.length, payload, tree);
      if root.Err? {
        InsertFailed(old(nodes), nodes, version, tree, k, payload, merge, root.error);
        return Err(root.error);
      }
      InsertUpdatesContents(tree, |old(nodes)| + 1, k, payload, merge);
      InsertValid(old(nodes), nodes, version, tree, k, payload, merge, root.value);
      tree := Inserted(tree, |old(nodes)| + 1, k, payload, merge).value;
      if root.value != 1 {
        assert false;
      }
      return Ok(());
    }
  }
}
