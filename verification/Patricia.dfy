/** Patricia tries over bit strings, as values: what the node array of a selector means,
    what one insertion does to it, and what a walk from the root finds. */
module Patricia {
  import opened Bytes

  /** `ref` is the one-based position of the node in the builder's array; `payload` is None
      for a node that exists only because two keys part there. */
  datatype Tree<P> =
    | Empty
    | Node(ref: nat, key: Bits, payload: Option<P>, zero: Tree<P>, one: Tree<P>)

  function Child<P>(t: Tree<P>, b: Bit): Tree<P>
    requires t.Node?
  {
    if b == 0 then t.zero else t.one
  }

  function WithChild<P>(t: Tree<P>, b: Bit, c: Tree<P>): Tree<P>
    requires t.Node?
  {
    if b == 0 then t.(zero := c) else t.(one := c)
  }

  function RefOf<P>(t: Tree<P>): nat {
    if t.Empty? then 0 else t.ref
  }

  /** Everything below branch b of a node extends the node's key by b. */
  ghost predicate Extends<P>(c: Tree<P>, stem: Bits) {
    c.Node? ==> stem <= c.key
  }

  ghost predicate IsPatricia<P>(t: Tree<P>) {
    t.Node? ==>
      && Extends(t.zero, t.key + [0]) && Extends(t.one, t.key + [1])
      && IsPatricia(t.zero) && IsPatricia(t.one)
  }

  /** No node is there without a reason: one that holds nothing has two children. */
  ghost predicate Compact<P>(t: Tree<P>) {
    t.Node? ==>
      && (t.payload.None? ==> t.zero.Node? && t.one.Node?)
      && Compact(t.zero) && Compact(t.one)
  }

  ghost function Refs<P>(t: Tree<P>): set<nat> {
    if t.Empty? then {} else {t.ref} + Refs(t.zero) + Refs(t.one)
  }

  /** No array position occurs twice. */
  ghost predicate Distinct<P>(t: Tree<P>) {
    t.Node? ==>
      && t.ref != 0
      && t.ref !in Refs(t.zero) && t.ref !in Refs(t.one) && Refs(t.zero) !! Refs(t.one)
      && Distinct(t.zero) && Distinct(t.one)
  }

  ghost function Own<P>(t: Tree<P>): map<Bits, P>
    requires t.Node?
  {
    if t.payload.None? then map[] else map[t.key := t.payload.value]
  }

  /** What the trie maps keys to. */
  ghost function Contents<P>(t: Tree<P>): map<Bits, P> {
    if t.Empty? then map[] else Contents(t.zero) + Contents(t.one) + Own(t)
  }

  // ---------- insertion ----------

  function CommonLength(k: Bits, l: Bits): (n: nat)
    ensures n <= |k| && n <= |l| && k[..n] == l[..n]
    ensures n < |k| && n < |l| ==> k[n] != l[n]
  {
    if k == [] || l == [] || k[0] != l[0] then 0 else
      var n := CommonLength(k[1..], l[1..]);
      assert k[..n + 1] == [k[0]] + k[1..][..n] && l[..n + 1] == [l[0]] + l[1..][..n];
      n + 1
  }

  lemma CommonLengthUnique(k: Bits, l: Bits, n: nat)
    requires n <= |k| && n <= |l| && k[..n] == l[..n]
    requires n < |k| && n < |l| ==> k[n] != l[n]
    ensures n == CommonLength(k, l)
  {
    var c := CommonLength(k, l);
    assert forall i :: 0 <= i < c ==> k[i] == k[..c][i] == l[..c][i] == l[i];
    assert forall i :: 0 <= i < n ==> k[i] == k[..n][i] == l[..n][i] == l[i];
  }

  /** What happens when a key is inserted again: the old and the new payload give the one to
      keep, or None when that is an error. */
  type Merge<!P> = (P, P) -> Option<P>

  /** One insertion; the array positions it takes are next and next + 1. None when the key
      is present and may not be inserted again. */
  function Inserted<P>(t: Tree<P>, next: nat, k: Bits, p: P, merge: Merge<P>): Option<Tree<P>> {
    if t.Empty? then Some(Node(next, k, Some(p), Empty, Empty)) else
      var c := CommonLength(t.key, k);
      if c == |t.key| then
        if c == |k| then
          if t.payload.None? then Some(t.(payload := Some(p))) else
            var kept := merge(t.payload.value, p);
            if kept.None? then None else Some(t.(payload := kept))
        else
          var child := Inserted(Child(t, k[c]), next, k, p, merge);
          if child.None? then None else Some(WithChild(t, k[c], child.value))
      else
        var parent := WithChild(Node(next, k[..c], None, Empty, Empty), t.key[c], t);
        if c == |k| then Some(parent.(payload := Some(p)))
        else Some(WithChild(parent, k[c], Node(next + 1, k, Some(p), Empty, Empty)))
  }

  /** How the payload stored under a key changes. */
  function Merged<P>(stored: Option<P>, p: P, merge: Merge<P>): Option<P> {
    if stored.Some? then merge(stored.value, p) else Some(p)
  }

  /** What the trie stores under exactly k. */
  function Find<P>(t: Tree<P>, k: Bits): Option<P> {
    if t.Empty? || !(t.key <= k) then None
    else if |t.key| == |k| then t.payload
    else Find(Child(t, k[|t.key|]), k)
  }

  lemma PrefixTransitive(a: Bits, b: Bits, c: Bits)
    ensures a <= b && b <= c ==> a <= c
  {
  }

  lemma StemNext(stem: Bits, b: Bit, k: Bits)
    ensures stem + [b] <= k <==> stem <= k && |stem| < |k| && k[|stem|] == b
  {
    assert (stem + [b])[|stem|] == b;
    assert stem <= stem + [b];
    if stem <= k && |stem| < |k| && k[|stem|] == b {
      assert k[..|stem| + 1] == stem + [b];
    }
  }

  lemma {:induction false} FindIsContents<P>(t: Tree<P>, k: Bits)
    requires IsPatricia(t)
    ensures k in Contents(t) <==> Find(t, k).Some?
    ensures k in Contents(t) ==> Contents(t)[k] == Find(t, k).value
  {
    if t.Node? {
      StemNext(t.key, 0, k);
      StemNext(t.key, 1, k);
      assert t.key <= k && |t.key| == |k| ==> t.key == k;
      FindIsContents(t.zero, k);
      FindIsContents(t.one, k);
      FindExtends(t.zero, t.key + [0], k);
      FindExtends(t.one, t.key + [1], k);
    }
  }

  lemma FindExtends<P>(t: Tree<P>, stem: Bits, k: Bits)
    requires Extends(t, stem)
    ensures Find(t, k).Some? ==> stem <= k
  {
  }

  lemma CommonStem(l: Bits, k: Bits, stem: Bits)
    requires stem <= l && stem <= k
    ensures stem <= l[..CommonLength(l, k)]
  {
    var c := CommonLength(l, k);
    assert forall i :: 0 <= i < |stem| ==> l[i] == stem[i] == k[i];
  }

  /** Insertion keeps the trie a Patricia trie without idle nodes, and fails only where the
      payloads may not be merged. */
  lemma {:induction false} InsertKeepsPatricia<P>(t: Tree<P>, next: nat, k: Bits, p: P, merge: Merge<P>, stem: Bits)
    requires IsPatricia(t) && Extends(t, stem) && stem <= k
    ensures var r := Inserted(t, next, k, p, merge);
      && (r.None? <==> Merged(Find(t, k), p, merge).None?)
      && (r.Some? ==> r.value.Node? && IsPatricia(r.value) && Extends(r.value, stem))
      && (r.Some? && Compact(t) ==> Compact(r.value))
      && (r.Some? && t.Node? && t.key == [] ==> r.value.key == [] && r.value.ref == t.ref)
  {
    if t.Node? {
      var c := CommonLength(t.key, k);
      CommonStem(t.key, k, stem);
      if c == |t.key| {
        assert t.key == k[..c] <= k;
        if c < |k| {
          StemNext(t.key, k[c], k);
          InsertKeepsPatricia(Child(t, k[c]), next, k, p, merge, t.key + [k[c]]);
        }
      } else {
        InsertSplits(t, next, k, p, merge);
      }
    }
  }

  lemma InsertSplits<P>(t: Tree<P>, next: nat, k: Bits, p: P, merge: Merge<P>)
    requires IsPatricia(t) && t.Node? && CommonLength(t.key, k) < |t.key|
    ensures var r, c := Inserted(t, next, k, p, merge), CommonLength(t.key, k);
      && r.Some? && Find(t, k).None?
      && r.value.Node? && r.value.key == t.key[..c] && IsPatricia(r.value)
      && (Compact(t) ==> Compact(r.value))
  {
    var c := CommonLength(t.key, k);
    StemNext(t.key[..c], t.key[c], t.key);
    assert t.key[..c] == k[..c] <= k;
    if c < |k| {
      StemNext(k[..c], k[c], k);
      assert !(t.key <= k);
    }
  }

  /** Insertion changes what is stored under the inserted key, and nothing else. */
  lemma {:induction false} InsertIsUpdate<P>(t: Tree<P>, next: nat, k: Bits, p: P, merge: Merge<P>, l: Bits)
    requires IsPatricia(t)
    ensures var r := Inserted(t, next, k, p, merge);
      r.Some? ==> Find(r.value, l) == if l == k then Merged(Find(t, k), p, merge) else Find(t, l)
  {
    if t.Node? {
      var c := CommonLength(t.key, k);
      if c == |t.key| {
        assert t.key <= k;
        if c < |k| {
          InsertIsUpdate(Child(t, k[c]), next, k, p, merge, l);
        }
      } else {
        InsertSplits(t, next, k, p, merge);
        SplitIsUpdate(t, next, k, p, merge, l);
      }
    } else {
      assert k <= l && |k| == |l| ==> k == l;
    }
  }

  lemma SplitIsUpdate<P>(t: Tree<P>, next: nat, k: Bits, p: P, merge: Merge<P>, l: Bits)
    requires t.Node? && CommonLength(t.key, k) < |t.key|
    ensures Find(Inserted(t, next, k, p, merge).value, l) == if l == k then Some(p) else Find(t, l)
  {
    var c := CommonLength(t.key, k);
    var stem := t.key[..c];
    assert stem == k[..c] <= k && stem <= t.key;
    assert k <= l && |k| == |l| ==> k == l;
    assert t.key <= l ==> stem <= l && l[c] == t.key[c];
    assert stem <= l && |l| == c ==> l == stem;
    var r := Inserted(t, next, k, p, merge).value;
    if stem <= l && |l| > c {
      if l[c] == t.key[c] {
        assert Child(r, l[c]) == t;
        assert c < |k| ==> l != k;
      } else if c < |k| && l[c] == k[c] {
        assert Child(r, l[c]) == Node(next + 1, k, Some(p), Empty, Empty);
        assert Find(Child(r, l[c]), l) == if k == l then Some(p) else None;
      }
    }
  }

  ghost function MergedInto<P>(contents: map<Bits, P>, k: Bits, p: P, merge: Merge<P>): P
    requires k in contents ==> merge(contents[k], p).Some?
  {
    if k in contents then merge(contents[k], p).value else p
  }

  lemma InsertUpdatesKey<P>(t: Tree<P>, next: nat, k: Bits, p: P, merge: Merge<P>, l: Bits)
    requires IsPatricia(t) && Inserted(t, next, k, p, merge).Some?
    ensures var after := Contents(Inserted(t, next, k, p, merge).value);
      && (l in after <==> l == k || l in Contents(t))
      && (l in after && l != k ==> after[l] == Contents(t)[l])
      && (k in Contents(t) ==> merge(Contents(t)[k], p).Some?)
      && k in after && after[k] == MergedInto(Contents(t), k, p, merge)
  {
    InsertKeepsPatricia(t, next, k, p, merge, []);
    var r := Inserted(t, next, k, p, merge).value;
    InsertIsUpdate(t, next, k, p, merge, l);
    InsertIsUpdate(t, next, k, p, merge, k);
    FindIsContents(t, l);
    FindIsContents(t, k);
    FindIsContents(r, l);
    FindIsContents(r, k);
  }

  lemma MapUpdated<P>(after: map<Bits, P>, before: map<Bits, P>, k: Bits, v: P)
    requires forall l :: l in after <==> l == k || l in before
    requires forall l :: l in after ==> after[l] == if l == k then v else before[l]
    ensures after == before[k := v]
  {
  }

  /** Insertion, as an update of the map the trie stands for. */
  lemma InsertUpdatesContents<P>(t: Tree<P>, next: nat, k: Bits, p: P, merge: Merge<P>)
    requires IsPatricia(t)
    ensures Inserted(t, next, k, p, merge).None? <==> k in Contents(t) && merge(Contents(t)[k], p).None?
    ensures Inserted(t, next, k, p, merge).Some? ==>
              Contents(Inserted(t, next, k, p, merge).value) == Contents(t)[k := MergedInto(Contents(t), k, p, merge)]
  {
    InsertKeepsPatricia(t, next, k, p, merge, []);
    FindIsContents(t, k);
    var r := Inserted(t, next, k, p, merge);
    if r.Some? {
      var v := MergedInto(Contents(t), k, p, merge);
      forall l
        ensures l in Contents(r.value) <==> l == k || l in Contents(t)
        ensures l in Contents(r.value) ==> Contents(r.value)[l] == if l == k then v else Contents(t)[l]
      {
        InsertUpdatesKey(t, next, k, p, merge, l);
      }
      MapUpdated(Contents(r.value), Contents(t), k, v);
    }
  }

  /** How many array positions an insertion takes. */
  function Taken<P>(t: Tree<P>, k: Bits): nat {
    if t.Empty? then 1 else
      var c := CommonLength(t.key, k);
      if c < |t.key| then (if c == |k| then 1 else 2)
      else if c == |k| then 0
      else Taken(Child(t, k[c]), k)
  }

  lemma InsertTakesAtMostTwo<P>(t: Tree<P>, k: Bits)
    ensures Taken(t, k) <= 2
  {
  }

  function Positions(next: nat, taken: nat): set<nat> {
    if taken == 0 then {} else if taken == 1 then {next} else {next, next + 1}
  }

  lemma {:induction false} InsertTakes<P>(t: Tree<P>, next: nat, k: Bits, p: P, merge: Merge<P>)
    requires Distinct(t) && next > 0 && forall r :: r in Refs(t) ==> r < next
    ensures var r := Inserted(t, next, k, p, merge);
      r.Some? ==>
        && Distinct(r.value)
        && Refs(r.value) == Refs(t) + Positions(next, Taken(t, k))
    ensures Taken(t, k) <= 2
  {
    if t.Node? {
      var c := CommonLength(t.key, k);
      if c == |t.key| < |k| {
        assert Refs(Child(t, k[c])) <= Refs(t);
        InsertTakes(Child(t, k[c]), next, k, p, merge);
        assert forall r :: r in Positions(next, Taken(t, k)) ==> r !in Refs(t);
      } else if c < |t.key| {
        var r := Inserted(t, next, k, p, merge).value;
        assert Refs(Child(r, t.key[c])) == Refs(t);
        if c < |k| {
          assert Refs(Node(next + 1, k, Some(p), Empty, Empty)) == {next + 1};
          assert Refs(r) == {next} + Refs(t) + {next + 1};
        } else {
          assert Refs(r) == {next} + Refs(t);
        }
      }
    }
  }

  // ---------- lookup ----------

  function OwnKey<P>(t: Tree<P>): seq<Bits>
    requires t.Node?
  {
    if t.payload.Some? then [t.key] else []
  }

  /** The keys met on the walk towards q, shortest first. */
  function Chain<P>(t: Tree<P>, q: Bits): seq<Bits> {
    if t.Empty? || !(t.key <= q) then []
    else if |t.key| == |q| then OwnKey(t)
    else OwnKey(t) + Chain(Child(t, q[|t.key|]), q)
  }

  ghost predicate IncreasingLengths(s: seq<Bits>) {
    forall i, j :: 0 <= i < j < |s| ==> |s[i]| < |s[j]|
  }

  lemma {:induction false} ChainIncreases<P>(t: Tree<P>, q: Bits, stem: Bits)
    requires IsPatricia(t) && Extends(t, stem)
    ensures IncreasingLengths(Chain(t, q))
    ensures forall i :: 0 <= i < |Chain(t, q)| ==> stem <= Chain(t, q)[i]
  {
    if t.Node? && t.key <= q && |t.key| < |q| {
      var b := q[|t.key|];
      ChainIncreases(Child(t, b), q, t.key + [b]);
      forall k
        ensures t.key + [b] <= k ==> stem <= k && |t.key| < |k|
      {
        StemNext(t.key, b, k);
      }
    }
  }

  lemma {:induction false} ChainFinds<P>(t: Tree<P>, q: Bits, k: Bits)
    requires IsPatricia(t)
    ensures k in Chain(t, q) <==> k <= q && Find(t, k).Some?
  {
    if t.Node? && t.key <= q {
      assert t.key <= k && |t.key| == |k| ==> t.key == k;
      if |t.key| < |q| {
        var b := q[|t.key|];
        ChainFinds(Child(t, b), q, k);
        ChainIncreases(Child(t, b), q, t.key + [b]);
        StemNext(t.key, b, k);
      }
    } else if t.Node? {
      PrefixTransitive(t.key, k, q);
    }
  }

  /** The walk meets every stored key that is a prefix of q, and no other, in order of length:
      the nodes it passes by cannot match. */
  lemma ChainIsExact<P>(t: Tree<P>, q: Bits)
    requires IsPatricia(t)
    ensures IncreasingLengths(Chain(t, q))
    ensures forall k :: k in Chain(t, q) <==> k <= q && k in Contents(t)
  {
    ChainIncreases(t, q, []);
    forall k
      ensures k in Chain(t, q) <==> k <= q && k in Contents(t)
    {
      ChainFinds(t, q, k);
      FindIsContents(t, k);
    }
  }

  /** What a walk that remembers the last payload ends with. */
  function Deepest<P>(t: Tree<P>, q: Bits, best: Option<P>): Option<P> {
    if t.Empty? || !(t.key <= q) then best else
      var best' := if t.payload.Some? then t.payload else best;
      if |t.key| == |q| then best' else Deepest(Child(t, q[|t.key|]), q, best')
  }

  ghost predicate IsLongestKey<P>(stored: map<Bits, P>, q: Bits, k: Bits) {
    && k in stored && k <= q
    && forall l :: l in stored && l <= q ==> |l| <= |k|
  }

  /** p is what the longest stored prefix of q maps to: longest-match forwarding as in section
      5.1 of RFC 4632. */
  ghost predicate IsLongestMatch<P(!new)>(stored: map<Bits, P>, q: Bits, p: Option<P>) {
    match p
    case None => forall k :: k in stored ==> !(k <= q)
    case Some(payload) => exists k :: IsLongestKey(stored, q, k) && stored[k] == payload
  }

  lemma {:induction false} DeepestIsLast<P>(t: Tree<P>, q: Bits, best: Option<P>)
    requires IsPatricia(t)
    ensures var c := Chain(t, q);
      Deepest(t, q, best) == if c == [] then best else Find(t, c[|c| - 1])
    ensures forall k :: k in Chain(t, q) ==> Find(t, k).Some?
  {
    if t.Node? && t.key <= q && |t.key| < |q| {
      var b := q[|t.key|];
      DeepestIsLast(Child(t, b), q, if t.payload.Some? then t.payload else best);
      ChainIncreases(Child(t, b), q, t.key + [b]);
      forall k | k in Chain(Child(t, b), q)
        ensures Find(t, k) == Find(Child(t, b), k)
      {
        StemNext(t.key, b, k);
      }
    }
  }

  lemma LastOfChain<P>(t: Tree<P>, q: Bits)
    requires IsPatricia(t) && Chain(t, q) != []
    ensures var c := Chain(t, q); IsLongestKey(Contents(t), q, c[|c| - 1])
  {
    var c := Chain(t, q);
    ChainIsExact(t, q);
    assert c[|c| - 1] in c;
    forall l | l in Contents(t) && l <= q
      ensures |l| <= |c[|c| - 1]|
    {
      assert l in c;
    }
  }

  /** Walking down the trie finds the longest match among everything stored. */
  lemma DeepestIsLongestMatch<P(!new)>(t: Tree<P>, q: Bits)
    requires IsPatricia(t)
    ensures IsLongestMatch(Contents(t), q, Deepest(t, q, None))
  {
    DeepestIsLast(t, q, None);
    var c := Chain(t, q);
    if c == [] {
      ChainIsExact(t, q);
    } else {
      var k := c[|c| - 1];
      LastOfChain(t, q);
      FindIsContents(t, k);
    }
  }

  // ---------- size ----------

  function Size<P>(t: Tree<P>): nat {
    if t.Empty? then 0 else 1 + Size(t.zero) + Size(t.one)
  }

  lemma {:induction false} RefsCount<P>(t: Tree<P>)
    requires Distinct(t)
    ensures |Refs(t)| == Size(t)
  {
    if t.Node? {
      RefsCount(t.zero);
      RefsCount(t.one);
      var z, o := Refs(t.zero), Refs(t.one);
      assert |z + o| == |z| + |o|;
      assert Refs(t) == {t.ref} + (z + o);
    }
  }

  lemma {:induction false} ContentsCount<P>(t: Tree<P>)
    requires IsPatricia(t) && Compact(t)
    ensures t.Node? ==> Size(t) + 1 <= 2 * |Contents(t)|
  {
    if t.Node? {
      ContentsCount(t.zero);
      ContentsCount(t.one);
      ContentsParts(t);
    }
  }

  lemma ContentsParts<P>(t: Tree<P>)
    requires IsPatricia(t) && t.Node?
    ensures |Contents(t)| == |Contents(t.zero)| + |Contents(t.one)| + |Own(t)|
  {
    var z, o, w := Contents(t.zero).Keys, Contents(t.one).Keys, Own(t).Keys;
    forall k
      ensures !(k in z && k in o) && !(k in w && (k in z || k in o))
    {
      FindIsContents(t.zero, k);
      FindIsContents(t.one, k);
      FindExtends(t.zero, t.key + [0], k);
      FindExtends(t.one, t.key + [1], k);
      StemNext(t.key, 0, k);
      StemNext(t.key, 1, k);
    }
    assert |z + o| == |z| + |o|;
    assert Contents(t).Keys == (z + o) + w;
    assert |Contents(t).Keys| == |z + o| + |w|;
  }

  /** A trie whose root may be idle needs at most twice as many nodes as stored keys, and the root. */
  lemma NodesBounded<P>(t: Tree<P>)
    requires IsPatricia(t) && t.Node? && Compact(t.zero) && Compact(t.one)
    ensures Size(t) <= 2 * |Contents(t)| + 1
  {
    ContentsCount(t.zero);
    ContentsCount(t.one);
    ContentsParts(t);
  }
}
