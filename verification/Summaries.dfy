/** Materialized range summaries: one key per IPv4 prefix from /0 to /16, the ranges that are
    answered from them, and what their counts mean. */
module Summaries {
  import opened Bytes
  import opened Addresses
  import opened Cover
  import opened PointIndex

  const DEEPEST := 16

  /** The prefix with the given bits in front, `depth` bits above the deepest ones. */
  function PrefixBlock(network: nat, depth: nat): Block {
    BlockOf(network, DEEPEST + depth)
  }

  function BlockOf(network: nat, exp: nat): Block {
    ProductFits(network, Pow2(exp));
    Block(network * Pow2(exp), exp)
  }

  lemma ProductFits(a: nat, b: nat)
    ensures a * b >= 0
  {
  }

  // ---------- the writer ----------

  /** The prefix tree below a prefix, parents first. */
  function Preorder(network: nat, depth: nat): seq<Block>
    decreases depth
  {
    [PrefixBlock(network, depth)] +
    (if depth == 0 then [] else Preorder(2 * network, depth - 1) + Preorder(2 * network + 1, depth - 1))
  }

  function KeysFor(blocks: seq<Block>): (keys: seq<StoreKey>)
    ensures |keys| == |blocks|
  {
    seq(|blocks|, i requires 0 <= i < |blocks| => KeyFor(blocks[i]))
  }

  function KeyFor(b: Block): StoreKey {
    if b.exp <= 32 then PrefixKey(V4, b) else []
  }

  /** Where each block of the tree comes from: the prefix itself, its left half or its right. */
  lemma PreorderAt(network: nat, depth: nat, i: nat)
    requires depth > 0 && i < |Preorder(network, depth)|
    ensures var left, right := Preorder(2 * network, depth - 1), Preorder(2 * network + 1, depth - 1);
      && |Preorder(network, depth)| == 1 + |left| + |right|
      && Preorder(network, depth)[i] ==
         if i == 0 then PrefixBlock(network, depth) else if i <= |left| then left[i - 1] else right[i - 1 - |left|]
  {
  }

  ghost predicate KeyBefore(b: Block, c: Block) {
    b.base < c.base || (b.base == c.base && b.exp > c.exp)
  }

  lemma Halves(n: nat, p: nat)
    ensures n * (2 * p) == (2 * n) * p && (2 * n + 1) * p == (2 * n) * p + p
  {
    MulAssociates(n, 2, p);
  }

  lemma ChildBlocks(network: nat, depth: nat)
    requires depth > 0
    ensures var b, l, r := PrefixBlock(network, depth), PrefixBlock(2 * network, depth - 1), PrefixBlock(2 * network + 1, depth - 1);
      l.base == b.base && r.base == End(l) && End(r) == End(b)
  {
    Halves(network, Pow2(DEEPEST + depth - 1));
  }

  lemma PreorderParts(network: nat, depth: nat)
    ensures depth > 0 ==>
      Preorder(network, depth) == [PrefixBlock(network, depth)] + (Preorder(2 * network, depth - 1) + Preorder(2 * network + 1, depth - 1))
    ensures depth == 0 ==> Preorder(network, depth) == [PrefixBlock(network, depth)] + ([] + [])
  {
  }

  /** Every block written below a prefix lies in it. */
  lemma {:induction false} PreorderWithin(network: nat, depth: nat, i: nat)
    requires i < |Preorder(network, depth)|
    ensures var b := Preorder(network, depth)[i];
      Within(b, PrefixBlock(network, depth)) && Aligned(b) && 16 <= b.exp <= 16 + depth && (i > 0 ==> b.exp < 16 + depth)
    decreases depth
  {
    if depth > 0 {
      PreorderAt(network, depth, i);
    }
    if i == 0 {
      PrefixAligned(network, depth);
    } else if depth > 0 {
      ChildBlocks(network, depth);
      var n := |Preorder(2 * network, depth - 1)|;
      if i <= n {
        PreorderWithin(2 * network, depth - 1, i - 1);
      } else {
        PreorderWithin(2 * network + 1, depth - 1, i - 1 - n);
      }
    }
  }

  /** The order of writing is strictly ascending. */
  lemma {:induction false} PreorderAscends(network: nat, depth: nat, i: nat, j: nat)
    requires i < j < |Preorder(network, depth)|
    ensures KeyBefore(Preorder(network, depth)[i], Preorder(network, depth)[j])
    decreases depth
  {
    PreorderWithin(network, depth, j);
    if depth > 0 {
      ChildBlocks(network, depth);
      PreorderAt(network, depth, i);
      PreorderAt(network, depth, j);
      var n := |Preorder(2 * network, depth - 1)|;
      if i > 0 && j <= n {
        PreorderAscends(2 * network, depth - 1, i - 1, j - 1);
      } else if i > n {
        PreorderAscends(2 * network + 1, depth - 1, i - 1 - n, j - 1 - n);
      } else if i > 0 {
        PreorderWithin(2 * network, depth - 1, i - 1);
        PreorderWithin(2 * network + 1, depth - 1, j - 1 - n);
      }
    }
  }

  /** How many keys there are: 2^17 - 1 from the root. */
  lemma {:induction false} PreorderCount(network: nat, depth: nat)
    ensures |Preorder(network, depth)| == Pow2(depth + 1) - 1
    decreases depth
  {
    if depth > 0 {
      PreorderCount(2 * network, depth - 1);
      PreorderCount(2 * network + 1, depth - 1);
    }
  }

  /** Every prefix of at most 16 bits below a prefix is written. */
  lemma {:induction false} PreorderHasAll(network: nat, depth: nat, b: Block)
    requires Aligned(b) && 16 <= b.exp && Within(b, PrefixBlock(network, depth))
    ensures b in Preorder(network, depth)
    decreases depth
  {
    var whole := PrefixBlock(network, depth);
    WithinIsSmaller(b, whole);
    if b.exp == whole.exp {
      assert b == whole;
    } else {
      ChildBlocks(network, depth);
      var l, r := PrefixBlock(2 * network, depth - 1), PrefixBlock(2 * network + 1, depth - 1);
      PrefixAligned(2 * network, depth - 1);
      PrefixAligned(2 * network + 1, depth - 1);
      if b.base < End(l) {
        Nested(b, l, b.base);
        PreorderHasAll(2 * network, depth - 1, b);
      } else {
        Nested(b, r, b.base);
        PreorderHasAll(2 * network + 1, depth - 1, b);
      }
    }
  }

  lemma PrefixAligned(network: nat, depth: nat)
    ensures Aligned(PrefixBlock(network, depth))
  {
    var p := Pow2(DEEPEST + depth);
    MultipleOf(p, network);
    assert network * p == p * network;
  }

  lemma WithinIsSmaller(b: Block, c: Block)
    requires Within(b, c)
    ensures b.exp <= c.exp && (b.exp == c.exp ==> b.base == c.base)
  {
    if c.exp < b.exp {
      Pow2Monotone(c.exp, b.exp);
    }
  }

  /** Bytewise key order is block order. */
  lemma PrefixKeyOrder(b: Block, c: Block)
    requires b.exp <= 32 && c.exp <= 32 && b.base < Pow2(Width(V4)) && c.base < Pow2(Width(V4)) && KeyBefore(b, c)
    ensures LexLess(PrefixKey(V4, b), PrefixKey(V4, c))
  {
    var x, y := AddressOf(b.base, V4), AddressOf(c.base, V4);
    var k, l := PrefixKey(V4, b), PrefixKey(V4, c);
    NumOfAddress(b.base, V4);
    NumOfAddress(c.base, V4);
    AddressOrder(x, y, V4);
    LexFields(x, [32 - b.exp], y, [32 - c.exp]);
    assert k[1..] == x + [32 - b.exp] && l[1..] == y + [32 - c.exp];
  }

  lemma KeysJoin(before: seq<StoreKey>, b: Block, left: seq<Block>, right: seq<Block>)
    ensures before + [KeyFor(b)] + KeysFor(left) + KeysFor(right) == before + KeysFor([b] + (left + right))
  {
  }

  /** A prefix of at most 16 bits that lies in the given one. */
  ghost predicate IsBelow(b: Block, whole: Block) {
    Aligned(b) && DEEPEST <= b.exp && Within(b, whole)
  }

  lemma KeysOrdered(network: nat, depth: nat, i: nat, j: nat)
    requires End(PrefixBlock(network, depth)) <= Pow2(Width(V4)) && depth <= 16 && i < j < |Preorder(network, depth)|
    ensures LexLess(KeyFor(Preorder(network, depth)[i]), KeyFor(Preorder(network, depth)[j]))
  {
    var blocks := Preorder(network, depth);
    PreorderWithin(network, depth, i);
    PreorderWithin(network, depth, j);
    PreorderAscends(network, depth, i, j);
    PrefixKeyOrder(blocks[i], blocks[j]);
  }

  lemma KeysSorted(network: nat, depth: nat)
    requires End(PrefixBlock(network, depth)) <= Pow2(Width(V4)) && depth <= 16
    ensures Sorted(KeysFor(Preorder(network, depth)))
  {
    var keys := KeysFor(Preorder(network, depth));
    forall i, j | 0 <= i < j < |keys|
      ensures Precedes(keys, i, j)
    {
      KeysOrdered(network, depth, i, j);
    }
  }

  lemma KeysWritten(network: nat, depth: nat, key: StoreKey)
    ensures key in KeysFor(Preorder(network, depth)) <==>
      exists b :: IsBelow(b, PrefixBlock(network, depth)) && key == KeyFor(b)
  {
    var blocks := Preorder(network, depth);
    var keys := KeysFor(blocks);
    if key in keys {
      var i :| 0 <= i < |keys| && keys[i] == key;
      PreorderWithin(network, depth, i);
      assert IsBelow(blocks[i], PrefixBlock(network, depth));
    }
    if b :| IsBelow(b, PrefixBlock(network, depth)) && key == KeyFor(b) {
      PreorderHasAll(network, depth, b);
      var i :| 0 <= i < |blocks| && blocks[i] == b;
      assert keys[i] == key;
    }
  }

  /** An IPv4 prefix of at most 16 bits. */
  ghost predicate IsSummaryBlock(b: Block) {
    Aligned(b) && DEEPEST <= b.exp <= Width(V4) && End(b) <= Pow2(Width(V4))
  }

  ghost predicate IsRoot(whole: Block) {
    End(whole) <= Pow2(Width(V4)) && forall b :: IsBelow(b, whole) <==> IsSummaryBlock(b)
  }

  lemma RootIsWhole(network: nat, depth: nat)
    requires network == 0 && depth == 16
    ensures true == IsRoot(PrefixBlock(network, depth))
  {
    var root := PrefixBlock(network, depth);
    assert root == Block(0, 16 + depth) && 16 + depth == Width(V4);
    forall b
      ensures IsBelow(b, root) <==> IsSummaryBlock(b)
    {
      if Within(b, root) {
        WithinIsSmaller(b, root);
      }
    }
  }

  /** The keys are those of all prefixes of at most 16 bits. */
  ghost predicate IsSummaryBucket(keys: seq<StoreKey>) {
    Sorted(keys) && forall key :: key in keys <==> IsSummaryKey(key)
  }

  ghost predicate IsSummaryKey(key: StoreKey) {
    exists b :: IsSummaryBlock(b) && key == PrefixKey(V4, b)
  }

  lemma TreeIsBucket(network: nat, depth: nat)
    requires depth <= 16 && true == IsRoot(PrefixBlock(network, depth))
    ensures true == IsSummaryBucket(KeysFor(Preorder(network, depth)))
  {
    KeysSorted(network, depth);
    forall key
      ensures key in KeysFor(Preorder(network, depth)) <==> IsSummaryKey(key)
    {
      KeysWritten(network, depth, key);
      SummaryKeys(PrefixBlock(network, depth), key);
    }
  }

  lemma SummaryKeys(whole: Block, key: StoreKey)
    requires IsRoot(whole)
    ensures IsSummaryKey(key) <==> exists b :: IsBelow(b, whole) && key == KeyFor(b)
  {
    if b :| IsBelow(b, whole) && key == KeyFor(b) {
      assert IsSummaryBlock(b) && key == PrefixKey(V4, b);
    }
    if b :| IsSummaryBlock(b) && key == PrefixKey(V4, b) {
      assert IsBelow(b, whole) && key == KeyFor(b);
    }
  }

  // ---------- which ranges are prefixes ----------

  /** Bitwise and. */
  function And(a: nat, b: nat): nat {
    if a == 0 || b == 0 then 0 else 2 * And(a / 2, b / 2) + if a % 2 == 1 && b % 2 == 1 then 1 else 0
  }

  lemma AndOdd(a: nat, m: nat, n: nat)
    requires n == 2 * m + 1
    ensures And(a, n) == 2 * And(a / 2, m) + a % 2
  {
  }

  /** Masking with 2^e - 1 leaves the remainder. */
  lemma {:induction false} AndMask(a: nat, e: nat)
    ensures And(a, Pow2(e) - 1) == a % Pow2(e)
    decreases e
  {
    if e > 0 {
      AndMask(a / 2, e - 1);
      AndMaskStep(a, Pow2(e - 1), Pow2(e));
    }
  }

  lemma AndMaskStep(a: nat, p: nat, d: nat)
    requires p >= 1 && d == 2 * p && And(a / 2, p - 1) == a / 2 % p
    ensures And(a, d - 1) == a % d
  {
    AndOdd(a, p - 1, d - 1);
    ModHalf(a, p, d);
  }

  lemma ModHalf(a: nat, p: nat, d: nat)
    requires p >= 1 && d == 2 * p
    ensures a % d == 2 * (a / 2 % p) + a % 2
  {
    var q, r := a / 2 / p, a / 2 % p;
    assert a / 2 == p * q + r;
    assert a == 2 * (a / 2) + a % 2;
    MulAssociates(2, p, q);
    DivUnique(a, d, q, 2 * r + a % 2);
  }

  /** PrefixForRange: the length of the prefix that a range is, if it is one. The count must be a
      power of two, seen by its highest and lowest set bits, and the start a multiple of it. */
  function PrefixForRange(start: nat, last: nat, bits: nat): Option<int> {
    var count := last - start + 1;
    if count <= 0 || Log2(count) != LowExp(count) then None else
      var length := bits - Log2(count);
      if length < 0 || And(start, count - 1) != 0 then None else Some(length)
  }

  lemma {:induction false} PowerByBits(n: nat)
    requires n > 0
    ensures Log2(n) == LowExp(n) ==> n == Pow2(Log2(n))
    ensures LowExp(n) <= Log2(n)
  {
    if n % 2 == 0 {
      PowerByBits(n / 2);
    }
  }

  lemma {:induction false} LowExpOfPower(e: nat)
    ensures LowExp(Pow2(e)) == e
  {
    if e > 0 {
      LowExpOfPower(e - 1);
    }
  }

  /** A range passes exactly when it is one aligned block, and gets that block's length. */
  lemma PrefixForRangeIsExact(start: nat, last: nat, bits: nat, length: int)
    ensures PrefixForRange(start, last, bits) == Some(length) <==>
      exists b: Block :: Aligned(b) && b.exp <= bits && b.base == start && End(b) == last + 1 && length == bits - b.exp
  {
    var count := last - start + 1;
    if PrefixForRange(start, last, bits) == Some(length) {
      PowerByBits(count);
      AndMask(start, Log2(count));
      var b := Block(start, Log2(count));
      assert Aligned(b) && End(b) == last + 1;
    }
    if b: Block :| Aligned(b) && b.exp <= bits && b.base == start && End(b) == last + 1 && length == bits - b.exp {
      Log2OfPower(b.exp);
      LowExpOfPower(b.exp);
      AndMask(start, b.exp);
    }
  }

  /** SummaryPrefixKeys: IPv4 prefixes of at most 16 bits are answered from a summary. */
  function SummaryKey(start: nat, last: nat, v: Version): Option<StoreKey> {
    if v.V6? then None else
      var length := PrefixForRange(start, last, Width(v));
      if length.None? || length.value > DEEPEST || length.value < 0 then None
      else Some(PrefixKey(V4, Block(start, Width(V4) - length.value)))
  }

  lemma SummaryKeyIsExact(start: nat, last: nat, v: Version)
    requires last < Pow2(Width(v))
    ensures SummaryKey(start, last, v).Some? <==> v.V4? && IsSummaryRange(start, last)
  {
    if SummaryKey(start, last, v).Some? {
      var b := SummaryBlock(start, last, v);
    }
    if v.V4? && IsSummaryRange(start, last) {
      var b :| IsSummaryBlock(b) && b.base == start && End(b) == last + 1;
      PrefixForRangeIsExact(start, last, Width(v), Width(v) - b.exp);
    }
  }

  ghost predicate IsSummaryRange(start: nat, last: nat) {
    exists b :: IsSummaryBlock(b) && b.base == start && End(b) == last + 1
  }

  lemma SummaryBlock(start: nat, last: nat, v: Version) returns (b: Block)
    requires last < Pow2(Width(v)) && SummaryKey(start, last, v).Some?
    ensures IsSummaryBlock(b) && b.base == start && End(b) == last + 1 && SummaryKey(start, last, v).value == PrefixKey(V4, b)
  {
    var length := PrefixForRange(start, last, Width(v)).value;
    PrefixForRangeIsExact(start, last, Width(v), length);
    b :| Aligned(b) && b.exp <= Width(v) && b.base == start && End(b) == last + 1 && length == Width(v) - b.exp;
  }

  /** A range is answered from a summary exactly when it is an IPv4 prefix of at most 16 bits,
      and then its key is one that was written. */
  lemma SummaryKeyWasWritten(start: nat, last: nat, v: Version, keys: seq<StoreKey>)
    requires last < Pow2(Width(v)) && IsSummaryBucket(keys)
    ensures SummaryKey(start, last, v).Some? <==> v.V4? && IsSummaryRange(start, last)
    ensures SummaryKey(start, last, v).Some? ==> SummaryKey(start, last, v).value in keys
  {
    SummaryKeyIsExact(start, last, v);
    if SummaryKey(start, last, v).Some? {
      var b := SummaryBlock(start, last, v);
      assert IsSummaryKey(PrefixKey(V4, b));
    }
  }
}
