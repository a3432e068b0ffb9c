/** Splitting an address range into CIDR blocks: the greedy loop, and why no cover is shorter. */
module Cover {
  import opened Bytes
  import opened Addresses

  /** 2^exp addresses from base; a CIDR prefix of length Width - exp when base is aligned. */
  datatype Block = Block(base: nat, exp: nat)

  function Size(b: Block): (s: nat)
    ensures s >= 1
  {
    Pow2(b.exp)
  }

  function End(b: Block): nat {
    b.base + Size(b)
  }

  predicate Has(b: Block, x: nat) {
    b.base <= x < End(b)
  }

  predicate Aligned(b: Block) {
    b.base % Size(b) == 0
  }

  predicate Within(b: Block, c: Block) {
    c.base <= b.base && End(b) <= End(c)
  }

  // ---------- multiples ----------

  lemma MultipleGap(a: nat, b: nat, p: nat)
    requires p >= 1 && a % p == 0 && b % p == 0 && a < b
    ensures a + p <= b
  {
    var i, j := a / p, b / p;
    assert a == p * i && b == p * j;
    if j <= i {
      MulMonotone(p, j, i);
    } else {
      MulMonotone(p, i + 1, j);
      assert p * (i + 1) == p * i + p;
    }
  }

  lemma MulMonotone(p: nat, i: nat, j: nat)
    requires i <= j
    ensures p * i <= p * j
  {
    Distribute(p, j, i);
    assert p * (j - i) >= 0;
  }

  lemma MultipleOf(p: nat, m: nat)
    requires p >= 1
    ensures (p * m) % p == 0 && (p * m) / p == m
  {
    DivUnique(p * m, p, m, 0);
  }

  lemma MultipleSum(a: nat, b: nat, p: nat)
    requires p >= 1 && a % p == 0 && b % p == 0
    ensures (a + b) % p == 0
  {
    var i, j := a / p, b / p;
    assert a == p * i && b == p * j;
    assert p * i + p * j == p * (i + j);
    MultipleOf(p, i + j);
  }

  /** A multiple of a larger power of two is one of a smaller. */
  lemma MultipleDown(n: nat, e: nat, f: nat)
    requires e <= f && n % Pow2(f) == 0
    ensures n % Pow2(e) == 0
  {
    Pow2Add(e, f - e);
    var p, r, m := Pow2(e), Pow2(f - e), n / Pow2(f);
    assert n == Pow2(f) * m;
    MulAssociates(p, r, m);
    MultipleOf(p, r * m);
  }

  lemma PowerMultiple(e: nat, f: nat)
    requires e <= f
    ensures Pow2(f) % Pow2(e) == 0 && Pow2(e) <= Pow2(f)
  {
    Pow2Add(e, f - e);
    MultipleOf(Pow2(e), Pow2(f - e));
    if e < f { Pow2Monotone(e, f); }
  }

  /** Aligned blocks that share an address are nested. */
  lemma Nested(b: Block, c: Block, x: nat)
    requires Aligned(b) && Aligned(c) && b.exp <= c.exp && Has(b, x) && Has(c, x)
    ensures Within(b, c)
  {
    var p := Size(b);
    MultipleDown(c.base, b.exp, c.exp);
    PowerMultiple(b.exp, c.exp);
    MultipleSum(c.base, Size(c), p);
    MultipleGap(b.base, End(c), p);
    if b.base < c.base {
      MultipleGap(b.base, c.base, p);
    }
  }

  // ---------- the greedy loop ----------

  /** The lowest set bit of n, as n & -n yields it: its exponent. */
  function LowExp(n: nat): nat
    requires n > 0
  {
    if n % 2 == 1 then 0 else 1 + LowExp(n / 2)
  }

  lemma {:induction false} LowExpDivides(n: nat)
    requires n > 0
    ensures var e := LowExp(n); n % Pow2(e) == 0 && n % Pow2(e + 1) != 0 && Pow2(e) <= n
  {
    if n % 2 == 0 {
      LowExpDivides(n / 2);
      HalfMultiple(n / 2, LowExp(n / 2));
      HalfMultiple(n / 2, LowExp(n / 2) + 1);
    }
  }

  lemma HalfMultiple(n: nat, e: nat)
    ensures (2 * n) % Pow2(e + 1) == 0 <==> n % Pow2(e) == 0
  {
    ModDouble(n, Pow2(e));
  }

  lemma ModDouble(n: nat, p: nat)
    requires p >= 1
    ensures (2 * n) % (2 * p) == 2 * (n % p)
  {
    var q, r := n / p, n % p;
    assert n == p * q + r;
    MulAssociates(2, p, q);
    DivUnique(2 * n, 2 * p, q, 2 * r);
  }

  /** The exponent of the largest block that may start at cur at all. */
  function AlignExp(cur: nat, bits: nat): nat {
    if cur == 0 then bits else LowExp(cur)
  }

  /** Halving a block until it fits. */
  function Shrink(e: nat, remaining: nat): (f: nat)
    requires remaining >= 1
    ensures f <= e && Pow2(f) <= remaining
    ensures f < e ==> remaining < Pow2(f + 1)
  {
    if Pow2(e) <= remaining then e else Shrink(e - 1, remaining)
  }

  function First(cur: nat, last: nat, bits: nat): Block
    requires cur <= last
  {
    Block(cur, Shrink(AlignExp(cur, bits), last - cur + 1))
  }

  function Greedy(cur: nat, last: nat, bits: nat): seq<Block>
    decreases last + 1 - cur
  {
    if cur > last then [] else [First(cur, last, bits)] + Greedy(End(First(cur, last, bits)), last, bits)
  }

  lemma FirstAligned(cur: nat, last: nat, bits: nat)
    requires cur <= last
    ensures var b := First(cur, last, bits); Aligned(b) && End(b) <= last + 1
  {
    var b := First(cur, last, bits);
    if cur == 0 {
      assert 0 % Size(b) == 0;
    } else {
      LowExpDivides(cur);
      MultipleDown(cur, b.exp, LowExp(cur));
    }
  }

  /** No aligned block starts at cur, fits, and is larger than the greedy choice. */
  lemma FirstLargest(cur: nat, last: nat, bits: nat, b: Block)
    requires cur <= last < Pow2(bits)
    requires b.base == cur && Aligned(b) && End(b) <= last + 1
    ensures b.exp <= First(cur, last, bits).exp
  {
    var e := First(cur, last, bits).exp;
    if e < b.exp {
      PowerMultiple(e + 1, b.exp);
      if cur == 0 {
        if e == bits {
          Pow2Monotone(bits, b.exp);
        }
      } else if e == LowExp(cur) {
        LowExpDivides(cur);
        MultipleDown(cur, e + 1, b.exp);
      }
    }
  }

  // ---------- exactness ----------

  /** The blocks lie end to end from s up to and including e. */
  predicate Tiles(blocks: seq<Block>, s: nat, e: int)
    decreases |blocks|
  {
    if blocks == [] then s == e + 1 else blocks[0].base == s && Tiles(blocks[1..], End(blocks[0]), e)
  }

  ghost predicate AllAligned(blocks: seq<Block>) {
    forall i :: 0 <= i < |blocks| ==> Aligned(blocks[i])
  }

  lemma {:induction false} GreedyTiles(cur: nat, last: int, bits: nat)
    requires cur <= last + 1 && last >= -1
    ensures last >= 0 ==> Tiles(Greedy(cur, last, bits), cur, last) && AllAligned(Greedy(cur, last, bits))
    decreases last + 1 - cur
  {
    if cur <= last {
      FirstAligned(cur, last, bits);
      var b := First(cur, last, bits);
      GreedyTiles(End(b), last, bits);
      var rest := Greedy(End(b), last, bits);
      assert Greedy(cur, last, bits) == [b] + rest;
      assert ([b] + rest)[1..] == rest;
    }
  }

  /** Blocks that tile a range cover exactly its addresses. */
  lemma {:induction false} TilesCover(blocks: seq<Block>, s: nat, e: int, x: nat)
    requires Tiles(blocks, s, e)
    ensures s <= e + 1
    ensures s <= x <= e <==> exists i :: 0 <= i < |blocks| && Has(blocks[i], x)
    decreases |blocks|
  {
    if blocks != [] {
      var rest := blocks[1..];
      TilesCover(rest, End(blocks[0]), e, x);
      if exists i :: 0 <= i < |rest| && Has(rest[i], x) {
        var i :| 0 <= i < |rest| && Has(rest[i], x);
        assert blocks[i + 1] == rest[i];
      }
      if exists i :: 0 <= i < |blocks| && Has(blocks[i], x) {
        var i :| 0 <= i < |blocks| && Has(blocks[i], x);
        if i > 0 {
          assert rest[i - 1] == blocks[i];
        }
      }
    }
  }

  /** ... each of them once, in ascending order. */
  lemma {:induction false} TilesOrdered(blocks: seq<Block>, s: nat, e: int, i: nat, j: nat)
    requires Tiles(blocks, s, e) && i < j < |blocks|
    ensures End(blocks[i]) <= blocks[j].base
    decreases |blocks|
  {
    var rest := blocks[1..];
    if i > 0 {
      TilesOrdered(rest, End(blocks[0]), e, i - 1, j - 1);
    } else if j > 1 {
      TilesOrdered(rest, End(blocks[0]), e, 0, j - 1);
      assert rest[0].base == End(blocks[0]);
    }
  }

  // ---------- minimality ----------

  /** No aligned block inside [s, last] straddles cur: it lies wholly before or wholly after. */
  ghost predicate NoStraddle(s: nat, cur: nat, last: nat) {
    forall b: Block :: Aligned(b) && s <= b.base && End(b) <= last + 1 ==> End(b) <= cur || cur <= b.base
  }

  /** A greedy block cuts no aligned block of the range in two. */
  lemma StepNoStraddle(s: nat, cur: nat, last: nat, bits: nat)
    requires s <= cur <= last < Pow2(bits) && NoStraddle(s, cur, last)
    ensures NoStraddle(s, End(First(cur, last, bits)), last)
  {
    var g := First(cur, last, bits);
    FirstAligned(cur, last, bits);
    forall b: Block | Aligned(b) && s <= b.base && End(b) <= last + 1
      ensures End(b) <= End(g) || End(g) <= b.base
    {
      if b.base < End(g) < End(b) && cur <= b.base {
        if b.exp <= g.exp {
          Nested(b, g, b.base);
        } else {
          Nested(g, b, b.base);
          FirstLargest(cur, last, bits, b);
        }
      }
    }
  }

  /** Every aligned block of the range fits inside one of the greedy blocks: the greedy blocks
      are the maximal ones. */
  lemma {:induction false} GreedyIsMaximal(s: nat, cur: nat, last: nat, bits: nat, b: Block) returns (i: nat)
    requires s <= cur <= last + 1 && last < Pow2(bits) && NoStraddle(s, cur, last)
    requires Aligned(b) && cur <= b.base && End(b) <= last + 1
    ensures i < |Greedy(cur, last, bits)| && Within(b, Greedy(cur, last, bits)[i])
    decreases last + 1 - cur
  {
    var g := First(cur, last, bits);
    StepNoStraddle(s, cur, last, bits);
    FirstAligned(cur, last, bits);
    if End(b) <= End(g) {
      i := 0;
    } else {
      i := GreedyIsMaximal(s, End(g), last, bits, b);
      i := i + 1;
    }
  }

  /** Any family of CIDR blocks whose union is the range, overlapping or not. */
  ghost predicate IsCover(blocks: seq<Block>, s: nat, last: nat) {
    && AllAligned(blocks)
    && (forall i :: 0 <= i < |blocks| ==> s <= blocks[i].base && End(blocks[i]) <= last + 1)
    && (forall x :: s <= x <= last ==> Covered(blocks, x))
  }

  ghost predicate Covered(blocks: seq<Block>, x: nat) {
    exists i :: 0 <= i < |blocks| && Has(blocks[i], x)
  }

  /** The block of a cover that holds the first address of the k-th greedy block lies inside
      that greedy block. */
  lemma Representative(s: nat, last: nat, bits: nat, cover: seq<Block>, k: nat) returns (j: nat)
    requires s <= last < Pow2(bits) && IsCover(cover, s, last)
    requires k < |Greedy(s, last, bits)|
    ensures j < |cover| && Within(cover[j], Greedy(s, last, bits)[k])
  {
    var greedy := Greedy(s, last, bits);
    var g := greedy[k];
    GreedyTiles(s, last, bits);
    assert Has(greedy[k], g.base);
    TilesCover(greedy, s, last, g.base);
    assert Covered(cover, g.base);
    j :| 0 <= j < |cover| && Has(cover[j], g.base);
    var i := GreedyIsMaximal(s, s, last, bits, cover[j]);
    if i < k {
      TilesOrdered(greedy, s, last, i, k);
    } else if k < i {
      TilesOrdered(greedy, s, last, k, i);
    }
  }

  /** js[k] names a block of the cover inside the k-th greedy block. */
  ghost predicate Represent(js: seq<nat>, cover: seq<Block>, greedy: seq<Block>) {
    |js| <= |greedy| && forall k :: 0 <= k < |js| ==> js[k] < |cover| && Within(cover[js[k]], greedy[k])
  }

  lemma {:induction false} Representatives(s: nat, last: nat, bits: nat, cover: seq<Block>, greedy: seq<Block>, n: nat)
    returns (js: seq<nat>)
    requires s <= last < Pow2(bits) && IsCover(cover, s, last)
    requires greedy == Greedy(s, last, bits) && n <= |greedy|
    ensures |js| == n && Represent(js, cover, greedy)
  {
    js := [];
    if n > 0 {
      js := Representatives(s, last, bits, cover, greedy, n - 1);
      var j := Representative(s, last, bits, cover, n - 1);
      js := js + [j];
    }
  }

  lemma DistinctIndices(js: seq<nat>, n: nat)
    requires forall i :: 0 <= i < |js| ==> js[i] < n
    requires forall i, j :: 0 <= i < j < |js| ==> js[i] != js[j]
    ensures |js| <= n
  {
    Elements(js);
    BelowCount(n);
    assert (set i | 0 <= i < |js| :: js[i]) <= Below(n);
    SubsetCount((set i | 0 <= i < |js| :: js[i]), Below(n));
  }

  lemma {:induction false} Elements(js: seq<nat>)
    requires forall i, j :: 0 <= i < j < |js| ==> js[i] != js[j]
    ensures |set i | 0 <= i < |js| :: js[i]| == |js|
  {
    if js != [] {
      var n := |js| - 1;
      Elements(js[..n]);
      assert (set i | 0 <= i < |js| :: js[i]) == (set i | 0 <= i < n :: js[..n][i]) + {js[n]};
    }
  }

  function Below(n: nat): set<nat> {
    if n == 0 then {} else Below(n - 1) + {n - 1}
  }

  lemma {:induction false} BelowCount(n: nat)
    ensures forall i: nat :: i in Below(n) <==> i < n
    ensures |Below(n)| == n
  {
    if n > 0 {
      BelowCount(n - 1);
    }
  }

  lemma SubsetCount(a: set<nat>, b: set<nat>)
    requires a <= b
    ensures |a| <= |b|
  {
    assert b == a + (b - a);
  }

  /** No CIDR cover of a range has fewer blocks than the greedy one. */
  lemma GreedyIsMinimal(s: nat, last: nat, bits: nat, cover: seq<Block>)
    requires s <= last < Pow2(bits) && IsCover(cover, s, last)
    ensures |Greedy(s, last, bits)| <= |cover|
  {
    var greedy := Greedy(s, last, bits);
    var js := Representatives(s, last, bits, cover, greedy, |greedy|);
    GreedyTiles(s, last, bits);
    forall i, j | 0 <= i < j < |js|
      ensures js[i] != js[j]
    {
      TilesOrdered(greedy, s, last, i, j);
    }
    DistinctIndices(js, |cover|);
  }

  // ---------- length ----------

  /** Once a block had to be halved to fit, the blocks that follow shrink. */
  lemma {:induction false} ShrinkingTail(cur: nat, last: nat, bits: nat, e: nat)
    requires cur <= last + 1 && last < Pow2(bits) && e <= bits
    requires cur % Pow2(e) == 0 && last + 1 - cur < Pow2(e)
    ensures |Greedy(cur, last, bits)| <= e
    decreases last + 1 - cur
  {
    if cur <= last {
      var b := First(cur, last, bits);
      FirstAligned(cur, last, bits);
      if e <= b.exp {
        PowerMultiple(e, b.exp);
      }
      assert b.exp < e;
      assert last + 1 - cur < Pow2(b.exp + 1) by {
        if AlignExp(cur, bits) == b.exp && cur > 0 {
          LowExpDivides(cur);
          MultipleDown(cur, b.exp + 1, e);
        }
      }
      MultipleSum(cur, Size(b), Size(b));
      ShrinkingTail(End(b), last, bits, b.exp);
    }
  }

  /** From an address that is a multiple of 2^e the blocks grow, then shrink. */
  lemma {:induction false} GrowingHead(cur: nat, last: nat, bits: nat, e: nat)
    requires 0 < cur <= last < Pow2(bits) && e < bits && bits >= 2
    requires cur % Pow2(e) == 0
    ensures |Greedy(cur, last, bits)| <= 2 * (bits - 1) - e
    decreases last + 1 - cur
  {
    var f := LowExp(cur);
    LowExpDivides(cur);
    if f < e {
      MultipleDown(cur, f + 1, e);
    }
    if bits <= f {
      PowerMultiple(bits, f);
    }
    assert e <= f < bits;
    var b := First(cur, last, bits);
    if b.exp < f {
      PowerMultiple(b.exp + 1, f);
      ShrinkingTail(cur, last, bits, f);
    } else {
      var next := End(b);
      NextMultiple(cur, f);
      FirstAligned(cur, last, bits);
      if f + 1 == bits {
        assert 0 % Pow2(bits) == 0;
        MultipleGap(0, next, Pow2(bits));
      }
      if next <= last {
        GrowingHead(next, last, bits, f + 1);
      }
      assert |Greedy(cur, last, bits)| == 1 + |Greedy(next, last, bits)|;
    }
  }

  lemma NextMultiple(cur: nat, e: nat)
    requires cur % Pow2(e) == 0 && cur % Pow2(e + 1) != 0
    ensures (cur + Pow2(e)) % Pow2(e + 1) == 0
  {
    var p := Pow2(e);
    var m := cur / p;
    assert cur == p * m;
    if m % 2 == 0 {
      MulAssociates(p, 2, m / 2);
      MultipleOf(2 * p, m / 2);
    } else {
      MulAssociates(p, 2, (m + 1) / 2);
      assert p * (m + 1) == p * m + p;
      MultipleOf(2 * p, (m + 1) / 2);
    }
  }

  /** A range needs at most 2 * bits - 2 blocks. */
  lemma GreedyIsShort(s: nat, last: nat, bits: nat)
    requires s <= last < Pow2(bits) && bits >= 2
    ensures |Greedy(s, last, bits)| <= 2 * bits - 2
  {
    if s > 0 {
      assert s % Pow2(0) == 0;
      GrowingHead(s, last, bits, 0);
    } else if last + 1 < Pow2(bits) {
      assert s % Pow2(bits) == 0;
      ShrinkingTail(s, last, bits, bits);
    } else {
      assert First(0, last, bits) == Block(0, bits);
      assert |Greedy(0, last, bits)| == 1 + |Greedy(Pow2(bits), last, bits)|;
    }
  }

  // ---------- the loop ----------

  function LowBit(n: nat): (b: nat)
    requires n > 0
    ensures b == Pow2(LowExp(n))
  {
    if n % 2 == 1 then 1 else 2 * LowBit(n / 2)
  }

  /** BitLen(n) - 1 for a power of two. */
  function Log2(n: nat): nat
    requires n >= 1
  {
    if n == 1 then 0 else 1 + Log2(n / 2)
  }

  lemma {:induction false} Log2OfPower(e: nat)
    ensures Log2(Pow2(e)) == e
  {
    if e > 0 {
      Log2OfPower(e - 1);
    }
  }

  /** The size of the block to take at current: its alignment, halved until it fits. */
  method BlockSize(current: nat, last: nat, bits: nat) returns (blockSize: nat)
    requires current <= last < Pow2(bits)
    ensures blockSize == Size(First(current, last, bits))
  {
    ghost var e := AlignExp(current, bits);
    var remaining := last - current + 1;
    blockSize := if current == 0 then Pow2(bits) else LowBit(current);
    while blockSize > remaining
      invariant blockSize == Pow2(e)
      invariant Shrink(AlignExp(current, bits), remaining) == Shrink(e, remaining)
      decreases e
    {
      assert blockSize == 2 * Pow2(e - 1);
      blockSize := blockSize / 2;
      e := e - 1;
    }
  }

  /** A block as its base address and prefix length. */
  datatype Piece = Piece(base: nat, length: int)

  function PieceOf(b: Block, bits: nat): Piece {
    Piece(b.base, bits - b.exp)
  }

  function Pieces(cur: nat, last: nat, bits: nat): seq<Piece>
    decreases last + 1 - cur
  {
    if cur > last then [] else
      [PieceOf(First(cur, last, bits), bits)] + Pieces(End(First(cur, last, bits)), last, bits)
  }

  lemma {:induction false} PiecesAreBlocks(cur: nat, last: nat, bits: nat)
    ensures |Pieces(cur, last, bits)| == |Greedy(cur, last, bits)|
    ensures forall i :: 0 <= i < |Pieces(cur, last, bits)| ==>
      Pieces(cur, last, bits)[i] == PieceOf(Greedy(cur, last, bits)[i], bits)
    decreases last + 1 - cur
  {
    if cur <= last {
      PiecesAreBlocks(End(First(cur, last, bits)), last, bits);
    }
  }

  /** The CIDR pieces of a range in ascending order. */
  method RangePrefixes(start: nat, last: nat, bits: nat) returns (result: seq<Piece>)
    requires last < Pow2(bits)
    ensures result == Pieces(start, last, bits)
  {
    var current := start;
    result := [];
    ghost var whole, togo := Pieces(start, last, bits), Pieces(start, last, bits);
    while current <= last
      invariant togo == Pieces(current, last, bits)
      invariant whole == result + togo
      decreases last + 1 - current
    {
      var blockSize := BlockSize(current, last, bits);
      var piece := Piece(current, bits - Log2(blockSize));
      PiecesStep(current, blockSize, last, bits);
      Shift(result, piece, togo[1..]);
      result, togo := result + [piece], togo[1..];
      current := current + blockSize;
    }
  }

  lemma Shift<T>(a: seq<T>, x: T, b: seq<T>)
    ensures a + ([x] + b) == (a + [x]) + b
  {
  }

  lemma PiecesStep(cur: nat, size: nat, last: nat, bits: nat)
    requires cur <= last && size == Size(First(cur, last, bits))
    ensures Pieces(cur, last, bits) == [Piece(cur, bits - Log2(size))] + Pieces(cur + size, last, bits)
    ensures Pieces(cur, last, bits)[1..] == Pieces(cur + size, last, bits)
  {
    Log2OfPower(First(cur, last, bits).exp);
  }

  // ---------- blocks as prefixes ----------

  /** The bits of the prefix that names a block. */
  function KeyOf(b: Block, v: Version): Bits
    requires b.exp <= Width(v)
  {
    Key(AddressOf(b.base, v), v, Width(v) - b.exp)
  }

  lemma KeyOfBlock(b: Block, v: Version)
    requires b.exp <= Width(v) && Aligned(b) && b.base < Pow2(Width(v))
    ensures Value(KeyOf(b, v)) * Size(b) == b.base
  {
    NumOfAddress(b.base, v);
    KeyValue(AddressOf(b.base, v), v, Width(v) - b.exp);
    Quotient(b.base, Size(b));
  }

  lemma Quotient(n: nat, p: nat)
    requires p >= 1 && n % p == 0
    ensures n / p * p == n
  {
    assert n == p * (n / p) + n % p;
  }

  /** An address starts with a block's prefix exactly when the block has it. */
  lemma BlockHasKey(b: Block, v: Version, a: Address)
    requires b.exp <= Width(v) && Aligned(b) && b.base < Pow2(Width(v))
    ensures KeyOf(b, v) <= Key(a, v, Width(v)) <==> Has(b, Num(a, v))
  {
    KeyOfBlock(b, v);
    NumIsKeyValue(a, v);
    PrefixIsBlock(KeyOf(b, v), Key(a, v, Width(v)), b.exp, b.base);
  }
}
