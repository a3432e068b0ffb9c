/** Blocks and IPv4-mapped addresses. A block is stored under its unmapped base, so a block that
    begins among the mapped addresses is stored as if it began among the lowest ones. */
module Mapped {
  import opened Bytes
  import opened Addresses
  import opened Cover
  import opened Sources

  function UnmapBlock(v: Version, b: Block): Block {
    Block(Unmap(v, b.base), b.exp)
  }

  /** ::ffff:0:0/96 and the block of twice its size around it. */
  const MAPPED_BLOCK := Block(MAPPED_FIRST, 32)
  const MAPPED_PARENT := Block(MAPPED_FIRST - 0x1_0000_0000, 33)

  lemma MappedBlocks()
    ensures Aligned(MAPPED_BLOCK) && Aligned(MAPPED_PARENT)
    ensures End(MAPPED_BLOCK) == End(MAPPED_PARENT) == MAPPED_END
  {
    Pow2Of32();
    assert Pow2(33) == 2 * Pow2(32);
    DivUnique(MAPPED_FIRST, Pow2(32), 0xFFFF, 0);
    DivUnique(MAPPED_FIRST - 0x1_0000_0000, Pow2(33), 0x7FFF, 0);
  }

  /** A block that begins among the mapped addresses lies among them. */
  lemma MappedWithin(v: Version, b: Block)
    requires Aligned(b) && IsMapped(v, b.base)
    ensures Within(b, MAPPED_BLOCK) && b.exp <= 32
  {
    MappedBlocks();
    if b.exp > 32 {
      Nested(MAPPED_PARENT, b, b.base);
    }
    Nested(b, MAPPED_BLOCK, b.base);
  }

  /** So the blocks around an address that is not mapped do not begin among them. */
  lemma PlainAncestor(v: Version, b: Block, x: nat)
    requires Aligned(b) && Has(b, x) && !IsMapped(v, x)
    ensures !IsMapped(v, b.base) && UnmapBlock(v, b) == b
  {
    if IsMapped(v, b.base) {
      MappedWithin(v, b);
      MappedBlocks();
    }
  }

  /** Unmapping moves a block as a whole. */
  lemma UnmapAligned(v: Version, b: Block)
    requires Aligned(b)
    ensures Aligned(UnmapBlock(v, b)) && (IsMapped(v, b.base) ==> End(UnmapBlock(v, b)) <= 0x1_0000_0000)
  {
    if IsMapped(v, b.base) {
      MappedWithin(v, b);
      MappedBlocks();
      MultipleDown(MAPPED_FIRST, b.exp, 32);
      MultipleLess(b.base, MAPPED_FIRST, Size(b));
    }
  }

  lemma MultipleLess(a: nat, b: nat, p: nat)
    requires p >= 1 && a % p == 0 && b % p == 0 && b <= a
    ensures (a - b) % p == 0
  {
    var i, j := a / p, b / p;
    assert a == p * i && b == p * j;
    Distribute(p, i, j);
    if i < j {
      MulMonotone(p, i, j);
    }
    MultipleOf(p, i - j);
  }

  // ---------- records ----------

  /** Every block of the record is stored as it is. */
  ghost predicate PlainSource(s: Source) {
    forall i :: 0 <= i < |s.blocks| ==> !IsMapped(s.version, s.blocks[i].base)
  }

  ghost predicate AllPlain(ss: seq<Source>) {
    forall i {:trigger PlainSource(ss[i])} :: 0 <= i < |ss| ==> PlainSource(ss[i])
  }

  /** The range keeps clear of the mapped addresses, or goes around them in one block. */
  predicate IsClear(v: Version, start: nat, last: nat) {
    v.V4? || last < MAPPED_FIRST || MAPPED_END <= start || (start <= MAPPED_PARENT.base && MAPPED_END <= last + 1)
  }

  ghost predicate AllClear(rs: seq<Bounds>) {
    forall i :: 0 <= i < |rs| ==> IsClear(rs[i].version, Num(rs[i].start, rs[i].version), Num(rs[i].end, rs[i].version))
  }

  /** No piece of a range begins among the mapped addresses exactly when the range is clear. */
  lemma ClearIsPlain(v: Version, start: nat, last: nat)
    requires start <= last < Pow2(Width(v))
    ensures PlainSource(RangeSource(v, start, last)) <==> IsClear(v, start, last)
  {
    if v.V6? {
      var s := RangeSource(v, start, last);
      RangeSourceValid(v, start, last);
      if IsClear(v, start, last) {
        forall i | 0 <= i < |s.blocks|
          ensures !IsMapped(v, s.blocks[i].base)
        {
          if IsMapped(v, s.blocks[i].base) {
            ClearHasNone(v, start, last, i);
          }
        }
      } else {
        var i := UnclearHasOne(v, start, last);
      }
    }
  }

  lemma ClearHasNone(v: Version, start: nat, last: nat, i: nat)
    requires start <= last < Pow2(Width(v)) && IsClear(v, start, last) && i < |Greedy(start, last, Width(v))|
    ensures !IsMapped(v, Greedy(start, last, Width(v))[i].base)
  {
    var s := RangeSource(v, start, last);
    var b := s.blocks[i];
    RangeSourceValid(v, start, last);
    GreedyFits(start, last, Width(v), i);
    if IsMapped(v, b.base) {
      MappedBlocks();
      MappedWithin(v, b);
      var j := GreedyIsMaximal(start, start, last, Width(v), MAPPED_PARENT);
      assert Has(s.blocks[i], b.base) && Has(s.blocks[j], b.base);
      OnlyOneBlock(s, b.base, i);
    }
  }

  lemma UnclearHasOne(v: Version, start: nat, last: nat) returns (i: nat)
    requires start <= last < Pow2(Width(v)) && !IsClear(v, start, last)
    ensures i < |Greedy(start, last, Width(v))| && IsMapped(v, Greedy(start, last, Width(v))[i].base)
  {
    var s := RangeSource(v, start, last);
    RangeSourceValid(v, start, last);
    MappedBlocks();
    if start >= MAPPED_FIRST {
      i := 0;
    } else {
      i := BlockIndex(s, MAPPED_FIRST);
      var b := s.blocks[i];
      GreedyFits(start, last, Width(v), i);
      if b.exp > 32 {
        Nested(MAPPED_PARENT, b, MAPPED_FIRST);
      } else {
        Nested(b, MAPPED_BLOCK, MAPPED_FIRST);
      }
    }
  }

  /** Clear records have plain pieces. */
  lemma ClearSources(rs: seq<Bounds>)
    requires AllBounds(rs) && AllClear(rs)
    ensures AllPlain(SourcesOf(rs))
  {
    forall i | 0 <= i < |rs|
      ensures PlainSource(SourcesOf(rs)[i])
    {
      assert ValidBounds(rs[i]);
      NumIsKeyValue(rs[i].end, rs[i].version);
      ClearIsPlain(rs[i].version, Num(rs[i].start, rs[i].version), Num(rs[i].end, rs[i].version));
    }
  }
}
