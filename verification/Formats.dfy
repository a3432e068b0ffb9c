/** The bytes of the store, place by place: keys, trie files, cursors and the shard hash, each
    told with the numbers of the format itself. */
module Formats {
  import opened Bytes
  import opened Words
  import opened Addresses
  import opened Cover
  import opened Mapped
  import opened PointIndex
  import RouteLPM
  import SelectionLPM
  import RangePages
  import AsnPages
  import ResponseCache

  // ---------- numbers and addresses ----------

  /** Every byte of a number, the most significant one first. */
  lemma {:induction false} BigEndianByte(n: nat, k: nat, i: nat)
    requires i < k
    ensures ToBigEndian(n, k)[i] == n / Pow2(8 * (k - 1 - i)) % 256
  {
    if i < k - 1 {
      BigEndianByte(n / 256, k - 1, i);
      Pow2Add(8, 8 * (k - 2 - i));
      assert Pow2(8) == 256;
      DivTwice(n, 256, Pow2(8 * (k - 2 - i)));
    } else {
      assert Pow2(0) == 1;
    }
  }

  lemma DivTwice(n: nat, a: nat, b: nat)
    requires a >= 1 && b >= 1
    ensures a * b >= 1 && n / a / b == n / (a * b)
  {
    var q, r := n / a, n % a;
    var p, s := q / b, q % b;
    assert n == a * q + r && q == b * p + s;
    MulAssociates(a, b, p);
    assert a * q == a * (b * p) + a * s;
    MulMonotone(a, s, b - 1);
    assert a * (b - 1) == a * b - a;
    DivUnique(n, a * b, p, a * s + r);
  }

  lemma WordBytes(n: Word)
    ensures PutWord(n) == [n / 0x100_0000, n / 0x1_0000 % 256, n / 0x100 % 256, n % 256]
  {
    assert Pow2(8) == 0x100 && Pow2(16) == 0x1_0000 && Pow2(24) == 0x100_0000;
    BigEndianByte(n, 4, 0);
    BigEndianByte(n, 4, 1);
    BigEndianByte(n, 4, 2);
    BigEndianByte(n, 4, 3);
  }

  /** IPv4 has 32 bits in the last four of sixteen bytes, IPv6 all 128. */
  lemma AddressBytes(n: nat, v: Version, i: nat)
    requires i < 16
    ensures AddressOf(n, v)[i] == if v.V4? && i < 12 then 0 else n / Pow2(8 * (15 - i)) % 256
  {
    if v.V6? {
      BigEndianByte(n, 16, i);
    } else if i >= 12 {
      BigEndianByte(n, 4, i - 12);
      assert AddressOf(n, v)[i] == ToBigEndian(n, 4)[i - 12];
    }
  }

  /** What AddressFromAddr makes of an address: ::ffff:a.b.c.d becomes ::a.b.c.d. */
  lemma UnmappedBytes(a: Address)
    ensures Unmapped(a, V4) == a
    ensures Unmapped(a, V6) ==
      if a[..12] == [0, 0, 0, 0, 0, 0, 0, 0, 0, 0, 255, 255] then [0, 0, 0, 0, 0, 0, 0, 0, 0, 0, 0, 0] + a[12..] else a
  {
  }

  // ---------- keys ----------

  predicate IsVersion(b: Byte, v: Version) {
    b == if v.V4? then 4 else 6
  }

  lemma IndexKeyBytes(v: Version, b: Block, id: Word)
    requires b.exp <= if v.V4? then 32 else 128
    ensures var key := IndexKey(v, b, id);
      && |key| == 22 && IsVersion(key[0], v) && key[1..17] == AddressOf(Unmap(v, b.base), v)
      && key[17] == (if v.V4? then 32 else 128) - b.exp && key[18..22] == PutWord(id)
  {
  }

  lemma RangeKeyBytes(v: Version, start: Address, end: Address, id: Word)
    ensures var key := RangePages.RangeKey(v, start, end, id);
      |key| == 37 && IsVersion(key[0], v) && key[1..17] == start && key[17..33] == end && key[33..37] == PutWord(id)
  {
    RangePages.RangeKeyParts(v, start, end, id);
    var key := RangePages.RangeKey(v, start, end, id);
    assert key[17..] == end + PutWord(id);
    assert key[33..37] == key[17..][16..20];
  }

  lemma CursorBytes(c: RangePages.Cursor)
    requires c.After? && |c.key| == 37
    ensures var p := RangePages.EncodeCursor(c);
      && |p| == 71 && p[0] == (if c.phase.Covering? then 1 else 2) && p[1] == (if c.query.kind.Allocations? then 1 else 2)
      && p[2..18] == c.query.lo && p[18..34] == c.query.hi && p[34..71] == c.key
  {
  }

  // ---------- trie files ----------

  /** MLP2, the family, the two counts; then 33 bytes for each node and four for each ID. */
  lemma RouteFileBytes(value: seq<Byte>, nodes: seq<RouteLPM.Node>, v: Version)
    requires RouteLPM.IsEncoding(value, nodes, v)
    ensures var ids := RouteLPM.AllIds(nodes);
      && |value| == 16 + 33 * |nodes| + 4 * |ids|
      && value[..4] == [77, 76, 80, 50] && IsVersion(value[4], v) && value[5..8] == [0, 0, 0]
      && |nodes| <= MAX_UINT32 && |ids| <= MAX_UINT32 && value[8..12] == PutWord(|nodes|) && value[12..16] == PutWord(|ids|)
  {
    var header := RouteLPM.HeaderBytes(v, |nodes|, |RouteLPM.AllIds(nodes)|);
    assert CellAt(value, 0, header);
    assert value[0..16] == header;
    assert value[..4] == header[..4] && value[4] == header[4] && value[5..8] == header[5..8];
    assert value[8..12] == header[8..12] && value[12..16] == header[12..16];
  }

  /** A lookup takes a value for a route file of the family exactly when it begins and ends like one. */
  lemma RouteHeaderIsRead(value: seq<Byte>, v: Version)
    ensures RouteLPM.HeaderAccepted(value, v) <==>
      && |value| >= 16 && value[..4] == [77, 76, 80, 50] && IsVersion(value[4], v)
      && BigEndian(value[8..12]) > 0 && |value| == 16 + 33 * BigEndian(value[8..12]) + 4 * BigEndian(value[12..16])
  {
  }

  lemma SelectionHeaderIsRead(value: seq<Byte>, v: Version)
    ensures SelectionLPM.HeaderAccepted(value, v) <==>
      && |value| >= 16 && value[..4] == [83, 76, 80, 50] && IsVersion(value[4], v)
      && BigEndian(value[8..12]) > 0 && |value| == 16 + (if v.V4? then 21 else 45) * BigEndian(value[8..12])
  {
  }

  lemma RouteNodeBytes(value: seq<Byte>, nodes: seq<RouteLPM.Node>, v: Version, i: nat)
    requires RouteLPM.IsEncoding(value, nodes, v) && i < |nodes|
    ensures var n, o := nodes[i], 16 + 33 * i;
      && n.length < 256 && n.zero <= MAX_UINT32 && n.one <= MAX_UINT32 && RouteLPM.IdOffset(nodes, i) <= MAX_UINT32 && |RouteLPM.IdsOf(n)| <= MAX_UINT32
      && o + 33 <= |value| && value[o..o + 33] == RouteLPM.NodeBytes(n, RouteLPM.IdOffset(nodes, i))
  {
    RouteLPM.EncodedCell(value, nodes, v, i);
    RouteLPM.NodeIds(nodes, i);
  }

  /** A node's cell: its prefix, the length, the children, and where its IDs begin and how many. */
  lemma RouteCellBytes(n: RouteLPM.Node, idOffset: nat)
    requires n.length < 256 && n.zero <= MAX_UINT32 && n.one <= MAX_UINT32
    requires idOffset <= MAX_UINT32 && |RouteLPM.IdsOf(n)| <= MAX_UINT32
    ensures var cell := RouteLPM.NodeBytes(n, idOffset);
      && |cell| == 33 && cell[0..16] == n.prefix && cell[16] == n.length && cell[17..21] == PutWord(n.zero) && cell[21..25] == PutWord(n.one)
      && cell[25..29] == PutWord(idOffset) && cell[29..33] == PutWord(|RouteLPM.IdsOf(n)|)
  {
  }

  /** Behind the nodes, every ID at its place. */
  lemma RouteIdBytes(value: seq<Byte>, nodes: seq<RouteLPM.Node>, v: Version, j: nat)
    requires RouteLPM.IsEncoding(value, nodes, v) && j < |RouteLPM.AllIds(nodes)|
    ensures var o := 16 + 33 * |nodes| + 4 * j; o + 4 <= |value| && value[o..o + 4] == PutWord(RouteLPM.AllIds(nodes)[j])
  {
    var all := RouteLPM.AllIds(nodes);
    assert CellAt(value, 16 + 33 * |nodes| + 4 * j, RouteLPM.IdCells(all)[..|all|][j]);
  }

  /** SLP2, the family, the count; then 21 or 45 bytes for each node. */
  lemma SelectionFileBytes(value: seq<Byte>, nodes: seq<SelectionLPM.Node>, v: Version)
    requires SelectionLPM.IsEncoding(value, nodes, v)
    ensures |value| == 16 + (if v.V4? then 21 else 45) * |nodes|
    ensures value[..4] == [83, 76, 80, 50] && IsVersion(value[4], v) && value[5..8] == [0, 0, 0]
    ensures |nodes| <= MAX_UINT32 && value[8..12] == PutWord(|nodes|) && value[12..16] == [0, 0, 0, 0]
  {
    var header := SelectionLPM.HeaderBytes(v, |nodes|);
    assert CellAt(value, 0, header);
    assert value[0..16] == header;
    assert value[..4] == header[..4] && value[4] == header[4] && value[5..8] == header[5..8];
    assert value[8..12] == header[8..12] && value[12..16] == header[12..16];
  }

  /** A node's cell: the prefix without the zeros in front of an IPv4 one, its length, the children,
      the record and the width of its range; zeros when there is no record. */
  lemma SelectionNodeBytes(n: SelectionLPM.Node, v: Version)
    requires SelectionLPM.Fits(n)
    ensures var cell, a := SelectionLPM.NodeBytes(n, v), if v.V4? then 4 else 16;
      && |cell| == 2 * a + 13 && cell[..a] == n.prefix[16 - a..] && cell[a] == n.length
      && cell[a + 1..a + 5] == PutWord(n.zero) && cell[a + 5..a + 9] == PutWord(n.one)
      && cell[a + 9..a + 13] == PutWord(if n.payload.Some? then n.payload.value.id else 0)
      && cell[a + 13..] == if n.payload.Some? then n.payload.value.width[16 - a..] else seq(a, _ => 0)
  {
    assert Tail(ZERO_ADDRESS, v) == seq(if v.V4? then 4 else 16, _ => 0);
  }

  lemma SelectionNodeAt(value: seq<Byte>, nodes: seq<SelectionLPM.Node>, v: Version, i: nat)
    requires SelectionLPM.IsEncoding(value, nodes, v) && i < |nodes|
    ensures var size := if v.V4? then 21 else 45; var o := 16 + size * i;
      SelectionLPM.Fits(nodes[i]) && o + size <= |value| && value[o..o + size] == SelectionLPM.NodeBytes(nodes[i], v)
  {
    assert CellAt(value, SelectionLPM.NodeOffset(v, i), SelectionLPM.NodeCells(nodes, v)[..|nodes|][i]);
  }

  // ---------- packed IDs ----------

  lemma {:induction false} PackedIdBytes(ids: seq<Word>, i: nat)
    requires i < |ids|
    ensures |AsnPages.EncodeIds(ids)| == 4 * |ids| && AsnPages.EncodeIds(ids)[4 * i..4 * i + 4] == PutWord(ids[i])
  {
    var n := |ids| - 1;
    var value, front := AsnPages.EncodeIds(ids), AsnPages.EncodeIds(ids[..n]);
    assert value == front + PutWord(ids[n]);
    if i < n {
      PackedIdBytes(ids[..n], i);
      assert value[4 * i..4 * i + 4] == front[4 * i..4 * i + 4];
    }
  }

  // ---------- the shard of a key ----------

  /** FNV-1a over 32 bits, by its published values for "a" and for "ab". */
  lemma HashOfLetters()
    ensures ResponseCache.Hash([], 0) == 0x811C_9DC5
    ensures ResponseCache.Hash([97], 1) == 0xE40C_292C && ResponseCache.ShardOf([97]) == 12
    ensures ResponseCache.Hash([97, 98], 2) == 0x4D25_05CA && ResponseCache.ShardOf([97, 98]) == 10
  {
    XorLetters();
    Products();
    HashOnce([97], 0);
    HashOnce([97, 98], 0);
    HashOnce([97, 98], 1);
  }

  /** One turn of the loop: a byte is xored in, then the product is cut to 32 bits. */
  lemma HashOnce(key: ResponseCache.Key, n: nat)
    requires n < |key|
    ensures var h := ResponseCache.Hash(key, n);
      ResponseCache.Hash(key, n + 1) == (h - h % 256 + Xor(h % 256, key[n])) * 16_777_619 % 0x1_0000_0000
  {
  }

  lemma Products()
    ensures (0x811C_9DC5 - 197 + 164) * 16_777_619 % 0x1_0000_0000 == 0xE40C_292C && 0x811C_9DC5 % 256 == 197
    ensures (0xE40C_292C - 44 + 78) * 16_777_619 % 0x1_0000_0000 == 0x4D25_05CA && 0xE40C_292C % 256 == 44
    ensures 0xE40C_292C % 32 == 12 && 0x4D25_05CA % 32 == 10
  {
  }

  /** Bit by bit, one where the bits differ. */
  lemma XorBits(a: Byte, b: Byte, i: nat)
    requires i < 8
    ensures ByteBits(Xor(a, b))[i] == if ByteBits(a)[i] == ByteBits(b)[i] then 0 else 1
  {
    var k, l := ByteBits(a), ByteBits(b);
    SpelledBits(XorBit(k[0], l[0]), XorBit(k[1], l[1]), XorBit(k[2], l[2]), XorBit(k[3], l[3]),
                XorBit(k[4], l[4]), XorBit(k[5], l[5]), XorBit(k[6], l[6]), XorBit(k[7], l[7]));
  }

  lemma SpelledBits(x0: Bit, x1: Bit, x2: Bit, x3: Bit, x4: Bit, x5: Bit, x6: Bit, x7: Bit)
    ensures ByteBits(128 * x0 + 64 * x1 + 32 * x2 + 16 * x3 + 8 * x4 + 4 * x5 + 2 * x6 + x7) == [x0, x1, x2, x3, x4, x5, x6, x7]
  {
    FourBits(0, 0, x0, x1, x2, x3);
    FourBits(8 * x0 + 4 * x1 + 2 * x2 + x3, 4, x4, x5, x6, x7);
    assert BitsOf(0, 0) == [];
  }

  lemma FourBits(h: nat, n: nat, x0: Bit, x1: Bit, x2: Bit, x3: Bit)
    ensures BitsOf(16 * h + 8 * x0 + 4 * x1 + 2 * x2 + x3, n + 4) == BitsOf(h, n) + [x0, x1, x2, x3]
  {
    var h1 := 2 * h + x0;
    var h2 := 2 * h1 + x1;
    LastBit(h, x0, n);
    LastBit(h1, x1, n + 1);
    LastBit(h2, x2, n + 2);
    LastBit(2 * h2 + x2, x3, n + 3);
  }

  lemma LastBit(h: nat, x: Bit, n: nat)
    ensures BitsOf(2 * h + x, n + 1) == BitsOf(h, n) + [x]
  {
    assert (2 * h + x) / 2 == h && (2 * h + x) % 2 == x;
  }

  lemma XorLetters()
    ensures Xor(197, 97) == 164 && Xor(44, 98) == 78
  {
    assert ByteBits(197) == [1, 1, 0, 0, 0, 1, 0, 1];
    assert ByteBits(97) == [0, 1, 1, 0, 0, 0, 0, 1];
    assert ByteBits(44) == [0, 0, 1, 0, 1, 1, 0, 0];
    assert ByteBits(98) == [0, 1, 1, 0, 0, 0, 1, 0];
  }
}
