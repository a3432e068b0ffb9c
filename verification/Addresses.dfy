/** Addresses as the store keeps them: sixteen bytes, an IPv4 address in the last four. */
module Addresses {
  import opened Bytes

  datatype Version = V4 | V6

  function Width(v: Version): nat {
    if v.V4? then 32 else 128
  }

  /** Where an address of version v begins inside its sixteen bytes. */
  function Offset(v: Version): nat {
    if v.V4? then 12 else 0
  }

  function VersionByte(v: Version): Byte {
    if v.V4? then 4 else 6
  }

  type Address = a: seq<Byte> | |a| == 16 witness [0, 0, 0, 0, 0, 0, 0, 0, 0, 0, 0, 0, 0, 0, 0, 0]

  const ZERO_ADDRESS: Address := [0, 0, 0, 0, 0, 0, 0, 0, 0, 0, 0, 0, 0, 0, 0, 0]

  /** A CIDR prefix: an address and how many of its leading bits count. */
  datatype Cidr = Cidr(version: Version, address: Address, length: nat)

  predicate ValidCidr(p: Cidr) {
    p.length <= Width(p.version)
  }

  function Tail(a: Address, v: Version): (t: seq<Byte>)
    ensures |t| * 8 == Width(v)
  {
    a[Offset(v)..]
  }

  /** The first n bits of an address: what a prefix of length n says of it. */
  function Key(a: Address, v: Version, n: nat): (k: Bits)
    requires n <= Width(v)
    ensures |k| == n
  {
    Prefix(Tail(a, v), n)
  }

  function Num(a: Address, v: Version): nat {
    BigEndian(Tail(a, v))
  }

  lemma KeyTake(a: Address, v: Version, n: nat, m: nat)
    requires m <= n <= Width(v)
    ensures Key(a, v, n)[..m] == Key(a, v, m)
    ensures Key(a, v, m) <= Key(a, v, n)
  {
    PrefixTake(Tail(a, v), n, m);
  }

  lemma NumIsKeyValue(a: Address, v: Version)
    ensures Num(a, v) == Value(Key(a, v, Width(v)))
    ensures Num(a, v) < Pow2(Width(v))
  {
    BitsSpellNumber(Tail(a, v));
    ValueBound(Key(a, v, Width(v)));
  }

  /** Cutting an address off after n bits divides its number. */
  lemma KeyValue(a: Address, v: Version, n: nat)
    requires n <= Width(v)
    ensures Value(Key(a, v, n)) == Num(a, v) / Pow2(Width(v) - n)
  {
    NumIsKeyValue(a, v);
    KeyTake(a, v, Width(v), n);
    PrefixIsQuotient(Key(a, v, n), Key(a, v, Width(v)));
  }

  /** An IPv4 address leaves the first twelve bytes zero. */
  predicate Canonical(a: Address, v: Version) {
    a[..Offset(v)] == ZERO_ADDRESS[..Offset(v)]
  }

  function AddressOf(n: nat, v: Version): (a: Address)
    ensures Canonical(a, v)
  {
    ZERO_ADDRESS[..Offset(v)] + ToBigEndian(n, Width(v) / 8)
  }

  lemma NumOfAddress(n: nat, v: Version)
    requires n < Pow2(Width(v))
    ensures Num(AddressOf(n, v), v) == n
  {
    assert Tail(AddressOf(n, v), v) == ToBigEndian(n, Width(v) / 8);
    ToBigEndianInverse(n, Width(v) / 8);
  }

  lemma AddressOfNum(a: Address, v: Version)
    requires Canonical(a, v)
    ensures AddressOf(Num(a, v), v) == a
  {
    FromBigEndianInverse(Tail(a, v));
    assert a == a[..Offset(v)] + Tail(a, v);
  }

  /** Addresses of one version compare bytewise as their numbers do. */
  lemma AddressOrder(a: Address, b: Address, v: Version)
    requires Canonical(a, v) && Canonical(b, v)
    ensures LexLess(a, b) <==> Num(a, v) < Num(b, v)
    ensures a == b <==> Num(a, v) == Num(b, v)
  {
    var z := ZERO_ADDRESS[..Offset(v)];
    assert a == z + Tail(a, v) && b == z + Tail(b, v);
    LexIrreflexive(z);
    LexFields(z, Tail(a, v), z, Tail(b, v));
    LexIsNumeric(Tail(a, v), Tail(b, v));
    if Num(a, v) == Num(b, v) {
      BigEndianInjective(Tail(a, v), Tail(b, v));
    }
  }

  // ---------- IPv4-mapped addresses ----------

  const MAPPED_FIRST := 0xFFFF_0000_0000
  const MAPPED_END := 0x1_0000_0000_0000

  /** The number lies in ::ffff:0:0/96. */
  predicate IsMapped(v: Version, x: nat) {
    v.V6? && MAPPED_FIRST <= x < MAPPED_END
  }

  /** The number an address is stored and looked up under: a mapped one is the IPv4 number that it
      maps, among the lowest IPv6 addresses. */
  function Unmap(v: Version, x: nat): (y: nat)
    ensures !IsMapped(v, y) && y <= x
  {
    if IsMapped(v, x) then x - MAPPED_FIRST else x
  }

  const MAPPED_HEAD: seq<Byte> := [0, 0, 0, 0, 0, 0, 0, 0, 0, 0, 255, 255]

  /** AddressFromAddr, on the sixteen bytes of an address of version v. */
  function Unmapped(a: Address, v: Version): Address {
    if v.V6? && a[..12] == MAPPED_HEAD then ZERO_ADDRESS[..12] + a[12..] else a
  }

  /** An address that is stored as it is. */
  predicate Plain(a: Address, v: Version) {
    Canonical(a, v) && !IsMapped(v, Num(a, v))
  }

  lemma {:induction false} BigEndianConcat(a: seq<Byte>, b: seq<Byte>)
    ensures BigEndian(a + b) == BigEndian(a) * Pow2(8 * |b|) + BigEndian(b)
  {
    if a == [] {
      assert a + b == b;
    } else {
      var rest := a[1..];
      assert a == [a[0]] + rest && a + b == [a[0]] + (rest + b);
      BigEndianConcat(rest, b);
      BigEndianPrepend(a[0], rest + b);
      BigEndianPrepend(a[0], rest);
      ConcatStep(a[0], Pow2(8 * |rest|), Pow2(8 * |b|), BigEndian(rest));
      Pow2Add(8 * |rest|, 8 * |b|);
    }
  }

  lemma ConcatStep(d: nat, p: nat, q: nat, n: nat)
    ensures d * (p * q) + n * q == (d * p + n) * q
  {
    MulAssociates(d, p, q);
    assert (d * p + n) * q == (d * p) * q + n * q;
  }

  /** An address is its first twelve bytes, scaled, and its last four. */
  lemma HighAndLow(a: Address)
    ensures BigEndian(a) == BigEndian(a[..12]) * 0x1_0000_0000 + BigEndian(a[12..]) && BigEndian(a[12..]) < 0x1_0000_0000
  {
    assert a == a[..12] + a[12..];
    BigEndianConcat(a[..12], a[12..]);
    BigEndianBound(a[12..]);
    Pow2Of32();
  }

  lemma HeadNumbers()
    ensures BigEndian(MAPPED_HEAD) == 0xFFFF && BigEndian(ZERO_ADDRESS[..12]) == 0
  {
    var zeros: seq<Byte> := ZERO_ADDRESS[..10];
    assert MAPPED_HEAD == zeros + [255, 255];
    assert ZERO_ADDRESS[..12] == zeros + [0, 0];
    ZeroBytes(zeros);
    ZeroBytes([0, 0]);
    BigEndianConcat(zeros, [255, 255]);
    BigEndianConcat(zeros, [0, 0]);
    BigEndianPrepend(255, [255]);
    BigEndianPrepend(255, []);
    assert [255] + [255] == [255, 255] && [255] + [] == [255] && Pow2(8) == 256 && Pow2(0) == 1;
  }

  lemma {:induction false} ZeroBytes(z: seq<Byte>)
    requires forall i :: 0 <= i < |z| ==> z[i] == 0
    ensures BigEndian(z) == 0
  {
    if z != [] {
      BigEndianLast(z);
      ZeroBytes(z[..|z| - 1]);
    }
  }

  lemma UnmappedNum(a: Address, v: Version)
    requires Canonical(a, v)
    ensures Num(Unmapped(a, v), v) == Unmap(v, Num(a, v)) && Plain(Unmapped(a, v), v)
    ensures Plain(a, v) ==> Unmapped(a, v) == a
  {
    if v.V6? {
      var low: Address := ZERO_ADDRESS[..12] + a[12..];
      assert a[0..] == a && low[0..] == low && low[..12] == ZERO_ADDRESS[..12] && low[12..] == a[12..];
      HighAndLow(a);
      HighAndLow(low);
      HeadNumbers();
      if BigEndian(a[..12]) == 0xFFFF {
        BigEndianInjective(a[..12], MAPPED_HEAD);
      }
    }
  }

  // ---------- the byte loops ----------

  function Xor(a: Byte, b: Byte): (x: int)
    ensures 0 <= x < 256
  {
    var k: seq<int>, l: seq<int> := ByteBits(a), ByteBits(b);
    128 * XorBit(k[0], l[0]) + 64 * XorBit(k[1], l[1]) + 32 * XorBit(k[2], l[2]) + 16 * XorBit(k[3], l[3])
    + 8 * XorBit(k[4], l[4]) + 4 * XorBit(k[5], l[5]) + 2 * XorBit(k[6], l[6]) + XorBit(k[7], l[7])
  }

  function XorBit(a: int, b: int): (x: int)
    ensures 0 <= x <= 1
  {
    if a == b then 0 else 1
  }

  function LeadingZeros(x: Byte): nat {
    if x >= 128 then 0 else if x >= 64 then 1 else if x >= 32 then 2 else if x >= 16 then 3
    else if x >= 8 then 4 else if x >= 4 then 5 else if x >= 2 then 6 else if x >= 1 then 7 else 8
  }

  /** Counting the leading zeros of a difference finds the first bit where two bytes part. */
  lemma FirstDifference(a: Byte, b: Byte)
    requires a != b
    ensures var z := LeadingZeros(Xor(a, b));
      z < 8 && ByteBits(a)[..z] == ByteBits(b)[..z] && ByteBits(a)[z] != ByteBits(b)[z]
  {
    ByteBitsSpelled(a);
    ByteBitsSpelled(b);
  }

  lemma BytesPartAt(l: seq<Byte>, r: seq<Byte>, index: nat)
    requires |l| == |r| && index < |l| && l[index] != r[index]
    requires Prefix(l, 8 * index) == Prefix(r, 8 * index)
    ensures var common := index * 8 + LeadingZeros(Xor(l[index], r[index]));
      && index * 8 <= common < index * 8 + 8
      && Prefix(l, common) == Prefix(r, common)
      && BitAt(l, common) != BitAt(r, common)
  {
    FirstDifference(l[index], r[index]);
    var z := LeadingZeros(Xor(l[index], r[index]));
    PrefixPartByte(l, index, z);
    PrefixPartByte(r, index, z);
  }

  /** How many of the first `limit` bits two byte strings share: whole bytes first, then bits. */
  method SharedBits(l: seq<Byte>, r: seq<Byte>, limit: nat) returns (common: nat)
    requires |l| == |r| && limit <= 8 * |l|
    ensures common <= limit && Prefix(l, common) == Prefix(r, common)
    ensures common < limit ==> BitAt(l, common) != BitAt(r, common)
  {
    var fullBytes := limit / 8;
    var index := 0;
    while index < fullBytes
      invariant index <= fullBytes
      invariant Prefix(l, 8 * index) == Prefix(r, 8 * index)
    {
      if l[index] != r[index] {
        BytesPartAt(l, r, index);
        return index * 8 + LeadingZeros(Xor(l[index], r[index]));
      }
      PrefixNextByte(l, index);
      PrefixNextByte(r, index);
      index := index + 1;
    }
    var bit := fullBytes * 8;
    while bit < limit
      invariant fullBytes * 8 <= bit <= limit
      invariant Prefix(l, bit) == Prefix(r, bit)
    {
      if BitAt(l, bit) != BitAt(r, bit) {
        return bit;
      }
      PrefixNext(l, bit);
      PrefixNext(r, bit);
      bit := bit + 1;
    }
    return limit;
  }

  method CommonPrefix(left: Address, leftLength: nat, right: Address, rightLength: nat, v: Version)
    returns (common: nat)
    requires leftLength <= Width(v) && rightLength <= Width(v)
    ensures common <= leftLength && common <= rightLength
    ensures Key(left, v, common) == Key(right, v, common)
    ensures common < leftLength && common < rightLength ==>
      Key(left, v, leftLength)[common] != Key(right, v, rightLength)[common]
  {
    common := SharedBits(Tail(left, v), Tail(right, v), if rightLength < leftLength then rightLength else leftLength);
  }

  /** b & (0xff << (8 - kept)). */
  function KeepHigh(b: Byte, kept: nat): (r: int)
    requires kept <= 8
    ensures 0 <= r < 256
  {
    var p := Pow2(8 - kept);
    FloorMultiple(b, p);
    b / p * p
  }

  lemma KeepHighBits(b: Byte, kept: nat)
    requires kept <= 8
    ensures ByteBits(KeepHigh(b, kept)) == ByteBits(b)[..kept] + seq(8 - kept, _ => 0)
  {
    BitsOfDrop(b, kept, 8 - kept);
    BitsOfShift(b / Pow2(8 - kept), kept, 8 - kept);
  }

  lemma ZeroBits(i: nat)
    requires i < 8
    ensures ByteBits(0)[i] == 0
  {
    BitsOfShift(0, 0, 8);
  }

  method Masked(value: Address, v: Version, length: nat) returns (m: Address)
    requires length <= Width(v)
    ensures Key(m, v, length) == Key(value, v, length)
    ensures forall i :: length <= i < Width(v) ==> BitAt(Tail(m, v), i) == 0
    ensures Canonical(value, v) ==> Canonical(m, v)
  {
    m := value;
    if length >= Width(v) {
      return;
    }
    var fullBytes, remainder := length / 8, length % 8;
    if remainder != 0 {
      m := m[Offset(v) + fullBytes := KeepHigh(m[Offset(v) + fullBytes], remainder)];
      fullBytes := fullBytes + 1;
    }
    ghost var kept := m;
    var index := Offset(v) + fullBytes;
    while index < Offset(v) + Width(v) / 8
      invariant Offset(v) + fullBytes <= index <= 16
      invariant m[..Offset(v) + fullBytes] == kept[..Offset(v) + fullBytes]
      invariant forall i :: Offset(v) + fullBytes <= i < index ==> m[i] == 0
    {
      m := m[index := 0];
      index := index + 1;
    }
    forall i | 0 <= i < Width(v)
      ensures BitAt(Tail(m, v), i) == if i < length then BitAt(Tail(value, v), i) else 0
    {
      var t := Tail(value, v);
      if i / 8 >= fullBytes {
        ZeroBits(i % 8);
      } else {
        assert m[Offset(v) + i / 8] == m[..Offset(v) + fullBytes][Offset(v) + i / 8] == kept[Offset(v) + i / 8];
        if i / 8 == length / 8 {
          KeepHighBits(t[i / 8], remainder);
        }
      }
    }
    assert m[..Offset(v)] == kept[..Offset(v) + fullBytes][..Offset(v)] == value[..Offset(v)];
  }

  lemma {:induction false} FullBytes(s: seq<Byte>, t: seq<Byte>, n: nat)
    requires n <= |s| && n <= |t|
    ensures s[..n] == t[..n] <==> Prefix(s, 8 * n) == Prefix(t, 8 * n)
  {
    if n > 0 {
      FullBytes(s, t, n - 1);
      PrefixNextByte(s, n - 1);
      PrefixNextByte(t, n - 1);
      assert s[..n] == s[..n - 1] + [s[n - 1]] && t[..n] == t[..n - 1] + [t[n - 1]];
      assert Prefix(s, 8 * n)[..8 * (n - 1)] == Prefix(s, 8 * (n - 1));
      assert Prefix(t, 8 * n)[..8 * (n - 1)] == Prefix(t, 8 * (n - 1));
      assert Prefix(s, 8 * n)[8 * (n - 1)..] == ByteBits(s[n - 1]);
      assert Prefix(t, 8 * n)[8 * (n - 1)..] == ByteBits(t[n - 1]);
      ByteBitsInjective(s[n - 1], t[n - 1]);
    }
  }

  lemma MaskedBytes(a: Byte, p: Byte, kept: nat)
    requires kept <= 8
    ensures KeepHigh(a, kept) == KeepHigh(p, kept) <==> ByteBits(a)[..kept] == ByteBits(p)[..kept]
  {
    var a', p' := KeepHigh(a, kept), KeepHigh(p, kept);
    KeepHighBits(a, kept);
    KeepHighBits(p, kept);
    assert ByteBits(a)[..kept] == ByteBits(a')[..kept];
    assert ByteBits(p)[..kept] == ByteBits(p')[..kept];
    ByteBitsInjective(a', p');
  }

  lemma PrefixPartByte(l: seq<Byte>, n: nat, r: nat)
    requires n < |l| && r <= 8
    ensures Prefix(l, 8 * n + r) == Prefix(l, 8 * n) + ByteBits(l[n])[..r]
  {
    PrefixNextByte(l, n);
    PrefixTake(l, 8 * n + 8, 8 * n + r);
  }

  /** Whether an address starts with the first `length` bits of an encoded prefix. */
  method AddressMatches(address: Address, prefix: seq<Byte>, v: Version, length: nat) returns (matches: bool)
    requires 8 * |prefix| == Width(v) && length <= Width(v)
    ensures matches <==> Prefix(prefix, length) <= Key(address, v, Width(v))
  {
    ghost var t := Tail(address, v);
    var fullBytes, remainder := length / 8, length % 8;
    KeyTake(address, v, Width(v), length);
    PrefixTake(t, length, 8 * fullBytes);
    PrefixTake(prefix, length, 8 * fullBytes);
    FullBytes(t, prefix, fullBytes);
    assert address[Offset(v)..Offset(v) + fullBytes] == t[..fullBytes];
    if address[Offset(v)..Offset(v) + fullBytes] != prefix[..fullBytes] {
      return false;
    }
    if remainder == 0 {
      return true;
    }
    PrefixPartByte(t, fullBytes, remainder);
    PrefixPartByte(prefix, fullBytes, remainder);
    MaskedBytes(t[fullBytes], prefix[fullBytes], remainder);
    return KeepHigh(address[Offset(v) + fullBytes], remainder) == KeepHigh(prefix[fullBytes], remainder);
  }

  // ---------- the bits a prefix is stored under ----------

  /** Those of its address, masked first and unmapped then. */
  function StoredBits(a: Address, v: Version, n: nat): (k: Bits)
    requires n <= Width(v)
    ensures |k| == n
  {
    Key(if n >= 96 then Unmapped(a, v) else a, v, n)
  }

  lemma PlainBits(a: Address, v: Version, n: nat)
    requires n <= Width(v) && Plain(a, v)
    ensures StoredBits(a, v, n) == Key(a, v, n)
  {
    UnmappedNum(a, v);
  }

  lemma SameBytes(a: Address, m: Address, i: nat)
    requires i < 16 && forall k :: 8 * i <= k < 8 * i + 8 ==> BitAt(a, k) == BitAt(m, k)
    ensures a[i] == m[i]
  {
    forall j | 0 <= j < 8
      ensures ByteBits(a[i])[j] == ByteBits(m[i])[j]
    {
      var k := 8 * i + j;
      assert k / 8 == i && k % 8 == j;
      assert BitAt(a, k) == BitAt(m, k);
    }
    ByteBitsInjective(a[i], m[i]);
  }

  /** A masked address shorter than the mapped head does not have that head. */
  lemma MaskedBits(a: Address, m: Address, v: Version, n: nat)
    requires n <= Width(v) && Key(m, v, n) == Key(a, v, n)
    requires forall i :: n <= i < Width(v) ==> BitAt(Tail(m, v), i) == 0
    ensures Key(Unmapped(m, v), v, n) == StoredBits(a, v, n)
  {
    if v.V6? {
      assert Tail(m, v) == m && Tail(a, v) == a;
      forall i | 0 <= i < n
        ensures BitAt(m, i) == BitAt(a, i)
      {
        assert Key(m, v, n)[i] == Key(a, v, n)[i];
      }
      if n < 96 {
        assert BitAt(m, 95) == 0;
        ByteBitsSpelled(255);
        assert m[..12] != MAPPED_HEAD;
      } else {
        forall i | 0 <= i < 12
          ensures m[i] == a[i]
        {
          SameBytes(m, a, i);
        }
        assert m[..12] == a[..12];
        UnmappedAlike(a, m, n);
      }
    }
  }

  lemma UnmappedAlike(a: Address, m: Address, n: nat)
    requires n <= 128 && m[..12] == a[..12] && forall i :: 0 <= i < n ==> BitAt(m, i) == BitAt(a, i)
    ensures Key(Unmapped(m, V6), V6, n) == Key(Unmapped(a, V6), V6, n)
  {
    var b, l := Unmapped(a, V6), Unmapped(m, V6);
    forall i | 0 <= i < n
      ensures BitAt(l, i) == BitAt(b, i)
    {
      var j := i / 8;
      if j < 12 {
        assert l[..12] == b[..12];
        assert l[..12][j] == l[j] && b[..12][j] == b[j];
      } else {
        assert l[j] == m[j] && b[j] == a[j];
        assert BitAt(m, i) == BitAt(a, i);
      }
    }
    assert Tail(b, V6) == b && Tail(l, V6) == l;
  }

  // ---------- widths ----------

  lemma {:induction false} BigEndianPrepend(b: Byte, bs: seq<Byte>)
    ensures BigEndian([b] + bs) == b * Pow2(8 * |bs|) + BigEndian(bs)
  {
    if bs == [] {
      assert [b] + bs == [b] && NumberOf([b], 0) == 0;
    } else {
      var init := bs[..|bs| - 1];
      assert ([b] + bs)[..|bs|] == [b] + init;
      BigEndianLast([b] + bs);
      BigEndianLast(bs);
      BigEndianPrepend(b, init);
      Pow2Byte(|init|);
      ByteProduct(b, Pow2(8 * |init|));
    }
  }

  lemma Pow2Byte(n: nat)
    ensures Pow2(8 * (n + 1)) == 256 * Pow2(8 * n)
  {
    Pow2Add(8, 8 * n);
    assert Pow2(8) == 256;
  }

  lemma ByteProduct(v: int, p: int)
    ensures v * (256 * p) == 256 * (v * p)
  {
  }

  /** One step of a borrow loop, on the numbers that the low-order parts spell. */
  lemma BorrowStep(e: int, s: int, borrow: int, out: int, value: int, p: int, lowE: int, lowS: int, low: int)
    requires low == lowE - lowS + borrow * p
    requires value == e - s - borrow + 256 * out
    ensures value * p + low == (e * p + lowE) - (s * p + lowS) + out * (256 * p)
  {
    ByteProduct(out, p);
    assert value * p == e * p - s * p - borrow * p + 256 * (out * p);
  }

  lemma DropByte(a: Address, index: nat)
    requires index < 16
    ensures BigEndian(a[index..]) == a[index] * Pow2(8 * (15 - index)) + BigEndian(a[index + 1..])
  {
    assert a[index..] == [a[index]] + a[index + 1..];
    BigEndianPrepend(a[index], a[index + 1..]);
  }

  /** The bytes from index on hold the difference, but for a borrow still owed. */
  ghost predicate Owed(width: Address, start: Address, end: Address, index: nat, borrow: int)
    requires index <= 16
  {
    BigEndian(width[index..]) ==
    BigEndian(end[index..]) - BigEndian(start[index..]) + Scaled(borrow, 16 - index)
  }

  function Scaled(n: int, bytes: nat): int {
    n * Pow2(8 * bytes)
  }

  lemma OwedStep(width: Address, start: Address, end: Address, index: nat, borrow: int, value: Byte, out: int)
    requires index < 16 && Owed(width, start, end, index + 1, borrow)
    requires value == end[index] - start[index] - borrow + 256 * out
    ensures Owed(width[index := value], start, end, index, out)
  {
    var w: Address := width[index := value];
    assert w[index + 1..] == width[index + 1..];
    DropByte(w, index);
    DropByte(end, index);
    DropByte(start, index);
    Pow2Byte(15 - index);
    BorrowStep(end[index], start[index], borrow, out, value, Pow2(8 * (15 - index)),
               BigEndian(end[index + 1..]), BigEndian(start[index + 1..]), BigEndian(width[index + 1..]));
  }

  lemma NegateProduct(b: int, p: int)
    ensures p * -b == -(b * p)
  {
  }

  lemma OwedAll(width: Address, start: Address, end: Address, borrow: int)
    requires Owed(width, start, end, 0, borrow)
    ensures BigEndian(width) == (BigEndian(end) - BigEndian(start)) % Pow2(8 * |width|)
  {
    assert width[0..] == width && end[0..] == end && start[0..] == start;
    BigEndianBound(width);
    var p := Pow2(8 * |width|);
    NegateProduct(borrow, p);
    DivUnique(BigEndian(end) - BigEndian(start), p, -borrow, BigEndian(width));
  }

  /** end - start modulo 2^128, byte by byte with a borrow. */
  method RangeWidth(start: Address, end: Address) returns (width: Address)
    ensures BigEndian(width) == (BigEndian(end) - BigEndian(start)) % Pow2(8 * |width|)
  {
    width := ZERO_ADDRESS;
    var borrow := 0;
    var index := |width|;
    while index > 0
      invariant 0 <= index <= 16
      invariant 0 <= borrow <= 1
      invariant Owed(width, start, end, index, borrow)
    {
      index := index - 1;
      var value := (end[index] as int) - (start[index] as int) - borrow;
      ghost var before := borrow;
      if value < 0 {
        value := value + 256;
        borrow := 1;
      } else {
        borrow := 0;
      }
      OwedStep(width, start, end, index, before, value, borrow);
      width := width[index := value];
    }
    OwedAll(width, start, end, borrow);
  }

  /** For a range of one version the width is the difference of the two numbers. */
  lemma WidthOfRange(start: Address, end: Address, width: Address, v: Version)
    requires Canonical(start, v) && Canonical(end, v) && Num(start, v) <= Num(end, v)
    requires BigEndian(width) == (BigEndian(end) - BigEndian(start)) % Pow2(8 * |width|)
    ensures Canonical(width, v) && Num(width, v) == Num(end, v) - Num(start, v)
  {
    var n := Num(end, v) - Num(start, v);
    NumIgnoresZeros(start, v);
    NumIgnoresZeros(end, v);
    NumIsKeyValue(end, v);
    NumOfAddress(n, v);
    NumIgnoresZeros(AddressOf(n, v), v);
    BigEndianBound(end);
    DivUnique(n, Pow2(8 * |width|), 0, n);
    BigEndianInjective(AddressOf(n, v), width);
  }

  lemma NumIgnoresZeros(a: Address, v: Version)
    requires Canonical(a, v)
    ensures BigEndian(a) == Num(a, v)
  {
    if v.V4? {
      var i := 0;
      while i < 12
        invariant 0 <= i <= 12
        invariant BigEndian(a) == BigEndian(a[i..])
      {
        assert a[i] == a[..12][i] == 0;
        assert a[i..] == [a[i]] + a[i + 1..];
        BigEndianPrepend(a[i], a[i + 1..]);
        i := i + 1;
      }
    }
  }
}
