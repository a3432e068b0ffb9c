/** Byte strings, the bit strings they spell, and the two orders on them: bytewise, as the
    key-value store compares keys, and numeric, as addresses are compared.

    In all modules a clause `true == P(x)` says no more and no less than `P(x)`. Dafny proves a
    predicate that stands alone conjunct by conjunct, with its definition unfolded; compared to
    `true` it is proved whole, which is what a caller that only passes it on needs. */
module Bytes {

  type Byte = b: int | 0 <= b < 256
  type Bit = b: int | 0 <= b < 2
  type Bits = seq<Bit>

  datatype Option<+T> = None | Some(value: T)

  // ---------- powers of two ----------

  function Pow2(n: nat): (p: nat)
    ensures p >= 1
  {
    if n == 0 then 1 else 2 * Pow2(n - 1)
  }

  lemma {:induction false} Pow2Add(m: nat, n: nat)
    ensures Pow2(m + n) == Pow2(m) * Pow2(n)
  {
    if m > 0 {
      Pow2Add(m - 1, n);
      assert Pow2(m + n) == 2 * Pow2(m - 1 + n);
    }
  }

  lemma Pow2Of32()
    ensures Pow2(32) == 0x1_0000_0000
  {
    assert Pow2(8) == 256;
    Pow2Add(8, 8);
    Pow2Add(16, 16);
  }

  lemma {:induction false} Pow2Monotone(m: nat, n: nat)
    requires m < n
    ensures 2 * Pow2(m) <= Pow2(n)
  {
    if m + 1 < n {
      Pow2Monotone(m, n - 1);
    }
  }

  // ---------- bit strings ----------

  /** The number a bit string spells, most significant bit first. */
  function Value(k: Bits): nat {
    if k == [] then 0 else 2 * Value(k[..|k| - 1]) + k[|k| - 1]
  }

  lemma {:induction false} ValueBound(k: Bits)
    ensures Value(k) < Pow2(|k|)
  {
    if k != [] {
      ValueBound(k[..|k| - 1]);
    }
  }

  lemma {:induction false} ValueInjective(k: Bits, l: Bits)
    requires |k| == |l| && Value(k) == Value(l)
    ensures k == l
  {
    if k != [] {
      var k', l' := k[..|k| - 1], l[..|l| - 1];
      assert k == k' + [k[|k| - 1]] && l == l' + [l[|l| - 1]];
      ValueInjective(k', l');
    }
  }

  lemma HalfDiv(v: nat, b: Bit, p: nat)
    requires p >= 1
    ensures (2 * v + b) / (2 * p) == v / p
  {
    var q, r := v / p, v % p;
    assert v == p * q + r;
    assert 2 * v + b == (2 * p) * q + (2 * r + b);
    assert 0 <= 2 * r + b < 2 * p;
    DivUnique(2 * v + b, 2 * p, q, 2 * r + b);
  }

  lemma MulAtLeast(d: nat, x: nat)
    requires x >= 1
    ensures d * x >= d
  {
    assert d * x == d * (x - 1) + d;
  }

  lemma DivUnique(n: int, d: nat, q: int, r: nat)
    requires d >= 1 && n == d * q + r && r < d
    ensures n / d == q && n % d == r
  {
    var q', r' := n / d, n % d;
    assert n == d * q' + r' && 0 <= r' < d;
    if q' < q {
      MulAtLeast(d, q - q');
      Distribute(d, q, q');
    } else if q' > q {
      MulAtLeast(d, q' - q);
      Distribute(d, q', q);
    }
  }

  /** Rounding down to a multiple. */
  lemma FloorMultiple(n: nat, p: nat)
    requires p >= 1
    ensures 0 <= n / p * p <= n < n / p * p + p && (n / p * p) % p == 0
  {
    assert n == p * (n / p) + n % p;
    DivUnique(n / p * p, p, n / p, 0);
  }

  function Min(a: nat, b: nat): nat {
    if a <= b then a else b
  }

  lemma MulAssociates(a: int, b: int, c: int)
    ensures (a * b) * c == a * (b * c)
  {
  }

  lemma Distribute(d: int, x: int, y: int)
    ensures d * (x - y) == d * x - d * y
  {
  }

  lemma {:induction false} PrefixIsQuotient(k: Bits, q: Bits)
    requires |k| <= |q|
    ensures k <= q <==> Value(q) / Pow2(|q| - |k|) == Value(k)
    decreases |q|
  {
    if |k| == |q| {
      if Value(k) == Value(q) {
        ValueInjective(k, q);
      }
      assert k <= q ==> k == q[..|k|] == q;
      assert Pow2(|q| - |k|) == 1;
    } else {
      var q' := q[..|q| - 1];
      PrefixIsQuotient(k, q');
      assert k <= q' ==> k <= q;
      assert k <= q ==> k == q[..|k|] == q'[..|k|];
      var p := Pow2(|q'| - |k|);
      HalfDiv(Value(q'), q[|q| - 1], p);
      assert Pow2(|q| - |k|) == 2 * p;
      assert Value(q) == 2 * Value(q') + q[|q| - 1];
    }
  }

  /** One bit string starts another exactly when the longer one's number lies in the aligned
      block of numbers that the shorter one names: the reading of "prefix" in section 3.1 of
      RFC 4632. */
  lemma PrefixIsBlock(k: Bits, q: Bits, e: nat, base: nat)
    requires |k| + e == |q| && base == Value(k) * Pow2(e)
    ensures k <= q <==> base <= Value(q) < base + Pow2(e)
  {
    PrefixIsQuotient(k, q);
    BlockBounds(Value(q), Pow2(e), Value(k));
  }

  lemma BlockBounds(n: nat, p: nat, b: nat)
    requires p >= 1
    ensures n / p == b <==> b * p <= n < b * p + p
  {
    assert n == p * (n / p) + n % p;
    if b * p <= n < b * p + p {
      DivUnique(n, p, b, n - b * p);
    }
  }

  // ---------- the bits of bytes ----------

  /** The k low-order bits of n. */
  function BitsOf(n: nat, k: nat): (bits: Bits)
    ensures |bits| == k
  {
    if k == 0 then [] else BitsOf(n / 2, k - 1) + [n % 2]
  }

  lemma {:induction false} BitsOfInverse(n: nat, k: nat)
    requires n < Pow2(k)
    ensures Value(BitsOf(n, k)) == n
  {
    if k > 0 {
      BitsOfInverse(n / 2, k - 1);
      assert BitsOf(n, k)[..k - 1] == BitsOf(n / 2, k - 1);
    }
  }

  lemma {:induction false} BitsOfDrop(n: nat, k: nat, j: nat)
    ensures BitsOf(n, k + j)[..k] == BitsOf(n / Pow2(j), k)
  {
    if j > 0 {
      BitsOfDrop(n / 2, k, j - 1);
      HalfDiv(n / 2, n % 2, Pow2(j - 1));
      assert BitsOf(n, k + j)[..k] == BitsOf(n / 2, k + j - 1)[..k];
    }
  }

  lemma {:induction false} BitsOfShift(n: nat, k: nat, j: nat)
    ensures BitsOf(n * Pow2(j), k + j) == BitsOf(n, k) + seq(j, _ => 0)
  {
    if j > 0 {
      BitsOfShift(n, k, j - 1);
      var m := n * Pow2(j - 1);
      DoubleProduct(n, Pow2(j - 1));
      assert BitsOf(2 * m, k + j) == BitsOf(m, k + j - 1) + [0];
      assert seq(j, _ => 0) == seq(j - 1, _ => 0) + [0];
    }
  }

  function ByteBits(b: Byte): (k: Bits)
    ensures |k| == 8
  {
    BitsOf(b, 8)
  }

  lemma ByteBitsSpelled(b: Byte)
    ensures var b1 := b / 2; var b2 := b1 / 2; var b3 := b2 / 2; var b4 := b3 / 2; var b5 := b4 / 2; var b6 := b5 / 2;
      ByteBits(b) == [b6 / 2, b6 % 2, b5 % 2, b4 % 2, b3 % 2, b2 % 2, b1 % 2, b % 2]
  {
    var b1 := b / 2;
    var b2 := b1 / 2;
    var b3 := b2 / 2;
    var b4 := b3 / 2;
    var b5 := b4 / 2;
    var b6 := b5 / 2;
    assert BitsOf(b6 / 2, 1) == [] + [b6 / 2];
    assert BitsOf(b6, 2) == [b6 / 2, b6 % 2];
    assert BitsOf(b5, 3) == [b6 / 2, b6 % 2, b5 % 2];
    assert BitsOf(b4, 4) == [b6 / 2, b6 % 2, b5 % 2, b4 % 2];
    assert BitsOf(b3, 5) == [b6 / 2, b6 % 2, b5 % 2, b4 % 2, b3 % 2];
    assert BitsOf(b2, 6) == [b6 / 2, b6 % 2, b5 % 2, b4 % 2, b3 % 2, b2 % 2];
    assert BitsOf(b1, 7) == [b6 / 2, b6 % 2, b5 % 2, b4 % 2, b3 % 2, b2 % 2, b1 % 2];
  }

  lemma ByteBitsInjective(a: Byte, b: Byte)
    ensures ByteBits(a) == ByteBits(b) ==> a == b
  {
    assert Pow2(8) == 256;
    BitsOfInverse(a, 8);
    BitsOfInverse(b, 8);
  }

  function BitAt(bs: seq<Byte>, i: nat): Bit
    requires i < 8 * |bs|
  {
    ByteBits(bs[i / 8])[i % 8]
  }

  /** The first n bits of a byte string. */
  function Prefix(bs: seq<Byte>, n: nat): (k: Bits)
    requires n <= 8 * |bs|
    ensures |k| == n
  {
    seq(n, i requires 0 <= i < n => BitAt(bs, i))
  }

  lemma PrefixTake(bs: seq<Byte>, n: nat, m: nat)
    requires m <= n <= 8 * |bs|
    ensures Prefix(bs, n)[..m] == Prefix(bs, m)
    ensures Prefix(bs, m) <= Prefix(bs, n)
  {
    assert Prefix(bs, n)[..m] == Prefix(bs, m);
  }

  function BigEndian(bs: seq<Byte>): nat {
    NumberOf(bs, |bs|)
  }

  /** The number that the first n bytes spell. */
  function NumberOf(bs: seq<Byte>, n: nat): nat
    requires n <= |bs|
  {
    if n == 0 then 0 else 256 * NumberOf(bs, n - 1) + bs[n - 1]
  }

  lemma {:induction false} NumberOfFront(bs: seq<Byte>, n: nat, m: nat)
    requires n <= m <= |bs|
    ensures NumberOf(bs[..m], n) == NumberOf(bs, n)
  {
    if n > 0 {
      NumberOfFront(bs, n - 1, m);
    }
  }

  lemma BigEndianLast(bs: seq<Byte>)
    requires bs != []
    ensures BigEndian(bs) == 256 * BigEndian(bs[..|bs| - 1]) + bs[|bs| - 1]
  {
    NumberOfFront(bs, |bs| - 1, |bs| - 1);
  }

  lemma DoubleProduct(v: int, p: int)
    ensures v * (2 * p) == 2 * (v * p)
  {
  }

  lemma {:induction false} ValueConcat(k: Bits, l: Bits)
    ensures Value(k + l) == Value(k) * Pow2(|l|) + Value(l)
  {
    if l == [] {
      assert k + l == k;
    } else {
      var l' := l[..|l| - 1];
      assert (k + l)[..|k + l| - 1] == k + l';
      ValueConcat(k, l');
      DoubleProduct(Value(k), Pow2(|l'|));
    }
  }

  lemma PrefixNext(l: seq<Byte>, n: nat)
    requires n < 8 * |l|
    ensures Prefix(l, n + 1) == Prefix(l, n) + [BitAt(l, n)]
  {
  }

  lemma PrefixNextByte(l: seq<Byte>, n: nat)
    requires n < |l|
    ensures Prefix(l, 8 * n + 8) == Prefix(l, 8 * n) + ByteBits(l[n])
  {
    forall i | 0 <= i < 8
      ensures BitAt(l, 8 * n + i) == ByteBits(l[n])[i]
    {
      assert (8 * n + i) / 8 == n && (8 * n + i) % 8 == i;
    }
    assert Prefix(l, 8 * n + 8)[..8 * n] == Prefix(l, 8 * n);
  }

  lemma ValueAppendByte(k: Bits, b: Byte)
    ensures Value(k + ByteBits(b)) == 256 * Value(k) + b
  {
    ValueConcat(k, ByteBits(b));
    assert Pow2(8) == 256;
    BitsOfInverse(b, 8);
  }

  /** The bits of a byte string spell its big-endian number. */
  lemma {:induction false} BitsSpellNumber(bs: seq<Byte>)
    ensures Value(Prefix(bs, 8 * |bs|)) == BigEndian(bs)
  {
    if bs != [] {
      var n := |bs| - 1;
      var init := bs[..n];
      BitsSpellNumber(init);
      PrefixNextByte(bs, n);
      PrefixOfTake(bs, n);
      BigEndianLast(bs);
      ValueAppendByte(Prefix(init, 8 * n), bs[n]);
    }
  }

  lemma PrefixOfTake(bs: seq<Byte>, n: nat)
    requires n <= |bs|
    ensures Prefix(bs[..n], 8 * n) == Prefix(bs, 8 * n)
  {
    assert forall i :: 0 <= i < 8 * n ==> bs[..n][i / 8] == bs[i / 8];
  }

  lemma {:induction false} BigEndianBound(bs: seq<Byte>)
    ensures BigEndian(bs) < Pow2(8 * |bs|)
  {
    BitsSpellNumber(bs);
    ValueBound(Prefix(bs, 8 * |bs|));
  }

  /** The k low-order bytes of n, as FillBytes writes them. */
  function ToBigEndian(n: nat, k: nat): (bs: seq<Byte>)
    ensures |bs| == k
  {
    if k == 0 then [] else ToBigEndian(n / 256, k - 1) + [n % 256]
  }

  lemma {:induction false} ToBigEndianInverse(n: nat, k: nat)
    requires n < Pow2(8 * k)
    ensures BigEndian(ToBigEndian(n, k)) == n
  {
    if k > 0 {
      assert Pow2(8 * k) == 256 * Pow2(8 * (k - 1)) by { Pow2Add(8, 8 * (k - 1)); }
      ToBigEndianInverse(n / 256, k - 1);
      assert ToBigEndian(n, k)[..k - 1] == ToBigEndian(n / 256, k - 1);
      BigEndianLast(ToBigEndian(n, k));
    }
  }

  lemma {:induction false} BigEndianInjective(a: seq<Byte>, b: seq<Byte>)
    requires |a| == |b| && BigEndian(a) == BigEndian(b)
    ensures a == b
  {
    if a != [] {
      var n := |a| - 1;
      assert a == a[..n] + [a[n]] && b == b[..n] + [b[n]];
      BigEndianLast(a);
      BigEndianLast(b);
      BigEndianInjective(a[..n], b[..n]);
    }
  }

  lemma FromBigEndianInverse(bs: seq<Byte>)
    ensures ToBigEndian(BigEndian(bs), |bs|) == bs
  {
    BigEndianBound(bs);
    ToBigEndianInverse(BigEndian(bs), |bs|);
    BigEndianInjective(ToBigEndian(BigEndian(bs), |bs|), bs);
  }

  // ---------- bytewise order ----------

  /** bytes.Compare(a, b) < 0. */
  predicate LexLess(a: seq<Byte>, b: seq<Byte>) {
    b != [] && (a == [] || a[0] < b[0] || (a[0] == b[0] && LexLess(a[1..], b[1..])))
  }

  lemma {:induction false} LexIrreflexive(a: seq<Byte>)
    ensures !LexLess(a, a)
  {
    if a != [] {
      LexIrreflexive(a[1..]);
    }
  }

  lemma {:induction false} LexTotal(a: seq<Byte>, b: seq<Byte>)
    ensures LexLess(a, b) || a == b || LexLess(b, a)
  {
    if a != [] && b != [] && a[0] == b[0] {
      LexTotal(a[1..], b[1..]);
      assert a == [a[0]] + a[1..] && b == [b[0]] + b[1..];
    }
  }

  lemma {:induction false} LexTransitive(a: seq<Byte>, b: seq<Byte>, c: seq<Byte>)
    requires LexLess(a, b) && LexLess(b, c)
    ensures LexLess(a, c)
  {
    if a != [] && a[0] == b[0] == c[0] {
      LexTransitive(a[1..], b[1..], c[1..]);
    }
  }

  lemma {:induction false} LexAsymmetric(a: seq<Byte>, b: seq<Byte>)
    requires LexLess(a, b)
    ensures !LexLess(b, a) && a != b
  {
    LexIrreflexive(a);
    if LexLess(b, a) {
      LexTransitive(a, b, a);
    }
  }

  /** Byte strings compare by the first place where they part, and a shorter one comes before those
      it is the beginning of. */
  lemma {:induction false} LexIsFirstDifference(a: seq<Byte>, b: seq<Byte>)
    ensures LexLess(a, b) <==> exists k: nat :: k <= |a| && k < |b| && a[..k] == b[..k] && (k < |a| ==> a[k] < b[k])
  {
    if a != [] && b != [] && a[0] == b[0] {
      LexIsFirstDifference(a[1..], b[1..]);
      if LexLess(a, b) {
        var k: nat :| k <= |a[1..]| && k < |b[1..]| && a[1..][..k] == b[1..][..k] && (k < |a[1..]| ==> a[1..][k] < b[1..][k]);
        assert a[..k + 1] == [a[0]] + a[1..][..k] && b[..k + 1] == [b[0]] + b[1..][..k];
      }
      if k: nat :| k <= |a| && k < |b| && a[..k] == b[..k] && (k < |a| ==> a[k] < b[k]) {
        assert a[1..][..k - 1] == a[..k][1..] && b[1..][..k - 1] == b[..k][1..];
      }
    } else if b != [] && (a == [] || a[0] < b[0]) {
      assert a[..0] == b[..0];
    }
  }

  /** Keys made of fixed-width fields compare field by field. */
  lemma {:induction false} LexFields(a: seq<Byte>, b: seq<Byte>, c: seq<Byte>, d: seq<Byte>)
    requires |a| == |c|
    ensures LexLess(a + b, c + d) <==> LexLess(a, c) || (a == c && LexLess(b, d))
  {
    if a == [] {
      assert a + b == b && c + d == d;
    } else {
      assert (a + b)[1..] == a[1..] + b && (c + d)[1..] == c[1..] + d;
      assert a == [a[0]] + a[1..] && c == [c[0]] + c[1..];
      LexFields(a[1..], b, c[1..], d);
      LexIrreflexive(a);
    }
  }

  /** Bytewise order on equally long strings is numeric order. */
  lemma {:induction false} LexIsNumeric(a: seq<Byte>, b: seq<Byte>)
    requires |a| == |b|
    ensures LexLess(a, b) <==> BigEndian(a) < BigEndian(b)
  {
    if a != [] {
      var n := |a| - 1;
      assert a == a[..n] + [a[n]] && b == b[..n] + [b[n]];
      BigEndianLast(a);
      BigEndianLast(b);
      LexIsNumeric(a[..n], b[..n]);
      LexFields(a[..n], [a[n]], b[..n], [b[n]]);
      if BigEndian(a[..n]) == BigEndian(b[..n]) {
        BigEndianInjective(a[..n], b[..n]);
      }
      assert LexLess([a[n]], [b[n]]) <==> a[n] < b[n];
    }
  }
}
