/** Thirty-two bit words in big-endian byte strings, and writing them into a buffer. */
module Words {
  import opened Bytes

  const MAX_UINT32: nat := 0xFFFF_FFFF

  type Word = n: nat | n <= 0xFFFF_FFFF

  function PutWord(n: Word): (bs: seq<Byte>)
    ensures |bs| == 4
  {
    ToBigEndian(n, 4)
  }

  function GetWord(bs: seq<Byte>): (n: Word)
    requires |bs| == 4
  {
    BigEndianBound(bs);
    Pow2Of32();
    BigEndian(bs)
  }

  lemma WordRoundTrip(n: Word)
    ensures GetWord(PutWord(n)) == n
  {
    Pow2Of32();
    ToBigEndianInverse(n, 4);
  }

  /** copy(a[offset:], s). */
  method CopyInto(a: array<Byte>, offset: nat, s: seq<Byte>)
    requires offset + |s| <= a.Length
    modifies a
    ensures a[offset..offset + |s|] == s
    ensures a[..offset] == old(a[..offset]) && a[offset + |s|..] == old(a[offset + |s|..])
  {
    var i := 0;
    while i < |s|
      invariant i <= |s|
      invariant a[offset..offset + i] == s[..i]
      invariant a[..offset] == old(a[..offset]) && a[offset + |s|..] == old(a[offset + |s|..])
    {
      a[offset + i] := s[i];
      i := i + 1;
    }
  }

  lemma SubSlice<T>(s: seq<T>, o: nat, n: nat, a: nat, b: nat)
    requires a <= b <= n && o + n <= |s|
    ensures s[o..o + n][a..b] == s[o + a..o + b]
  {
    var l, r := s[o..o + n][a..b], s[o + a..o + b];
    assert |l| == |r| && forall k :: 0 <= k < |l| ==> l[k] == s[o + a + k] == r[k];
  }

  /** A run of equally long cells laid out from `base`. */
  ghost predicate CellsAt(value: seq<Byte>, base: nat, size: nat, cells: seq<seq<Byte>>) {
    forall i :: 0 <= i < |cells| ==> CellAt(value, base + size * i, cells[i])
  }

  ghost predicate CellAt(value: seq<Byte>, offset: nat, cell: seq<Byte>) {
    offset + |cell| <= |value| && value[offset..offset + |cell|] == cell
  }

  /** Rewriting the bytes from lo to hi disturbs no cell outside them. */
  lemma CellKept(before: seq<Byte>, after: seq<Byte>, lo: nat, hi: nat, offset: nat, cell: seq<Byte>)
    requires |before| == |after| && lo <= hi <= |before|
    requires before[..lo] == after[..lo] && before[hi..] == after[hi..]
    requires offset + |cell| <= lo || hi <= offset
    requires CellAt(before, offset, cell)
    ensures CellAt(after, offset, cell)
  {
    var n := |cell|;
    if offset + n <= lo {
      SubSlice(before, 0, lo, offset, offset + n);
      SubSlice(after, 0, lo, offset, offset + n);
      assert before[0..lo] == before[..lo] && after[0..lo] == after[..lo];
    } else {
      var m := |before| - hi;
      SubSlice(before, hi, m, offset - hi, offset - hi + n);
      SubSlice(after, hi, m, offset - hi, offset - hi + n);
      assert before[hi..hi + m] == before[hi..] && after[hi..hi + m] == after[hi..];
    }
  }

  lemma StrideMonotone(size: nat, i: nat, j: nat)
    requires i < j
    ensures size * i + size <= size * j
  {
    assert size * (j - i) >= size by { if size > 0 { MulAtLeast(size, j - i); } }
    Distribute(size, j, i);
  }

  lemma CellsKept(before: seq<Byte>, after: seq<Byte>, lo: nat, hi: nat, base: nat, size: nat, cells: seq<seq<Byte>>)
    requires |before| == |after| && lo <= hi <= |before|
    requires before[..lo] == after[..lo] && before[hi..] == after[hi..]
    requires base + size * |cells| <= lo || hi <= base
    requires AllOfSize(cells, size)
    requires CellsAt(before, base, size, cells)
    ensures CellsAt(after, base, size, cells)
  {
    forall i | 0 <= i < |cells|
      ensures CellAt(after, base + size * i, cells[i])
    {
      StrideMonotone(size, i, |cells|);
      CellKept(before, after, lo, hi, base + size * i, cells[i]);
    }
  }

  /** A header, a run of node cells right after it, and a run of words from idBase. */
  ghost predicate Layout(value: seq<Byte>, header: seq<Byte>, size: nat, nodes: seq<seq<Byte>>, idBase: nat, ids: seq<seq<Byte>>) {
    && CellAt(value, 0, header)
    && CellsAt(value, |header|, size, nodes)
    && CellsAt(value, idBase, 4, ids)
  }

  ghost predicate AllOfSize(cells: seq<seq<Byte>>, size: nat) {
    forall i :: 0 <= i < |cells| ==> |cells[i]| == size
  }

  lemma CellsExtend(value: seq<Byte>, base: nat, size: nat, cells: seq<seq<Byte>>, cell: seq<Byte>)
    requires CellsAt(value, base, size, cells) && CellAt(value, base + size * |cells|, cell)
    ensures CellsAt(value, base, size, cells + [cell])
  {
    forall i | 0 <= i < |cells| + 1
      ensures CellAt(value, base + size * i, (cells + [cell])[i])
    {
      if i < |cells| {
        assert CellAt(value, base + size * i, cells[i]);
      }
    }
  }

  lemma LayoutNode(before: seq<Byte>, after: seq<Byte>, header: seq<Byte>, size: nat,
                   nodes: seq<seq<Byte>>, node: seq<Byte>, idBase: nat, ids: seq<seq<Byte>>)
    requires Layout(before, header, size, nodes, idBase, ids) && |after| == |before|
    requires AllOfSize(nodes, size) && |node| == size && AllOfSize(ids, 4)
    requires var o := |header| + size * |nodes|;
      && o + size <= idBase && o + size <= |before|
      && after[..o] == before[..o] && after[o + size..] == before[o + size..]
      && CellAt(after, o, node)
    ensures Layout(after, header, size, nodes + [node], idBase, ids)
  {
    var o := |header| + size * |nodes|;
    CellKept(before, after, o, o + size, 0, header);
    CellsKept(before, after, o, o + size, |header|, size, nodes);
    CellsKept(before, after, o, o + size, idBase, 4, ids);
    CellsExtend(after, |header|, size, nodes, node);
  }

  lemma LayoutId(before: seq<Byte>, after: seq<Byte>, header: seq<Byte>, size: nat,
                 nodes: seq<seq<Byte>>, idBase: nat, ids: seq<seq<Byte>>, id: seq<Byte>)
    requires Layout(before, header, size, nodes, idBase, ids) && |after| == |before|
    requires AllOfSize(nodes, size) && AllOfSize(ids, 4) && |id| == 4
    requires |header| + size * |nodes| <= idBase
    requires var o := idBase + 4 * |ids|;
      && o + 4 <= |before|
      && after[..o] == before[..o] && after[o + 4..] == before[o + 4..]
      && CellAt(after, o, id)
    ensures Layout(after, header, size, nodes, idBase, ids + [id])
  {
    var o := idBase + 4 * |ids|;
    CellKept(before, after, o, o + 4, 0, header);
    CellsKept(before, after, o, o + 4, |header|, size, nodes);
    CellsKept(before, after, o, o + 4, idBase, 4, ids);
    CellsExtend(after, idBase, 4, ids, id);
  }

  // ---------- lists without repetition ----------

  ghost predicate AllDistinct(ids: seq<Word>) {
    forall i, j :: 0 <= i < j < |ids| ==> ids[i] != ids[j]
  }

  lemma {:induction false} DistinctCount(ids: seq<Word>, s: set<int>)
    requires AllDistinct(ids) && forall id: int :: id in s <==> 0 <= id <= MAX_UINT32 && id in ids
    ensures |ids| == |s|
  {
    if ids == [] {
      assert forall id :: id in s ==> id in ids;
      assert s == {};
    } else {
      var n := |ids| - 1;
      assert ids == ids[..n] + [ids[n]];
      assert ids[n] in s && ids[n] !in ids[..n];
      DistinctCount(ids[..n], s - {ids[n]});
    }
  }
}
