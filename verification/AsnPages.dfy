/** The routes of an autonomous system: packed ascending IDs, found by binary search for a
    cursor or by position for a page number. */
module AsnPages {
  import opened Bytes
  import opened Words
  import opened Sources
  import Paging

  const ID_SIZE := 4

  // ---------- packed IDs ----------

  function EncodeIds(ids: seq<Word>): (value: seq<Byte>)
    ensures |value| == ID_SIZE * |ids|
  {
    if ids == [] then [] else EncodeIds(ids[..|ids| - 1]) + PutWord(ids[|ids| - 1])
  }

  function IdAt(value: seq<Byte>, i: nat): Word
    requires ID_SIZE * (i + 1) <= |value|
  {
    GetWord(value[ID_SIZE * i..ID_SIZE * i + 4])
  }

  lemma {:induction false} EncodedIdAt(ids: seq<Word>, i: nat)
    requires i < |ids|
    ensures IdAt(EncodeIds(ids), i) == ids[i]
  {
    var n := |ids| - 1;
    var value, front := EncodeIds(ids), EncodeIds(ids[..n]);
    if i < n {
      EncodedIdAt(ids[..n], i);
      assert value[ID_SIZE * i..ID_SIZE * i + 4] == front[ID_SIZE * i..ID_SIZE * i + 4];
    } else {
      assert value[ID_SIZE * i..ID_SIZE * i + 4] == PutWord(ids[n]);
      WordRoundTrip(ids[n]);
    }
  }

  /** Each ID at its place in a buffer of the right size. */
  method PackIds(ids: seq<Word>) returns (value: seq<Byte>)
    ensures value == EncodeIds(ids)
  {
    value := [];
    for i := 0 to |ids|
      invariant value == EncodeIds(ids[..i])
    {
      assert ids[..i + 1][..i] == ids[..i];
      value := value + PutWord(ids[i]);
    }
    assert ids[..|ids|] == ids;
  }

  method DecodeIds(value: seq<Byte>) returns (r: Option<seq<Word>>)
    ensures r.Some? <==> |value| % ID_SIZE == 0
    ensures r.Some? ==> ID_SIZE * |r.value| == |value| && forall i :: 0 <= i < |r.value| ==> r.value[i] == IdAt(value, i)
  {
    if |value| % ID_SIZE != 0 {
      return None;
    }
    var ids: seq<Word> := [];
    for i := 0 to |value| / ID_SIZE
      invariant |ids| == i && forall j :: 0 <= j < i ==> ids[j] == IdAt(value, j)
    {
      ids := ids + [IdAt(value, i)];
    }
    return Some(ids);
  }

  /** Unpacking packed IDs gives them back. */
  lemma IdsRoundTrip(ids: seq<Word>, unpacked: seq<Word>)
    requires |unpacked| == |ids| && forall i :: 0 <= i < |ids| ==> unpacked[i] == IdAt(EncodeIds(ids), i)
    ensures unpacked == ids
  {
    forall i | 0 <= i < |ids|
      ensures unpacked[i] == ids[i]
    {
      EncodedIdAt(ids, i);
    }
  }

  // ---------- the lists ----------

  /** The IDs of the routes that a system originates, ascending. asns has the AS number of every
      route in the order of their IDs, zero for none. */
  ghost predicate IsRoutesOf(ids: seq<nat>, asns: seq<Word>, asn: Word) {
    Ascending(ids) && forall id: nat :: id in ids <==> 1 <= id <= |asns| && asns[id - 1] == asn
  }

  ghost predicate AreLists(lists: map<Word, seq<Word>>, asns: seq<Word>) {
    && (forall asn :: asn in lists <==> asn != 0 && asn in asns)
    && (forall asn :: asn in lists ==> IsRoutesOf(lists[asn], asns, asn))
  }

  lemma OwnAppended(ids: seq<nat>, asns: seq<Word>, asn: Word)
    requires IsRoutesOf(ids, asns, asn)
    ensures IsRoutesOf(ids + [|asns| + 1], asns + [asn], asn)
  {
    forall i | 0 <= i < |ids|
      ensures ids[i] <= |asns|
    {
      assert ids[i] in ids;
    }
    var all := ids + [|asns| + 1];
    forall id: nat
      ensures id in all <==> 1 <= id <= |asns + [asn]| && (asns + [asn])[id - 1] == asn
    {
    }
  }

  /** A system without a list has no route yet. */
  lemma RouteAppended(lists: map<Word, seq<Word>>, asns: seq<Word>, asn: Word)
    requires AreLists(lists, asns) && asn != 0 && |asns| < MAX_UINT32
    ensures true == AreLists(lists[asn := (if asn in lists then lists[asn] else []) + [|asns| + 1]], asns + [asn])
  {
    OwnAppended(if asn in lists then lists[asn] else [], asns, asn);
    OthersAppended(lists, asns, asn);
  }

  lemma OthersAppended(lists: map<Word, seq<Word>>, asns: seq<Word>, asn: Word)
    requires AreLists(lists, asns)
    ensures forall other :: other in lists && other != asn ==> IsRoutesOf(lists[other], asns + [asn], other)
  {
    forall other, id: nat | other in lists && other != asn
      ensures id in lists[other] <==> 1 <= id <= |asns + [asn]| && (asns + [asn])[id - 1] == other
    {
      assert IsRoutesOf(lists[other], asns, other);
    }
  }

  /** Route by route in the order of their IDs, each ID is appended to the list of its system. */
  method CollectAsnRoutes(asns: seq<Word>) returns (lists: map<Word, seq<Word>>)
    requires |asns| <= MAX_UINT32
    ensures true == AreLists(lists, asns)
  {
    lists := map[];
    for i := 0 to |asns|
      invariant true == AreLists(lists, asns[..i])
    {
      var asn, id: Word := asns[i], i + 1;
      assert asns[..i + 1] == asns[..i] + [asn];
      if asn != 0 {
        RouteAppended(lists, asns[..i], asn);
        lists := lists[asn := (if asn in lists then lists[asn] else []) + [id]];
      } else {
        OthersAppended(lists, asns[..i], asn);
      }
    }
    assert asns[..|asns|] == asns;
  }

  /** The value packs the routes of the system. */
  ghost predicate IsPacked(value: seq<Byte>, asns: seq<Word>, asn: Word) {
    exists ids: seq<Word> :: IsRoutesOf(ids, asns, asn) && value == EncodeIds(ids)
  }

  /** One packed list for every system that has a route. */
  method WriteAsnRoutes(asns: seq<Word>) returns (bucket: map<Word, seq<Byte>>)
    requires |asns| <= MAX_UINT32
    ensures forall asn :: asn in bucket <==> asn != 0 && asn in asns
    ensures forall asn :: asn in bucket ==> IsPacked(bucket[asn], asns, asn)
  {
    var lists := CollectAsnRoutes(asns);
    var left := lists.Keys;
    bucket := map[];
    while left != {}
      invariant left <= lists.Keys && bucket.Keys == lists.Keys - left
      invariant forall asn :: asn in bucket ==> IsPacked(bucket[asn], asns, asn)
      decreases |left|
    {
      var asn :| asn in left;
      assert IsRoutesOf(lists[asn], asns, asn);
      var value := PackIds(lists[asn]);
      bucket, left := bucket[asn := value], left - {asn};
    }
  }

  // ---------- cursor pages ----------

  /** sort.Search: the first position whose ID is above the cursor. */
  method Search(value: seq<Byte>, cursor: int, ghost ids: seq<Word>) returns (start: nat)
    requires value == EncodeIds(ids) && Ascending(ids)
    ensures start <= |ids|
    ensures forall i :: 0 <= i < |ids| ==> (ids[i] > cursor <==> start <= i)
  {
    var low, high := 0, |value| / ID_SIZE;
    while low < high
      invariant 0 <= low <= high <= |ids|
      invariant forall i :: 0 <= i < low ==> ids[i] <= cursor
      invariant forall i :: high <= i < |ids| ==> ids[i] > cursor
    {
      var middle := (low + high) / 2;
      EncodedIdAt(ids, middle);
      if IdAt(value, middle) > cursor {
        high := middle;
      } else {
        low := middle + 1;
      }
    }
    start := low;
  }

  /** Reads the IDs from one position to another. */
  method ReadRange(value: seq<Byte>, start: nat, end: nat, ghost ids: seq<Word>) returns (page: seq<Word>)
    requires value == EncodeIds(ids) && start <= end <= |ids|
    ensures page == ids[start..end]
  {
    page := [];
    for i := start to end
      invariant page == ids[start..i]
    {
      EncodedIdAt(ids, i);
      page := page + [IdAt(value, i)];
    }
  }

  /** A page after a cursor: one ID more than the limit is read to see whether there is a next
      page. */
  method CursorPage(value: seq<Byte>, cursor: int, limit: nat, ghost ids: seq<Word>) returns (page: Paging.Page)
    requires value == EncodeIds(ids) && Ascending(ids) && (forall i :: 0 <= i < |ids| ==> ids[i] >= 1) && limit >= 1
    ensures page == Paging.PageAt(ids, cursor, limit)
  {
    var total := |value| / ID_SIZE;
    var start := 0;
    if cursor > 0 {
      start := Search(value, cursor, ids);
    }
    var end := start + limit + 1;
    if end > total {
      end := total;
    }
    var read := ReadRange(value, start, end, ids);
    Paging.AboveAt(ids, cursor, start);
    Paging.OneMoreIsEnough(ids[start..], limit);
    assert end - start <= limit ==> read == ids[start..];
    assert end - start == limit + 1 ==> read == ids[start..][..limit + 1];
    page := Paging.RoutePage(read, limit);
  }

  /** Following cursors from the start lists every route of the system once, in order. */
  lemma CursorPagesList(ids: seq<Word>, limit: nat)
    requires Ascending(ids) && (forall i :: 0 <= i < |ids| ==> ids[i] >= 1) && limit >= 1
    ensures Paging.Items(Paging.Run(ids, 0, limit)) == ids
  {
    Paging.RunEnumerates(ids, 0, limit);
    Paging.AboveAt(ids, 0, 0);
  }

  // ---------- numbered pages ----------

  /** The slice that page `number`, counted from one, holds. */
  function PageStart(number: nat, limit: nat, total: nat): (start: nat)
    requires number >= 1
    ensures start <= total
  {
    PageProduct(number, limit);
    Min((number - 1) * limit, total)
  }

  lemma PageProduct(number: nat, limit: nat)
    requires number >= 1
    ensures (number - 1) * limit >= 0 && number * limit == (number - 1) * limit + limit
  {
  }

  function NumberedPage(ids: seq<Word>, number: nat, limit: nat): seq<Word>
    requires number >= 1
  {
    ids[PageStart(number, limit, |ids|)..Min(PageStart(number, limit, |ids|) + limit, |ids|)]
  }

  function TotalPages(total: nat, limit: nat): nat
    requires limit >= 1
  {
    PageCountNotNegative(total + limit - 1, limit);
    (total + limit - 1) / limit
  }

  lemma PageCountNotNegative(n: nat, limit: nat)
    requires limit >= 1
    ensures n / limit >= 0
  {
  }

  method PageByNumber(value: seq<Byte>, number: nat, limit: nat, ghost ids: seq<Word>) returns (page: seq<Word>, totalPages: nat)
    requires value == EncodeIds(ids) && number >= 1 && limit >= 1
    ensures page == NumberedPage(ids, number, limit) && totalPages == TotalPages(|ids|, limit)
  {
    var total := |value| / ID_SIZE;
    PageProduct(number, limit);
    var start: nat := if (number - 1) * limit < total then (number - 1) * limit else total;
    var end := start + limit;
    if end > total {
      end := total;
    }
    page := ReadRange(value, start, end, ids);
    totalPages := TotalPages(total, limit);
  }

  function PagesUpTo(ids: seq<Word>, n: nat, limit: nat): seq<Word> {
    if n == 0 then [] else PagesUpTo(ids, n - 1, limit) + NumberedPage(ids, n, limit)
  }

  /** The first n numbered pages are the first n * limit IDs. */
  lemma {:induction false} PagesAreFront(ids: seq<Word>, n: nat, limit: nat)
    ensures n * limit >= 0 && PagesUpTo(ids, n, limit) == ids[..Min(n * limit, |ids|)]
  {
    if n > 0 {
      PagesAreFront(ids, n - 1, limit);
      PageProduct(n, limit);
      var a, b := PageStart(n, limit, |ids|), Min(PageStart(n, limit, |ids|) + limit, |ids|);
      assert ids[..a] + ids[a..b] == ids[..b];
    }
  }

  lemma PagesCover(total: nat, limit: nat)
    requires limit >= 1
    ensures TotalPages(total, limit) * limit >= total
    ensures total > 0 ==> TotalPages(total, limit) >= 1 && (TotalPages(total, limit) - 1) * limit < total
    ensures total == 0 ==> TotalPages(total, limit) == 0
  {
    var n := total + limit - 1;
    var q := n / limit;
    assert n == limit * q + n % limit;
    assert q * limit == limit * q;
    assert (q - 1) * limit == q * limit - limit;
    if q == 0 {
      assert n % limit == n;
    }
    if total == 0 {
      DivUnique(n, limit, 0, n);
    }
  }

  /** Pages 1 to TotalPages together are the whole list, none of them is empty, and every one
      but the last is full. */
  lemma NumberedPagesList(ids: seq<Word>, limit: nat)
    requires limit >= 1
    ensures PagesUpTo(ids, TotalPages(|ids|, limit), limit) == ids
    ensures forall n :: 1 <= n <= TotalPages(|ids|, limit) ==> NumberedPage(ids, n, limit) != []
    ensures forall n :: 1 <= n < TotalPages(|ids|, limit) ==> |NumberedPage(ids, n, limit)| == limit
  {
    var pages := TotalPages(|ids|, limit);
    PagesCover(|ids|, limit);
    PagesAreFront(ids, pages, limit);
    forall n | 1 <= n <= pages
      ensures NumberedPage(ids, n, limit) != [] && (n < pages ==> |NumberedPage(ids, n, limit)| == limit)
    {
      PageFills(n, pages, limit);
      PageProduct(n, limit);
    }
  }

  lemma PageFills(n: nat, pages: nat, limit: nat)
    requires 1 <= n <= pages
    ensures 0 <= (n - 1) * limit <= (pages - 1) * limit && (n < pages ==> n * limit <= (pages - 1) * limit)
  {
    Distribute(limit, pages - 1, n - 1);
    assert limit * (pages - n) >= 0;
    if n < pages {
      Distribute(limit, pages - 1, n);
      assert limit * (pages - 1 - n) >= 0;
    }
  }

  /** What the pages of a system list, by cursor or by number, are its routes: each once, by
      ascending ID. */
  lemma PagesListRoutes(ids: seq<Word>, asns: seq<Word>, asn: Word, limit: nat)
    requires IsRoutesOf(ids, asns, asn) && limit >= 1
    ensures forall i :: 0 <= i < |ids| ==> ids[i] >= 1
    ensures IsRoutesOf(Paging.Items(Paging.Run(ids, 0, limit)), asns, asn)
    ensures IsRoutesOf(PagesUpTo(ids, TotalPages(|ids|, limit), limit), asns, asn)
  {
    forall i | 0 <= i < |ids|
      ensures ids[i] >= 1
    {
      assert ids[i] in ids;
    }
    CursorPagesList(ids, limit);
    NumberedPagesList(ids, limit);
  }
}
