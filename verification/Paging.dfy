/** Pages of an ascending list of record IDs: a page holds the IDs above a cursor, and its own
    cursor is the last ID it holds. */
module Paging {
  import opened Bytes
  import opened Sources

  datatype Page = Page(items: seq<nat>, next: Option<nat>)

  /** What lies above the cursor. */
  function Above(ids: seq<nat>, cursor: int): (rest: seq<nat>) {
    if ids == [] || ids[0] > cursor then ids else Above(ids[1..], cursor)
  }

  /** A cursor cuts the list at one position. */
  lemma {:induction false} AboveAt(ids: seq<nat>, cursor: int, k: nat)
    requires k <= |ids| && (forall i :: 0 <= i < k ==> ids[i] <= cursor) && (k < |ids| ==> ids[k] > cursor)
    ensures Above(ids, cursor) == ids[k..]
  {
    if k > 0 {
      AboveAt(ids[1..], cursor, k - 1);
      assert ids[1..][k - 1..] == ids[k..];
    }
  }

  lemma {:induction false} AboveIsSuffix(ids: seq<nat>, cursor: int) returns (k: nat)
    requires Ascending(ids)
    ensures k <= |ids| && Above(ids, cursor) == ids[k..]
    ensures forall i :: 0 <= i < |ids| ==> (ids[i] > cursor <==> k <= i)
  {
    k := 0;
    while k < |ids| && ids[k] <= cursor
      invariant k <= |ids|
      invariant forall i :: 0 <= i < k ==> ids[i] <= cursor
    {
      k := k + 1;
    }
    AboveAt(ids, cursor, k);
  }

  lemma AboveIsExact(ids: seq<nat>, cursor: int)
    requires Ascending(ids)
    ensures Ascending(Above(ids, cursor))
    ensures forall id :: id in Above(ids, cursor) <==> id in ids && id > cursor
  {
    var k := AboveIsSuffix(ids, cursor);
    forall id | id in ids && id > cursor
      ensures id in ids[k..]
    {
      var i :| 0 <= i < |ids| && ids[i] == id;
      assert ids[k..][i - k] == id;
    }
  }

  /** routePage: one item more than the limit says that there is a next page. */
  function RoutePage(items: seq<nat>, limit: nat): Page
    requires limit >= 1
  {
    if |items| <= limit then Page(items, None) else Page(items[..limit], Some(items[limit - 1]))
  }

  /** The page a request with a cursor gets. */
  function PageAt(ids: seq<nat>, cursor: int, limit: nat): Page
    requires limit >= 1
  {
    RoutePage(Above(ids, cursor), limit)
  }

  /** Cutting to limit + 1 before the page is made changes nothing. */
  lemma OneMoreIsEnough(items: seq<nat>, limit: nat)
    requires limit >= 1
    ensures |items| > limit + 1 ==> RoutePage(items[..limit + 1], limit) == RoutePage(items, limit)
  {
  }

  /** After a page with a cursor, what lies above that cursor is what the page left. */
  lemma CursorResumes(ids: seq<nat>, cursor: int, limit: nat)
    requires limit >= 1 && Ascending(ids) && PageAt(ids, cursor, limit).next.Some?
    ensures var page := PageAt(ids, cursor, limit);
      Above(ids, cursor) == page.items + Above(ids, page.next.value) && |page.items| == limit
  {
    var k := AboveIsSuffix(ids, cursor);
    AboveAt(ids, ids[k + limit - 1], k + limit);
    assert ids[k..] == ids[k..][..limit] + ids[k + limit..];
  }

  /** Every page of a run: each request uses the cursor of the page before. */
  function Run(ids: seq<nat>, cursor: int, limit: nat): seq<Page>
    requires limit >= 1 && Ascending(ids)
    decreases |Above(ids, cursor)|
  {
    var page := PageAt(ids, cursor, limit);
    if page.next.None? then [page] else
      CursorResumes(ids, cursor, limit);
      [page] + Run(ids, page.next.value, limit)
  }

  function Items(pages: seq<Page>): seq<nat> {
    if pages == [] then [] else pages[0].items + Items(pages[1..])
  }

  /** Following cursors lists every ID above the first cursor once, in order. Pages are full but
      for the last, and only the last has no cursor. */
  lemma {:induction false} RunEnumerates(ids: seq<nat>, cursor: int, limit: nat)
    requires limit >= 1 && Ascending(ids)
    ensures var pages := Run(ids, cursor, limit);
      && Items(pages) == Above(ids, cursor)
      && pages != []
      && (forall i :: 0 <= i < |pages| - 1 ==> |pages[i].items| == limit && pages[i].next.Some?)
      && pages[|pages| - 1].next.None? && |pages[|pages| - 1].items| <= limit
    decreases |Above(ids, cursor)|
  {
    var page := PageAt(ids, cursor, limit);
    if page.next.Some? {
      CursorResumes(ids, cursor, limit);
      RunEnumerates(ids, page.next.value, limit);
      assert Run(ids, cursor, limit)[1..] == Run(ids, page.next.value, limit);
    } else {
      assert Run(ids, cursor, limit)[1..] == [];
    }
  }
}
