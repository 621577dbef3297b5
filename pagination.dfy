/**
  The inbox pagination arithmetic: `math.ceil(total / 25)` pages, and the
  window `list(reversed(ids))[start:end]` with Python's slice rules.
 */
module Pagination {

  /** EMAILS_PER_PAGE */
  const PageSize: nat := 25

  /** `math.ceil(total / PageSize)`: the fewest pages that hold `total` items. */
  function TotalPages(total: nat): (pages: nat)
    ensures pages * PageSize >= total
    ensures pages == 0 || (pages - 1) * PageSize < total
    ensures pages == 0 <==> total == 0
  {
    (total + PageSize - 1) / PageSize
  }

  /** First slice index of page `page` (1-based), before clamping. */
  function PageStart(page: int): int
  {
    (page - 1) * PageSize
  }

  /** `end = start + EMAILS_PER_PAGE`, before clamping. */
  function PageEnd(page: int): int
  {
    PageStart(page) + PageSize
  }

  /**
    How Python normalises one slice bound for a sequence of length `len`:
    a negative bound counts from the end, and the result is clamped to [0, len].
   */
  function SliceBound(i: int, len: nat): (b: nat)
    ensures b <= len
    ensures 0 <= i <= len ==> b == i
    ensures i > len ==> b == len
    ensures i < 0 <= i + len ==> b == len + i
    ensures i + len < 0 ==> b == 0
  {
    if i < 0 then (if i + len < 0 then 0 else i + len)
    else if i > len then len
    else i
  }

  /** Python's `s[start:end]`: never fails, empty when the bounds cross. */
  function PySlice<T>(s: seq<T>, start: int, end: int): (r: seq<T>)
    ensures |r| <= |s|
    ensures |r| == if SliceBound(start, |s|) < SliceBound(end, |s|) then SliceBound(end, |s|) - SliceBound(start, |s|) else 0
    ensures forall k | 0 <= k < |r| :: r[k] == s[SliceBound(start, |s|) + k]
  {
    var lo := SliceBound(start, |s|);
    var hi := SliceBound(end, |s|);
    if lo < hi then s[lo..hi] else []
  }

  /** Python's `list(reversed(s))`. */
  function Reverse<T>(s: seq<T>): (r: seq<T>)
    ensures |r| == |s|
  {
    if |s| == 0 then [] else [s[|s| - 1]] + Reverse(s[..|s| - 1])
  }

  /** Element `i` of the reversal is element `|s| - 1 - i` of the original. */
  lemma {:induction false} ReverseAt<T>(s: seq<T>, i: nat)
    requires i < |s|
    ensures Reverse(s)[i] == s[|s| - 1 - i]
  {
    if i > 0 {
      ReverseAt(s[..|s| - 1], i - 1);
    }
  }

  /** The ids shown on page `page`: newest first, one page's worth. */
  function PageIds<T>(ids: seq<T>, page: int): (r: seq<T>)
    ensures |r| <= PageSize
  {
    PySlice(Reverse(ids), PageStart(page), PageEnd(page))
  }

  function Min(a: int, b: int): int
  {
    if a <= b then a else b
  }

  /** For a page number of at least 1, the window is cut at `min((page - 1) * 25, total)` and `min(page * 25, total)`. */
  lemma {:induction false} PageSlice<T>(ids: seq<T>, page: int)
    requires page >= 1
    ensures PageIds(ids, page) ==
      Reverse(ids)[Min((page - 1) * PageSize, |ids|)..Min(page * PageSize, |ids|)]
  {
    var n := |ids|;
    assert SliceBound(PageStart(page), n) == Min((page - 1) * PageSize, n);
    assert SliceBound(PageEnd(page), n) == Min(page * PageSize, n);
  }

  /**
    For a page number of at least 1, the window holds at most 25 ids, the
    `k`-th being the `(start + k)`-th newest, and it is empty exactly when the
    page lies past the last page.
   */
  lemma PageWindow<T>(ids: seq<T>, page: int)
    requires page >= 1
    ensures |PageIds(ids, page)| <= PageSize
    ensures PageIds(ids, page) == [] <==> page > TotalPages(|ids|)
    ensures forall k | 0 <= k < |PageIds(ids, page)| ::
      PageIds(ids, page)[k] == ids[|ids| - 1 - ((page - 1) * PageSize + k)]
  {
    var n := |ids|;
    var lo := Min((page - 1) * PageSize, n);
    var hi := Min(page * PageSize, n);
    PageSlice(ids, page);
    var w := PageIds(ids, page);
    assert |w| == hi - lo;
    assert w == [] <==> page > TotalPages(n) by {
      assert w == [] <==> (page - 1) * PageSize >= n;
    }
    forall k | 0 <= k < |w| ensures w[k] == ids[n - 1 - ((page - 1) * PageSize + k)] {
      assert lo == (page - 1) * PageSize;
      ReverseAt(ids, lo + k);
    }
  }

  /** Every page before the last one is full. */
  lemma FullPagesBeforeLast<T>(ids: seq<T>, page: int)
    requires 1 <= page < TotalPages(|ids|)
    ensures |PageIds(ids, page)| == PageSize
  {
    PageSlice(ids, page);
  }

  /** The pages 1..TotalPages list every id exactly once, in newest-first order. */
  lemma {:induction false} PagesCoverInbox<T>(ids: seq<T>, pages: nat)
    requires pages <= TotalPages(|ids|)
    ensures Concat(ids, pages) == Reverse(ids)[..Min(pages * PageSize, |ids|)]
  {
    if pages > 0 {
      PagesCoverInbox(ids, pages - 1);
      PageSlice(ids, pages);
      var r := Reverse(ids);
      var a := Min((pages - 1) * PageSize, |ids|);
      var b := Min(pages * PageSize, |ids|);
      assert r[..a] + r[a..b] == r[..b];
    }
  }

  /** Pages 1..pages of the listing, one after another. */
  function Concat<T>(ids: seq<T>, pages: nat): seq<T>
  {
    if pages == 0 then [] else Concat(ids, pages - 1) + PageIds(ids, pages)
  }

  /** Page number 0 lists nothing: the slice `[-25:0]` is empty. */
  lemma PageZeroIsEmpty<T>(ids: seq<T>)
    ensures PageIds(ids, 0) == []
  {
  }

  /**
    A negative page number is not rejected: Python counts negative slice
    bounds from the end, so page -1 of a 57-message inbox shows the 8th to the
    32nd newest ids.
   */
  lemma NegativePageWrapsAround<T>(ids: seq<T>)
    requires |ids| == 57
    ensures PageIds(ids, -1) == Reverse(ids)[7..32]
  {
  }

  /** The three windows of a 57-message inbox. */
  lemma FiftySevenMessages<T>(ids: seq<T>)
    requires |ids| == 57
    ensures TotalPages(57) == 3
    ensures PageIds(ids, 1) == Reverse(ids)[0..25]
    ensures PageIds(ids, 3) == Reverse(ids)[50..57]
    ensures PageIds(ids, 4) == []
  {
  }
}
