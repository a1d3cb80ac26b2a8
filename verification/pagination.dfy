/** Client-side pagination of the company list: a fixed page size, the
    visible window at an offset, the page count shown by the paginator and
    the offset a page click selects. */
module Pagination {

  /** `ITEMS_PER_PAGE`. */
  const ItemsPerPage: nat := 10

  function Min(a: int, b: int): int
  {
    if a <= b then a else b
  }

  /** `s.slice(begin, end)` for non-negative bounds: both are clamped to the
      length, and a range that ends before it begins is empty. */
  function Slice<T>(s: seq<T>, begin: nat, end: nat): (r: seq<T>)
    ensures |r| == if Min(begin, |s|) <= Min(end, |s|) then Min(end, |s|) - Min(begin, |s|) else 0
    ensures forall i :: 0 <= i < |r| ==> r[i] == s[begin + i]
  {
    var b := Min(begin, |s|);
    var e := Min(end, |s|);
    if b <= e then s[b..e] else []
  }

  /** The page effect's `companies.slice(itemOffset, itemOffset + ITEMS_PER_PAGE)`:
      the items from `offset` on, at most a page of them, and none when the
      offset is past the end. */
  function PageWindow<T>(items: seq<T>, offset: nat): (page: seq<T>)
    ensures |page| == if offset < |items| then Min(ItemsPerPage, |items| - offset) else 0
    ensures forall i :: 0 <= i < |page| ==> page[i] == items[offset + i]
  {
    Slice(items, offset, offset + ItemsPerPage)
  }

  /** `Math.ceil(n / ITEMS_PER_PAGE)`: the fewest pages that hold `n` items. */
  function PageCount(n: nat): (count: nat)
    ensures count * ItemsPerPage >= n
    ensures count > 0 ==> (count - 1) * ItemsPerPage < n
  {
    (n + ItemsPerPage - 1) / ItemsPerPage
  }

  /** `handlePageClick`: `(selected * ITEMS_PER_PAGE) % companies.length`.
      The list must be non-empty (the remainder by zero is NaN). The offset
      always lies inside the list, and for every page the paginator offers
      it is that page's first item, so the wrap-around never applies there. */
  function PageClickOffset(selected: nat, n: nat): (offset: nat)
    requires n > 0
    ensures offset < n
    ensures selected < PageCount(n) ==> offset == selected * ItemsPerPage
  {
    (selected * ItemsPerPage) % n
  }

  /** The windows of pages `first`, `first + 1`, ... up to the last page. */
  function PagesFrom<T>(items: seq<T>, first: nat): seq<seq<T>>
    decreases |items| - first * ItemsPerPage
  {
    if first * ItemsPerPage >= |items| then []
    else [PageWindow(items, first * ItemsPerPage)] + PagesFrom(items, first + 1)
  }

  /** All pages, one per page number the paginator offers. */
  function Pages<T>(items: seq<T>): (pages: seq<seq<T>>)
    ensures |pages| == PageCount(|items|)
  {
    PagesFromCount(items, 0);
    PagesFrom(items, 0)
  }

  function Flatten<T>(pages: seq<seq<T>>): seq<T>
  {
    if |pages| == 0 then [] else pages[0] + Flatten(pages[1..])
  }

  /** Pages from `first` on hold, in order, the items from that page's first
      item on. */
  lemma {:induction false} PagesFromFlatten<T>(items: seq<T>, first: nat)
    requires first * ItemsPerPage <= |items|
    ensures Flatten(PagesFrom(items, first)) == items[first * ItemsPerPage..]
    decreases |items| - first * ItemsPerPage
  {
    var off := first * ItemsPerPage;
    var pages := PagesFrom(items, first);
    if off < |items| {
      var w := PageWindow(items, off);
      assert pages == [w] + PagesFrom(items, first + 1);
      if off + ItemsPerPage <= |items| {
        assert (first + 1) * ItemsPerPage == off + ItemsPerPage;
        PagesFromFlatten(items, first + 1);
        assert w == items[off..off + ItemsPerPage];
        assert items[off..] == w + items[off + ItemsPerPage..];
      } else {
        assert PagesFrom(items, first + 1) == [];
        assert w == items[off..];
      }
    }
  }

  /** There is one page from `first` on for each remaining page number. */
  lemma {:induction false} PagesFromCount<T>(items: seq<T>, first: nat)
    requires first * ItemsPerPage <= |items|
    ensures |PagesFrom(items, first)| == PageCount(|items|) - first
    decreases |items| - first * ItemsPerPage
  {
    var off := first * ItemsPerPage;
    if off < |items| {
      assert (first + 1) * ItemsPerPage == off + ItemsPerPage;
      if off + ItemsPerPage <= |items| {
        PagesFromCount(items, first + 1);
      } else {
        assert PageCount(|items|) == first + 1;
      }
    } else {
      assert PageCount(|items|) == first;
    }
  }

  /** Page `p` from `first` on is the window at page `first + p`'s first
      item. */
  lemma {:induction false} PagesFromWindows<T>(items: seq<T>, first: nat, p: nat)
    requires p < |PagesFrom(items, first)|
    ensures PagesFrom(items, first)[p] == PageWindow(items, (first + p) * ItemsPerPage)
    decreases p
  {
    if p > 0 {
      PagesFromWindows(items, first + 1, p - 1);
    }
  }

  /** The pages tile the list: read in order they give back every item,
      exactly once, and page `p` is the window shown after clicking page
      number `p`. */
  lemma PagesTileList<T>(items: seq<T>)
    ensures Flatten(Pages(items)) == items
    ensures forall p :: 0 <= p < |Pages(items)| ==>
              Pages(items)[p] == PageWindow(items, PageClickOffset(p, |items|))
  {
    PagesFromFlatten(items, 0);
    assert items[0..] == items;
    forall p | 0 <= p < |Pages(items)|
      ensures Pages(items)[p] == PageWindow(items, PageClickOffset(p, |items|))
    {
      PagesFromWindows(items, 0, p);
    }
  }
}
