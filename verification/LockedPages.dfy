/** LockedPageManagerBase: stacking locks of memory ranges by a counter for every page. */
module LockedPages {
  import opened Powers

  /** A range of memory. */
  datatype Range = Range(base: nat, size: nat)

  // A page is identified by its number: its base address divided by the page size.

  function FirstPage(r: Range, pageSize: nat): nat
    requires pageSize > 0
  {
    PageNatural(r.base, pageSize);
    r.base / pageSize
  }

  function LastPage(r: Range, pageSize: nat): nat
    requires pageSize > 0 && r.size > 0
  {
    PageNatural(r.base + r.size - 1, pageSize);
    (r.base + r.size - 1) / pageSize
  }

  lemma {:induction false} PageNatural(addr: nat, pageSize: nat)
    requires pageSize > 0
    ensures addr / pageSize >= 0
  {
    DivMonotone(0, addr, pageSize);
    DivModUnique(0, pageSize, 0, 0);
  }

  /** The range has a byte in the page. */
  predicate Touches(r: Range, page: nat, pageSize: nat)
    requires pageSize > 0
  {
    r.size > 0 && FirstPage(r, pageSize) <= page <= LastPage(r, pageSize)
  }

  /** A range touches exactly the pages that contain one of its addresses. */
  lemma {:induction false} TouchesExactly(r: Range, page: nat, pageSize: nat)
    requires pageSize > 0
    ensures Touches(r, page, pageSize)
       <==> exists addr: nat :: r.base <= addr < r.base + r.size && addr / pageSize == page
  {
    if Touches(r, page, pageSize) {
      var addr := if page == FirstPage(r, pageSize) then r.base else page * pageSize;
      if page != FirstPage(r, pageSize) {
        DivModUnique(addr, pageSize, page, 0);
        InsidePage(r, page, pageSize);
      }
      assert r.base <= addr < r.base + r.size && addr / pageSize == page;
    }
    if addr: nat :| r.base <= addr < r.base + r.size && addr / pageSize == page {
      DivMonotone(r.base, addr, pageSize);
      DivMonotone(addr, r.base + r.size - 1, pageSize);
    }
  }

  lemma {:induction false} InsidePage(r: Range, page: nat, pageSize: nat)
    requires pageSize > 0 && Touches(r, page, pageSize) && page != FirstPage(r, pageSize)
    ensures r.base <= page * pageSize < r.base + r.size
  {
    DivModIs(r.base, pageSize);
    MulStrict(FirstPage(r, pageSize), page, pageSize);
    DivModIs(r.base + r.size - 1, pageSize);
    MulLeft(page, LastPage(r, pageSize), pageSize);
  }

  /** How many of the first `n` live ranges touch a page. */
  function CountTo(live: seq<Range>, n: nat, page: nat, pageSize: nat): nat
    requires n <= |live| && pageSize > 0
  {
    if n == 0 then 0
    else CountTo(live, n - 1, page, pageSize) + if Touches(live[n - 1], page, pageSize) then 1 else 0
  }

  function Count(live: seq<Range>, page: nat, pageSize: nat): nat
    requires pageSize > 0
  {
    CountTo(live, |live|, page, pageSize)
  }

  lemma {:induction false} CountSame(x: seq<Range>, y: seq<Range>, n: nat, page: nat, pageSize: nat)
    requires n <= |x| && n <= |y| && pageSize > 0 && forall i :: 0 <= i < n ==> x[i] == y[i]
    ensures CountTo(x, n, page, pageSize) == CountTo(y, n, page, pageSize)
  {
    if n > 0 { CountSame(x, y, n - 1, page, pageSize); }
  }

  lemma {:induction false} CountMore(live: seq<Range>, r: Range, page: nat, pageSize: nat)
    requires pageSize > 0
    ensures Count(live + [r], page, pageSize)
            == Count(live, page, pageSize) + if Touches(r, page, pageSize) then 1 else 0
  {
    CountSame(live + [r], live, |live|, page, pageSize);
  }

  /** Without the range at a position. */
  function Without(live: seq<Range>, i: nat): seq<Range>
    requires i < |live|
  {
    live[..i] + live[i + 1..]
  }

  lemma {:induction false} CountLess(live: seq<Range>, i: nat, n: nat, page: nat, pageSize: nat)
    requires i < n <= |live| && pageSize > 0
    ensures CountTo(Without(live, i), n - 1, page, pageSize)
         == CountTo(live, n, page, pageSize) - if Touches(live[i], page, pageSize) then 1 else 0
  {
    if i == n - 1 {
      CountSame(Without(live, i), live, i, page, pageSize);
    } else {
      CountLess(live, i, n - 1, page, pageSize);
    }
  }

  class LockedPageManager {
    const pageSize: nat
    var histogram: map<nat, int>
    /** The pages that the operating system has locked. */
    var locked: set<nat>
    /** The ranges locked and not unlocked yet. */
    ghost var live: seq<Range>

    /** Every counter is the number of live ranges touching the page, and the locked pages are those with a counter. */
    ghost predicate Valid()
      reads this
    {
      pageSize > 0 && Counted(histogram, locked, live, pageSize, 0, 0, 0)
    }

    constructor (pageSize: nat)
      requires pageSize > 0
      ensures Valid() && this.pageSize == pageSize && live == []
    {
      this.pageSize := pageSize;
      histogram, locked, live := map[], {}, [];
    }

    method LockRange(r: Range)
      requires Valid()
      modifies this
      ensures Valid() && live == if r.size == 0 then old(live) else old(live) + [r]
    {
      if r.size == 0 {
        return;
      }
      var startPage, endPage := FirstPage(r, pageSize), LastPage(r, pageSize);
      DivMonotone(r.base, r.base + r.size - 1, pageSize);
      for page := startPage to endPage + 1
        invariant live == old(live) && Counted(histogram, locked, live, pageSize, startPage, page, 1)
      {
        if page !in histogram {
          locked := locked + {page};
          histogram := histogram[page := 1];
        } else {
          histogram := histogram[page := histogram[page] + 1];
        }
      }
      forall page: nat
        ensures Count(live + [r], page, pageSize)
                == Count(live, page, pageSize) + Delta(startPage, endPage + 1, 1, page)
      {
        CountMore(live, r, page, pageSize);
      }
      live := live + [r];
    }

    /** UnlockRange of a live range: the assertion that every page is counted holds. */
    method UnlockRange(r: Range, ghost i: nat)
      requires Valid() && (r.size > 0 ==> i < |live| && live[i] == r)
      modifies this
      ensures Valid() && live == if r.size == 0 then old(live) else Without(old(live), i)
    {
      if r.size == 0 {
        return;
      }
      var startPage, endPage := FirstPage(r, pageSize), LastPage(r, pageSize);
      DivMonotone(r.base, r.base + r.size - 1, pageSize);
      forall page: nat
        ensures Count(Without(live, i), page, pageSize)
             == Count(live, page, pageSize) + Delta(startPage, endPage + 1, -1, page)
      {
        CountLess(live, i, |live|, page, pageSize);
      }
      for page := startPage to endPage + 1
        invariant live == old(live) && Counted(histogram, locked, live, pageSize, startPage, page, -1)
      {
        assert Count(live, page, pageSize) > 0;
        assert page in histogram;
        histogram := histogram[page := histogram[page] - 1];
        if histogram[page] == 0 {
          locked := locked - {page};
          histogram := histogram - {page};
        }
      }
      live := Without(live, i);
    }

    method GetLockedPageCount() returns (n: nat)
      requires Valid()
      ensures n == |locked|
    {
      assert histogram.Keys == locked;
      return |histogram|;
    }
  }

  /** What the pages from `from` up to below `to` have been changed by. */
  function Delta(from: nat, to: nat, step: int, page: nat): int {
    if from <= page < to then step else 0
  }

  /** The counters fit the live ranges, but for some pages that are ahead by `step`. */
  ghost predicate Counted(histogram: map<nat, int>, locked: set<nat>, live: seq<Range>, pageSize: nat, from: nat,
                          to: nat, step: int)
    requires pageSize > 0
  {
    forall page: nat ::
      var n := Count(live, page, pageSize) + Delta(from, to, step, page);
      (page in histogram <==> n > 0) && (page in locked <==> n > 0) && (page in histogram ==> histogram[page] == n)
  }
}
