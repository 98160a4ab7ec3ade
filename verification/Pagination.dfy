/** Page arithmetic in 32-bit integers, and the slices of a key list that it selects. */
module Pagination {
  import opened Options

  const MIN32 := -0x8000_0000
  const MAX32 := 0x7FFF_FFFF
  const DEFAULT_PER_PAGE: Int32 := 20
  const MAX_PER_PAGE: Int32 := 100

  type Int32 = x: int | MIN32 <= x <= MAX32

  /** What a Go int32 keeps of a result. */
  function Wrap(x: int): (w: Int32)
    ensures MIN32 <= x <= MAX32 ==> w == x
  {
    (x - MIN32) % 0x1_0000_0000 + MIN32
  }

  /** It differs from the result by a multiple of 2 to the 32. */
  lemma WrapIsCongruent(x: int)
    ensures exists k: int :: x == Wrap(x) + k * 0x1_0000_0000
  {
    assert x == Wrap(x) + (x - MIN32) / 0x1_0000_0000 * 0x1_0000_0000;
  }

  datatype PageRequest = PageRequest(page: Int32, perPage: Int32)

  datatype PageInfo = PageInfo(page: Int32, perPage: Int32, total: Int32, totalPages: Int32)

  function PageOf(pr: Option<PageRequest>): (page: Int32)
    ensures page >= 1
  {
    if pr.Some? && pr.value.page > 0 then pr.value.page else 1
  }

  function PerPageOf(pr: Option<PageRequest>): (perPage: Int32)
    ensures 1 <= perPage <= MAX_PER_PAGE
  {
    var asked := if pr.Some? && pr.value.perPage > 0 then pr.value.perPage else DEFAULT_PER_PAGE;
    if asked > MAX_PER_PAGE then MAX_PER_PAGE else asked
  }

  method Parse(pr: Option<PageRequest>) returns (page: Int32, perPage: Int32)
    ensures page == PageOf(pr) && perPage == PerPageOf(pr)
  {
    page, perPage := 1, DEFAULT_PER_PAGE;
    if pr.Some? {
      if pr.value.page > 0 {
        page := pr.value.page;
      }
      if pr.value.perPage > 0 {
        perPage := pr.value.perPage;
      }
    }
    if perPage > MAX_PER_PAGE {
      perPage := MAX_PER_PAGE;
    }
  }

  lemma ProductSize(k: int, d: int)
    requires d > 0
    ensures k >= 1 ==> k * d >= d
    ensures k <= -1 ==> k * d <= -d
  {
  }

  lemma ProductGrows(a: int, b: int, d: int)
    requires a <= b && d >= 0
    ensures a * d <= b * d
  {
  }

  lemma DivisionIsUnique(x: int, d: int, q: int, r: int)
    requires d > 0 && x == q * d + r && 0 <= r < d
    ensures x / d == q && x % d == r
  {
    var q', r' := x / d, x % d;
    assert x == q' * d + r';
    assert (q - q') * d == r' - r;
    ProductSize(q - q', d);
  }

  /** How many pages of perPage keys it takes to show total of them. */
  function TotalPages(total: nat, perPage: int): (n: nat)
    requires perPage > 0
    ensures (n - 1) * perPage < total <= n * perPage
    ensures total == 0 <==> n == 0
  {
    var q, r := total / perPage, total % perPage;
    assert total == q * perPage + r;
    assert (q + 1) * perPage == q * perPage + perPage;
    assert (q - 1) * perPage == q * perPage - perPage;
    if r > 0 then q + 1 else q
  }

  /** The HTTP handlers compute the page count another way, and agree. */
  lemma PageCountsAgree(total: nat, perPage: int)
    requires perPage > 0
    ensures TotalPages(total, perPage) == (total + perPage - 1) / perPage
  {
    var q, r := total / perPage, total % perPage;
    assert total == q * perPage + r;
    if r > 0 {
      assert (q + 1) * perPage == q * perPage + perPage;
      DivisionIsUnique(total + perPage - 1, perPage, q + 1, r - 1);
    } else {
      DivisionIsUnique(total + perPage - 1, perPage, q, perPage - 1);
    }
  }

  lemma QuotientFits(total: nat, perPage: int)
    requires perPage > 0
    ensures 0 <= total / perPage <= total
    ensures total % perPage > 0 ==> total / perPage < total
  {
    var q := total / perPage;
    assert total == q * perPage + total % perPage;
    ProductGrows(1, perPage, q);
  }

  method Info(page: Int32, perPage: Int32, total: Int32) returns (info: PageInfo)
    requires perPage > 0 && total >= 0
    ensures info == PageInfo(page, perPage, total, TotalPages(total, perPage))
  {
    QuotientFits(total, perPage);
    var totalPages: Int32 := total / perPage;
    if total % perPage > 0 {
      totalPages := totalPages + 1;
    }
    info := PageInfo(page, perPage, total, totalPages);
  }

  // ---- The slice of one page ----

  function Min(a: int, b: int): int {
    if a < b then a else b
  }

  /** keys[offset:end] as paginateKeys computes the bounds; None is a slice-bounds panic. */
  function Slice<T>(keys: seq<T>, page: Int32, perPage: Int32): Option<seq<T>> {
    var total := Wrap(|keys|);
    var offset := Wrap(Wrap(page - 1) * perPage);
    var end := Wrap(offset + perPage);
    var lo, hi := Min(offset, total), Min(end, total);
    if 0 <= lo <= hi <= |keys| then Some(keys[lo..hi]) else None
  }

  /** The page that a caller means: keys (page-1)*perPage up to page*perPage, as far as there are any. */
  function Intended<T>(keys: seq<T>, page: int, perPage: int): seq<T>
    requires page >= 1 && perPage >= 1
  {
    assert (page - 1) * perPage >= 0 && page * perPage == (page - 1) * perPage + perPage;
    keys[Min((page - 1) * perPage, |keys|)..Min(page * perPage, |keys|)]
  }

  lemma OneMorePage(page: int, perPage: int)
    requires page >= 1 && perPage >= 1
    ensures (page - 1) * perPage >= 0 && page * perPage == (page - 1) * perPage + perPage
  {
  }

  /** Without overflow a page is the page that was meant. */
  lemma SliceIsIntended<T>(keys: seq<T>, page: Int32, perPage: Int32)
    requires page >= 1 && perPage >= 1 && |keys| <= MAX32
    requires page * perPage <= MAX32
    ensures Slice(keys, page, perPage) == Some(Intended(keys, page, perPage))
  {
    OneMorePage(page, perPage);
    hide Wrap;
  }

  /** Every page up to 21474836 is free of overflow, whatever Parse makes of the page size. */
  lemma NoOverflowUpTo(page: Int32, pr: Option<PageRequest>)
    requires 1 <= page <= 21474836
    ensures page * PerPageOf(pr) <= MAX32
  {
    var perPage := PerPageOf(pr);
    ProductGrows(perPage, 100, page);
    assert page * perPage == perPage * page;
  }

  /**
   * Exactly which requests avoid the panic: the wrapped offset must not be
   * negative and must leave room for one more page.
   */
  lemma PanicsExactlyWhen<T>(keys: seq<T>, page: Int32, perPage: Int32)
    requires page >= 1 && 1 <= perPage <= MAX_PER_PAGE && |keys| <= MAX32
    ensures Slice(keys, page, perPage).Some? <==> 0 <= Wrap((page - 1) * perPage) <= MAX32 - perPage
  {
  }

  /**
   * Exactly when the answer is the page that was meant: no overflow, or an
   * overflow that happens to land beyond the last key.
   */
  lemma CorrectExactlyWhen<T>(keys: seq<T>, page: Int32, perPage: Int32)
    requires page >= 1 && 1 <= perPage <= MAX_PER_PAGE && |keys| <= MAX32
    ensures Slice(keys, page, perPage) == Some(Intended(keys, page, perPage)) <==>
            (page * perPage <= MAX32 || |keys| <= Wrap((page - 1) * perPage) <= MAX32 - perPage)
  {
    assert (page - 1) * perPage >= 0 && page * perPage == (page - 1) * perPage + perPage;
    if page * perPage <= MAX32 {
      SliceIsIntended(keys, page, perPage);
    } else {
      PanicsExactlyWhen(keys, page, perPage);
      var o := Wrap((page - 1) * perPage);
      if (page - 1) * perPage <= MAX32 {
        assert o == (page - 1) * perPage;
      } else {
        assert Intended(keys, page, perPage) == [];
        if 0 <= o <= MAX32 - perPage {
          assert Slice(keys, page, perPage) == Some(keys[Min(o, |keys|)..Min(o + perPage, |keys|)]);
        }
      }
    }
  }

  /** Pages 1 to n, one after the other. */
  function Pages<T>(keys: seq<T>, perPage: int, n: nat): seq<T>
    requires perPage >= 1
  {
    if n == 0 then [] else Pages(keys, perPage, n - 1) + Intended(keys, n, perPage)
  }

  lemma {:induction false} PagesArePrefix<T>(keys: seq<T>, perPage: int, n: nat)
    requires perPage >= 1
    ensures n * perPage >= 0
    ensures Pages(keys, perPage, n) == keys[..Min(n * perPage, |keys|)]
  {
    if n > 0 {
      PagesArePrefix(keys, perPage, n - 1);
      assert n * perPage == (n - 1) * perPage + perPage;
    }
  }

  lemma BeyondTheEnd<T>(keys: seq<T>, page: int, perPage: int)
    requires page >= 1 && perPage >= 1 && (page - 1) * perPage >= |keys|
    ensures Intended(keys, page, perPage) == []
  {
    assert page * perPage == (page - 1) * perPage + perPage;
  }

  /**
   * The pages partition the listing: pages 1 to TotalPages are all served, give
   * every key once and in order, and every later page that does not overflow is
   * empty.
   */
  lemma PagesPartition<T>(keys: seq<T>, perPage: Int32)
    requires 1 <= perPage <= MAX_PER_PAGE && |keys| <= MAX32
    requires TotalPages(|keys|, perPage) * perPage <= MAX32
    ensures Pages(keys, perPage, TotalPages(|keys|, perPage)) == keys
    ensures forall page: Int32 :: 1 <= page <= TotalPages(|keys|, perPage) ==>
              Slice(keys, page, perPage) == Some(Intended(keys, page, perPage))
    ensures forall page: Int32 :: page > TotalPages(|keys|, perPage) && page * perPage <= MAX32 ==>
              Slice(keys, page, perPage) == Some([])
  {
    var n := TotalPages(|keys|, perPage);
    PagesArePrefix(keys, perPage, n);
    forall page: Int32 | 1 <= page <= n
      ensures Slice(keys, page, perPage) == Some(Intended(keys, page, perPage))
    {
      ProductGrows(page, n, perPage);
      SliceIsIntended(keys, page, perPage);
    }
    forall page: Int32 | page > n && page * perPage <= MAX32
      ensures Slice(keys, page, perPage) == Some([])
    {
      ProductGrows(n, page - 1, perPage);
      SliceIsIntended(keys, page, perPage);
      BeyondTheEnd(keys, page, perPage);
    }
  }

  /** The first page of 100 beyond that bound: its end wraps to a negative number. */
  lemma FarPagePanics<T>(keys: seq<T>)
    requires |keys| <= MAX32
    ensures Slice(keys, 21474837, 100) == None
  {
    PanicsExactlyWhen(keys, 21474837, 100);
  }

  /** Page 1073741825 of 100 wraps around all the way and shows page 1 again. */
  lemma FarPageRepeatsFirst<T>(keys: seq<T>)
    requires |keys| <= MAX32
    ensures Slice(keys, 1073741825, 100) == Slice(keys, 1, 100) == Some(keys[..Min(100, |keys|)])
  {
  }
}
