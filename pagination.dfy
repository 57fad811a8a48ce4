/** Paged and export responses built from an ordered query. */
module Pagination {
  import opened Wrappers
  import opened Query
  import opened Ordering

  function Min(a: int, b: int): int { if a <= b then a else b }

  /** LINQ `Skip`: a count at or below zero skips nothing. */
  function Skip<T>(s: seq<T>, n: int): seq<T>
  {
    if n <= 0 then s else if n >= |s| then [] else s[n..]
  }

  /** LINQ `Take`: a count at or below zero takes nothing. */
  function Take<T>(s: seq<T>, n: int): seq<T>
  {
    if n <= 0 then [] else if n >= |s| then s else s[..n]
  }

  /** The offset `(Page - 1) * PageSize` as C# computes it: both the
      subtraction and the product wrap around at 32 bits. */
  function OffsetAsWritten(page: int32, pageSize: int32): int32
  {
    Wrap32(Wrap32(page as int - 1) as int * pageSize as int)
  }

  /** The offset of the first item of page `page`, without overflow. */
  function Offset(page: int, pageSize: int): int
  {
    (page - 1) * pageSize
  }

  /** `query.Skip(skip).Take(pageSize)` with the skip computed as written. */
  function PageItemsAsWritten<T>(s: seq<T>, page: int32, pageSize: int32): seq<T>
  {
    Take(Skip(s, OffsetAsWritten(page, pageSize) as int), pageSize as int)
  }

  /** The items of page `page`: `Skip(offset).Take(pageSize)`. */
  function PageItems<T>(s: seq<T>, page: int, pageSize: int): seq<T>
  {
    Take(Skip(s, Offset(page, pageSize)), pageSize)
  }

  /** `PaginatedResponseDto<T>`. */
  datatype PaginatedResponse<T> = PaginatedResponse(
    items: seq<T>, pageNumber: int, pageSize: int, totalCount: int, totalPages: Option<int>)

  /** `(int)Math.Ceiling(count / (double)pageSize)`.  A page size of 0
      divides by zero in floating point and its conversion to `int` is left
      unspecified here: `None`. */
  function TotalPages(count: nat, pageSize: int): Option<int>
  {
    if pageSize > 0 then Some((count + pageSize - 1) / pageSize)
    else if pageSize < 0 then Some(-(count / -pageSize))
    else None
  }

  /** `ToPaginatedDtoAsync` on the ordered rows `s`. */
  function ToPaginatedDto<T>(s: seq<T>, page: int32, pageSize: int32): PaginatedResponse<T>
  {
    PaginatedResponse(PageItems(s, page as int, pageSize as int), page as int, pageSize as int, |s|,
                      TotalPages(|s|, pageSize as int))
  }

  /** `ToExportResponseAsync`: every row on one page. */
  function ToExportResponse<T>(s: seq<T>): PaginatedResponse<T>
  {
    PaginatedResponse(s, 1, if |s| > 0 then |s| else 1, |s|, Some(1))
  }

  /** Pages 1 to `n` put one after the other. */
  function Pages<T>(s: seq<T>, pageSize: int, n: nat): seq<T>
  {
    if n == 0 then [] else Pages(s, pageSize, n - 1) + PageItems(s, n, pageSize)
  }

  // ---------------------------------------------------------------------
  // Properties

  /** A page is the run of rows from its offset on, at most `pageSize`
      long, in the order of the query. */
  lemma PageItemsAreSlice<T>(s: seq<T>, page: int, pageSize: int)
    requires page >= 1 && pageSize >= 0
    ensures var lo := Min(Offset(page, pageSize), |s|);
            var hi := Min(Offset(page, pageSize) + pageSize, |s|);
            0 <= lo <= hi <= |s| && PageItems(s, page, pageSize) == s[lo..hi]
    ensures |PageItems(s, page, pageSize)| <= pageSize
  {
    var off := Offset(page, pageSize);
    assert off >= 0 by { assert (page - 1) * pageSize >= 0; }
  }

  /** A page is a contiguous run of the rows: it holds only rows of the
      query, and a page of sorted rows is sorted. */
  lemma PageOfSorted<T>(s: seq<T>, page: int, pageSize: int, le: (T, T) -> bool)
    requires Sorted(s, le)
    ensures Sorted(PageItems(s, page, pageSize), le)
    ensures forall x :: x in PageItems(s, page, pageSize) ==> x in s
  {
    var t := Skip(s, Offset(page, pageSize));
    var lo := |s| - |t|;
    assert t == s[lo..];
    var u := Take(t, pageSize);
    var hi := lo + |u|;
    assert u == s[lo..hi];
    SliceOfSorted(s, lo, hi, le);
  }

  /** A page number below 1 gives a negative offset, which skips nothing:
      the first page is served. */
  lemma PageBeforeFirstIsFirst<T>(s: seq<T>, page: int, pageSize: int)
    requires page < 1 && pageSize >= 0
    ensures PageItems(s, page, pageSize) == PageItems(s, 1, pageSize)
  {
    assert (page - 1) * pageSize <= 0;
  }

  /** `TotalPages` is the ceiling of count / pageSize: the least number of
      pages of that size that hold all rows (0 for no rows). */
  lemma TotalPagesIsCeiling(count: nat, pageSize: int)
    requires pageSize > 0
    ensures var tp := TotalPages(count, pageSize).value;
      tp >= 0 && tp * pageSize >= count && (tp - 1) * pageSize < count
    ensures count == 0 ==> TotalPages(count, pageSize) == Some(0)
  {
    var q := (count + pageSize - 1) / pageSize;
    var r := (count + pageSize - 1) % pageSize;
    assert count + pageSize - 1 == q * pageSize + r && 0 <= r < pageSize;
    assert q * pageSize == count + pageSize - 1 - r;
    assert (q - 1) * pageSize == q * pageSize - pageSize;
  }

  /** Page size `- k` gives minus the number of full pages of size `k`. */
  lemma TotalPagesNegative(count: nat, pageSize: int)
    requires pageSize < 0
    ensures TotalPages(count, pageSize).value <= 0
  {
  }

  /** The response describes the whole query, whatever the page: the count
      is the number of rows, the page number and size are echoed, and the
      items are at most a page. */
  lemma ToPaginatedDtoShape<T>(s: seq<T>, page: int32, pageSize: int32)
    ensures var r := ToPaginatedDto(s, page, pageSize);
      && r.totalCount == |s| && r.pageNumber == page as int && r.pageSize == pageSize as int
      && (pageSize <= 0 ==> r.items == [])
      && |r.items| <= (if pageSize > 0 then pageSize as int else 0)
      && (pageSize != 0 <==> r.totalPages.Some?)
      && forall other: int32 :: ToPaginatedDto(s, other, pageSize).totalCount == r.totalCount &&
                                ToPaginatedDto(s, other, pageSize).totalPages == r.totalPages
  {
  }

  /** Pages 1 to `n` are the first `n * pageSize` rows. */
  lemma {:induction false} PagesArePrefix<T>(s: seq<T>, pageSize: int, n: nat)
    requires pageSize > 0
    ensures 0 <= Min(n * pageSize, |s|) <= |s|
    ensures Pages(s, pageSize, n) == s[..Min(n * pageSize, |s|)]
  {
    if n > 0 {
      PagesArePrefix(s, pageSize, n - 1);
      PageItemsAreSlice(s, n, pageSize);
      assert (n - 1) * pageSize + pageSize == n * pageSize;
      assert (n - 1) * pageSize >= 0;
      var a := Min((n - 1) * pageSize, |s|);
      var b := Min(n * pageSize, |s|);
      assert s[..a] + s[a..b] == s[..b];
    }
  }

  /** Concatenating pages 1 to `TotalPages` gives back every row, in order. */
  lemma PagesReassemble<T>(s: seq<T>, pageSize: int)
    requires pageSize > 0
    ensures Pages(s, pageSize, TotalPages(|s|, pageSize).value) == s
  {
    TotalPagesIsCeiling(|s|, pageSize);
    PagesArePrefix(s, pageSize, TotalPages(|s|, pageSize).value);
  }

  /** The export response holds every row on a single page whose size is
      the number of rows, or 1 when there are none: never 0. */
  lemma ExportResponseShape<T>(s: seq<T>)
    ensures var r := ToExportResponse(s);
      && r.items == s && r.totalCount == |s| && r.pageNumber == 1 && r.totalPages == Some(1)
      && r.pageSize >= 1 && (|s| > 0 ==> r.pageSize == |s|)
  {
  }

  /** Whenever `(Page - 1) * PageSize` fits in 32 bits the offset as
      written is the true offset. */
  lemma OffsetAsWrittenWithoutOverflow(page: int32, pageSize: int32)
    requires -0x8000_0000 <= (page as int - 1) * pageSize as int < 0x8000_0000
    ensures OffsetAsWritten(page, pageSize) as int == Offset(page as int, pageSize as int)
  {
    if page as int - 1 < -0x8000_0000 {
      // Only `int.MinValue - 1` wraps, and its product is in range only with size 0.
      assert page as int - 1 == -0x8000_0001;
      assert pageSize == 0;
    }
  }

  /** Whenever `(Page - 1) * PageSize` fits in 32 bits the page served as
      written is the page `PageItems` describes. */
  lemma PageItemsAsWrittenWithoutOverflow<T>(s: seq<T>, page: int32, pageSize: int32)
    requires -0x8000_0000 <= (page as int - 1) * pageSize as int < 0x8000_0000
    ensures PageItemsAsWritten(s, page, pageSize) == PageItems(s, page as int, pageSize as int)
  {
    OffsetAsWrittenWithoutOverflow(page, pageSize);
  }

  /** Far enough out, the offset wraps around to a negative number and the
      first page is served again: page 42949674 of size 50 starts at item
      2147483650, which as a 32-bit int is -2147483646. */
  lemma OffsetOverflowServesFirstPage<T>(s: seq<T>)
    requires 50 <= |s| < 0x8000_0000
    ensures PageItemsAsWritten(s, 42949674, 50) == s[..50]
    ensures PageItems(s, 42949674, 50) == []
  {
    assert OffsetAsWritten(42949674, 50) == -2147483646;
  }
}
