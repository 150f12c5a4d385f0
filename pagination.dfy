/**
 * Count/Skip/Take pagination: PaginationListHelper<T> with PaginationParams, and the legacy
 * PaginatedList<T> with its own PaginationParams, which are the same code line for line.
 */
module Pagination {

  /** A page of a query result with the counters the API reports beside it. */
  datatype PagedList<T> = PagedList(Items: seq<T>, TotalCount: int, CurrentPage: int, PageSize: int)

  /** The values of a C# `int`. */
  type Int32 = x: int | -0x8000_0000 <= x < 0x8000_0000

  /** Query-string paging arguments, as bound from the request into two `int`s. */
  datatype PaginationParams = PaginationParams(PageNumber: Int32, PageSize: Int32)

  const MaxPageSize: int := 50

  /** The values an omitted query argument takes. */
  const DefaultParams: PaginationParams := PaginationParams(1, 10)

  /**
   * Unchecked `int` arithmetic: the `int` congruent to `x` modulo 2^32. It is `x` itself when
   * `x` fits.
   */
  function Wrap32(x: int): (r: Int32)
    ensures (x - r) % 0x1_0000_0000 == 0
    ensures -0x8000_0000 <= x < 0x8000_0000 ==> r == x
  {
    var q := (x + 0x8000_0000) / 0x1_0000_0000;
    var r := (x + 0x8000_0000) % 0x1_0000_0000 - 0x8000_0000;
    assert x - r == q * 0x1_0000_0000;
    r
  }

  /**
   * The number of elements Skip passes over for page `pageNumber` (pages are numbered from 1):
   * (pageNumber - 1) * pageSize in unchecked `int` arithmetic. The difference wraps as well for
   * the smallest page number, which does not change the wrapped product.
   */
  function Offset(pageNumber: Int32, pageSize: Int32): Int32 {
    Wrap32((pageNumber - 1) * pageSize)
  }

  /** Pages 1 up to `k` have offsets that do not wrap. */
  predicate Unwrapped(k: int, pageSize: int) {
    k < 0x8000_0000 && (k - 1) * pageSize < 0x8000_0000
  }

  /** While the product fits, the offset is the plain product. */
  lemma UnwrappedOffset(pageNumber: Int32, pageSize: Int32)
    requires pageNumber >= 1 && pageSize > 0 && Unwrapped(pageNumber, pageSize)
    ensures Offset(pageNumber, pageSize) == (pageNumber - 1) * pageSize >= 0
  {
    MultiplyMonotone(0, pageNumber - 1, pageSize);
  }

  /**
   * Past the range where the product fits, the offset wraps: over 20 elements, page 429496731 of
   * size 10 skips 4 elements, and page -858993458 of size 10 skips 2.
   */
  lemma WrappedOffsets(source: seq<int>)
    requires |source| == 20
    ensures Offset(429496731, 10) == 4
    ensures CreateAsync(source, 429496731, 10).Items == source[4..14]
    ensures Offset(-858993458, 10) == 2
    ensures CreateAsync(source, -858993458, 10).Items == source[2..12]
  {
    assert (429496731 - 1) * 10 == 4 + 0x1_0000_0000;
    assert (-858993458 - 1) * 10 == 2 - 2 * 0x1_0000_0000;
  }

  /** The page size the admin listing uses: capped from above at 50, never raised. */
  function ValidatedPageSize(p: PaginationParams): (r: Int32)
    ensures r <= MaxPageSize
    ensures r == p.PageSize || r == MaxPageSize
    ensures r < p.PageSize <==> p.PageSize > MaxPageSize
    ensures r != p.PageSize <==> p.PageSize > MaxPageSize
  {
    if p.PageSize > MaxPageSize then MaxPageSize else p.PageSize
  }

  /** A request without paging arguments gets the first ten elements. */
  lemma DefaultParamsFirstPage<T>(source: seq<T>)
    ensures ValidatedPageSize(DefaultParams) == 10 && Offset(DefaultParams.PageNumber, DefaultParams.PageSize) == 0
    ensures CreateAsync(source, DefaultParams.PageNumber, ValidatedPageSize(DefaultParams)).Items == source[..Min(|source|, 10)]
  {
  }

  /** Validating a page size that is already validated changes nothing. */
  lemma ValidatedPageSizeIdempotent(p: PaginationParams)
    ensures ValidatedPageSize(p.(PageSize := ValidatedPageSize(p))) == ValidatedPageSize(p)
  {
  }

  /** The number of pages, as the integer ceiling of TotalCount / PageSize. */
  function TotalPages<T>(page: PagedList<T>): (r: int)
    requires page.PageSize > 0
    ensures (r - 1) * page.PageSize < page.TotalCount <= r * page.PageSize
    ensures page.TotalCount >= 0 ==> r >= 0
  {
    CeilingDivision(page.TotalCount, page.PageSize)
  }

  function CeilingDivision(a: int, b: int): (q: int)
    requires b > 0
    ensures (q - 1) * b < a <= q * b
  {
    var q := (a + b - 1) / b;
    assert q * b <= a + b - 1 < q * b + b;
    q
  }

  /** The elements of `source` from index `from` on, at most `count` of them. */
  function Window<T>(source: seq<T>, from: nat, count: nat): seq<T> {
    if from >= |source| then []
    else if |source| - from <= count then source[from..]
    else source[from..from + count]
  }

  /**
   * CreateAsync: count the source, then Skip((pageNumber - 1) * pageSize).Take(pageSize). The
   * result is the run of source elements that starts at the page's offset, in source order. The
   * database refuses a negative offset and a size below 1 with an exception; the callers answer
   * those with an error before paging.
   */
  function CreateAsync<T>(source: seq<T>, pageNumber: Int32, pageSize: Int32): (page: PagedList<T>)
    requires pageSize > 0 && Offset(pageNumber, pageSize) >= 0
    ensures page.TotalCount == |source|
    ensures page.CurrentPage == pageNumber && page.PageSize == pageSize
    ensures |page.Items| <= pageSize
    ensures |page.Items| == if Offset(pageNumber, pageSize) >= |source| then 0
                            else Min(pageSize, |source| - Offset(pageNumber, pageSize))
    ensures forall i :: 0 <= i < |page.Items| ==> page.Items[i] == source[Offset(pageNumber, pageSize) + i]
  {
    PagedList(Window(source, Offset(pageNumber, pageSize), pageSize), |source|, pageNumber, pageSize)
  }

  function Min(a: int, b: int): int {
    if a <= b then a else b
  }

  /** A page past the last one is empty, as long as its offset does not wrap. */
  lemma PagesPastTheLastAreEmpty<T>(source: seq<T>, pageNumber: Int32, pageSize: Int32)
    requires pageNumber >= 1 && pageSize > 0 && Unwrapped(pageNumber, pageSize)
    requires pageNumber > TotalPages(CreateAsync(source, pageNumber, pageSize))
    ensures CreateAsync(source, pageNumber, pageSize).Items == []
  {
    UnwrappedOffset(pageNumber, pageSize);
    var n := TotalPages(CreateAsync(source, pageNumber, pageSize));
    assert |source| <= n * pageSize;
    assert n * pageSize <= (pageNumber - 1) * pageSize by {
      MultiplyMonotone(n, pageNumber - 1, pageSize);
    }
  }

  lemma MultiplyMonotone(a: int, b: int, c: nat)
    requires a <= b
    ensures a * c <= b * c
  {
  }

  /** The items of pages 1..k, concatenated in page order. */
  function PagesUpTo<T>(source: seq<T>, pageSize: Int32, k: nat): seq<T>
    requires pageSize > 0 && Unwrapped(k, pageSize)
  {
    if k == 0 then []
    else
      UnwrappedOffset(k, pageSize);
      MultiplyMonotone(k - 2, k - 1, pageSize);
      PagesUpTo(source, pageSize, k - 1) + CreateAsync(source, k, pageSize).Items
  }

  /** The first k pages together are the first k * pageSize elements of the source. */
  lemma {:induction false} PagesUpToIsPrefix<T>(source: seq<T>, pageSize: Int32, k: nat)
    requires pageSize > 0 && Unwrapped(k, pageSize)
    ensures PagesUpTo(source, pageSize, k) == source[..Min(|source|, k * pageSize)]
  {
    if k > 0 {
      MultiplyMonotone(k - 2, k - 1, pageSize);
      PagesUpToIsPrefix(source, pageSize, k - 1);
      var o := (k - 1) * pageSize;
      assert k * pageSize == o + pageSize;
      PageIsSlice(source, k, pageSize);
      PrefixThenSlice(source, Min(|source|, o), Min(|source|, o + pageSize));
    }
  }

  /** Page k is the stretch of the source between its offset and the next page's, both cut at the end. */
  lemma PageIsSlice<T>(source: seq<T>, pageNumber: Int32, pageSize: Int32)
    requires pageNumber >= 1 && pageSize > 0 && Unwrapped(pageNumber, pageSize)
    ensures var o := (pageNumber - 1) * pageSize;
            o >= 0 && Offset(pageNumber, pageSize) == o
            && CreateAsync(source, pageNumber, pageSize).Items == source[Min(|source|, o)..Min(|source|, o + pageSize)]
  {
    UnwrappedOffset(pageNumber, pageSize);
  }

  lemma PrefixThenSlice<T>(source: seq<T>, a: int, b: int)
    requires 0 <= a <= b <= |source|
    ensures source[..a] + source[a..b] == source[..b]
  {
  }

  /**
   * Walking pages 1..TotalPages yields every source element exactly once, in order. The count is
   * an `int`, so the source has fewer than 2^31 elements, and then no page offset wraps.
   */
  lemma AllPagesPartitionSource<T>(source: seq<T>, pageSize: Int32)
    requires pageSize > 0 && |source| < 0x8000_0000
    ensures PagesUpTo(source, pageSize, TotalPages(CreateAsync(source, 1, pageSize))) == source
  {
    UnwrappedOffset(1, pageSize);
    var n := TotalPages(CreateAsync(source, 1, pageSize));
    assert (n - 1) * pageSize < |source| <= n * pageSize;
    if n >= 1 {
      MultiplyMonotone(1, pageSize, n - 1);
    }
    assert Unwrapped(n, pageSize);
    PagesUpToIsPrefix(source, pageSize, n);
  }
}
