/**
 * The pagination helper of the API layer: clamps the requested page number
 * and size, counts the whole query, takes the page window and maps it to DTOs.
 */
module Pagination {
  import opened Linq
  import opened PaginatedResults

  /** The largest C# `int`. */
  const Int32Max: int := 0x7fff_ffff

  /** The page size used when the caller asks for less than one item per page. */
  const DefaultPageSize: int := 10

  /** `if (pageNumber < 1) pageNumber = 1`: a valid page number is kept. */
  function ClampPage(pageNumber: int): (r: int)
    ensures r >= 1
    ensures pageNumber >= 1 ==> r == pageNumber
    ensures pageNumber < 1 ==> r == 1
  {
    if pageNumber < 1 then 1 else pageNumber
  }

  /** `if (pageSize < 1) pageSize = 10`: a valid page size is kept. */
  function ClampPageSize(pageSize: int): (r: int)
    ensures r >= 1
    ensures pageSize >= 1 ==> r == pageSize
    ensures pageSize < 1 ==> r == DefaultPageSize
  {
    if pageSize < 1 then DefaultPageSize else pageSize
  }

  /**
   * `(pageNumber - 1) * pageSize`: the items on the pages before pageNumber,
   * counted page by page (OffsetIsProduct relates it to the product).
   */
  function Offset(pageNumber: int, pageSize: int): (r: int)
    requires pageNumber >= 1 && pageSize >= 1
    ensures r >= 0
    decreases pageNumber
  {
    if pageNumber == 1 then 0 else Offset(pageNumber - 1, pageSize) + pageSize
  }

  lemma {:induction false} OffsetIsProduct(pageNumber: int, pageSize: int)
    requires pageNumber >= 1 && pageSize >= 1
    ensures Offset(pageNumber, pageSize) == (pageNumber - 1) * pageSize
    decreases pageNumber
  {
    if pageNumber > 1 {
      OffsetIsProduct(pageNumber - 1, pageSize);
    }
  }

  /**
   * `Skip((pageNumber - 1) * pageSize).Take(pageSize)`: page pageNumber of
   * `all` cut into pages of pageSize items. It holds the items from the page's
   * offset on, at most pageSize of them, and none past the end.
   */
  function PageOf<T>(all: seq<T>, pageNumber: int, pageSize: int): (r: seq<T>)
    requires pageNumber >= 1 && pageSize >= 1
    ensures |r| == Min(pageSize, Max(0, |all| - Offset(pageNumber, pageSize)))
    ensures forall i :: 0 <= i < |r| ==>
              Offset(pageNumber, pageSize) + i < |all| && r[i] == all[Offset(pageNumber, pageSize) + i]
  {
    Window(all, Offset(pageNumber, pageSize), pageSize)
  }

  /** The 32-bit offset of the clamped page number and size does not overflow. */
  predicate OffsetFits(pageNumber: int, pageSize: int) {
    Offset(ClampPage(pageNumber), ClampPageSize(pageSize)) <= Int32Max
  }

  /**
   * `ApplyPaginationAsync`: the page of `query` selected by the clamped page
   * number and size, mapped to DTOs, with the count of the whole query.
   */
  function ApplyPagination<E, D>(query: seq<E>, pageNumber: int, pageSize: int, mapToDto: E -> D): (r: PaginatedResult<D>)
    requires OffsetFits(pageNumber, pageSize)
    ensures pageNumber >= 1 ==> r.PageNumber == pageNumber
    ensures pageNumber < 1 ==> r.PageNumber == 1
    ensures pageSize >= 1 ==> r.PageSize == pageSize
    ensures pageSize < 1 ==> r.PageSize == DefaultPageSize
    ensures r.TotalCount == |query|
    ensures r.PageNumber >= 1 && r.PageSize >= 1
    ensures r.Content == Select(PageOf(query, r.PageNumber, r.PageSize), mapToDto)
  {
    var page := ClampPage(pageNumber);
    var size := ClampPageSize(pageSize);
    var totalCount := |query|;
    var items := PageOf(query, page, size);
    PaginatedResult(Select(items, mapToDto), totalCount, page, size)
  }

  /**
   * The content of a result: at most a page of DTOs, none once the offset
   * reaches the count, and the i-th is the DTO of the query's item at the
   * offset plus i.
   */
  lemma ApplyPaginationContent<E, D>(query: seq<E>, pageNumber: int, pageSize: int, mapToDto: E -> D)
    requires OffsetFits(pageNumber, pageSize)
    ensures var r := ApplyPagination(query, pageNumber, pageSize, mapToDto);
            var off := Offset(r.PageNumber, r.PageSize);
            && |r.Content| == Min(r.PageSize, Max(0, |query| - off))
            && (off >= |query| ==> r.Content == [])
            && forall i :: 0 <= i < |r.Content| ==> off + i < |query| && r.Content[i] == mapToDto(query[off + i])
  {
  }

  /**
   * A requested page has content exactly when it is one of the TotalPages
   * pages of the result.
   */
  lemma PageNonEmptyIff<E, D>(query: seq<E>, pageNumber: int, pageSize: int, mapToDto: E -> D)
    requires pageNumber >= 1 && pageSize >= 1 && OffsetFits(pageNumber, pageSize)
    ensures var r := ApplyPagination(query, pageNumber, pageSize, mapToDto);
            |r.Content| > 0 <==> pageNumber <= r.TotalPages()
  {
    var r := ApplyPagination(query, pageNumber, pageSize, mapToDto);
    var t := r.TotalPages();
    OffsetIsProduct(pageNumber, pageSize);
    if pageNumber <= t {
      MulMonotone(pageSize, pageNumber - 1, t - 1);
    } else {
      MulMonotone(pageSize, t, pageNumber - 1);
    }
  }

  /**
   * Every element of the query appears on page `j / pageSize + 1`, at
   * position `j % pageSize`, and that page is one of the TotalPages pages.
   */
  lemma EveryItemOnItsPage<E, D>(query: seq<E>, pageSize: int, mapToDto: E -> D, j: int)
    requires pageSize >= 1 && 0 <= j < |query| && j <= Int32Max
    ensures OffsetFits(j / pageSize + 1, pageSize)
    ensures var r := ApplyPagination(query, j / pageSize + 1, pageSize, mapToDto);
            && 1 <= j / pageSize + 1 <= r.TotalPages()
            && j % pageSize < |r.Content|
            && r.Content[j % pageSize] == mapToDto(query[j])
  {
    var p := j / pageSize + 1;
    OffsetIsProduct(p, pageSize);
    assert (p - 1) * pageSize + j % pageSize == j;
    assert OffsetFits(p, pageSize);
    PageNonEmptyIff(query, p, pageSize, mapToDto);
  }

  /** Three records, two per page: the first page holds two, the second one, and there are two pages. */
  lemma ThreeRecordsTwoPerPage(a: string, b: string, c: string)
    ensures var first := ApplyPagination([a, b, c], 1, 2, (x: string) => x);
            first.Content == [a, b] && first.TotalCount == 3 && first.TotalPages() == 2
    ensures ApplyPagination([a, b, c], 2, 2, (x: string) => x).Content == [c]
  {
    var first := ApplyPagination([a, b, c], 1, 2, (x: string) => x);
    assert first.Content == [a, b];
    CeilDivUnique(3, 2, 2);
    var second := ApplyPagination([a, b, c], 2, 2, (x: string) => x);
    assert second.Content == [c];
  }
}
