/**
 * The page value handed to the API layer: content, the total count, the page
 * number and size, and the derived number of pages.
 */
module PaginatedResults {

  /**
   * `PaginatedResult<T>`: every field is set once by the constructor and only
   * read afterwards, which an immutable datatype value captures directly.
   */
  datatype PaginatedResult<T> = PaginatedResult(Content: seq<T>, TotalCount: int, PageNumber: int, PageSize: int)
  {
    /** `TotalPages => ceil(TotalCount / PageSize)`. */
    function TotalPages(): (r: int)
      requires PageSize >= 1
      ensures (r - 1) * PageSize < TotalCount <= r * PageSize
    {
      CeilDiv(TotalCount, PageSize)
    }
  }

  /**
   * Ceiling division, exact for every integer numerator: r is the least
   * integer with n <= r * d.
   */
  function CeilDiv(n: int, d: int): (r: int)
    requires d >= 1
    ensures (r - 1) * d < n <= r * d
  {
    var q := (-n) / d;
    assert -n == d * q + (-n) % d;
    assert (-q - 1) * d == -(q * d) - d;
    -q
  }

  /** d * k is monotone in k for a positive d. */
  lemma MulMonotone(d: int, a: int, b: int)
    requires d >= 1 && a <= b
    ensures a * d <= b * d
  {
    assert b * d - a * d == (b - a) * d;
  }

  /** Only one integer satisfies the bounds of CeilDiv: it is the ceiling. */
  lemma CeilDivUnique(n: int, d: int, k: int)
    requires d >= 1
    requires (k - 1) * d < n <= k * d
    ensures k == CeilDiv(n, d)
  {
    var r := CeilDiv(n, d);
    if k < r {
      MulMonotone(d, k, r - 1);
    } else if k > r {
      MulMonotone(d, r, k - 1);
    }
  }

  /** For a non-negative count, there are no pages exactly when there is nothing to show. */
  lemma TotalPagesZeroIff<T>(res: PaginatedResult<T>)
    requires res.PageSize >= 1 && res.TotalCount >= 0
    ensures res.TotalPages() == 0 <==> res.TotalCount == 0
  {
    var r := res.TotalPages();
    if res.TotalCount == 0 {
      CeilDivUnique(0, res.PageSize, 0);
    } else if r <= 0 {
      MulMonotone(res.PageSize, r, 0);
    }
  }

  /**
   * For a positive count, the last page is partly or fully used:
   * (TotalPages - 1) * PageSize < TotalCount <= TotalPages * PageSize, with
   * at least one page.
   */
  lemma TotalPagesBounds<T>(res: PaginatedResult<T>)
    requires res.PageSize >= 1 && res.TotalCount > 0
    ensures res.TotalPages() >= 1
    ensures (res.TotalPages() - 1) * res.PageSize < res.TotalCount <= res.TotalPages() * res.PageSize
  {
    var r := res.TotalPages();
    if r <= 0 {
      MulMonotone(res.PageSize, r, 0);
    }
  }

  /** More items never mean fewer pages. */
  lemma TotalPagesMonotone<T>(a: PaginatedResult<T>, b: PaginatedResult<T>)
    requires a.PageSize == b.PageSize >= 1
    requires a.TotalCount <= b.TotalCount
    ensures a.TotalPages() <= b.TotalPages()
  {
    var ra, rb := a.TotalPages(), b.TotalPages();
    if ra > rb {
      MulMonotone(a.PageSize, rb, ra - 1);
    }
  }
}
