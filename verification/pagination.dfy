/**
 * The pagination control: the number of pages for a list, the navigation
 * actions (previous, next, go to), the reset when the current page falls
 * off the end, and the "Mostrando a - b de n URLs" range line. Pages are
 * numbered from 1.
 */
module Pagination {

  /** `Math.ceil(a / b)` for a count `a` and a positive page size `b`. */
  function CeilDiv(a: nat, b: nat): (q: nat)
    requires b > 0
    ensures q * b >= a
    ensures q == 0 || (q - 1) * b < a
    decreases a
  {
    if a == 0 then 0
    else if a <= b then 1
    else
      var q' := CeilDiv(a - b, b);
      assert (q' + 1) * b == q' * b + b;
      assert q' == 0 || q' * b == (q' - 1) * b + b;
      q' + 1
  }

  /** `totalPages`: the fewest pages of `perPage` items that hold `totalItems` items. */
  function TotalPages(totalItems: nat, perPage: nat): (t: nat)
    requires perPage > 0
    ensures t * perPage >= totalItems
    ensures t == 0 || (t - 1) * perPage < totalItems
    ensures t == 0 <==> totalItems == 0
  {
    CeilDiv(totalItems, perPage)
  }

  /** The ceiling is the only number of pages with both properties. */
  lemma {:induction false} TotalPagesUnique(n: nat, per: nat, t: nat)
    requires per > 0
    requires t * per >= n && (t == 0 || (t - 1) * per < n)
    ensures t == TotalPages(n, per)
  {
    var u := TotalPages(n, per);
    if t < u {
      assert t <= u - 1;
      MulMono(t, u - 1, per);
      assert false;
    } else if u < t {
      assert u <= t - 1;
      MulMono(u, t - 1, per);
      assert false;
    }
  }

  lemma MulMono(a: nat, b: nat, c: nat)
    requires a <= b
    ensures a * c <= b * c
  {
  }

  /** `nextPage`: one page on, unless already at (or past) the last page. */
  function Next(page: int, total: nat): (r: int)
    ensures page < total ==> r == page + 1
    ensures page >= total ==> r == page
  {
    if page < total then page + 1 else page
  }

  /** `prevPage`: one page back, unless already at (or before) the first. */
  function Prev(page: int): (r: int)
    ensures page > 1 ==> r == page - 1
    ensures page <= 1 ==> r == page
  {
    if page > 1 then page - 1 else page
  }

  /** `goToPage`: the requested page when it exists, otherwise no change. */
  function GoTo(page: int, target: int, total: nat): (r: int)
    ensures 1 <= target <= total ==> r == target
    ensures !(1 <= target <= total) ==> r == page
  {
    if 1 <= target <= total then target else page
  }

  /** The reset effect: back to page 1 when the current page is past the last one (and there is one). */
  function Reset(page: int, total: nat): (r: int)
    ensures total > 0 && page > total ==> r == 1
    ensures !(total > 0 && page > total) ==> r == page
  {
    if page > total && total > 0 then 1 else page
  }

  /** A page that exists. */
  predicate InRange(page: int, total: nat) {
    1 <= page <= total
  }

  /**
   * Navigation never leaves the existing pages: from an existing page,
   * previous, next and go-to all land on an existing page, and the reset
   * brings any page at or above 1 back into range when there are pages.
   */
  lemma NavigationStaysInRange(page: int, target: int, total: nat)
    requires InRange(page, total)
    ensures InRange(Next(page, total), total)
    ensures InRange(Prev(page), total)
    ensures InRange(GoTo(page, target, total), total)
  {
  }

  lemma ResetRestoresRange(page: int, total: nat)
    requires page >= 1 && total > 0
    ensures InRange(Reset(page, total), total)
    ensures InRange(page, total) ==> Reset(page, total) == page
  {
  }

  /** Previous undoes next, and next undoes previous, away from the ends. */
  lemma PrevNextInverse(page: int, total: nat)
    ensures 1 <= page < total ==> Prev(Next(page, total)) == page
    ensures 1 < page <= total ==> Next(Prev(page), total) == page
  {
  }

  /** The control is drawn only when there is more than one page. */
  predicate Visible(total: nat) {
    total > 1
  }

  /** There is more than one page exactly when there are more items than fit on one page. */
  lemma VisibleIffMoreThanOnePage(n: nat, perPage: nat)
    requires perPage > 0
    ensures Visible(TotalPages(n, perPage)) <==> n > perPage
  {
    var t := TotalPages(n, perPage);
    if t > 1 {
      MulMono(1, t - 1, perPage);
    } else {
      MulMono(t, 1, perPage);
    }
  }

  /**
   * The range line: the 1-based positions of the first and last item on the
   * page (0 - 0 for an empty list).
   */
  function Range(page: int, perPage: nat, totalItems: nat): (r: (int, int))
    requires perPage > 0
    ensures totalItems == 0 && page >= 0 ==> r == (0, 0)
    ensures totalItems > 0 ==> r.0 == (page - 1) * perPage + 1
    ensures r.1 <= totalItems
  {
    var first := if totalItems > 0 then (page - 1) * perPage + 1 else 0;
    var last := if page * perPage < totalItems then page * perPage else totalItems;
    (first, last)
  }

  /**
   * On an existing page the range line is well formed: at least one item is
   * shown, the first position is at most the last, and the page holds at most
   * `perPage` items.
   */
  lemma RangeWellFormed(page: int, perPage: nat, totalItems: nat)
    requires perPage > 0
    requires InRange(page, TotalPages(totalItems, perPage))
    ensures var r := Range(page, perPage, totalItems);
            && 1 <= r.0 <= r.1 <= totalItems
            && r.1 - r.0 + 1 <= perPage
  {
    var t := TotalPages(totalItems, perPage);
    MulMono(page - 1, t - 1, perPage);
    assert page * perPage == (page - 1) * perPage + perPage;
  }
}
