/**
 * The list page: the stored embeds as loaded, a search filter over title, url
 * and description, the slice of the filtered list shown on the current page
 * (three items per page), and deletion, which removes the record from the
 * store and the item from the list shown.
 */
module Listing {
  import opened Wrappers
  import opened Text
  import opened EmbedStore
  import Pagination

  /** `ITEMS_PER_PAGE`. */
  const ItemsPerPage: nat := 3

  // ---------------------------------------------------------------------
  // `Array.prototype.filter`.

  /** The items of `xs` that satisfy `p`, in their order. */
  function Keep(xs: seq<Embed>, p: Embed -> bool): (r: seq<Embed>)
    ensures |r| <= |xs|
    ensures forall x :: x in r <==> x in xs && p(x)
    decreases |xs|
  {
    if |xs| == 0 then []
    else
      var rest := Keep(xs[1..], p);
      assert forall x :: x in xs <==> x == xs[0] || x in xs[1..];
      if p(xs[0]) then [xs[0]] + rest else rest
  }

  /** Filtering distributes over concatenation, so relative order is kept. */
  lemma {:induction false} KeepAppend(a: seq<Embed>, b: seq<Embed>, p: Embed -> bool)
    ensures Keep(a + b, p) == Keep(a, p) + Keep(b, p)
    decreases |a|
  {
    if |a| == 0 {
      assert a + b == b;
    } else {
      assert (a + b)[1..] == a[1..] + b;
      KeepAppend(a[1..], b, p);
    }
  }

  /** Filtering a list every item of which passes leaves it as it is. */
  lemma {:induction false} KeepAll(xs: seq<Embed>, p: Embed -> bool)
    requires forall i | 0 <= i < |xs| :: p(xs[i])
    ensures Keep(xs, p) == xs
    decreases |xs|
  {
    if |xs| > 0 {
      KeepAll(xs[1..], p);
    }
  }

  /** Strictly ascending ids, the order `getAllEmbeds` delivers a valid store in. */
  ghost predicate Ascending(xs: seq<Embed>) {
    forall i, j | 0 <= i < j < |xs| :: xs[i].id < xs[j].id
  }

  /** A filtered list of ascending ids is still ascending. */
  lemma {:induction false} KeepAscending(xs: seq<Embed>, p: Embed -> bool)
    requires Ascending(xs)
    ensures Ascending(Keep(xs, p))
    decreases |xs|
  {
    if |xs| > 0 {
      KeepAscending(xs[1..], p);
      var rest := Keep(xs[1..], p);
      if p(xs[0]) {
        forall j | 0 <= j < |rest|
          ensures xs[0].id < rest[j].id
        {
          assert rest[j] in xs[1..];
          var k :| 0 <= k < |xs| - 1 && xs[1..][k] == rest[j];
          assert xs[k + 1] == rest[j];
        }
      }
    }
  }

  /** Two lists of ascending ids with the same items are the same list. */
  lemma {:induction false} AscendingUnique(a: seq<Embed>, b: seq<Embed>)
    requires Ascending(a) && Ascending(b)
    requires forall x :: x in a <==> x in b
    ensures a == b
    decreases |a|
  {
    HeadIsMember(b);
    if |a| == 0 {
      assert |b| == 0;
    } else {
      HeadIsMember(a);
      assert |b| > 0;
      var i :| 0 <= i < |a| && a[i] == b[0];
      var j :| 0 <= j < |b| && b[j] == a[0];
      HeadIsLeast(a, i);
      HeadIsLeast(b, j);
      assert i == 0;
      forall x
        ensures x in a[1..] <==> x in b[1..]
      {
        TailMembers(a, x);
        TailMembers(b, x);
      }
      AscendingUnique(a[1..], b[1..]);
      assert a == [a[0]] + a[1..];
      assert b == [b[0]] + b[1..];
    }
  }

  lemma HeadIsMember(a: seq<Embed>)
    ensures |a| > 0 ==> a[0] in a
  {
  }

  lemma HeadIsLeast(a: seq<Embed>, k: int)
    requires Ascending(a) && 0 <= k < |a|
    ensures k == 0 || a[0].id < a[k].id
  {
  }

  lemma TailMembers(a: seq<Embed>, x: Embed)
    requires Ascending(a) && |a| > 0
    ensures x in a[1..] <==> x in a && x != a[0]
  {
    if x in a[1..] {
      var k :| 0 <= k < |a| - 1 && a[1..][k] == x;
      assert a[k + 1] == x;
      assert a[0].id < x.id;
    }
    if x in a && x != a[0] {
      var k :| 0 <= k < |a| && a[k] == x;
      assert a[1..][k - 1] == x;
    }
  }

  // ---------------------------------------------------------------------
  // Search.

  /**
   * `lowered` occurs in the lower-cased title, url or description (an
   * undefined title or description does not match). `lower` stands for
   * `String.prototype.toLowerCase`.
   */
  predicate Matches(e: Embed, lowered: string, lower: string -> string) {
    || (e.title.Some? && Contains(lower(e.title.value), lowered))
    || Contains(lower(e.url), lowered)
    || (e.description.Some? && Contains(lower(e.description.value), lowered))
  }

  /**
   * `filteredUrls`: every item while the term is blank (white space only);
   * otherwise the items matching the lower-cased term, untrimmed, in order.
   */
  function Filter(xs: seq<Embed>, term: string, lower: string -> string): (r: seq<Embed>)
    ensures Trim(term) == [] ==> r == xs
    ensures Trim(term) != [] ==> forall x :: x in r <==> x in xs && Matches(x, lower(term), lower)
    ensures |r| <= |xs|
  {
    if Trim(term) == [] then xs
    else
      var t := lower(term);
      Keep(xs, x => Matches(x, t, lower))
  }

  /** The pagination control is drawn exactly when the filtered list holds more than one page of items. */
  lemma ControlVisible(n: nat)
    ensures Pagination.Visible(Pagination.TotalPages(n, ItemsPerPage)) <==> n > ItemsPerPage
  {
    Pagination.VisibleIffMoreThanOnePage(n, ItemsPerPage);
  }

  /** The search keeps the relative order of the items: filtering distributes over concatenation. */
  lemma FilterAppend(a: seq<Embed>, b: seq<Embed>, term: string, lower: string -> string)
    ensures Filter(a + b, term, lower) == Filter(a, term, lower) + Filter(b, term, lower)
  {
    if Trim(term) != [] {
      var t := lower(term);
      KeepAppend(a, b, x => Matches(x, t, lower));
    }
  }

  /** Every item shown by the filter matches; an item that matches is shown. A blank term shows everything. */
  lemma FilterCharacterised(xs: seq<Embed>, term: string, lower: string -> string, x: Embed)
    requires x in xs
    ensures x in Filter(xs, term, lower) <==> Trim(term) == [] || Matches(x, lower(term), lower)
  {
  }

  // ---------------------------------------------------------------------
  // The current page.

  function Clamp(k: int, n: nat): (r: nat)
    ensures r <= n
  {
    if k < 0 then (if n + k < 0 then 0 else n + k) else if k < n then k else n
  }

  /**
   * `Array.prototype.slice(start, end)`: negative positions count from the
   * end, positions are clamped to the list, and an empty range gives [].
   */
  function JsSlice<T>(xs: seq<T>, start: int, end: int): (r: seq<T>)
    ensures 0 <= start <= end ==> r == xs[Clamp(start, |xs|)..Clamp(end, |xs|)]
    ensures 0 <= start <= end ==> |r| <= end - start
    ensures end <= start && (start < 0 <==> end < 0) ==> r == []
  {
    var from := Clamp(start, |xs|);
    var to := Clamp(end, |xs|);
    if from < to then xs[from..to] else []
  }

  /** `currentItems`: the slice of the page, from `(page - 1) * perPage` for `perPage` items. */
  function PageItems<T>(xs: seq<T>, page: int, perPage: nat): (r: seq<T>)
    ensures page >= 1 ==> |r| <= perPage
  {
    var start := (page - 1) * perPage;
    JsSlice(xs, start, start + perPage)
  }

  /**
   * The pages partition the list: item `i` is item `i % perPage` of page
   * `i / perPage + 1`, and that page exists.
   */
  lemma PagesPartition<T>(xs: seq<T>, perPage: nat, i: nat)
    requires perPage > 0 && i < |xs|
    ensures var p := i / perPage + 1;
            && Pagination.InRange(p, Pagination.TotalPages(|xs|, perPage))
            && i % perPage < |PageItems(xs, p, perPage)|
            && PageItems(xs, p, perPage)[i % perPage] == xs[i]
  {
    var q := i / perPage;
    var start := q * perPage;
    DivMod(i, perPage);
    PageExists(|xs|, perPage, i);
    assert (q + 1 - 1) * perPage == start;
    SliceIndex(xs, start, perPage, i % perPage);
  }

  lemma PageExists(n: nat, perPage: nat, i: nat)
    requires perPage > 0 && i < n
    ensures Pagination.InRange(i / perPage + 1, Pagination.TotalPages(n, perPage))
  {
    var q := i / perPage;
    var t := Pagination.TotalPages(n, perPage);
    DivMod(i, perPage);
    if t <= q {
      Pagination.MulMono(t, q, perPage);
    }
  }

  lemma SliceIndex<T>(xs: seq<T>, start: nat, perPage: nat, k: nat)
    requires k < perPage && start + k < |xs|
    ensures k < |JsSlice(xs, start, start + perPage)|
    ensures JsSlice(xs, start, start + perPage)[k] == xs[start + k]
  {
  }

  lemma DivMod(i: nat, n: nat)
    requires n > 0
    ensures i == (i / n) * n + i % n && 0 <= i % n < n
  {
  }

  /** A page past the last one is empty. */
  lemma PagePastEndEmpty<T>(xs: seq<T>, perPage: nat, page: int)
    requires perPage > 0
    requires page > Pagination.TotalPages(|xs|, perPage)
    ensures PageItems(xs, page, perPage) == []
  {
    var t := Pagination.TotalPages(|xs|, perPage);
    Pagination.MulMono(t, page - 1, perPage);
  }

  /**
   * The range line agrees with the items shown: on an existing page it
   * counts exactly the items of the page, and those are the list's items at
   * the positions it names.
   */
  lemma RangeMatchesPage<T>(xs: seq<T>, perPage: nat, page: int)
    requires perPage > 0
    requires Pagination.InRange(page, Pagination.TotalPages(|xs|, perPage))
    ensures var r := Pagination.Range(page, perPage, |xs|);
            && 1 <= r.0 <= r.1 <= |xs|
            && PageItems(xs, page, perPage) == xs[r.0 - 1..r.1]
  {
    Pagination.RangeWellFormed(page, perPage, |xs|);
    assert page * perPage == (page - 1) * perPage + perPage;
  }

  // ---------------------------------------------------------------------
  // The page's state and actions.

  /** The list page: the embeds loaded, the search term, the current page. */
  datatype View = View(embeds: seq<Embed>, term: string, page: int)

  /** A page showing `embeds`, freshly opened: no search, first page. */
  function Opened(embeds: seq<Embed>): View {
    View(embeds, "", 1)
  }

  /** The items on screen. */
  function Current(v: View, lower: string -> string): seq<Embed> {
    PageItems(Filter(v.embeds, v.term, lower), v.page, ItemsPerPage)
  }

  /** Typing a search term (or clearing it): the term changes and the page goes back to 1. */
  function Search(v: View, term: string): (r: View)
    ensures r.embeds == v.embeds && r.term == term && r.page == 1
  {
    v.(term := term, page := 1)
  }

  /** After a search, the screen shows the first three matches (fewer if there are fewer). */
  lemma SearchShowsFirstMatches(v: View, term: string, lower: string -> string)
    ensures var f := Filter(v.embeds, term, lower);
            Current(Search(v, term), lower) == f[..if |f| < ItemsPerPage then |f| else ItemsPerPage]
  {
  }

  /** The list without the item of id `id`, as the page updates it after a deletion. */
  function WithoutId(xs: seq<Embed>, id: int): (r: seq<Embed>)
    ensures forall x :: x in r <==> x in xs && x.id != id
  {
    Keep(xs, (e: Embed) => e.id != id)
  }

  /**
   * `handleDelete`: nothing unless the user confirms; then the record is
   * deleted from the store and, when that succeeds, removed from the list
   * shown. A failed deletion changes neither.
   */
  function HandleDelete(s: Store, v: View, id: int, confirmed: bool, succeeds: bool): (r: (Store, View))
    ensures !(confirmed && succeeds) ==> r == (s, v)
    ensures confirmed && succeeds ==> r.0 == Delete(s, id) && r.1.term == v.term && r.1.page == v.page
    ensures forall x :: x in r.1.embeds <==> x in v.embeds && (x.id != id || !(confirmed && succeeds))
  {
    if confirmed && succeeds then (Delete(s, id), v.(embeds := WithoutId(v.embeds, id))) else (s, v)
  }

  /**
   * The list shown stays what the store holds: a page showing `getAllEmbeds`
   * of a valid store still shows `getAllEmbeds` of the store after a
   * deletion, without reloading.
   */
  lemma DeleteKeepsListInSync(s: Store, v: View, id: int, confirmed: bool, succeeds: bool)
    requires Valid(s)
    requires v.embeds == GetAll(s)
    ensures var r := HandleDelete(s, v, id, confirmed, succeeds);
            r.1.embeds == GetAll(r.0)
  {
    if confirmed && succeeds {
      var t := Delete(s, id);
      DeletePreservesValid(s, id);
      var a := WithoutId(GetAll(s), id);
      KeepAscending(GetAll(s), (e: Embed) => e.id != id);
      DeleteSameItems(s, id);
      AscendingUnique(a, GetAll(t));
    }
  }

  lemma DeleteSameItems(s: Store, id: int)
    requires Valid(s)
    ensures forall x :: x in WithoutId(GetAll(s), id) <==> x in GetAll(Delete(s, id))
  {
    forall x
      ensures x in WithoutId(GetAll(s), id) <==> x in GetAll(Delete(s, id))
    {
      DeleteSameItem(s, id, x);
    }
  }

  lemma DeleteSameItem(s: Store, id: int, x: Embed)
    requires Valid(s)
    ensures x in WithoutId(GetAll(s), id) <==> x in GetAll(Delete(s, id))
  {
    DeletePreservesValid(s, id);
    RecordsShown(s, x);
    RecordsShown(Delete(s, id), x);
  }

  /** In a valid store, `getAllEmbeds` shows exactly the stored records. */
  lemma RecordsShown(s: Store, x: Embed)
    requires Valid(s)
    ensures x in GetAll(s) <==> x.id in s.records && s.records[x.id] == x
  {
  }
}
