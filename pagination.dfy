/**
 * The paginator query builder (app/query_builders/paginator.rb). Its fields
 * are set once, on creation, so it is a value; `paginate` is Kaminari's
 * `scope.page(page).per(per)`: skip `(page - 1) * per` items, take `per`.
 */
module Pagination {

  const DefaultPage := 1
  const DefaultPer := 10

  function Min(a: int, b: int): int {
    if a <= b then a else b
  }

  /** The number of items before page `page`: `(page - 1) * per`. */
  function Offset(page: int, per: int): nat
    requires page >= 1 && per >= 0
  {
    (page - 1) * per
  }

  /**
   * `scope.page(page).per(per)`: the contiguous, order-preserving window of at
   * most `per` items that starts after the first `(page - 1) * per` items.
   */
  function Page<T>(scope: seq<T>, page: int, per: int): (r: seq<T>)
    requires page >= 1 && per >= 1
    ensures |r| <= per
    ensures Offset(page, per) >= |scope| ==> r == []
    ensures Offset(page, per) < |scope| ==> r == scope[Offset(page, per)..Min(Offset(page, per) + per, |scope|)]
  {
    var lo := Min(Offset(page, per), |scope|);
    var hi := Min(lo + per, |scope|);
    scope[lo..hi]
  }

  datatype Paginator<T> = Paginator(queryParams: map<string, int>, page: int, per: int, scope: seq<T>, url: string) {
    /** `paginate`: item `k` of the page is item `(page - 1) * per + k` of the scope. */
    function Paginate(): (r: seq<T>)
      requires page >= 1 && per >= 1
      ensures |r| == Min(per, |scope| - Min(Offset(page, per), |scope|))
      ensures forall k :: 0 <= k < |r| ==> Offset(page, per) + k < |scope| && r[k] == scope[Offset(page, per) + k]
    {
      Page(scope, page, per)
    }
  }

  /** `Paginator.new(scope, query_params, url)`: `page` defaults to 1 and `per` to 10 when absent. */
  function NewPaginator<T>(scope: seq<T>, queryParams: map<string, int>, url: string): (p: Paginator<T>)
    ensures p.scope == scope && p.url == url && p.queryParams == queryParams
    ensures "page" in queryParams ==> p.page == queryParams["page"]
    ensures "page" !in queryParams ==> p.page == 1
    ensures "per" in queryParams ==> p.per == queryParams["per"]
    ensures "per" !in queryParams ==> p.per == 10
  {
    var page := if "page" in queryParams then queryParams["page"] else DefaultPage;
    var per := if "per" in queryParams then queryParams["per"] else DefaultPer;
    Paginator(queryParams, page, per, scope, url)
  }

  /** Pages 1 to n, one after the other. */
  function FirstPages<T>(scope: seq<T>, per: int, n: nat): seq<T>
    requires per >= 1
  {
    if n == 0 then [] else FirstPages(scope, per, n - 1) + Page(scope, n, per)
  }

  /**
   * Consecutive pages tile the scope: pages 1 to n together are the items
   * before page n + 1, that is its first n * per items, in order.
   */
  lemma {:induction false} PagesTile<T>(scope: seq<T>, per: int, n: nat)
    requires per >= 1
    ensures FirstPages(scope, per, n) == scope[..Min(Offset(n + 1, per), |scope|)]
  {
    if n > 0 {
      PagesTile(scope, per, n - 1);
      var lo := Min(Offset(n, per), |scope|);
      var hi := Min(Offset(n, per) + per, |scope|);
      assert scope[..lo] + scope[lo..hi] == scope[..hi];
    }
  }

  /** Item `k` sits on page `k / per + 1`, at position `k % per`. */
  lemma PageOfItem<T>(scope: seq<T>, per: int, k: nat)
    requires per >= 1 && k < |scope|
    ensures var page := k / per + 1;
      |Page(scope, page, per)| > k % per && Page(scope, page, per)[k % per] == scope[k]
  {
  }

  /** The pagination test vectors: three records, two per page. */
  lemma PaginatorExamples<T>(a: T, b: T, c: T, params1: map<string, int>, params2: map<string, int>)
    requires params1 == map["page" := 1, "per" := 2]
    requires params2 == map["page" := 2, "per" := 2]
    ensures NewPaginator([a, b, c], params1, "url").Paginate() == [a, b]
    ensures NewPaginator([a, b, c], params2, "url").Paginate() == [c]
  {
  }

  /** With no parameters the first ten items are returned. */
  lemma PaginatorDefaults<T>(scope: seq<T>)
    ensures NewPaginator(scope, map[], "url").Paginate() == scope[..Min(10, |scope|)]
  {
  }
}
