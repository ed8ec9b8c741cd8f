/** The page-by-page collection loop that every script repeats: request
    `?per_page=100&page=1`, `page=2`, ... and stop at the first empty page.
    A paginated collection is a finite sequence of responses; a request past
    its end gets `(200, [])`. */
module Pagination {
  import opened Api

  /** The server's answer to the request for page `p` (pages count from 1). */
  function PageAt<T>(pages: seq<Response<T>>, p: int): (r: Response<T>)
    requires p >= 1
    ensures p <= |pages| ==> r == pages[p - 1]
    ensures p > |pages| ==> r == Response(200, [])
  {
    if p <= |pages| then pages[p - 1] else Response(200, [])
  }

  /** After this response the loop requests the next page. */
  predicate Continues<T>(r: Response<T>) {
    r.status == 200 && r.body != []
  }

  /** How many pages the loop accepts: those before the first response that
      is not 200 or is empty. The loop makes `Stop(pages) + 1` requests. */
  function Stop<T>(pages: seq<Response<T>>): (n: nat)
    ensures n <= |pages|
    ensures forall i :: 0 <= i < n ==> Continues(pages[i])
    ensures n < |pages| ==> !Continues(pages[n])
  {
    if pages == [] || !Continues(pages[0]) then 0 else 1 + Stop(pages[1..])
  }

  /** The loop ends on a non-200 page rather than on an empty one. */
  predicate Failed<T>(pages: seq<Response<T>>) {
    Stop(pages) < |pages| && pages[Stop(pages)].status != 200
  }

  /** The bodies of `pages`, in page order. */
  function Concat<T>(pages: seq<Response<T>>): seq<T> {
    if pages == [] then [] else Concat(pages[..|pages| - 1]) + pages[|pages| - 1].body
  }

  /** The items of the accepted pages: what a loop that keeps its partial
      list returns. */
  function Items<T>(pages: seq<Response<T>>): seq<T> {
    Concat(pages[..Stop(pages)])
  }

  /** What a loop that raises on a non-200 page returns. */
  function Gathered<T>(pages: seq<Response<T>>): Result<seq<T>> {
    if Failed(pages) then Err(HttpError(pages[Stop(pages)].status)) else Ok(Items(pages))
  }

  /** The page numbers 1, 2, ..., n in request order. */
  function Upto(n: nat): (pageNumbers: seq<int>)
    ensures |pageNumbers| == n
    ensures forall i :: 0 <= i < n ==> pageNumbers[i] == i + 1
  {
    if n == 0 then [] else Upto(n - 1) + [n]
  }

  /** The sum of the page sizes. */
  function Size<T>(pages: seq<Response<T>>): nat {
    if pages == [] then 0 else Size(pages[..|pages| - 1]) + |pages[|pages| - 1].body|
  }

  /** One more accepted page extends the accepted items by its body. */
  lemma ConcatSnoc<T>(pages: seq<Response<T>>, k: nat)
    requires k < |pages|
    ensures Concat(pages[..k + 1]) == Concat(pages[..k]) + pages[k].body
  {
    assert pages[..k + 1][..k] == pages[..k];
  }

  /** The item count is the sum of the page sizes. */
  lemma {:induction false} ConcatSize<T>(pages: seq<Response<T>>)
    ensures |Concat(pages)| == Size(pages)
  {
    if pages != [] {
      ConcatSize(pages[..|pages| - 1]);
    }
  }

  /** An item is collected iff it is on one of the pages. */
  lemma {:induction false} ConcatElements<T>(pages: seq<Response<T>>, x: T)
    ensures x in Concat(pages) <==>
      exists i, j :: 0 <= i < |pages| && 0 <= j < |pages[i].body| && pages[i].body[j] == x
  {
    if pages != [] {
      var front := pages[..|pages| - 1];
      ConcatElements(front, x);
      var last := |pages| - 1;
      if x in Concat(pages) {
        if x in Concat(front) {
          var i, j :| 0 <= i < |front| && 0 <= j < |front[i].body| && front[i].body[j] == x;
          assert pages[i] == front[i];
        } else {
          assert x in pages[last].body;
          var j :| 0 <= j < |pages[last].body| && pages[last].body[j] == x;
        }
      } else {
        forall i, j | 0 <= i < |pages| && 0 <= j < |pages[i].body|
          ensures pages[i].body[j] != x
        {
          if i < last {
            assert pages[i] == front[i];
          }
        }
      }
    }
  }

  /** The collection concatenates the accepted pages in order: page `k`'s
      body sits right after the bodies of pages 1 .. k-1. */
  lemma {:induction false} ConcatAppend<T>(a: seq<Response<T>>, b: seq<Response<T>>)
    ensures Concat(a + b) == Concat(a) + Concat(b)
    decreases |b|
  {
    if b != [] {
      var b' := b[..|b| - 1];
      assert (a + b)[..|a + b| - 1] == a + b';
      ConcatAppend(a, b');
    } else {
      assert a + b == a;
    }
  }

  /** The raising loop fails iff some non-200 page comes before every empty
      page, and then it reports that page's status. */
  lemma GatheredFails<T>(pages: seq<Response<T>>)
    ensures Gathered(pages).Err? <==>
      exists k :: 0 <= k < |pages| && pages[k].status != 200 && AllContinue(pages[..k])
    ensures Gathered(pages).Err? ==> Gathered(pages).error == HttpError(pages[Stop(pages)].status)
  {
    var n := Stop(pages);
    if Gathered(pages).Err? {
      assert AllContinue(pages[..n]);
    } else {
      forall k | 0 <= k < |pages| && pages[k].status != 200
        ensures !AllContinue(pages[..k])
      {
        assert n < k || n == |pages|;
        if n < |pages| {
          assert pages[..k][n] == pages[n];
        }
      }
    }
  }

  /** Every page of `pages` continues the loop. */
  predicate AllContinue<T>(pages: seq<Response<T>>) {
    forall i :: 0 <= i < |pages| ==> Continues(pages[i])
  }

  /** On success both error policies return the same list; on failure the
      partial list is exactly the accepted pages. */
  lemma PoliciesAgree<T>(pages: seq<Response<T>>)
    ensures Gathered(pages).Ok? <==> !Failed(pages)
    ensures Gathered(pages).Ok? ==> Gathered(pages).value == Items(pages)
    ensures |Items(pages)| == Size(pages[..Stop(pages)])
  {
    ConcatSize(pages[..Stop(pages)]);
  }

  /** Nothing after the page that stops the loop is ever consulted. */
  lemma {:induction false} StopPrefix<T>(a: seq<Response<T>>, b: seq<Response<T>>)
    requires Stop(a) < |a| && Stop(a) < |b|
    requires a[..Stop(a) + 1] == b[..Stop(a) + 1]
    ensures Stop(b) == Stop(a)
    ensures Items(b) == Items(a)
    ensures Gathered(b) == Gathered(a)
  {
    var k := Stop(a);
    assert a[k] == a[..k + 1][k] == b[..k + 1][k] == b[k];
    forall i | 0 <= i < k ensures Continues(b[i]) {
      assert a[i] == a[..k + 1][i] == b[..k + 1][i] == b[i];
    }
    assert a[..k] == a[..k + 1][..k] == b[..k + 1][..k] == b[..k];
  }

  /** A collection that ends before its last page is the same collection
      with nothing after it: requests past the end get `(200, [])`. */
  lemma {:induction false} PastEnd<T>(pages: seq<Response<T>>, later: seq<Response<T>>)
    ensures Gathered(pages + [Response(200, [])] + later) == Gathered(pages)
  {
    var ext := pages + [Response(200, [])] + later;
    var k := Stop(pages);
    assert forall i :: 0 <= i < |pages| ==> ext[i] == pages[i];
    assert ext[..k] == pages[..k];
    if k < |pages| {
      assert Stop(ext) == k by {
        GatheredStopAt(ext, k);
      }
    } else {
      assert ext[k] == Response(200, []);
      GatheredStopAt(ext, k);
    }
  }

  /** The loop stops at the first page that does not continue. */
  lemma GatheredStopAt<T>(pages: seq<Response<T>>, k: nat)
    requires k < |pages| && !Continues(pages[k])
    requires forall i :: 0 <= i < k ==> Continues(pages[i])
    ensures Stop(pages) == k
  {
  }

  /** The loop keeps exactly the pages before the first one that stops it. */
  lemma ItemsStopAt<T>(pages: seq<Response<T>>, k: nat)
    requires k < |pages| && !Continues(pages[k]) && AllContinue(pages[..k])
    ensures Stop(pages) == k
    ensures Items(pages) == Concat(pages[..k])
  {
    assert forall i :: 0 <= i < k ==> pages[..k][i] == pages[i];
    GatheredStopAt(pages, k);
  }

  /** The raising loop, as `fetch_teams` and `get_all_repos` write it.
      `requested` records the page numbers asked for, in order. */
  method FetchAll<T>(pages: seq<Response<T>>) returns (r: Result<seq<T>>, ghost requested: seq<int>)
    ensures r == Gathered(pages)
    ensures requested == Upto(Stop(pages) + 1)
  {
    var items: seq<T> := [];
    var page := 1;
    requested := [];
    while true
      invariant 1 <= page <= Stop(pages) + 1
      invariant items == Concat(pages[..page - 1])
      invariant requested == Upto(page - 1)
      decreases |pages| + 1 - page
    {
      var resp := PageAt(pages, page);
      requested := requested + [page];
      if resp.status != 200 {
        assert page - 1 == Stop(pages);
        return Err(HttpError(resp.status)), requested;
      }
      if resp.body == [] {
        break;
      }
      ConcatSnoc(pages, page - 1);
      items := items + resp.body;
      page := page + 1;
    }
    r := Ok(items);
  }
}
