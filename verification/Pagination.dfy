/** Slicing a list into pages, and loading a page that may no longer exist. */
module Pagination {
  import opened Basics

  datatype PageRequest = PageRequest(page: int, pageSize: int)

  datatype Page<T> = Page(items: seq<T>, page: int, pageSize: int, total: nat, pageCount: int)

  function OffsetOf(request: PageRequest): int {
    (request.page - 1) * request.pageSize
  }

  function PageCountOf(total: nat, pageSize: int): int
    requires pageSize >= 1
  {
    Max(1, CeilDiv(total, pageSize))
  }

  function ToPage<T>(items: seq<T>, total: nat, request: PageRequest): Page<T>
    requires request.pageSize >= 1
  {
    Page(items, request.page, request.pageSize, total, PageCountOf(total, request.pageSize))
  }

  function ClampToLastPage(request: PageRequest, total: nat): PageRequest
    requires request.pageSize >= 1
  {
    request.(page := Min(request.page, PageCountOf(total, request.pageSize)))
  }

  /** What a repository reads for a request: it skips the offset and takes one page. */
  function Read<T>(list: seq<T>, request: PageRequest): seq<T>
    requires request.page >= 1 && request.pageSize >= 1
  {
    OffsetIsPositive(request);
    var from := Min(OffsetOf(request), |list|);
    list[from..Min(from + request.pageSize, |list|)]
  }

  lemma OffsetIsPositive(request: PageRequest)
    requires request.page >= 1 && request.pageSize >= 1
    ensures 0 <= OffsetOf(request)
    ensures OffsetOf(request.(page := request.page + 1)) == OffsetOf(request) + request.pageSize
  {
  }

  /** Pages 1 to `n`, one after the other. */
  function FirstPages<T>(list: seq<T>, pageSize: int, n: nat): seq<T>
    requires pageSize >= 1
  {
    if n == 0 then [] else FirstPages(list, pageSize, n - 1) + Read(list, PageRequest(n, pageSize))
  }

  lemma {:induction false} FirstPagesAre<T>(list: seq<T>, pageSize: int, n: nat)
    requires pageSize >= 1
    ensures 0 <= n * pageSize
    ensures FirstPages(list, pageSize, n) == list[..Min(n * pageSize, |list|)]
  {
    if n > 0 {
      FirstPagesAre(list, pageSize, n - 1);
      var from := (n - 1) * pageSize;
      assert n * pageSize == from + pageSize;
      ReadFrom(list, PageRequest(n, pageSize), from);
    }
  }

  lemma ReadFrom<T>(list: seq<T>, request: PageRequest, from: nat)
    requires request.page >= 1 && request.pageSize >= 1 && OffsetOf(request) == from
    ensures list[..Min(from, |list|)] + Read(list, request) == list[..Min(from + request.pageSize, |list|)]
  {
  }

  /** The pages hold every item once, in order, and every page but the last is full. */
  lemma PagesAreTheList<T>(list: seq<T>, pageSize: int)
    requires pageSize >= 1
    ensures FirstPages(list, pageSize, PageCountOf(|list|, pageSize)) == list
    ensures forall page :: 1 <= page < PageCountOf(|list|, pageSize) ==>
      |Read(list, PageRequest(page, pageSize))| == pageSize
    ensures list != [] ==> Read(list, PageRequest(PageCountOf(|list|, pageSize), pageSize)) != []
  {
    var count := PageCountOf(|list|, pageSize);
    FirstPagesAre(list, pageSize, count);
    LastPageStartsInside(|list|, pageSize);
    assert list[..|list|] == list;
    forall page | 1 <= page < count
      ensures |Read(list, PageRequest(page, pageSize))| == pageSize
    {
      Ordered(page + 1, count, pageSize);
      OffsetIsPositive(PageRequest(page, pageSize));
    }
  }

  /** The pages cover the list, and the last one starts before its end. */
  lemma LastPageStartsInside(total: nat, pageSize: int)
    requires pageSize >= 1
    ensures
      var count := PageCountOf(total, pageSize);
      total <= count * pageSize && 0 <= (count - 1) * pageSize && (total > 0 ==> (count - 1) * pageSize < total)
      && (count - 1) * pageSize == count * pageSize - pageSize
  {
    var pages := CeilDiv(total, pageSize);
    if pages < 1 {
      Ordered(pages + 1, 1, pageSize);
    } else {
      Ordered(1, pages, pageSize);
    }
  }

  lemma Ordered(a: int, b: int, pageSize: int)
    requires a <= b && 1 <= pageSize
    ensures (a - 1) * pageSize <= (b - 1) * pageSize
  {
  }

  // ----- Loading a page that may no longer exist

  /** A repository as the caller sees it: what it answers may change from one call to the next. */
  class Loader<T, E> {
    const answers: (nat, PageRequest) -> Result<Page<T>, E>
    var calls: seq<PageRequest>

    constructor (answers: (nat, PageRequest) -> Result<Page<T>, E>)
      ensures this.answers == answers && calls == []
    {
      this.answers := answers;
      calls := [];
    }

    method Load(request: PageRequest) returns (r: Result<Page<T>, E>)
      modifies this
      ensures calls == old(calls) + [request] && r == answers(|old(calls)|, request)
    {
      r := answers(|calls|, request);
      calls := calls + [request];
    }
  }

  /** Whether the first answer is final: it failed, or the page asked for is there. */
  predicate IsFinal<T, E>(requested: PageRequest, first: Result<Page<T>, E>)
    requires requested.pageSize >= 1
  {
    first.Err? || ClampToLastPage(requested, first.value.total).page == first.value.page
  }

  /** An answer that is a failure or the page asked for, of a list with `total` items. */
  ghost predicate Answers<T, E>(answer: Result<Page<T>, E>, request: PageRequest, total: nat)
    requires request.pageSize >= 1
  {
    answer.Ok? ==> answer.value == ToPage(answer.value.items, total, request)
  }

  /** From its `n`-th call on, the repository reads a list whose total does not change between two calls. */
  ghost predicate IsSteady<T, E>(loader: Loader<T, E>, n: nat, requested: PageRequest, total: nat)
    requires requested.pageSize >= 1
  {
    && Answers(loader.answers(n, requested), requested, total)
    && Answers(loader.answers(n + 1, ClampToLastPage(requested, total)), ClampToLastPage(requested, total), total)
  }

  /** The page is there: the one asked for, or the last one if there are fewer. */
  predicate ExistsIn<T, E>(r: Result<Page<T>, E>, requested: PageRequest, total: nat)
    requires requested.pageSize >= 1
  {
    r.Ok? ==>
      && 1 <= r.value.page <= r.value.pageCount == PageCountOf(total, requested.pageSize)
      && r.value.page == Min(requested.page, r.value.pageCount)
  }

  /**
   * Loads the page asked for, and the last page in a second call when that one lies past the end.
   * There is never a third call, a second one asks for the clamped page, and the answer is the one to
   * the last call. While the total does not change in between, the page that comes back exists.
   */
  method LoadClampedPage<T, E>(requested: PageRequest, loader: Loader<T, E>) returns (r: Result<Page<T>, E>)
    requires requested.pageSize >= 1
    modifies loader
    ensures
      var n := |old(loader.calls)|;
      var first := loader.answers(n, requested);
      && loader.calls == old(loader.calls) + (
        if IsFinal(requested, first) then [requested]
        else [requested, ClampToLastPage(requested, first.value.total)])
      && r == loader.answers(|loader.calls| - 1, loader.calls[|loader.calls| - 1])
    ensures forall total: nat :: requested.page >= 1 && IsSteady(loader, |old(loader.calls)|, requested, total) ==>
      ExistsIn(r, requested, total)
  {
    ghost var n := |loader.calls|;
    var first := loader.Load(requested);
    if first.Err? {
      return first;
    }
    var request := ClampToLastPage(requested, first.value.total);
    if request.page == first.value.page {
      r := first;
    } else {
      r := loader.Load(request);
    }
    forall total: nat | requested.page >= 1 && IsSteady(loader, n, requested, total)
      ensures ExistsIn(r, requested, total)
    {
      LoadedPageExists(requested, total, first, loader.answers(n + 1, ClampToLastPage(requested, total)));
    }
  }

  /** A second call is made exactly when the first found fewer pages than the one asked for. */
  lemma SecondCallExactlyWhen<T, E>(requested: PageRequest, total: nat, first: Result<Page<T>, E>)
    requires requested.pageSize >= 1 && Answers(first, requested, total)
    ensures !IsFinal(requested, first) <==> first.Ok? && requested.page > PageCountOf(total, requested.pageSize)
  {
  }

  /** While the total does not change between the two calls, the last answer is a page that exists. */
  lemma LoadedPageExists<T, E>(
      requested: PageRequest, total: nat, first: Result<Page<T>, E>, second: Result<Page<T>, E>)
    requires requested.page >= 1 && requested.pageSize >= 1
    requires Answers(first, requested, total) && Answers(second, ClampToLastPage(requested, total), total)
    ensures ExistsIn(if IsFinal(requested, first) then first else second, requested, total)
  {
  }
}
