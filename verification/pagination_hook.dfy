/** The listing parameters the page keeps in one state cell, and the setters that replace it. */
module PaginationHook {
  import opened Common
  import opened QueryDto
  import opened ClientTypes

  /** `Partial<SearchParams>`: per field, absent (`None`) or present (`Some`), where a present
      field may hold `undefined` (`Some(None)`). */
  datatype Patch = Patch(
    page: Option<Option<int>>, limit: Option<Option<int>>, search: Option<Option<string>>,
    sortBy: Option<Option<ClientSortKey>>, sortOrder: Option<Option<SortOrder>>)

  const EmptyPatch := Patch(None, None, None, None, None)

  /** One field of an object spread: a present field of the patch wins, `undefined` included. */
  function Overwrite<T>(current: Option<T>, patch: Option<Option<T>>): Option<T> {
    if patch.Some? then patch.value else current
  }

  /** `{ ...prev, ...patch }` */
  function Merge(p: SearchParams, patch: Patch): SearchParams {
    SearchParams(
      Overwrite(p.page, patch.page), Overwrite(p.limit, patch.limit),
      Overwrite(p.search, patch.search), Overwrite(p.sortBy, patch.sortBy),
      Overwrite(p.sortOrder, patch.sortOrder))
  }

  /** The patch that applying `a` and then `b` amounts to: `b`'s fields, else `a`'s. */
  function Then(a: Patch, b: Patch): Patch {
    Patch(
      if b.page.Some? then b.page else a.page,
      if b.limit.Some? then b.limit else a.limit,
      if b.search.Some? then b.search else a.search,
      if b.sortBy.Some? then b.sortBy else a.sortBy,
      if b.sortOrder.Some? then b.sortOrder else a.sortOrder)
  }

  /** Merging an empty patch changes nothing. */
  lemma MergeEmpty(p: SearchParams)
    ensures Merge(p, EmptyPatch) == p
  {
  }

  /** Two successive merges are one merge of the combined patch. */
  lemma MergeThen(p: SearchParams, a: Patch, b: Patch)
    ensures Merge(Merge(p, a), b) == Merge(p, Then(a, b))
  {
  }

  /** Merging the same patch twice is merging it once. */
  lemma MergeIdempotent(p: SearchParams, a: Patch)
    ensures Merge(Merge(p, a), a) == Merge(p, a)
  {
    MergeThen(p, a, a);
    assert Then(a, a) == a;
  }

  /** A merge keeps every field the patch leaves out. */
  lemma MergeKeepsAbsent(p: SearchParams, a: Patch)
    ensures a.page.None? ==> Merge(p, a).page == p.page
    ensures a.limit.None? ==> Merge(p, a).limit == p.limit
    ensures a.search.None? ==> Merge(p, a).search == p.search
    ensures a.sortBy.None? ==> Merge(p, a).sortBy == p.sortBy
    ensures a.sortOrder.None? ==> Merge(p, a).sortOrder == p.sortOrder
  {
  }

  const DefaultInitialParams := SearchParams(Some(1), Some(20), None, None, Some(Asc))

  const FirstPage := EmptyPatch.(page := Some(Some(1)))

  /** `resetToFirstPage` twice is `resetToFirstPage` once. */
  lemma ResetToFirstPageIdempotent(p: SearchParams)
    ensures Merge(Merge(p, FirstPage), FirstPage) == Merge(p, FirstPage)
    ensures Merge(p, FirstPage) == p.(page := Some(1))
  {
    MergeIdempotent(p, FirstPage);
  }

  /** `usePagination`: the params state cell and its setters. */
  class PaginationState {
    var params: SearchParams

    /** Starts from the given initial params, else page 1, limit 20, ascending. */
    constructor(initialParams: Option<SearchParams>)
      ensures params == if initialParams.Some? then initialParams.value else DefaultInitialParams
    {
      params := if initialParams.Some? then initialParams.value else DefaultInitialParams;
    }

    /** `updateParams`: overwrites exactly the fields present in the patch. */
    method UpdateParams(patch: Patch)
      modifies this
      ensures params == Merge(old(params), patch)
    {
      params := Merge(params, patch);
    }

    /** `setPage`: only the page changes. */
    method SetPage(page: int)
      modifies this
      ensures params == old(params).(page := Some(page))
    {
      UpdateParams(EmptyPatch.(page := Some(Some(page))));
    }

    /** `setLimit`: the limit changes and the page goes back to 1. */
    method SetLimit(limit: int)
      modifies this
      ensures params == old(params).(limit := Some(limit), page := Some(1))
    {
      UpdateParams(EmptyPatch.(limit := Some(Some(limit)), page := Some(Some(1))));
    }

    /** `setSearch`: the search text changes, or is cleared, and the page goes back to 1. */
    method SetSearch(search: Option<string>)
      modifies this
      ensures params == old(params).(search := search, page := Some(1))
    {
      UpdateParams(EmptyPatch.(search := Some(search), page := Some(Some(1))));
    }

    /** `setSortBy`: the sort key changes, or is cleared, and the page goes back to 1. */
    method SetSortBy(sortBy: Option<ClientSortKey>)
      modifies this
      ensures params == old(params).(sortBy := sortBy, page := Some(1))
    {
      UpdateParams(EmptyPatch.(sortBy := Some(sortBy), page := Some(Some(1))));
    }

    /** `setSortOrder`: the direction changes and the page goes back to 1. */
    method SetSortOrder(sortOrder: SortOrder)
      modifies this
      ensures params == old(params).(sortOrder := Some(sortOrder), page := Some(1))
    {
      UpdateParams(EmptyPatch.(sortOrder := Some(Some(sortOrder)), page := Some(Some(1))));
    }

    /** `resetToFirstPage`: only the page changes, to 1. */
    method ResetToFirstPage()
      modifies this
      ensures params == old(params).(page := Some(1))
    {
      UpdateParams(FirstPage);
    }
  }
}
