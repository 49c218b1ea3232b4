/** The defaults `useDrugs` fills in before the params become a query key and a request. */
module UseDrugs {
  import opened Common
  import opened QueryDto
  import opened ClientTypes

  /** The params `useDrugs` produces: page, limit and direction present and non-zero, no empty
      search text. */
  predicate Normal(p: SearchParams) {
    TruthyNumber(p.page) && TruthyNumber(p.limit) && p.sortOrder.Some?
    && (p.search.Some? ==> p.search.value != "")
  }

  /** `normalizedParams`: an absent or zero page becomes 1, an absent or zero limit 20, an
      empty search text absent, an absent direction ascending; all else is kept. */
  function Normalize(p: SearchParams): (r: SearchParams)
    ensures Normal(r)
    ensures TruthyNumber(p.page) ==> r.page == p.page
    ensures !TruthyNumber(p.page) ==> r.page == Some(1)
    ensures TruthyNumber(p.limit) ==> r.limit == p.limit
    ensures !TruthyNumber(p.limit) ==> r.limit == Some(20)
    ensures TruthyText(p.search) ==> r.search == p.search
    ensures !TruthyText(p.search) ==> r.search == None
    ensures r.sortBy == p.sortBy
    ensures p.sortOrder.Some? ==> r.sortOrder == p.sortOrder
    ensures p.sortOrder.None? ==> r.sortOrder == Some(Asc)
  {
    SearchParams(
      if TruthyNumber(p.page) then p.page else Some(1),
      if TruthyNumber(p.limit) then p.limit else Some(20),
      if TruthyText(p.search) then p.search else None,
      if p.sortBy.Some? then p.sortBy else None,
      if p.sortOrder.Some? then p.sortOrder else Some(Asc))
  }

  /** Params already in normal form are left as they are. */
  lemma NormalizeFixesNormal(p: SearchParams)
    requires Normal(p)
    ensures Normalize(p) == p
  {
  }

  /** Normalising twice is normalising once, so the query key is stable. */
  lemma NormalizeIdempotent(p: SearchParams)
    ensures Normalize(Normalize(p)) == Normalize(p)
  {
    NormalizeFixesNormal(Normalize(p));
  }
}
