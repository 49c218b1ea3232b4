/** The records the frontend works with: a listed drug and the listing parameters. */
module ClientTypes {
  import opened Common
  import opened QueryDto

  /** The frontend's `Drug` is the backend's response record (launch dates as timestamps). */
  type Drug = DrugDto

  /** The frontend offers every backend sort key except `code`. */
  type ClientSortKey = k: SortKey | k != ByCode witness ByName

  /** `SearchParams`: every field optional; page and limit are whole numbers. */
  datatype SearchParams = SearchParams(
    page: Option<int>, limit: Option<int>, search: Option<string>,
    sortBy: Option<ClientSortKey>, sortOrder: Option<SortOrder>)

  const NoParams := SearchParams(None, None, None, None, None)

  /** A page or limit that JavaScript treats as true: present and not 0. */
  predicate TruthyNumber(n: Option<int>) { n.Some? && n.value != 0 }

  /** A text that JavaScript treats as true: present and not empty. */
  predicate TruthyText(s: Option<string>) { s.Some? && s.value != "" }
}
