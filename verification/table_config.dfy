/** The table descriptor the backend hands to the frontend, and its agreement with the
    listing query schema. */
module TableConfig {
  import opened Common
  import opened QueryDto

  datatype ColumnType = StringColumn | DateColumn | NumberColumn

  datatype TableColumn = TableColumn(
    key: string, labelText: string, sortable: bool, filterable: bool, visible: bool,
    width: Option<nat>, columnType: ColumnType, format: Option<string>)

  datatype DefaultSort = DefaultSort(column: string, direction: SortOrder)

  datatype PaginationConfig = PaginationConfig(defaultPageSize: nat, pageSizeOptions: seq<nat>)

  /** The company filter is always a dropdown; only whether it allows several values varies. */
  datatype CompanyFilter = CompanyFilter(multiple: bool)

  datatype TableConfiguration = TableConfiguration(
    columns: seq<TableColumn>, defaultSort: DefaultSort,
    pagination: PaginationConfig, companyFilter: CompanyFilter)

  const DefaultTableConfiguration := TableConfiguration(
    [
      TableColumn("id", "ID", false, false, true, Some(80), NumberColumn, None),
      TableColumn("code", "Code", true, true, true, Some(120), StringColumn, None),
      TableColumn("name", "Name", true, true, true, Some(300), StringColumn, None),
      TableColumn("company", "Company", true, true, true, Some(250), StringColumn, None),
      TableColumn("launchDate", "Launch Date", true, true, true, Some(150), DateColumn, Some("dd.MM.yyyy"))
    ],
    DefaultSort("launchDate", Desc),
    PaginationConfig(20, [10, 20, 50, 100]),
    CompanyFilter(false))

  function SortableKeys(columns: seq<TableColumn>): set<string> {
    set i | 0 <= i < |columns| && columns[i].sortable :: columns[i].key
  }

  /** `getTableConfiguration()`: the descriptor agrees with the query schema. Its columns have
      distinct keys; the sortable ones are exactly the accepted `sortBy` values, so `id` is not
      sortable; the default sort is the schema's default; the default page size is one of the
      offered sizes, and every offered size is an accepted `limit`. */
  function GetTableConfiguration(): (c: TableConfiguration)
    ensures |c.columns| >= 1
    ensures forall i, j :: 0 <= i < j < |c.columns| ==> c.columns[i].key != c.columns[j].key
    ensures SortableKeys(c.columns) == SortKeyNames
    ensures forall i :: 0 <= i < |c.columns| && c.columns[i].key == "id" ==> !c.columns[i].sortable
    ensures c.defaultSort.column == SortKeyName(DefaultSortKey) && c.defaultSort.direction == DefaultSortOrder
    ensures c.pagination.defaultPageSize == DefaultLimit
    ensures c.pagination.defaultPageSize in c.pagination.pageSizeOptions
    ensures forall n :: n in c.pagination.pageSizeOptions ==> 1 <= n <= 100
  {
    var c := DefaultTableConfiguration;
    assert SortableKeys(c.columns) == SortKeyNames by {
      var cols := c.columns;
      assert cols[1].key in SortableKeys(cols) && cols[2].key in SortableKeys(cols);
      assert cols[3].key in SortableKeys(cols) && cols[4].key in SortableKeys(cols);
    }
    c
  }

  /** Each offered page size, written in a query string, is accepted as that limit. */
  lemma PageSizeOptionsAccepted(n: nat)
    requires n in GetTableConfiguration().pagination.pageSizeOptions
    ensures var r := ParseQuery(RawQuery(None, Some(NatToString(n)), None, None, None, None));
      r.Ok? && r.value.limit == n
  {
    LimitFromNat(n);
  }
}
