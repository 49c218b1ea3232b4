/** The backend listing service over one snapshot of the collection: the clamp of page and
    limit, the filter and sort documents the service builds, their evaluation by the store,
    the page of response records with its pagination block, and the two aggregates. */
module DrugService {
  import opened Common
  import opened DrugModel
  import opened QueryDto

  // ---------------------------------------------------------------------------
  // Clamping
  // ---------------------------------------------------------------------------

  /** `Math.max(1, page)`. */
  function ClampPage(page: int): (p: int)
    ensures p >= 1
    ensures page >= 1 ==> p == page
    ensures page < 1 ==> p == 1
  {
    if page < 1 then 1 else page
  }

  /** `Math.min(100, Math.max(1, limit))`. */
  function ClampLimit(limit: int): (l: int)
    ensures 1 <= l <= 100
    ensures 1 <= limit <= 100 ==> l == limit
    ensures limit < 1 ==> l == 1
    ensures limit > 100 ==> l == 100
  {
    if limit < 1 then 1 else if limit > 100 then 100 else limit
  }

  /** Every query the schema accepts is already in range, so the clamp changes nothing. */
  lemma ClampIdentityOnParsed(raw: RawQuery)
    requires ParseQuery(raw).Ok?
    ensures ClampPage(ParseQuery(raw).value.page) == ParseQuery(raw).value.page
    ensures ClampLimit(ParseQuery(raw).value.limit) == ParseQuery(raw).value.limit
  {
  }

  // ---------------------------------------------------------------------------
  // What the listing should contain and in which order
  // ---------------------------------------------------------------------------

  /** A query-string value is used only when it is a non-empty string. */
  predicate Truthy(s: Option<string>) { s.Some? && s.value != "" }

  /** Case-insensitive substring test (ASCII case folding). */
  predicate ContainsFold(text: string, pattern: string) {
    Contains(Lower(text), Lower(pattern))
  }

  predicate CompanyMatches(company: Option<string>, d: Drug) {
    !Truthy(company) || d.company == company.value
  }

  predicate SearchMatches(search: Option<string>, d: Drug) {
    !Truthy(search)
    || ContainsFold(d.genericName, search.value) || ContainsFold(d.brandName, search.value)
    || ContainsFold(d.company, search.value) || ContainsFold(d.code, search.value)
  }

  /** A record belongs to the listing of `q`. */
  predicate Matches(q: Query, d: Drug) {
    CompanyMatches(q.company, d) && SearchMatches(q.search, d)
  }

  /** Comparison on the chosen key; `name` compares generic names. */
  function KeyCompare(k: SortKey, a: Drug, b: Drug): int {
    match k
    case ByCode => LexCompare(a.code, b.code)
    case ByName => LexCompare(a.genericName, b.genericName)
    case ByCompany => LexCompare(a.company, b.company)
    case ByLaunchDate => IntCompare(a.launchDate, b.launchDate)
  }

  /** `a` is listed before `b`: by the key in the requested direction, ties by ascending id. */
  predicate RankBefore(k: SortKey, o: SortOrder, a: Drug, b: Drug) {
    var c := KeyCompare(k, a, b);
    (if o == Asc then c < 0 else c > 0) || (c == 0 && a.id < b.id)
  }

  lemma KeyCompareFacts(k: SortKey, a: Drug, b: Drug)
    ensures KeyCompare(k, a, b) == -KeyCompare(k, b, a)
    ensures KeyCompare(k, a, a) == 0
  {
    match k
    case ByCode => LexCompareAntisymmetric(a.code, b.code); LexCompareZero(a.code, a.code);
    case ByName => LexCompareAntisymmetric(a.genericName, b.genericName); LexCompareZero(a.genericName, a.genericName);
    case ByCompany => LexCompareAntisymmetric(a.company, b.company); LexCompareZero(a.company, a.company);
    case ByLaunchDate =>
  }

  lemma KeyCompareTransitive(k: SortKey, a: Drug, b: Drug, c: Drug)
    ensures KeyCompare(k, a, b) < 0 && KeyCompare(k, b, c) < 0 ==> KeyCompare(k, a, c) < 0
    ensures KeyCompare(k, a, b) == 0 ==> KeyCompare(k, a, c) == KeyCompare(k, b, c)
  {
    match k
    case ByCode =>
      LexCompareZero(a.code, b.code);
      if LexCompare(a.code, b.code) < 0 && LexCompare(b.code, c.code) < 0 { LexCompareTransitive(a.code, b.code, c.code); }
    case ByName =>
      LexCompareZero(a.genericName, b.genericName);
      if LexCompare(a.genericName, b.genericName) < 0 && LexCompare(b.genericName, c.genericName) < 0 {
        LexCompareTransitive(a.genericName, b.genericName, c.genericName);
      }
    case ByCompany =>
      LexCompareZero(a.company, b.company);
      if LexCompare(a.company, b.company) < 0 && LexCompare(b.company, c.company) < 0 {
        LexCompareTransitive(a.company, b.company, c.company);
      }
    case ByLaunchDate =>
  }

  /** The listing order is a strict order that ranks any two records with different ids. */
  lemma RankBeforeStrictTotal(k: SortKey, o: SortOrder, a: Drug, b: Drug, c: Drug)
    ensures !RankBefore(k, o, a, a)
    ensures RankBefore(k, o, a, b) && RankBefore(k, o, b, c) ==> RankBefore(k, o, a, c)
    ensures a.id != b.id ==> RankBefore(k, o, a, b) || RankBefore(k, o, b, a)
    ensures RankBefore(k, o, a, b) ==> !RankBefore(k, o, b, a)
  {
    KeyCompareFacts(k, a, b);
    KeyCompareFacts(k, b, c);
    KeyCompareFacts(k, a, c);
    KeyCompareFacts(k, a, a);
    KeyCompareTransitive(k, a, b, c);
    KeyCompareTransitive(k, c, b, a);
  }

  /** `ranked` is the listing of `q` over `records`: exactly the matching records, in listing order. */
  ghost predicate IsRanking(ranked: seq<Drug>, records: seq<Drug>, q: Query) {
    (forall d :: d in ranked <==> d in records && Matches(q, d))
    && StrictlySorted(ranked, (a, b) => RankBefore(q.sortBy, q.sortOrder, a, b))
  }

  /** There is only one listing: two rankings of the same query and records are equal. */
  lemma RankingUnique(r1: seq<Drug>, r2: seq<Drug>, records: seq<Drug>, q: Query)
    requires IsRanking(r1, records, q) && IsRanking(r2, records, q)
    ensures r1 == r2
  {
    var less := (a, b) => RankBefore(q.sortBy, q.sortOrder, a, b);
    forall x, y ensures !(less(x, y) && less(y, x)) {
      RankBeforeStrictTotal(q.sortBy, q.sortOrder, x, y, x);
    }
    StrictlySortedUnique(r1, r2, less);
  }

  // ---------------------------------------------------------------------------
  // The filter document and its evaluation by the store
  // ---------------------------------------------------------------------------

  datatype DocField = CodePath | GenericNamePath | BrandNamePath | CompanyPath

  function TextOf(d: Drug, f: DocField): string {
    match f
    case CodePath => d.code
    case GenericNamePath => d.genericName
    case BrandNamePath => d.brandName
    case CompanyPath => d.company
  }

  /** One top-level condition: an equality, or an `$or` of case-insensitive pattern matches. */
  datatype Condition =
    | FieldEquals(field: DocField, value: string)
    | AnyFieldMatches(fields: seq<DocField>, pattern: string)

  /** A filter document; its conditions must all hold. */
  type FilterDoc = seq<Condition>

  predicate Holds(c: Condition, d: Drug) {
    match c
    case FieldEquals(f, v) => TextOf(d, f) == v
    case AnyFieldMatches(fs, p) => exists i :: 0 <= i < |fs| && ContainsFold(TextOf(d, fs[i]), p)
  }

  predicate Admits(doc: FilterDoc, d: Drug) {
    forall i :: 0 <= i < |doc| ==> Holds(doc[i], d)
  }

  lemma AdmitsSnoc(doc: FilterDoc, c: Condition, d: Drug)
    ensures Admits(doc + [c], d) <==> Admits(doc, d) && Holds(c, d)
  {
    if Admits(doc, d) && Holds(c, d) {
      forall i | 0 <= i < |doc + [c]| ensures Holds((doc + [c])[i], d) {
        if i < |doc| { assert (doc + [c])[i] == doc[i]; }
      }
    }
    if Admits(doc + [c], d) {
      assert (doc + [c])[|doc|] == c;
      forall i | 0 <= i < |doc| ensures Holds(doc[i], d) {
        assert (doc + [c])[i] == doc[i];
      }
    }
  }

  /** The `$or` over the four text fields holds exactly when the search matches. */
  lemma SearchCondition(search: Option<string>, d: Drug)
    requires Truthy(search)
    ensures Holds(AnyFieldMatches([GenericNamePath, BrandNamePath, CompanyPath, CodePath], search.value), d)
        <==> SearchMatches(search, d)
  {
    var fields := [GenericNamePath, BrandNamePath, CompanyPath, CodePath];
    assert TextOf(d, fields[0]) == d.genericName && TextOf(d, fields[1]) == d.brandName;
    assert TextOf(d, fields[2]) == d.company && TextOf(d, fields[3]) == d.code;
  }

  /** The filter of `getDrugs`, assembled key by key: `company` when given, then the `$or` search. */
  method BuildFilter(company: Option<string>, search: Option<string>) returns (doc: FilterDoc)
    ensures forall d :: Admits(doc, d) <==> CompanyMatches(company, d) && SearchMatches(search, d)
    ensures |doc| <= 2
  {
    doc := [];
    if Truthy(company) {
      var c := FieldEquals(CompanyPath, company.value);
      forall d ensures Admits(doc + [c], d) <==> CompanyMatches(company, d) {
        AdmitsSnoc(doc, c, d);
      }
      doc := doc + [c];
    }
    assert forall d :: Admits(doc, d) <==> CompanyMatches(company, d);
    if Truthy(search) {
      var c := AnyFieldMatches([GenericNamePath, BrandNamePath, CompanyPath, CodePath], search.value);
      forall d ensures Admits(doc + [c], d) <==> CompanyMatches(company, d) && SearchMatches(search, d) {
        AdmitsSnoc(doc, c, d);
        SearchCondition(search, d);
      }
      doc := doc + [c];
    }
  }

  /** `find(filter)` in natural (storage) order. */
  function FilterDocs(records: seq<Drug>, doc: FilterDoc): (r: seq<Drug>)
    ensures forall d :: d in r <==> d in records && Admits(doc, d)
    ensures DistinctIds(records) ==> DistinctIds(r)
    ensures |r| <= |records|
  {
    if records == [] then []
    else
      var rest := FilterDocs(records[1..], doc);
      assert records == [records[0]] + records[1..];
      TailDistinct(records);
      if Admits(doc, records[0]) then
        if DistinctIds(records) then ConsDistinct(records, rest); [records[0]] + rest
        else [records[0]] + rest
      else rest
  }

  lemma TailDistinct(records: seq<Drug>)
    requires records != []
    ensures DistinctIds(records) ==> DistinctIds(records[1..])
  {
    if DistinctIds(records) {
      forall i, j | 0 <= i < j < |records[1..]| ensures records[1..][i].id != records[1..][j].id {
        assert records[1..][i] == records[i + 1] && records[1..][j] == records[j + 1];
      }
    }
  }

  /** Putting the head back in front of distinct records drawn from the tail keeps ids distinct. */
  lemma ConsDistinct(records: seq<Drug>, rest: seq<Drug>)
    requires records != [] && DistinctIds(records) && DistinctIds(rest)
    requires forall d :: d in rest ==> d in records[1..]
    ensures DistinctIds([records[0]] + rest)
  {
    var r := [records[0]] + rest;
    forall i, j | 0 <= i < j < |r| ensures r[i].id != r[j].id {
      assert r[j] == rest[j - 1];
      if i == 0 {
        assert rest[j - 1] in records[1..];
        var k :| 0 <= k < |records[1..]| && records[1..][k] == rest[j - 1];
        assert records[k + 1] == r[j];
      } else {
        assert r[i] == rest[i - 1];
      }
    }
  }

  // ---------------------------------------------------------------------------
  // The sort document and its evaluation by the store
  // ---------------------------------------------------------------------------

  datatype SortField = SortCode | SortGenericName | SortCompany | SortLaunchDate | SortId

  datatype Direction = Ascending | Descending

  datatype SortTerm = SortTerm(field: SortField, direction: Direction)

  function FieldCompare(f: SortField, a: Drug, b: Drug): (c: int)
    ensures -1 <= c <= 1
  {
    match f
    case SortCode => LexCompare(a.code, b.code)
    case SortGenericName => LexCompare(a.genericName, b.genericName)
    case SortCompany => LexCompare(a.company, b.company)
    case SortLaunchDate => IntCompare(a.launchDate, b.launchDate)
    case SortId => IntCompare(a.id, b.id)
  }

  function TermCompare(t: SortTerm, a: Drug, b: Drug): int {
    if t.direction == Ascending then FieldCompare(t.field, a, b) else -FieldCompare(t.field, a, b)
  }

  /** Order of a sort document: the first term on which the two records differ decides. */
  function Cmp(terms: seq<SortTerm>, a: Drug, b: Drug): (c: int)
    ensures -1 <= c <= 1
  {
    if terms == [] then 0
    else
      var c := TermCompare(terms[0], a, b);
      if c != 0 then c else Cmp(terms[1..], a, b)
  }

  lemma FieldCompareFacts(f: SortField, a: Drug, b: Drug, c: Drug)
    ensures FieldCompare(f, a, b) == -FieldCompare(f, b, a)
    ensures FieldCompare(f, a, b) < 0 && FieldCompare(f, b, c) < 0 ==> FieldCompare(f, a, c) < 0
    ensures FieldCompare(f, a, b) == 0 ==> FieldCompare(f, a, c) == FieldCompare(f, b, c)
  {
    match f
    case SortCode =>
      LexCompareAntisymmetric(a.code, b.code);
      LexCompareZero(a.code, b.code);
      if LexCompare(a.code, b.code) < 0 && LexCompare(b.code, c.code) < 0 { LexCompareTransitive(a.code, b.code, c.code); }
    case SortGenericName =>
      LexCompareAntisymmetric(a.genericName, b.genericName);
      LexCompareZero(a.genericName, b.genericName);
      if LexCompare(a.genericName, b.genericName) < 0 && LexCompare(b.genericName, c.genericName) < 0 {
        LexCompareTransitive(a.genericName, b.genericName, c.genericName);
      }
    case SortCompany =>
      LexCompareAntisymmetric(a.company, b.company);
      LexCompareZero(a.company, b.company);
      if LexCompare(a.company, b.company) < 0 && LexCompare(b.company, c.company) < 0 {
        LexCompareTransitive(a.company, b.company, c.company);
      }
    case SortLaunchDate =>
    case SortId =>
  }

  lemma {:induction false} CmpAntisymmetric(terms: seq<SortTerm>, a: Drug, b: Drug)
    ensures Cmp(terms, a, b) == -Cmp(terms, b, a)
  {
    if terms != [] {
      FieldCompareFacts(terms[0].field, a, b, a);
      CmpAntisymmetric(terms[1..], a, b);
    }
  }

  lemma {:induction false} CmpTransitive(terms: seq<SortTerm>, a: Drug, b: Drug, c: Drug)
    requires Cmp(terms, a, b) < 0 && Cmp(terms, b, c) < 0
    ensures Cmp(terms, a, c) < 0
  {
    if terms != [] {
      var f := terms[0].field;
      FieldCompareFacts(f, a, b, c);
      FieldCompareFacts(f, b, c, a);
      FieldCompareFacts(f, c, b, a);
      FieldCompareFacts(f, b, a, c);
      FieldCompareFacts(f, a, c, b);
      if TermCompare(terms[0], a, b) == 0 && TermCompare(terms[0], b, c) == 0 {
        CmpTransitive(terms[1..], a, b, c);
      }
    }
  }

  /** A sort document ending in the `_id` term never ties two records with different ids. */
  lemma {:induction false} CmpIdTieBreak(terms: seq<SortTerm>, a: Drug, b: Drug)
    requires terms != [] && terms[|terms| - 1] == SortTerm(SortId, Ascending)
    requires a.id != b.id
    ensures Cmp(terms, a, b) != 0
  {
    if |terms| > 1 && TermCompare(terms[0], a, b) == 0 {
      CmpIdTieBreak(terms[1..], a, b);
    }
  }

  /** The sort of `getDrugs`: the chosen key (`name` meaning the generic name) in the chosen
      direction, then `_id` ascending. Its order is the listing order. */
  method BuildSort(k: SortKey, o: SortOrder) returns (terms: seq<SortTerm>)
    ensures terms != [] && terms[|terms| - 1] == SortTerm(SortId, Ascending)
    ensures forall a, b :: Cmp(terms, a, b) < 0 <==> RankBefore(k, o, a, b)
  {
    var field := match k
      case ByCode => SortCode
      case ByName => SortGenericName
      case ByCompany => SortCompany
      case ByLaunchDate => SortLaunchDate;
    terms := [];
    terms := terms + [SortTerm(field, if o == Asc then Ascending else Descending)];
    terms := terms + [SortTerm(SortId, Ascending)];
    forall a, b ensures Cmp(terms, a, b) < 0 <==> RankBefore(k, o, a, b) {
      var tail := terms[1..];
      assert tail == [SortTerm(SortId, Ascending)] && tail[1..] == [];
      assert Cmp(tail, a, b) == IntCompare(a.id, b.id);
      assert FieldCompare(field, a, b) == KeyCompare(k, a, b);
    }
  }

  predicate SortedBy(terms: seq<SortTerm>, s: seq<Drug>) {
    forall i, j :: 0 <= i < j < |s| ==> Cmp(terms, s[i], s[j]) < 0
  }

  /** Places `x` into a sorted sequence. */
  function Insert(terms: seq<SortTerm>, x: Drug, s: seq<Drug>): (r: seq<Drug>)
    requires SortedBy(terms, s)
    requires forall i :: 0 <= i < |s| ==> Cmp(terms, x, s[i]) != 0
    ensures multiset(r) == multiset(s) + multiset{x}
    ensures SortedBy(terms, r)
    decreases |s|
  {
    if s == [] then [x]
    else if Cmp(terms, x, s[0]) < 0 then
      InsertFront(terms, x, s);
      [x] + s
    else
      CmpAntisymmetric(terms, x, s[0]);
      var t := Insert(terms, x, s[1..]);
      InsertBehind(terms, x, s, t);
      assert s == [s[0]] + s[1..];
      [s[0]] + t
  }

  lemma InsertFront(terms: seq<SortTerm>, x: Drug, s: seq<Drug>)
    requires s != [] && SortedBy(terms, s) && Cmp(terms, x, s[0]) < 0
    ensures SortedBy(terms, [x] + s)
  {
    forall j | 1 <= j < |s| ensures Cmp(terms, x, s[j]) < 0 {
      CmpTransitive(terms, x, s[0], s[j]);
    }
  }

  /** The head of a sorted sequence comes before every member of its tail. */
  lemma HeadFirst(terms: seq<SortTerm>, s: seq<Drug>, y: Drug)
    requires s != [] && SortedBy(terms, s) && y in s[1..]
    ensures Cmp(terms, s[0], y) < 0
  {
    var i :| 0 <= i < |s[1..]| && s[1..][i] == y;
    assert s[i + 1] == y;
  }

  lemma InsertBehind(terms: seq<SortTerm>, x: Drug, s: seq<Drug>, t: seq<Drug>)
    requires s != [] && SortedBy(terms, s) && Cmp(terms, s[0], x) < 0
    requires multiset(t) == multiset(s[1..]) + multiset{x} && SortedBy(terms, t)
    ensures SortedBy(terms, [s[0]] + t)
  {
    forall j | 0 <= j < |t| ensures Cmp(terms, s[0], t[j]) < 0 {
      assert t[j] in multiset(t);
      if t[j] != x {
        assert t[j] in multiset(s[1..]);
        HeadFirst(terms, s, t[j]);
      }
    }
    ConsSorted(terms, s[0], t);
  }

  lemma ConsSorted(terms: seq<SortTerm>, h: Drug, t: seq<Drug>)
    requires SortedBy(terms, t) && forall j :: 0 <= j < |t| ==> Cmp(terms, h, t[j]) < 0
    ensures SortedBy(terms, [h] + t)
  {
    var r := [h] + t;
    forall i, j | 0 <= i < j < |r| ensures Cmp(terms, r[i], r[j]) < 0 {
      assert r[j] == t[j - 1];
      if i > 0 { assert r[i] == t[i - 1]; }
    }
  }

  predicate Untied(terms: seq<SortTerm>, s: seq<Drug>) {
    forall i, j :: 0 <= i < j < |s| ==> Cmp(terms, s[i], s[j]) != 0
  }

  lemma UntiedTail(terms: seq<SortTerm>, s: seq<Drug>, y: Drug)
    requires s != [] && Untied(terms, s)
    ensures Untied(terms, s[1..])
    ensures y in s[1..] ==> Cmp(terms, s[0], y) != 0
  {
    forall i, j | 0 <= i < j < |s[1..]| ensures Cmp(terms, s[1..][i], s[1..][j]) != 0 {
      assert s[1..][i] == s[i + 1] && s[1..][j] == s[j + 1];
    }
    if y in s[1..] {
      var i :| 0 <= i < |s[1..]| && s[1..][i] == y;
      assert s[i + 1] == y;
    }
  }

  /** The store's sort, for records no two of which the sort document ties. */
  function SortDocs(terms: seq<SortTerm>, s: seq<Drug>): (r: seq<Drug>)
    requires Untied(terms, s)
    ensures multiset(r) == multiset(s)
    ensures SortedBy(terms, r)
  {
    if s == [] then []
    else
      UntiedTail(terms, s, s[0]);
      var t := SortDocs(terms, s[1..]);
      HeadUntied(terms, s, t);
      assert s == [s[0]] + s[1..];
      Insert(terms, s[0], t)
  }

  /** The head of an untied sequence ties with no rearrangement of its tail. */
  lemma HeadUntied(terms: seq<SortTerm>, s: seq<Drug>, t: seq<Drug>)
    requires s != [] && Untied(terms, s) && multiset(t) == multiset(s[1..])
    ensures forall j :: 0 <= j < |t| ==> Cmp(terms, s[0], t[j]) != 0
  {
    forall j | 0 <= j < |t| ensures Cmp(terms, s[0], t[j]) != 0 {
      assert t[j] in multiset(s[1..]);
      UntiedTail(terms, s, t[j]);
    }
  }

  lemma UntiedByIds(terms: seq<SortTerm>, s: seq<Drug>)
    requires terms != [] && terms[|terms| - 1] == SortTerm(SortId, Ascending)
    requires DistinctIds(s)
    ensures Untied(terms, s)
  {
    forall i, j | 0 <= i < j < |s| ensures Cmp(terms, s[i], s[j]) != 0 {
      CmpIdTieBreak(terms, s[i], s[j]);
    }
  }

  /** `find(filter).sort(sort)`: the matching records in sort-document order. */
  function Listing(records: seq<Drug>, doc: FilterDoc, terms: seq<SortTerm>): (r: seq<Drug>)
    requires DistinctIds(records)
    requires terms != [] && terms[|terms| - 1] == SortTerm(SortId, Ascending)
    ensures forall d :: d in r <==> d in records && Admits(doc, d)
    ensures |r| == |FilterDocs(records, doc)|
    ensures SortedBy(terms, r)
  {
    var matching := FilterDocs(records, doc);
    UntiedByIds(terms, matching);
    var r := SortDocs(terms, matching);
    assert forall d :: d in r <==> d in matching by {
      forall d ensures d in r <==> d in matching {
        assert d in r <==> d in multiset(r);
        assert d in matching <==> d in multiset(matching);
      }
    }
    assert |r| == |multiset(r)| == |multiset(matching)| == |matching|;
    r
  }

  /** `.skip(skip).limit(limit)`; a limit of 0 means no limit. */
  function Window<T>(s: seq<T>, skip: nat, limit: nat): (r: seq<T>)
    ensures |r| == if skip >= |s| then 0 else if limit == 0 || skip + limit > |s| then |s| - skip else limit
    ensures forall i :: 0 <= i < |r| ==> r[i] == s[skip + i]
  {
    if skip >= |s| then []
    else if limit == 0 || skip + limit > |s| then s[skip..]
    else s[skip..skip + limit]
  }

  // ---------------------------------------------------------------------------
  // The response
  // ---------------------------------------------------------------------------

  /** The display name of the response record. */
  function DisplayName(genericName: string, brandName: string): string {
    genericName + " (" + brandName + ")"
  }

  /** `transformDrugToDTO(drug, index)`: the id is the record's 1-based position in the whole listing. */
  function ToDto(d: Drug, index: nat): DrugDto {
    DrugDto(index + 1, d.code, DisplayName(d.genericName, d.brandName), d.company, d.launchDate)
  }

  /** `Math.ceil(n / m)` for a whole `n` and positive `m`. */
  function CeilDiv(n: nat, m: nat): (r: nat)
    requires m >= 1
    ensures r * m >= n
    ensures r > 0 ==> (r - 1) * m < n
  {
    var r := (n + m - 1) / m;
    assert n + m - 1 == r * m + (n + m - 1) % m;
    r
  }

  datatype Pagination = Pagination(
    currentPage: int, totalPages: int, totalItems: int, itemsPerPage: int,
    hasNextPage: bool, hasPreviousPage: bool)

  datatype DrugPage = DrugPage(data: seq<DrugDto>, pagination: Pagination)

  /** `(safePage - 1) * safeLimit`. */
  function Offset(page: int, limit: int): nat
    requires page >= 1 && limit >= 1
  {
    (page - 1) * limit
  }

  /** The pagination block: as many pages as it takes to hold every item, and whether there
      are pages after and before the current one. A page after the last starts past every item. */
  function Paginate(page: int, limit: int, totalItems: nat): (p: Pagination)
    requires page >= 1 && limit >= 1
    ensures p.currentPage == page && p.itemsPerPage == limit && p.totalItems == totalItems
    ensures p.totalPages >= 0
    ensures p.totalPages * limit >= totalItems
    ensures p.totalPages > 0 ==> (p.totalPages - 1) * limit < totalItems
    ensures p.hasNextPage <==> page < p.totalPages
    ensures p.hasPreviousPage <==> page > 1
    ensures page > p.totalPages ==> Offset(page, limit) >= totalItems
    ensures page > p.totalPages ==> !p.hasNextPage && (p.totalPages > 0 ==> p.hasPreviousPage)
  {
    var totalPages := CeilDiv(totalItems, limit);
    PastLastPage(totalItems, page, limit, totalPages);
    Pagination(page, totalPages, totalItems, limit, page < totalPages, page > 1)
  }

  /** A page after the last one starts past the end of the listing. */
  lemma PastLastPage(total: nat, page: int, limit: nat, totalPages: nat)
    requires limit >= 1 && totalPages * limit >= total
    ensures page > totalPages ==> (page - 1) * limit >= total
  {
    if page > totalPages {
      var d: nat := page - 1 - totalPages;
      assert (page - 1) * limit == totalPages * limit + d * limit;
    }
  }

  /** `data` is the window of `ranked` starting at `skip`, as response records numbered by rank. */
  ghost predicate ShowsWindow(data: seq<DrugDto>, ranked: seq<Drug>, skip: nat, limit: nat) {
    |data| == (if skip >= |ranked| then 0 else if skip + limit > |ranked| then |ranked| - skip else limit)
    && forall i :: 0 <= i < |data| ==> data[i] == ToDto(ranked[skip + i], skip + i)
  }

  /** `drugs.map((drug, index) => transformDrugToDTO(drug, skip + index))`. */
  function Dtos(drugs: seq<Drug>, skip: nat): (r: seq<DrugDto>)
    ensures |r| == |drugs|
    ensures forall i :: 0 <= i < |r| ==> r[i] == ToDto(drugs[i], skip + i)
  {
    seq(|drugs|, i requires 0 <= i < |drugs| => ToDto(drugs[i], skip + i))
  }

  /** `getDrugs(query)` over one snapshot of the collection: the page of the query's listing
      selected by the clamped page and limit, and its pagination block. */
  method GetDrugs(records: seq<Drug>, q: Query) returns (r: DrugPage)
    requires DistinctIds(records)
    ensures exists ranked ::
      && IsRanking(ranked, records, q)
      && r.pagination == Paginate(ClampPage(q.page), ClampLimit(q.limit), |ranked|)
      && ShowsWindow(r.data, ranked, Offset(ClampPage(q.page), ClampLimit(q.limit)), ClampLimit(q.limit))
    ensures r.pagination.currentPage > r.pagination.totalPages ==> r.data == []
  {
    var page := ClampPage(q.page);
    var limit := ClampLimit(q.limit);
    var doc := BuildFilter(q.company, q.search);
    var terms := BuildSort(q.sortBy, q.sortOrder);
    var skip := Offset(page, limit);
    var ranked := Listing(records, doc, terms);
    var drugs := Window(ranked, skip, limit);
    var totalItems := |FilterDocs(records, doc)|;
    r := DrugPage(Dtos(drugs, skip), Paginate(page, limit, totalItems));
    ListingIsRanking(records, q, doc, terms);
    WindowShown(ranked, skip, limit);
  }

  /** The numbered window of a listing is what `ShowsWindow` describes. */
  lemma WindowShown(ranked: seq<Drug>, skip: nat, limit: nat)
    requires limit >= 1
    ensures ShowsWindow(Dtos(Window(ranked, skip, limit), skip), ranked, skip, limit)
  {
  }

  /** The store's answer to the built documents is the listing of the query. */
  lemma ListingIsRanking(records: seq<Drug>, q: Query, doc: FilterDoc, terms: seq<SortTerm>)
    requires DistinctIds(records)
    requires terms != [] && terms[|terms| - 1] == SortTerm(SortId, Ascending)
    requires forall d :: Admits(doc, d) <==> CompanyMatches(q.company, d) && SearchMatches(q.search, d)
    requires forall a, b :: Cmp(terms, a, b) < 0 <==> RankBefore(q.sortBy, q.sortOrder, a, b)
    ensures IsRanking(Listing(records, doc, terms), records, q)
  {
    var ranked := Listing(records, doc, terms);
    forall i, j | 0 <= i < j < |ranked|
      ensures RankBefore(q.sortBy, q.sortOrder, ranked[i], ranked[j])
    {
      assert Cmp(terms, ranked[i], ranked[j]) < 0;
    }
  }

  // ---------------------------------------------------------------------------
  // Aggregates
  // ---------------------------------------------------------------------------

  predicate HasCompany(records: seq<Drug>, c: string) {
    exists i :: 0 <= i < |records| && records[i].company == c
  }

  /** Adds `x` to an ascending list of distinct names. */
  function InsertName(s: seq<string>, x: string): (r: seq<string>)
    requires StrictlySorted(s, LexLess)
    ensures StrictlySorted(r, LexLess)
    ensures forall y :: y in r <==> y in s || y == x
    ensures |r| <= |s| + 1
  {
    if s == [] then [x]
    else if LexLess(x, s[0]) then
      forall j | 0 <= j < |s| ensures LexLess(x, s[j]) {
        if j > 0 { LexCompareTransitive(x, s[0], s[j]); }
      }
      ConsNames(x, s);
      [x] + s
    else if x == s[0] then s
    else
      LexCompareAntisymmetric(x, s[0]);
      LexCompareZero(x, s[0]);
      var t := InsertName(s[1..], x);
      assert s == [s[0]] + s[1..];
      HeadBelowInserted(s, x, t);
      ConsNames(s[0], t);
      [s[0]] + t
  }

  /** A name below every member of an ascending list may go in front of it. */
  lemma ConsNames(h: string, t: seq<string>)
    requires StrictlySorted(t, LexLess) && forall j :: 0 <= j < |t| ==> LexLess(h, t[j])
    ensures StrictlySorted([h] + t, LexLess)
  {
    var r := [h] + t;
    forall i, j | 0 <= i < j < |r| ensures LexLess(r[i], r[j]) {
      assert r[j] == t[j - 1];
      if i > 0 { assert r[i] == t[i - 1]; }
    }
  }

  /** The head of an ascending list is below every member of its tail and below any larger name. */
  lemma HeadBelowInserted(s: seq<string>, x: string, t: seq<string>)
    requires s != [] && StrictlySorted(s, LexLess) && LexLess(s[0], x)
    requires forall y :: y in t ==> y in s[1..] || y == x
    ensures forall j :: 0 <= j < |t| ==> LexLess(s[0], t[j])
  {
    forall j | 0 <= j < |t| ensures LexLess(s[0], t[j]) {
      assert t[j] in t;
      if t[j] != x {
        var i :| 0 <= i < |s[1..]| && s[1..][i] == t[j];
        assert s[i + 1] == t[j];
      }
    }
  }

  /** `distinct('company')` followed by `sort()`: every company once, in ascending order. */
  function Companies(records: seq<Drug>): (r: seq<string>)
    ensures StrictlySorted(r, LexLess)
    ensures forall c :: c in r <==> HasCompany(records, c)
    ensures |r| <= |records|
  {
    if records == [] then []
    else
      var init := records[..|records| - 1];
      var r := InsertName(Companies(init), records[|records| - 1].company);
      assert forall c :: HasCompany(records, c) <==> HasCompany(init, c) || c == records[|records| - 1].company by {
        forall c ensures HasCompany(records, c) <==> HasCompany(init, c) || c == records[|records| - 1].company {
          if HasCompany(records, c) {
            var i :| 0 <= i < |records| && records[i].company == c;
            if i < |records| - 1 { assert init[i] == records[i]; }
          }
          if HasCompany(init, c) {
            var i :| 0 <= i < |init| && init[i].company == c;
            assert records[i] == init[i];
          }
        }
      }
      r
  }

  /** Ascending order on names is asymmetric, so the company list is the only one of its kind. */
  lemma CompaniesUnique(records: seq<Drug>, s: seq<string>)
    requires StrictlySorted(s, LexLess)
    requires forall c :: c in s <==> HasCompany(records, c)
    ensures s == Companies(records)
  {
    forall x, y ensures !(LexLess(x, y) && LexLess(y, x)) {
      LexCompareAntisymmetric(x, y);
    }
    StrictlySortedUnique(s, Companies(records), LexLess);
  }

  /** Launch date of `findOne().sort({ launchDate: 1 })`, or none for an empty collection. */
  function EarliestLaunch(records: seq<Drug>): (r: Option<int>)
    ensures r.None? <==> records == []
    ensures r.Some? ==> exists i :: 0 <= i < |records| && records[i].launchDate == r.value
    ensures r.Some? ==> forall i :: 0 <= i < |records| ==> r.value <= records[i].launchDate
  {
    if records == [] then None
    else
      var rest := EarliestLaunch(records[1..]);
      if rest.None? || records[0].launchDate <= rest.value then Some(records[0].launchDate)
      else
        var i :| 0 <= i < |records[1..]| && records[1..][i].launchDate == rest.value;
        assert records[i + 1].launchDate == rest.value;
        rest
  }

  /** Launch date of `findOne().sort({ launchDate: -1 })`, or none for an empty collection. */
  function LatestLaunch(records: seq<Drug>): (r: Option<int>)
    ensures r.None? <==> records == []
    ensures r.Some? ==> exists i :: 0 <= i < |records| && records[i].launchDate == r.value
    ensures r.Some? ==> forall i :: 0 <= i < |records| ==> records[i].launchDate <= r.value
  {
    if records == [] then None
    else
      var rest := LatestLaunch(records[1..]);
      if rest.None? || records[0].launchDate >= rest.value then Some(records[0].launchDate)
      else
        var i :| 0 <= i < |records[1..]| && records[1..][i].launchDate == rest.value;
        assert records[i + 1].launchDate == rest.value;
        rest
  }

  /** `totalDrugs / totalCompanies`, or 0 when there are no companies. */
  function Mean(total: nat, distinct: nat): (a: real)
    ensures distinct == 0 ==> a == 0.0
    ensures distinct > 0 ==> a == total as real / distinct as real
    ensures 0 < distinct <= total ==> a >= 1.0
  {
    if distinct > 0 then
      var a := total as real / distinct as real;
      assert a * distinct as real == total as real;
      assert a < 1.0 ==> a * distinct as real < distinct as real;
      a
    else 0.0
  }

  datatype Statistics = Statistics(
    totalDrugs: nat, totalCompanies: nat, averageDrugsPerCompany: real,
    oldestDrug: Option<int>, newestDrug: Option<int>)

  /** `getStatistics()` over one snapshot of the collection. */
  function GetStatistics(records: seq<Drug>): (st: Statistics)
    ensures st.totalDrugs == |records|
    ensures st.totalCompanies == |Companies(records)| <= st.totalDrugs
    ensures st.totalCompanies == 0 <==> st.totalDrugs == 0
    ensures st.totalCompanies == 0 ==> st.averageDrugsPerCompany == 0.0
    ensures st.totalCompanies > 0 ==> st.averageDrugsPerCompany == st.totalDrugs as real / st.totalCompanies as real
    ensures st.totalCompanies > 0 ==> st.averageDrugsPerCompany >= 1.0
    ensures st.oldestDrug.None? <==> records == []
    ensures st.newestDrug.None? <==> records == []
    ensures st.oldestDrug.Some? ==> forall i :: 0 <= i < |records| ==>
      st.oldestDrug.value <= records[i].launchDate <= st.newestDrug.value
  {
    var companies := Companies(records);
    assert records != [] ==> HasCompany(records, records[0].company);
    var total := |records|;
    var distinct := |companies|;
    var average := Mean(total, distinct);
    Statistics(total, distinct, average, EarliestLaunch(records), LatestLaunch(records))
  }
}
