/** The listing query schema and the response record of backend/src/types/dto.ts.
    A raw query holds the query-string values as text; parsing coerces `page` and `limit`
    the way JavaScript's `Number(text)` does, applies the schema's checks to every field
    and either returns the typed query with its defaults or every issue it found. */
module QueryDto {
  import opened Common

  // ---------------------------------------------------------------------------
  // Enumerations
  // ---------------------------------------------------------------------------

  /** The `sortBy` enum: code, name, company, launchDate. */
  datatype SortKey = ByCode | ByName | ByCompany | ByLaunchDate

  /** The `sortOrder` enum. */
  datatype SortOrder = Asc | Desc

  const SortKeyNames: set<string> := {"code", "name", "company", "launchDate"}

  const SortOrderNames: set<string> := {"asc", "desc"}

  function SortKeyName(k: SortKey): string {
    match k
    case ByCode => "code"
    case ByName => "name"
    case ByCompany => "company"
    case ByLaunchDate => "launchDate"
  }

  function SortOrderName(o: SortOrder): string {
    match o
    case Asc => "asc"
    case Desc => "desc"
  }

  /** `z.enum(['code', 'name', 'company', 'launchDate'])` on one value. */
  function ParseSortKey(s: string): (r: Option<SortKey>)
    ensures r.Some? <==> s in SortKeyNames
    ensures r.Some? ==> SortKeyName(r.value) == s
  {
    if s == "code" then Some(ByCode)
    else if s == "name" then Some(ByName)
    else if s == "company" then Some(ByCompany)
    else if s == "launchDate" then Some(ByLaunchDate)
    else None
  }

  /** `z.enum(['asc', 'desc'])` on one value. */
  function ParseSortOrder(s: string): (r: Option<SortOrder>)
    ensures r.Some? <==> s in SortOrderNames
    ensures r.Some? ==> SortOrderName(r.value) == s
  {
    if s == "asc" then Some(Asc) else if s == "desc" then Some(Desc) else None
  }

  lemma SortNamesRoundTrip(k: SortKey, o: SortOrder)
    ensures ParseSortKey(SortKeyName(k)) == Some(k)
    ensures ParseSortOrder(SortOrderName(o)) == Some(o)
  {
  }

  // ---------------------------------------------------------------------------
  // Number coercion (`z.coerce.number()` calls `Number(text)`)
  // ---------------------------------------------------------------------------

  predicate AllDigits(s: string) {
    forall i :: 0 <= i < |s| ==> IsDigit(s[i])
  }

  /** What the schema's checks see of a number: its sign, its whole part, and whether a
      non-zero digit follows the decimal point. It stands for `±(whole + f)` with `0 <= f < 1`,
      where `f > 0` exactly when `fractional`. */
  datatype Numeric = Numeric(negative: bool, whole: nat, fractional: bool)

  /** Some digit is not `0`. */
  predicate NonZeroDigit(ds: string) {
    exists i :: 0 <= i < |ds| && ds[i] != '0'
  }

  /** An unsigned decimal literal: digits, optionally a point and more digits, at least one digit in all. */
  function UnsignedDecimal(b: string): Option<Numeric> {
    var k := FirstIndex(b, '.');
    var whole := b[..k];
    var fraction := if k < |b| then b[k + 1..] else "";
    if AllDigits(whole) && AllDigits(fraction) && |whole| + |fraction| >= 1 then
      Some(Numeric(false, DigitsValue(whole), NonZeroDigit(fraction)))
    else None
  }

  /** `Number(text)` restricted to decimal literals; `None` stands for NaN. Surrounding white
      space is ignored and blank text is zero, as in JavaScript. */
  function NumberOf(text: string): Option<Numeric> {
    SignedDecimal(Trim(text))
  }

  /** A trimmed numeric literal: empty (zero), or an unsigned literal with an optional sign. */
  function SignedDecimal(t: string): Option<Numeric> {
    if t == "" then Some(Numeric(false, 0, false))
    else if t[0] == '-' then
      match UnsignedDecimal(t[1..])
      case Some(v) => Some(v.(negative := true))
      case None => None
    else if t[0] == '+' then UnsignedDecimal(t[1..])
    else UnsignedDecimal(t)
  }

  /** A number with no fraction. */
  predicate IsWhole(v: Numeric) { !v.fractional }

  /** The integer a whole number is; `-0` is 0. */
  function IntValue(v: Numeric): int {
    if v.negative then -(v.whole as int) else v.whole
  }

  /** `text` coerces to exactly the integer `n`. */
  predicate Denotes(text: string, n: int) {
    var v := NumberOf(text);
    v.Some? && IsWhole(v.value) && IntValue(v.value) == n
  }

  /** A literal without a sign, with no white space at its ends, is read as it is. */
  lemma PlainDecimal(s: string, v: Numeric)
    requires |s| >= 1 && Trimmed(s) && s[0] != '-' && s[0] != '+' && UnsignedDecimal(s) == Some(v)
    ensures NumberOf(s) == Some(v)
  {
    TrimmedFixed(s);
  }

  /** A minus sign followed by a literal without trailing white space is read negated. */
  lemma MinusDecimal(s: string, v: Numeric)
    requires |s| >= 1 && !IsSpace(s[|s| - 1]) && UnsignedDecimal(s) == Some(v)
    ensures NumberOf("-" + s) == Some(v.(negative := true))
  {
    var t := "-" + s;
    assert t[|t| - 1] == s[|s| - 1];
    TrimmedFixed(t);
    assert t[1..] == s;
  }

  /** A text read as a whole number denotes that number's integer. */
  lemma WholeDenotes(text: string, v: Numeric)
    requires NumberOf(text) == Some(v) && IsWhole(v)
    ensures Denotes(text, IntValue(v))
  {
  }

  /** A plain run of digits is read as its decimal value `n`. */
  lemma DigitsDenote(s: string, n: nat)
    requires |s| >= 1 && AllDigits(s) && DigitsValue(s) == n
    ensures Denotes(s, n)
  {
    assert Trimmed(s) && s[0] != '-' && s[0] != '+' by {
      assert IsDigit(s[0]) && IsDigit(s[|s| - 1]);
    }
    var v := Numeric(false, n, false);
    UnsignedDigits(s);
    PlainDecimal(s, v);
    WholeDenotes(s, v);
  }

  /** A negated run of digits is read as `-n`, where `n` is its decimal value. */
  lemma NegatedDigitsDenote(s: string, n: nat)
    requires |s| >= 1 && AllDigits(s) && DigitsValue(s) == n
    ensures Denotes("-" + s, -(n as int))
  {
    assert !IsSpace(s[|s| - 1]) by {
      assert IsDigit(s[|s| - 1]);
    }
    var v := Numeric(false, n, false);
    UnsignedDigits(s);
    MinusDecimal(s, v);
    WholeDenotes("-" + s, v.(negative := true));
  }

  /** Printing a natural number and coercing it back gives the number. */
  lemma NumberOfNatToString(n: nat)
    ensures Denotes(NatToString(n), n)
  {
    DigitsDenote(NatToString(n), n);
  }

  /** A plain run of digits is read as its decimal value. */
  lemma UnsignedDigits(s: string)
    requires |s| >= 1 && AllDigits(s)
    ensures UnsignedDecimal(s) == Some(Numeric(false, DigitsValue(s), false))
  {
    FirstIndexAbsent(s, '.');
    assert s[..|s|] == s;
  }

  lemma {:induction false} FirstIndexAbsent(s: string, c: char)
    requires forall i :: 0 <= i < |s| ==> s[i] != c
    ensures FirstIndex(s, c) == |s|
  {
    if s != [] {
      FirstIndexAbsent(s[1..], c);
    }
  }

  // ---------------------------------------------------------------------------
  // The schema's checks
  // ---------------------------------------------------------------------------

  /** The zod issue kinds this schema can raise. */
  datatype Issue = NotANumber | NotAnInteger | TooSmall | TooBig | InvalidEnumValue

  datatype QueryField = PageField | LimitField | CompanyField | SortByField | SortOrderField | SearchField

  datatype FieldIssue = FieldIssue(field: QueryField, issue: Issue)

  /** Greater than 0. */
  predicate Positive(v: Numeric) {
    !v.negative && (v.whole > 0 || v.fractional)
  }

  /** Greater than 100. */
  predicate AboveHundred(v: Numeric) {
    !v.negative && (v.whole > 100 || (v.whole == 100 && v.fractional))
  }

  /** Issues of `.int().positive()`, followed by `.max(100)` when `capped`; every failing check is reported. */
  function NumberIssues(v: Numeric, capped: bool): seq<Issue> {
    (if IsWhole(v) then [] else [NotAnInteger])
    + (if Positive(v) then [] else [TooSmall])
    + (if capped && AboveHundred(v) then [TooBig] else [])
  }

  lemma NumberIssuesEmpty(v: Numeric, capped: bool)
    ensures NumberIssues(v, capped) == [] <==> IsWhole(v) && 1 <= IntValue(v) && (capped ==> IntValue(v) <= 100)
  {
  }

  /** One numeric field: `z.coerce.number().int().positive()[.max(100)].optional().default(d)`. */
  function CheckNumber(text: Option<string>, default: int, capped: bool): (r: Result<int, seq<Issue>>)
    ensures text.None? ==> r == Ok(default)
    ensures text.Some? ==>
      (r.Ok? <==> exists n :: Denotes(text.value, n) && 1 <= n && (capped ==> n <= 100))
    ensures text.Some? && r.Ok? ==> Denotes(text.value, r.value) && 1 <= r.value && (capped ==> r.value <= 100)
    ensures r.Err? ==> r.error != []
  {
    match text
    case None => Ok(default)
    case Some(t) =>
      match NumberOf(t)
      case None => Err([NotANumber])
      case Some(v) =>
        var issues := NumberIssues(v, capped);
        NumberIssuesEmpty(v, capped);
        if issues == [] then
          assert Denotes(t, IntValue(v));
          Ok(IntValue(v))
        else
          Err(issues)
  }

  function CheckEnum<T>(text: Option<string>, parsed: Option<T>, default: T): Result<T, seq<Issue>> {
    if text.None? then Ok(default)
    else if parsed.Some? then Ok(parsed.value)
    else Err([InvalidEnumValue])
  }

  function Tag(field: QueryField, issues: seq<Issue>): (r: seq<FieldIssue>)
    ensures |r| == |issues|
    ensures forall i :: 0 <= i < |r| ==> r[i] == FieldIssue(field, issues[i])
  {
    if issues == [] then [] else [FieldIssue(field, issues[0])] + Tag(field, issues[1..])
  }

  function IssuesOf<T>(r: Result<T, seq<Issue>>): seq<Issue> {
    if r.Err? then r.error else []
  }

  // ---------------------------------------------------------------------------
  // Raw and typed queries
  // ---------------------------------------------------------------------------

  /** The query-string values as text; absent keys are `None`. */
  datatype RawQuery = RawQuery(
    page: Option<string>, limit: Option<string>, company: Option<string>,
    sortBy: Option<string>, sortOrder: Option<string>, search: Option<string>)

  /** `GetDrugsQuery`: page and limit are numbers, the service does not rely on their range. */
  datatype Query = Query(
    page: int, limit: int, company: Option<string>,
    sortBy: SortKey, sortOrder: SortOrder, search: Option<string>)

  const DefaultPage := 1
  const DefaultLimit := 20
  const DefaultSortKey := ByLaunchDate
  const DefaultSortOrder := Desc

  /** The raw value of one field is acceptable to the schema. */
  ghost predicate FieldValid(raw: RawQuery, f: QueryField) {
    match f
    case PageField => raw.page.None? || exists n :: Denotes(raw.page.value, n) && 1 <= n
    case LimitField => raw.limit.None? || exists n :: Denotes(raw.limit.value, n) && 1 <= n <= 100
    case SortByField => raw.sortBy.None? || raw.sortBy.value in SortKeyNames
    case SortOrderField => raw.sortOrder.None? || raw.sortOrder.value in SortOrderNames
    case CompanyField => true
    case SearchField => true
  }

  predicate Reports(issues: seq<FieldIssue>, f: QueryField) {
    exists i :: 0 <= i < |issues| && issues[i].field == f
  }

  function PageCheck(raw: RawQuery): Result<int, seq<Issue>> {
    CheckNumber(raw.page, DefaultPage, false)
  }

  function LimitCheck(raw: RawQuery): Result<int, seq<Issue>> {
    CheckNumber(raw.limit, DefaultLimit, true)
  }

  function SortByCheck(raw: RawQuery): Result<SortKey, seq<Issue>> {
    CheckEnum(raw.sortBy, if raw.sortBy.Some? then ParseSortKey(raw.sortBy.value) else None, DefaultSortKey)
  }

  function SortOrderCheck(raw: RawQuery): Result<SortOrder, seq<Issue>> {
    CheckEnum(raw.sortOrder, if raw.sortOrder.Some? then ParseSortOrder(raw.sortOrder.value) else None, DefaultSortOrder)
  }

  /** The issues of every field, in schema order (company and search never fail). */
  function AllIssues(raw: RawQuery): seq<FieldIssue> {
    Tag(PageField, IssuesOf(PageCheck(raw)))
    + Tag(LimitField, IssuesOf(LimitCheck(raw)))
    + Tag(SortByField, IssuesOf(SortByCheck(raw)))
    + Tag(SortOrderField, IssuesOf(SortOrderCheck(raw)))
  }

  lemma ReportsTag(field: QueryField, issues: seq<Issue>, f: QueryField)
    ensures Reports(Tag(field, issues), f) <==> field == f && issues != []
  {
    if field == f && issues != [] {
      assert Tag(field, issues)[0].field == f;
    }
  }

  lemma ReportsConcat(a: seq<FieldIssue>, b: seq<FieldIssue>, f: QueryField)
    ensures Reports(a + b, f) <==> Reports(a, f) || Reports(b, f)
  {
    if Reports(a + b, f) {
      var i :| 0 <= i < |a + b| && (a + b)[i].field == f;
      if i >= |a| { assert b[i - |a|].field == f; }
    }
    if Reports(a, f) {
      var i :| 0 <= i < |a| && a[i].field == f;
      assert (a + b)[i].field == f;
    }
    if Reports(b, f) {
      var i :| 0 <= i < |b| && b[i].field == f;
      assert (a + b)[|a| + i].field == f;
    }
  }

  /** A field is reported exactly when its raw value is invalid. */
  lemma AllIssuesReport(raw: RawQuery, f: QueryField)
    ensures Reports(AllIssues(raw), f) <==> !FieldValid(raw, f)
  {
    var p := Tag(PageField, IssuesOf(PageCheck(raw)));
    var l := Tag(LimitField, IssuesOf(LimitCheck(raw)));
    var b := Tag(SortByField, IssuesOf(SortByCheck(raw)));
    var o := Tag(SortOrderField, IssuesOf(SortOrderCheck(raw)));
    ReportsConcat(p + l + b, o, f);
    ReportsConcat(p + l, b, f);
    ReportsConcat(p, l, f);
    ReportsTag(PageField, IssuesOf(PageCheck(raw)), f);
    ReportsTag(LimitField, IssuesOf(LimitCheck(raw)), f);
    ReportsTag(SortByField, IssuesOf(SortByCheck(raw)), f);
    ReportsTag(SortOrderField, IssuesOf(SortOrderCheck(raw)), f);
  }

  /** `getDrugsQuerySchema.parse(raw)`: the typed query, or every issue of every field in schema order. */
  function ParseQuery(raw: RawQuery): (r: Result<Query, seq<FieldIssue>>)
    ensures r.Ok? <==> forall f :: FieldValid(raw, f)
    ensures r.Err? ==> r.error != [] && forall f :: Reports(r.error, f) <==> !FieldValid(raw, f)
    ensures r.Ok? ==> 1 <= r.value.page && 1 <= r.value.limit <= 100
    ensures r.Ok? ==> (if raw.page.None? then r.value.page == DefaultPage else Denotes(raw.page.value, r.value.page))
    ensures r.Ok? ==> (if raw.limit.None? then r.value.limit == DefaultLimit else Denotes(raw.limit.value, r.value.limit))
    ensures r.Ok? ==> (if raw.sortBy.None? then r.value.sortBy == DefaultSortKey else SortKeyName(r.value.sortBy) == raw.sortBy.value)
    ensures r.Ok? ==> (if raw.sortOrder.None? then r.value.sortOrder == DefaultSortOrder else SortOrderName(r.value.sortOrder) == raw.sortOrder.value)
    ensures r.Ok? ==> r.value.company == raw.company && r.value.search == raw.search
  {
    var issues := AllIssues(raw);
    forall f ensures Reports(issues, f) <==> !FieldValid(raw, f) {
      AllIssuesReport(raw, f);
    }
    assert issues != [] ==> Reports(issues, issues[0].field);
    if issues == [] then
      assert PageCheck(raw).Ok? && LimitCheck(raw).Ok? && SortByCheck(raw).Ok? && SortOrderCheck(raw).Ok?;
      Ok(Query(PageCheck(raw).value, LimitCheck(raw).value, raw.company,
               SortByCheck(raw).value, SortOrderCheck(raw).value, raw.search))
    else
      Err(issues)
  }

  /** A raw query whose every field holds a value the schema accepts parses to exactly those
      values, the absent ones replaced by the defaults. */
  lemma ParseAccepts(raw: RawQuery, page: int, limit: int, sortBy: SortKey, sortOrder: SortOrder)
    requires if raw.page.None? then page == DefaultPage else Denotes(raw.page.value, page) && 1 <= page
    requires if raw.limit.None? then limit == DefaultLimit else Denotes(raw.limit.value, limit) && 1 <= limit <= 100
    requires if raw.sortBy.None? then sortBy == DefaultSortKey else raw.sortBy.value == SortKeyName(sortBy)
    requires if raw.sortOrder.None? then sortOrder == DefaultSortOrder else raw.sortOrder.value == SortOrderName(sortOrder)
    ensures ParseQuery(raw) == Ok(Query(page, limit, raw.company, sortBy, sortOrder, raw.search))
  {
    assert FieldValid(raw, PageField);
    assert FieldValid(raw, LimitField);
    assert forall f :: FieldValid(raw, f);
    var r := ParseQuery(raw);
    if raw.sortBy.Some? {
      SortNamesRoundTrip(r.value.sortBy, sortOrder);
      SortNamesRoundTrip(sortBy, sortOrder);
    }
    if raw.sortOrder.Some? {
      SortNamesRoundTrip(sortBy, r.value.sortOrder);
      SortNamesRoundTrip(sortBy, sortOrder);
    }
  }

  /** A query with no keys gets every default; company and search stay absent. */
  lemma ParseDefaults()
    ensures ParseQuery(RawQuery(None, None, None, None, None, None))
         == Ok(Query(1, 20, None, ByLaunchDate, Desc, None))
  {
  }

  /** A text read as the whole number `n`, sent as the only key, is accepted as a page exactly
      when `n` is at least 1. */
  lemma PageOnly(text: string, n: int)
    requires Denotes(text, n)
    ensures var r := ParseQuery(RawQuery(Some(text), None, None, None, None, None));
      (r.Ok? <==> n >= 1) && (r.Ok? ==> r.value.page == n)
  {
    var raw := RawQuery(Some(text), None, None, None, None, None);
    assert forall m :: Denotes(text, m) ==> m == n;
    assert FieldValid(raw, PageField) <==> n >= 1;
    assert forall f :: f != PageField ==> FieldValid(raw, f);
  }

  /** A text read as the whole number `n`, sent as the only key, is accepted as a limit exactly
      when `n` lies in 1..100. */
  lemma LimitOnly(text: string, n: int)
    requires Denotes(text, n)
    ensures var r := ParseQuery(RawQuery(None, Some(text), None, None, None, None));
      (r.Ok? <==> 1 <= n <= 100) && (r.Ok? ==> r.value.limit == n)
  {
    var raw := RawQuery(None, Some(text), None, None, None, None);
    assert forall m :: Denotes(text, m) ==> m == n;
    assert FieldValid(raw, LimitField) <==> 1 <= n <= 100;
    assert forall f :: f != LimitField ==> FieldValid(raw, f);
  }

  /** A page written as a natural number is accepted exactly when it is at least 1, and is read as that number. */
  lemma PageFromNat(n: nat)
    ensures var r := ParseQuery(RawQuery(Some(NatToString(n)), None, None, None, None, None));
      (r.Ok? <==> n >= 1) && (r.Ok? ==> r.value.page == n)
  {
    NumberOfNatToString(n);
    PageOnly(NatToString(n), n);
  }

  /** A limit written as a natural number is accepted exactly when it lies in 1..100. */
  lemma LimitFromNat(n: nat)
    ensures var r := ParseQuery(RawQuery(None, Some(NatToString(n)), None, None, None, None));
      (r.Ok? <==> 1 <= n <= 100) && (r.Ok? ==> r.value.limit == n)
  {
    NumberOfNatToString(n);
    LimitOnly(NatToString(n), n);
  }

  /** A negated natural number is read as its negative. */
  lemma NegatedNatDenotes(n: nat)
    ensures Denotes("-" + NatToString(n), -(n as int))
  {
    NegatedDigitsDenote(NatToString(n), n);
  }

  /** A negated natural number is read as its negative, so no negative page is accepted. */
  lemma NegativePageRejected(n: nat)
    ensures Denotes("-" + NatToString(n), -(n as int))
    ensures ParseQuery(RawQuery(Some("-" + NatToString(n)), None, None, None, None, None)).Err?
  {
    NegatedNatDenotes(n);
    PageOnly("-" + NatToString(n), -(n as int));
  }

  // ---------------------------------------------------------------------------
  // Response record
  // ---------------------------------------------------------------------------

  /** `DrugResponseDTO`; the launch date is kept as a timestamp (its ISO text is not modelled). */
  datatype DrugDto = DrugDto(id: int, code: string, name: string, company: string, launchDate: int)
}
