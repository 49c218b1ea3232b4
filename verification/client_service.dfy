/** The request line the frontend's `DrugService.getDrugs` sends: the listing params written
    into a query string. Values are written without percent-encoding. */
module ClientService {
  import opened Common
  import opened QueryDto
  import opened ClientTypes

  /** One `name=value` entry of a query string. */
  datatype QueryPair = QueryPair(name: string, value: string)

  function EncodePair(q: QueryPair): string {
    q.name + "=" + q.value
  }

  /** The entries written `name=value` and joined by `&`; no entries give the empty text. */
  function Encode(pairs: seq<QueryPair>): string {
    if pairs == [] then ""
    else Join(seq(|pairs|, i requires 0 <= i < |pairs| => EncodePair(pairs[i])), '&')
  }

  /** An entry is cut at its first `=`; one without `=` has an empty value. */
  function DecodePair(piece: string): QueryPair {
    var k := FirstIndex(piece, '=');
    if k < |piece| then QueryPair(piece[..k], piece[k + 1..]) else QueryPair(piece, "")
  }

  /** Reading a query string back into its entries, as the backend's query parser does. */
  function Decode(query: string): seq<QueryPair> {
    if query == "" then []
    else
      var pieces := Split(query, '&');
      seq(|pieces|, i requires 0 <= i < |pieces| => DecodePair(pieces[i]))
  }

  /** An entry that survives being written out unescaped: no `&` anywhere, no `=` in the name. */
  predicate Encodable(q: QueryPair) {
    '=' !in q.name && '&' !in q.name && '&' !in q.value
  }

  /** Decoding the written query string gives back its entries. */
  lemma DecodeEncode(pairs: seq<QueryPair>)
    requires forall i :: 0 <= i < |pairs| ==> Encodable(pairs[i])
    ensures Decode(Encode(pairs)) == pairs
  {
    if pairs != [] {
      var ws := seq(|pairs|, i requires 0 <= i < |pairs| => EncodePair(pairs[i]));
      forall k | 0 <= k < |ws| ensures '&' !in ws[k] {
        assert ws[k] == pairs[k].name + ['='] + pairs[k].value;
      }
      SplitJoin(ws, '&');
      assert Join(ws, '&') != "" by {
        assert |ws| == 1 || Join(ws, '&') == ws[0] + ['&'] + Join(ws[1..], '&');
        assert |ws[0]| > 0;
      }
      forall k | 0 <= k < |ws| ensures DecodePair(ws[k]) == pairs[k] {
        FirstIndexAfter(pairs[k].name, '=', pairs[k].value);
        assert ws[k] == pairs[k].name + ['='] + pairs[k].value;
        assert ws[k][..|pairs[k].name|] == pairs[k].name;
        assert ws[k][|pairs[k].name| + 1..] == pairs[k].value;
      }
    }
  }

  /** The first value given for `name`. */
  function Lookup(pairs: seq<QueryPair>, name: string): (r: Option<string>)
    ensures r.Some? <==> exists i :: 0 <= i < |pairs| && pairs[i].name == name
    ensures r.Some? ==> exists i :: 0 <= i < |pairs| && pairs[i] == QueryPair(name, r.value)
  {
    if pairs == [] then None
    else if pairs[0].name == name then
      assert pairs[0] == QueryPair(name, pairs[0].value);
      Some(pairs[0].value)
    else
      var r := Lookup(pairs[1..], name);
      assert forall i :: 1 <= i < |pairs| ==> pairs[i] == pairs[1..][i - 1];
      r
  }

  lemma {:induction false} LookupConcat(a: seq<QueryPair>, b: seq<QueryPair>, name: string)
    ensures Lookup(a + b, name) == if Lookup(a, name).Some? then Lookup(a, name) else Lookup(b, name)
    decreases |a|
  {
    if a == [] {
      assert a + b == b;
    } else {
      assert (a + b)[1..] == a[1..] + b;
      LookupConcat(a[1..], b, name);
    }
  }

  /** The keys the listing endpoint reads, in the order `getDrugs` appends them; the
      company comes last because the frontend never sends it. */
  datatype QueryKey = PageKey | LimitKey | SearchKey | SortByKey | SortOrderKey | CompanyKey

  function KeyName(k: QueryKey): string {
    match k
    case PageKey => "page"
    case LimitKey => "limit"
    case SearchKey => "search"
    case SortByKey => "sortBy"
    case SortOrderKey => "sortOrder"
    case CompanyKey => "company"
  }

  function KeyRank(k: QueryKey): nat {
    match k
    case PageKey => 0
    case LimitKey => 1
    case SearchKey => 2
    case SortByKey => 3
    case SortOrderKey => 4
    case CompanyKey => 5
  }

  lemma KeyNameInjective(a: QueryKey, b: QueryKey)
    ensures KeyName(a) == KeyName(b) ==> a == b
  {
    if a != b {
      var x, y := KeyName(a), KeyName(b);
      assert |x| != |y| || x[0] != y[0] || x[1] != y[1] || x[4] != y[4];
    }
  }

  /** A query entry with its key still symbolic. */
  datatype KeyedValue = KeyedValue(key: QueryKey, value: string)

  function Named(entries: seq<KeyedValue>): (r: seq<QueryPair>)
    ensures |r| == |entries|
    ensures forall i :: 0 <= i < |r| ==> r[i] == QueryPair(KeyName(entries[i].key), entries[i].value)
  {
    seq(|entries|, i requires 0 <= i < |entries| => QueryPair(KeyName(entries[i].key), entries[i].value))
  }

  /** The first value given for key `k`. */
  function ValueOf(entries: seq<KeyedValue>, k: QueryKey): Option<string> {
    if entries == [] then None
    else if entries[0].key == k then Some(entries[0].value)
    else ValueOf(entries[1..], k)
  }

  /** Looking a key up by its name in the written entries finds its value. */
  lemma {:induction false} LookupNamed(entries: seq<KeyedValue>, k: QueryKey)
    ensures Lookup(Named(entries), KeyName(k)) == ValueOf(entries, k)
    decreases |entries|
  {
    if entries != [] {
      KeyNameInjective(entries[0].key, k);
      assert Named(entries)[1..] == Named(entries[1..]);
      LookupNamed(entries[1..], k);
    }
  }

  /** The keys `getDrugs` considers, in the order it appends them. */
  const SentKeys: seq<QueryKey> := [PageKey, LimitKey, SearchKey, SortByKey, SortOrderKey]

  /** The value `getDrugs` appends for key `k`, if it appends one: a page or limit that
      JavaScript treats as true, in decimal; a non-empty search text; a sort key or direction
      when one is set. The company is never sent. */
  function SentValue(p: SearchParams, k: QueryKey): Option<string> {
    match k
    case PageKey => if TruthyNumber(p.page) then Some(IntToString(p.page.value)) else None
    case LimitKey => if TruthyNumber(p.limit) then Some(IntToString(p.limit.value)) else None
    case SearchKey => if TruthyText(p.search) then p.search else None
    case SortByKey => if p.sortBy.Some? then Some(SortKeyName(p.sortBy.value)) else None
    case SortOrderKey => if p.sortOrder.Some? then Some(SortOrderName(p.sortOrder.value)) else None
    case CompanyKey => None
  }

  /** The entry for `k` when `value` gives one. */
  function EntryFor(value: QueryKey -> Option<string>, k: QueryKey): seq<KeyedValue> {
    if value(k).Some? then [KeyedValue(k, value(k).value)] else []
  }

  /** The entries appended while walking `keys` in order. */
  function EntriesFor(value: QueryKey -> Option<string>, keys: seq<QueryKey>): seq<KeyedValue>
    decreases |keys|
  {
    if keys == [] then []
    else EntriesFor(value, keys[..|keys| - 1]) + EntryFor(value, keys[|keys| - 1])
  }

  function SentValues(p: SearchParams): QueryKey -> Option<string> {
    k => SentValue(p, k)
  }

  /** The entries `getDrugs` appends. */
  function SentEntries(p: SearchParams): seq<KeyedValue> {
    EntriesFor(SentValues(p), SentKeys)
  }

  predicate RanksIncrease(s: seq<KeyedValue>) {
    forall i, j :: 0 <= i < j < |s| ==> KeyRank(s[i].key) < KeyRank(s[j].key)
  }

  predicate KeysIncrease(keys: seq<QueryKey>) {
    forall i, j :: 0 <= i < j < |keys| ==> KeyRank(keys[i]) < KeyRank(keys[j])
  }

  lemma {:induction false} ValueOfConcat(a: seq<KeyedValue>, b: seq<KeyedValue>, k: QueryKey)
    ensures ValueOf(a + b, k) == if ValueOf(a, k).Some? then ValueOf(a, k) else ValueOf(b, k)
    decreases |a|
  {
    if a == [] {
      assert a + b == b;
    } else {
      assert (a + b)[1..] == a[1..] + b;
      ValueOfConcat(a[1..], b, k);
    }
  }

  lemma ValueOfEntry(value: QueryKey -> Option<string>, last: QueryKey, k: QueryKey)
    ensures ValueOf(EntryFor(value, last), k) == if k == last then value(k) else None
  {
    var e := EntryFor(value, last);
    if e != [] {
      assert e[1..] == [];
    }
  }

  /** Walking distinct keys yields, for each key walked, the value sent for it, and nothing
      for any other key. */
  lemma {:induction false} EntriesForValue(value: QueryKey -> Option<string>, keys: seq<QueryKey>, k: QueryKey)
    requires KeysIncrease(keys)
    ensures ValueOf(EntriesFor(value, keys), k) == if k in keys then value(k) else None
    decreases |keys|
  {
    if keys != [] {
      var init, last := keys[..|keys| - 1], keys[|keys| - 1];
      assert KeysIncrease(init) by {
        forall i, j | 0 <= i < j < |init| ensures KeyRank(init[i]) < KeyRank(init[j]) {
          assert init[i] == keys[i] && init[j] == keys[j];
        }
      }
      EntriesForValue(value, init, k);
      ValueOfConcat(EntriesFor(value, init), EntryFor(value, last), k);
      ValueOfEntry(value, last, k);
      if k in init {
        var i :| 0 <= i < |init| && init[i] == k;
        assert KeyRank(keys[i]) < KeyRank(keys[|keys| - 1]);
      }
      assert k in keys <==> k in init || k == last by {
        assert keys == init + [last];
      }
    }
  }

  /** Walking keys whose ranks increase yields entries whose ranks increase, each of a key
      that was walked. */
  lemma {:induction false} EntriesForOrdered(value: QueryKey -> Option<string>, keys: seq<QueryKey>)
    requires KeysIncrease(keys)
    ensures RanksIncrease(EntriesFor(value, keys))
    ensures forall i :: 0 <= i < |EntriesFor(value, keys)| ==> EntriesFor(value, keys)[i].key in keys
    decreases |keys|
  {
    if keys != [] {
      var init, last := keys[..|keys| - 1], keys[|keys| - 1];
      var s := EntriesFor(value, init);
      EntriesForOrdered(value, init);
      var r := EntriesFor(value, keys);
      assert r == s + EntryFor(value, last);
      forall i | 0 <= i < |s| ensures KeyRank(s[i].key) < KeyRank(last) {
        var j :| 0 <= j < |init| && init[j] == s[i].key;
        assert keys[j] == init[j];
      }
    }
  }

  /** Every entry carries the value given for its key. */
  lemma {:induction false} EntriesForCarry(value: QueryKey -> Option<string>, keys: seq<QueryKey>)
    ensures forall i :: 0 <= i < |EntriesFor(value, keys)| ==>
      value(EntriesFor(value, keys)[i].key) == Some(EntriesFor(value, keys)[i].value)
    decreases |keys|
  {
    if keys != [] {
      var init, last := keys[..|keys| - 1], keys[|keys| - 1];
      EntriesForCarry(value, init);
      var s, r := EntriesFor(value, init), EntriesFor(value, keys);
      assert r == s + EntryFor(value, last);
      forall i | |s| <= i < |r| ensures value(r[i].key) == Some(r[i].value) {
        assert r[i] == EntryFor(value, last)[i - |s|];
      }
    }
  }

  /** `getDrugs` sends every page, limit, search text, sort key and direction that JavaScript
      treats as true, each once and in that order, and never a company. */
  lemma SentEntriesSpec(p: SearchParams)
    ensures ValueOf(SentEntries(p), PageKey) == if TruthyNumber(p.page) then Some(IntToString(p.page.value)) else None
    ensures ValueOf(SentEntries(p), LimitKey) == if TruthyNumber(p.limit) then Some(IntToString(p.limit.value)) else None
    ensures ValueOf(SentEntries(p), SearchKey) == if TruthyText(p.search) then p.search else None
    ensures ValueOf(SentEntries(p), SortByKey) == if p.sortBy.Some? then Some(SortKeyName(p.sortBy.value)) else None
    ensures ValueOf(SentEntries(p), SortOrderKey) == if p.sortOrder.Some? then Some(SortOrderName(p.sortOrder.value)) else None
    ensures ValueOf(SentEntries(p), CompanyKey) == None
    ensures RanksIncrease(SentEntries(p))
  {
    assert KeysIncrease(SentKeys);
    EntriesForOrdered(SentValues(p), SentKeys);
    EntriesForValue(SentValues(p), SentKeys, PageKey);
    EntriesForValue(SentValues(p), SentKeys, LimitKey);
    EntriesForValue(SentValues(p), SentKeys, SearchKey);
    EntriesForValue(SentValues(p), SentKeys, SortByKey);
    EntriesForValue(SentValues(p), SentKeys, SortOrderKey);
    EntriesForValue(SentValues(p), SentKeys, CompanyKey);
  }

  lemma NamedConcat(a: seq<KeyedValue>, b: seq<KeyedValue>)
    ensures Named(a + b) == Named(a) + Named(b)
  {
  }

  /** `URLSearchParams`, as far as `getDrugs` uses it: an entry list that grows at the end. */
  class UrlSearchParams {
    var entries: seq<QueryPair>

    constructor()
      ensures entries == []
    {
      entries := [];
    }

    /** `append(name, value)` */
    method Append(name: string, value: string)
      modifies this
      ensures entries == old(entries) + [QueryPair(name, value)]
    {
      entries := entries + [QueryPair(name, value)];
    }

    /** `toString()` */
    function ToString(): string
      reads this
    {
      Encode(entries)
    }
  }

  /** `getDrugs` walks the five keys one after another. */
  lemma SentEntriesUnfold(p: SearchParams)
    ensures SentEntries(p)
      == EntryFor(SentValues(p), PageKey) + EntryFor(SentValues(p), LimitKey)
         + EntryFor(SentValues(p), SearchKey) + EntryFor(SentValues(p), SortByKey)
         + EntryFor(SentValues(p), SortOrderKey)
  {
    var v := SentValues(p);
    var k1: seq<QueryKey> := [PageKey];
    var k2 := k1 + [LimitKey];
    var k3 := k2 + [SearchKey];
    var k4 := k3 + [SortByKey];
    assert k1[..0] == [] && k2[..1] == k1 && k3[..2] == k2 && k4[..3] == k3;
    assert SentKeys[..4] == k4;
    var e1, e2, e3, e4 := EntryFor(v, PageKey), EntryFor(v, LimitKey), EntryFor(v, SearchKey), EntryFor(v, SortByKey);
    assert EntriesFor(v, k1) == e1;
    assert EntriesFor(v, k2) == e1 + e2;
    assert EntriesFor(v, k3) == e1 + e2 + e3;
    assert EntriesFor(v, k4) == e1 + e2 + e3 + e4;
  }

  /** The written entry for `k`, or none. */
  function PairFor(p: SearchParams, k: QueryKey): seq<QueryPair> {
    if SentValue(p, k).Some? then [QueryPair(KeyName(k), SentValue(p, k).value)] else []
  }

  lemma SentPairs(p: SearchParams)
    ensures Named(SentEntries(p))
      == PairFor(p, PageKey) + PairFor(p, LimitKey) + PairFor(p, SearchKey)
         + PairFor(p, SortByKey) + PairFor(p, SortOrderKey)
  {
    var v := SentValues(p);
    SentEntriesUnfold(p);
    var e1, e2, e3, e4, e5 := EntryFor(v, PageKey), EntryFor(v, LimitKey), EntryFor(v, SearchKey),
      EntryFor(v, SortByKey), EntryFor(v, SortOrderKey);
    NamedConcat(e1, e2);
    NamedConcat(e1 + e2, e3);
    NamedConcat(e1 + e2 + e3, e4);
    NamedConcat(e1 + e2 + e3 + e4, e5);
    assert Named(e1) == PairFor(p, PageKey);
    assert Named(e2) == PairFor(p, LimitKey);
    assert Named(e3) == PairFor(p, SearchKey);
    assert Named(e4) == PairFor(p, SortByKey);
    assert Named(e5) == PairFor(p, SortOrderKey);
  }

  /** `DrugService.getDrugs`: the request path, `/drugs?` followed by the sent entries. */
  method GetDrugsUrl(p: SearchParams) returns (url: string)
    ensures url == "/drugs?" + Encode(Named(SentEntries(p)))
  {
    var queryParams := new UrlSearchParams();
    if p.page.Some? && p.page.value != 0 {
      queryParams.Append("page", IntToString(p.page.value));
    }
    ghost var written := PairFor(p, PageKey);
    assert queryParams.entries == written;
    if p.limit.Some? && p.limit.value != 0 {
      queryParams.Append("limit", IntToString(p.limit.value));
    }
    written := written + PairFor(p, LimitKey);
    assert queryParams.entries == written;
    if p.search.Some? && p.search.value != "" {
      queryParams.Append("search", p.search.value);
    }
    written := written + PairFor(p, SearchKey);
    assert queryParams.entries == written;
    if p.sortBy.Some? {
      queryParams.Append("sortBy", SortKeyName(p.sortBy.value));
    }
    written := written + PairFor(p, SortByKey);
    assert queryParams.entries == written;
    if p.sortOrder.Some? {
      queryParams.Append("sortOrder", SortOrderName(p.sortOrder.value));
    }
    written := written + PairFor(p, SortOrderKey);
    assert queryParams.entries == written;
    SentPairs(p);
    url := "/drugs?" + queryParams.ToString();
  }

  /** Empty params request exactly `/drugs?`. */
  lemma EmptyParamsUrl()
    ensures "/drugs?" + Encode(Named(SentEntries(NoParams))) == "/drugs?"
  {
    SentPairs(NoParams);
  }

  /** What the backend reads from a query string whose keys occur at most once. */
  function RawQueryOf(pairs: seq<QueryPair>): RawQuery {
    RawQuery(
      Lookup(pairs, "page"), Lookup(pairs, "limit"), Lookup(pairs, "company"),
      Lookup(pairs, "sortBy"), Lookup(pairs, "sortOrder"), Lookup(pairs, "search"))
  }

  /** The text the backend receives for the request `getDrugs` makes from `p`. */
  function ReceivedQuery(p: SearchParams): RawQuery {
    RawQueryOf(Decode(Encode(Named(SentEntries(p)))))
  }

  lemma KeyNamePlain(k: QueryKey)
    ensures '=' !in KeyName(k) && '&' !in KeyName(k)
  {
  }

  lemma IntTextPlain(n: int)
    ensures '&' !in IntToString(n)
  {
    var s := NatToString(if n < 0 then -n else n);
    assert forall j :: 0 <= j < |s| ==> IsDigit(s[j]);
    assert IntToString(n) == if n < 0 then "-" + s else s;
  }

  lemma SentValuePlain(p: SearchParams, k: QueryKey)
    requires p.search.Some? ==> '&' !in p.search.value
    requires SentValue(p, k).Some?
    ensures '&' !in SentValue(p, k).value
  {
    match k
    case PageKey => IntTextPlain(p.page.value);
    case LimitKey => IntTextPlain(p.limit.value);
    case SortByKey =>
    case SortOrderKey =>
    case SearchKey =>
  }

  /** Every written entry survives the unescaped query string when the search text has no `&`. */
  lemma SentEncodable(p: SearchParams)
    requires p.search.Some? ==> '&' !in p.search.value
    ensures forall i :: 0 <= i < |Named(SentEntries(p))| ==> Encodable(Named(SentEntries(p))[i])
  {
    var e := SentEntries(p);
    var pairs := Named(e);
    EntriesForCarry(SentValues(p), SentKeys);
    forall i | 0 <= i < |pairs| ensures Encodable(pairs[i]) {
      var k := e[i].key;
      assert SentValues(p)(k) == Some(e[i].value);
      SentValuePlain(p, k);
      KeyNamePlain(k);
    }
  }

  /** Reading the written entries by name finds each key's value. */
  lemma NamedRawQuery(e: seq<KeyedValue>)
    ensures RawQueryOf(Named(e)) == RawQuery(
      ValueOf(e, PageKey), ValueOf(e, LimitKey), ValueOf(e, CompanyKey),
      ValueOf(e, SortByKey), ValueOf(e, SortOrderKey), ValueOf(e, SearchKey))
  {
    LookupNamed(e, PageKey);
    LookupNamed(e, LimitKey);
    LookupNamed(e, CompanyKey);
    LookupNamed(e, SortByKey);
    LookupNamed(e, SortOrderKey);
    LookupNamed(e, SearchKey);
  }

  lemma SentEntryValue(p: SearchParams, k: QueryKey)
    ensures ValueOf(SentEntries(p), k) == SentValue(p, k)
  {
    assert KeysIncrease(SentKeys);
    EntriesForValue(SentValues(p), SentKeys, k);
  }

  /** The backend reads back, key by key, exactly the values `getDrugs` sent, and no company. */
  lemma ReceivedValues(p: SearchParams)
    requires p.search.Some? ==> '&' !in p.search.value
    ensures ReceivedQuery(p) == RawQuery(
      SentValue(p, PageKey), SentValue(p, LimitKey), None,
      SentValue(p, SortByKey), SentValue(p, SortOrderKey), SentValue(p, SearchKey))
  {
    var e := SentEntries(p);
    SentEncodable(p);
    DecodeEncode(Named(e));
    NamedRawQuery(e);
    SentEntryValue(p, PageKey);
    SentEntryValue(p, LimitKey);
    SentEntryValue(p, CompanyKey);
    SentEntryValue(p, SortByKey);
    SentEntryValue(p, SortOrderKey);
    SentEntryValue(p, SearchKey);
  }

  /** A page or limit that is sent is written so that it coerces back to itself, and to nothing else. */
  lemma SentNumberDenotes(n: nat)
    ensures Denotes(IntToString(n), n)
    ensures forall m :: Denotes(IntToString(n), m) ==> m == n
  {
    NumberOfNatToString(n);
  }

  /** The query `getDrugs` sends from `p`, as the backend is to read it. */
  function ExpectedQuery(p: SearchParams): Query {
    Query(
      if TruthyNumber(p.page) then p.page.value else DefaultPage,
      if TruthyNumber(p.limit) then p.limit.value else DefaultLimit,
      None,
      if p.sortBy.Some? then p.sortBy.value else DefaultSortKey,
      if p.sortOrder.Some? then p.sortOrder.value else DefaultSortOrder,
      if TruthyText(p.search) then p.search else None)
  }

  /** The raw values `getDrugs` sends pass the query schema and are read as `ExpectedQuery`. */
  lemma ParseSentValues(p: SearchParams, raw: RawQuery)
    requires p.page.Some? ==> p.page.value >= 0
    requires p.limit.Some? ==> 0 <= p.limit.value <= 100
    requires raw == RawQuery(
      SentValue(p, PageKey), SentValue(p, LimitKey), None,
      SentValue(p, SortByKey), SentValue(p, SortOrderKey), SentValue(p, SearchKey))
    ensures ParseQuery(raw) == Ok(ExpectedQuery(p))
  {
    var q := ExpectedQuery(p);
    if TruthyNumber(p.page) {
      SentNumberDenotes(p.page.value);
    }
    if TruthyNumber(p.limit) {
      SentNumberDenotes(p.limit.value);
    }
    ParseAccepts(raw, q.page, q.limit, q.sortBy, q.sortOrder);
  }

  /** Every request `getDrugs` makes from params whose page is not negative, whose limit is at
      most 100 and not negative, and whose search text has no `&`, passes the backend's query
      schema and carries the same values: an unset or zero page or limit, an empty search text
      and an unset sort fall back to the backend's defaults (page 1, limit 20, `launchDate`,
      descending), and no company is filtered on. */
  lemma RequestAccepted(p: SearchParams)
    requires p.page.Some? ==> p.page.value >= 0
    requires p.limit.Some? ==> 0 <= p.limit.value <= 100
    requires p.search.Some? ==> '&' !in p.search.value
    ensures ParseQuery(ReceivedQuery(p)) == Ok(ExpectedQuery(p))
  {
    ReceivedValues(p);
    ParseSentValues(p, ReceivedQuery(p));
  }

  /** A sent number that is negative is read as that negative number. */
  lemma SentNegativeDenotes(n: int)
    requires n < 0
    ensures Denotes(IntToString(n), n)
  {
    var m: nat := -n;
    var t := "-" + NatToString(m);
    assert IntToString(n) == t;
    NegativePageRejected(m);
  }

  /** The raw values `getDrugs` sends fail the query schema when the page is negative or the
      limit is negative or above 100. */
  lemma ParseSentValuesRejected(p: SearchParams, raw: RawQuery)
    requires (p.page.Some? && p.page.value < 0) || (p.limit.Some? && (p.limit.value < 0 || p.limit.value > 100))
    requires raw == RawQuery(
      SentValue(p, PageKey), SentValue(p, LimitKey), None,
      SentValue(p, SortByKey), SentValue(p, SortOrderKey), SentValue(p, SearchKey))
    ensures ParseQuery(raw).Err?
  {
    if p.page.Some? && p.page.value < 0 {
      SentNegativeDenotes(p.page.value);
      assert !FieldValid(raw, PageField);
    } else if p.limit.value < 0 {
      SentNegativeDenotes(p.limit.value);
      assert !FieldValid(raw, LimitField);
    } else {
      SentNumberDenotes(p.limit.value);
      assert !FieldValid(raw, LimitField);
    }
  }

  /** A request `getDrugs` makes from a negative page, or from a limit below 0 or above 100,
      fails the backend's query schema. */
  lemma RequestRejected(p: SearchParams)
    requires (p.page.Some? && p.page.value < 0) || (p.limit.Some? && (p.limit.value < 0 || p.limit.value > 100))
    requires p.search.Some? ==> '&' !in p.search.value
    ensures ParseQuery(ReceivedQuery(p)).Err?
  {
    ReceivedValues(p);
    ParseSentValuesRejected(p, ReceivedQuery(p));
  }
}
