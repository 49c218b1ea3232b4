/** The frontend's pure helpers on drug names, drug lists and short texts. Case mapping is
    ASCII-only; launch dates are timestamps. */
module Helpers {
  import opened Common
  import opened QueryDto
  import opened ClientTypes

  // ---------------------------------------------------------------------------
  // parseDrugName: the pattern ^(.+?)\s*\((.+?)\)$
  // ---------------------------------------------------------------------------

  /** End of the run of white space that starts at `i`. */
  function SpaceRunEnd(s: string, i: nat): (e: nat)
    requires i <= |s|
    ensures i <= e <= |s| && AllSpace(s[i..e])
    ensures e < |s| ==> !IsSpace(s[e])
    decreases |s| - i
  {
    if i < |s| && IsSpace(s[i]) then
      var e := SpaceRunEnd(s, i + 1);
      assert s[i..e] == [s[i]] + s[i + 1..e];
      e
    else i
  }

  /** The pattern matches with its lazy first group ending at `i`. The first group is `.`
      characters, so it holds no line terminator; the greedy `\s*` can only give back white
      space, so `(` must follow the whole white-space run; and the second group, anchored by
      `\)$`, is everything between that `(` and a final `)`, at least one character, again
      without a line terminator. */
  predicate SplitsAt(name: string, i: nat) {
    && 1 <= i <= |name|
    && NoLineTerminator(name[..i])
    && var e := SpaceRunEnd(name, i);
       && e + 2 < |name|
       && name[e] == '('
       && name[|name| - 1] == ')'
       && NoLineTerminator(name[e + 1..|name| - 1])
  }

  datatype ParsedName = ParsedName(genericName: string, brandName: string)

  /** The two captured groups of the match whose first group ends at `i`, trimmed. */
  function GroupsAt(name: string, i: nat): ParsedName
    requires SplitsAt(name, i)
  {
    var e := SpaceRunEnd(name, i);
    ParsedName(Trim(name[..i]), Trim(name[e + 1..|name| - 1]))
  }

  /** The lazy first group tries its lengths from `i` upwards. */
  function FirstSplit(name: string, i: nat): (k: Option<nat>)
    requires 1 <= i
    ensures k.Some? ==> i <= k.value && SplitsAt(name, k.value)
    ensures k.Some? ==> forall j :: i <= j < k.value ==> !SplitsAt(name, j)
    ensures k.None? ==> forall j :: i <= j ==> !SplitsAt(name, j)
    decreases |name| + 1 - i
  {
    if i > |name| then None
    else if SplitsAt(name, i) then Some(i)
    else FirstSplit(name, i + 1)
  }

  /** `parseDrugName`: the trimmed groups of the leftmost match; a name the pattern does not
      match is all generic name, trimmed, with an empty brand. */
  function ParseDrugName(name: string): (r: ParsedName)
    ensures (exists i: nat :: SplitsAt(name, i)) ==>
      exists i: nat ::
        && SplitsAt(name, i)
        && (forall j :: 1 <= j < i ==> !SplitsAt(name, j))
        && r == GroupsAt(name, i)
    ensures (forall i: nat :: !SplitsAt(name, i)) ==> r == ParsedName(Trim(name), "")
  {
    match FirstSplit(name, 1)
    case Some(i) =>
      assert SplitsAt(name, i) && forall j :: 1 <= j < i ==> !SplitsAt(name, j);
      GroupsAt(name, i)
    case None =>
      assert forall i: nat :: !SplitsAt(name, i);
      ParsedName(Trim(name), "")
  }

  /** The display name splits where the generic name ends, into the two names. */
  lemma DisplayNameSplits(g: string, b: string)
    requires g != [] && b != [] && Trimmed(g) && Trimmed(b)
    requires NoLineTerminator(g) && NoLineTerminator(b)
    ensures SplitsAt(g + " (" + b + ")", |g|)
    ensures GroupsAt(g + " (" + b + ")", |g|) == ParsedName(g, b)
  {
    var name := g + " (" + b + ")";
    var n := |g|;
    assert name[..n] == g;
    assert name[n] == ' ' && name[n + 1] == '(';
    assert SpaceRunEnd(name, n + 1) == n + 1;
    assert SpaceRunEnd(name, n) == n + 1;
    assert name[n + 2..|name| - 1] == b;
  }

  /** No shorter first group works: the white space after it would have to reach past the
      generic name's last character, or be followed by a `(` inside the generic name. */
  lemma DisplayNameNoEarlierSplit(g: string, b: string, j: nat)
    requires g != [] && Trimmed(g) && '(' !in g
    requires 1 <= j < |g|
    ensures !SplitsAt(g + " (" + b + ")", j)
  {
    var name := g + " (" + b + ")";
    var n := |g|;
    var e := SpaceRunEnd(name, j);
    assert !IsSpace(name[n - 1]);
    assert forall k :: j <= k < e ==> IsSpace(name[k]) by {
      forall k | j <= k < e ensures IsSpace(name[k]) {
        assert name[j..e][k - j] == name[k];
      }
    }
    assert e < n;
    assert name[e] == g[e];
  }

  /** `parseDrugName` recovers generic and brand name from the `generic (brand)` display name,
      when both are non-empty and trimmed, the generic name holds no `(`, and neither holds a
      line break. */
  lemma ParseDisplayName(g: string, b: string)
    requires g != [] && b != [] && Trimmed(g) && Trimmed(b)
    requires '(' !in g && NoLineTerminator(g) && NoLineTerminator(b)
    ensures ParseDrugName(g + " (" + b + ")") == ParsedName(g, b)
  {
    var name := g + " (" + b + ")";
    DisplayNameSplits(g, b);
    forall j: nat | 1 <= j < |g| ensures !SplitsAt(name, j) {
      DisplayNameNoEarlierSplit(g, b, j);
    }
    var k := FirstSplit(name, 1);
    assert k.Some?;
    assert k.value == |g|;
    assert ParseDrugName(name) == GroupsAt(name, |g|);
  }

  // ---------------------------------------------------------------------------
  // searchDrugs
  // ---------------------------------------------------------------------------

  /** The lower-cased name, company or code contains the lower-cased term. */
  predicate Hit(d: Drug, term: string) {
    var t := Lower(term);
    Contains(Lower(d.name), t) || Contains(Lower(d.company), t) || Contains(Lower(d.code), t)
  }

  /** `a` is `b` with some elements dropped and the order kept. */
  predicate IsSubsequence<T(==)>(a: seq<T>, b: seq<T>)
    decreases |b|
  {
    if a == [] then true
    else if b == [] then false
    else (a[0] == b[0] && IsSubsequence(a[1..], b[1..])) || IsSubsequence(a, b[1..])
  }

  /** `drugs.filter(...)` on the hit predicate. */
  function KeepHits(drugs: seq<Drug>, term: string): (r: seq<Drug>)
    ensures IsSubsequence(r, drugs)
    ensures forall d :: multiset(r)[d] == if Hit(d, term) then multiset(drugs)[d] else 0
  {
    if drugs == [] then []
    else
      var rest := KeepHits(drugs[1..], term);
      assert drugs == [drugs[0]] + drugs[1..];
      if Hit(drugs[0], term) then
        assert ([drugs[0]] + rest)[1..] == rest;
        [drugs[0]] + rest
      else rest
  }

  /** `searchDrugs`: a blank term returns the list itself; otherwise exactly the hits, every
      copy of each, in their original order. The term is lower-cased but not trimmed. */
  function SearchDrugs(drugs: seq<Drug>, term: string): (r: seq<Drug>)
    ensures AllSpace(term) ==> r == drugs
    ensures !AllSpace(term) ==> IsSubsequence(r, drugs)
    ensures !AllSpace(term) ==>
      forall d :: multiset(r)[d] == if Hit(d, term) then multiset(drugs)[d] else 0
  {
    if Trim(term) == [] then drugs else KeepHits(drugs, term)
  }

  lemma {:induction false} KeepHitsIdempotent(drugs: seq<Drug>, term: string)
    ensures KeepHits(KeepHits(drugs, term), term) == KeepHits(drugs, term)
  {
    if drugs != [] {
      KeepHitsIdempotent(drugs[1..], term);
      var rest := KeepHits(drugs[1..], term);
      if Hit(drugs[0], term) {
        assert ([drugs[0]] + rest)[1..] == rest;
      }
    }
  }

  /** Searching the result of a search again with the same term changes nothing. */
  lemma SearchDrugsIdempotent(drugs: seq<Drug>, term: string)
    ensures SearchDrugs(SearchDrugs(drugs, term), term) == SearchDrugs(drugs, term)
  {
    KeepHitsIdempotent(drugs, term);
  }

  // ---------------------------------------------------------------------------
  // sortDrugs
  // ---------------------------------------------------------------------------

  /** Comparison of the sort values: lower-cased name, lower-cased company or launch time. */
  function SortValueCompare(key: ClientSortKey, a: Drug, b: Drug): int {
    if key == ByName then LexCompare(Lower(a.name), Lower(b.name))
    else if key == ByCompany then LexCompare(Lower(a.company), Lower(b.company))
    else IntCompare(a.launchDate, b.launchDate)
  }

  /** The comparator handed to `Array.prototype.sort`: the sort values compared in the
      requested direction, 0 on equal values. */
  function Comparator(key: ClientSortKey, order: SortOrder, a: Drug, b: Drug): int {
    var c := SortValueCompare(key, a, b);
    if order == Asc then c else -c
  }

  predicate Tied(key: ClientSortKey, a: Drug, b: Drug) {
    SortValueCompare(key, a, b) == 0
  }

  lemma LexFacts(x: string, y: string, z: string)
    ensures LexCompare(x, y) == -LexCompare(y, x)
    ensures LexCompare(x, y) == 0 <==> x == y
    ensures LexCompare(x, y) <= 0 && LexCompare(y, z) <= 0 ==> LexCompare(x, z) <= 0
  {
    LexCompareAntisymmetric(x, y);
    LexCompareZero(x, y);
    LexCompareZero(y, z);
    LexCompareZero(x, z);
    if LexCompare(x, y) < 0 && LexCompare(y, z) < 0 {
      LexCompareTransitive(x, y, z);
    }
  }

  lemma SortValueFacts(key: ClientSortKey, a: Drug, b: Drug, c: Drug)
    ensures SortValueCompare(key, a, b) == -SortValueCompare(key, b, a)
    ensures Tied(key, a, b) && Tied(key, b, c) ==> Tied(key, a, c)
    ensures SortValueCompare(key, a, b) <= 0 && SortValueCompare(key, b, c) <= 0 ==>
      SortValueCompare(key, a, c) <= 0
  {
    if key == ByName {
      LexFacts(Lower(a.name), Lower(b.name), Lower(c.name));
      LexFacts(Lower(a.name), Lower(c.name), Lower(b.name));
    } else if key == ByCompany {
      LexFacts(Lower(a.company), Lower(b.company), Lower(c.company));
      LexFacts(Lower(a.company), Lower(c.company), Lower(b.company));
    }
  }

  /** The comparator is a consistent total preorder whose ties are the equal sort values, in
      either direction: what `Array.prototype.sort` requires of it. */
  lemma ComparatorFacts(key: ClientSortKey, order: SortOrder, a: Drug, b: Drug, c: Drug)
    ensures Comparator(key, order, a, b) == -Comparator(key, order, b, a)
    ensures Comparator(key, order, a, b) == 0 <==> Tied(key, a, b)
    ensures Comparator(key, order, a, b) <= 0 && Comparator(key, order, b, c) <= 0 ==>
      Comparator(key, order, a, c) <= 0
  {
    SortValueFacts(key, a, b, c);
    SortValueFacts(key, c, b, a);
    SortValueFacts(key, a, c, b);
  }

  /** What `Array.prototype.sort` asks of a comparator: antisymmetric and transitive, so
      that it is a total preorder whose ties are the pairs comparing 0. */
  ghost predicate ConsistentComparator<T(!new)>(cmp: (T, T) -> int) {
    && (forall a, b :: cmp(a, b) == -cmp(b, a))
    && (forall a, b, c :: cmp(a, b) <= 0 && cmp(b, c) <= 0 ==> cmp(a, c) <= 0)
  }

  predicate Ordered<T>(cmp: (T, T) -> int, s: seq<T>) {
    forall i, j :: 0 <= i < j < |s| ==> cmp(s[i], s[j]) <= 0
  }

  /** The members of `s` that compare equal to `x`, in their order in `s`. */
  function TiedWith<T>(cmp: (T, T) -> int, s: seq<T>, x: T): seq<T> {
    if s == [] then []
    else TiedWith(cmp, s[..|s| - 1], x) + (if cmp(s[|s| - 1], x) == 0 then [s[|s| - 1]] else [])
  }

  /** Inserts `x` behind every element that does not compare after it. */
  function InsertStable<T(==)>(cmp: (T, T) -> int, s: seq<T>, x: T): (r: seq<T>)
    ensures multiset(r) == multiset(s) + multiset{x}
    decreases |s|
  {
    if s == [] || cmp(s[|s| - 1], x) <= 0 then s + [x]
    else
      assert s == s[..|s| - 1] + [s[|s| - 1]];
      InsertStable(cmp, s[..|s| - 1], x) + [s[|s| - 1]]
  }

  /** An element that no member of an ordered sequence compares after may follow it. */
  lemma OrderedSnoc<T>(cmp: (T, T) -> int, t: seq<T>, e: T)
    requires Ordered(cmp, t) && forall i :: 0 <= i < |t| ==> cmp(t[i], e) <= 0
    ensures Ordered(cmp, t + [e])
  {
    var r := t + [e];
    forall i, j | 0 <= i < j < |r| ensures cmp(r[i], r[j]) <= 0 {
      assert r[i] == t[i];
      if j < |t| { assert r[j] == t[j]; }
    }
  }

  /** Dropping the last element keeps a sequence ordered. */
  lemma OrderedInit<T>(cmp: (T, T) -> int, s: seq<T>)
    requires s != [] && Ordered(cmp, s)
    ensures Ordered(cmp, s[..|s| - 1])
  {
    var init := s[..|s| - 1];
    forall i, j | 0 <= i < j < |init| ensures cmp(init[i], init[j]) <= 0 {
      assert init[i] == s[i] && init[j] == s[j];
    }
  }

  /** Every member of a rearrangement of `init` plus `x` compares at or before `last` when
      `x` and every member of `init` do. */
  lemma AllBefore<T>(cmp: (T, T) -> int, init: seq<T>, x: T, last: T, t: seq<T>)
    requires forall i :: 0 <= i < |init| ==> cmp(init[i], last) <= 0
    requires cmp(x, last) <= 0 && multiset(t) == multiset(init) + multiset{x}
    ensures forall i :: 0 <= i < |t| ==> cmp(t[i], last) <= 0
  {
    forall i | 0 <= i < |t| ensures cmp(t[i], last) <= 0 {
      assert t[i] in multiset(t);
      if t[i] != x {
        assert t[i] in multiset(init);
        var k :| 0 <= k < |init| && init[k] == t[i];
      }
    }
  }

  lemma {:induction false} InsertStableOrdered<T(!new)>(cmp: (T, T) -> int, s: seq<T>, x: T)
    requires ConsistentComparator(cmp) && Ordered(cmp, s)
    ensures Ordered(cmp, InsertStable(cmp, s, x))
    decreases |s|
  {
    if s == [] {
      OrderedSnoc(cmp, s, x);
    } else {
      var init, last := s[..|s| - 1], s[|s| - 1];
      OrderedInit(cmp, s);
      if cmp(last, x) <= 0 {
        forall i | 0 <= i < |s| ensures cmp(s[i], x) <= 0 {
          if i < |s| - 1 { assert init[i] == s[i]; }
        }
        OrderedSnoc(cmp, s, x);
      } else {
        InsertStableOrdered(cmp, init, x);
        var t := InsertStable(cmp, init, x);
        assert cmp(x, last) == -cmp(last, x);
        forall i | 0 <= i < |init| ensures cmp(init[i], last) <= 0 {
          assert init[i] == s[i];
        }
        AllBefore(cmp, init, x, last, t);
        OrderedSnoc(cmp, t, last);
      }
    }
  }

  /** The tied members of a sequence with one more element at its end. */
  lemma TiedWithSnoc<T>(cmp: (T, T) -> int, t: seq<T>, e: T, y: T)
    ensures TiedWith(cmp, t + [e], y) == TiedWith(cmp, t, y) + (if cmp(e, y) == 0 then [e] else [])
  {
    assert (t + [e])[..|t|] == t;
  }

  /** Two elements that do not tie cannot both tie with a third. */
  lemma NotBothTied<T(!new)>(cmp: (T, T) -> int, a: T, b: T, y: T)
    requires ConsistentComparator(cmp) && cmp(a, b) > 0
    ensures !(cmp(a, y) == 0 && cmp(b, y) == 0)
  {
    assert cmp(y, b) == -cmp(b, y);
    assert cmp(a, y) <= 0 && cmp(y, b) <= 0 ==> cmp(a, b) <= 0;
  }

  lemma {:induction false} InsertStableTies<T(!new)>(cmp: (T, T) -> int, s: seq<T>, x: T, y: T)
    requires ConsistentComparator(cmp)
    ensures TiedWith(cmp, InsertStable(cmp, s, x), y)
         == TiedWith(cmp, s, y) + (if cmp(x, y) == 0 then [x] else [])
    decreases |s|
  {
    if s == [] || cmp(s[|s| - 1], x) <= 0 {
      TiedWithSnoc(cmp, s, x, y);
    } else {
      var init, last := s[..|s| - 1], s[|s| - 1];
      InsertStableTies(cmp, init, x, y);
      var t := InsertStable(cmp, init, x);
      assert InsertStable(cmp, s, x) == t + [last];
      assert s == init + [last];
      NotBothTied(cmp, last, x, y);
      TiedPastLast(cmp, init, t, x, last, y);
    }
  }

  /** When `t`'s members tied with `y` are `init`'s plus possibly `x`, and `x` and `last` are
      not both tied with `y`, appending `last` to both keeps that relation. */
  lemma TiedPastLast<T>(cmp: (T, T) -> int, init: seq<T>, t: seq<T>, x: T, last: T, y: T)
    requires TiedWith(cmp, t, y) == TiedWith(cmp, init, y) + (if cmp(x, y) == 0 then [x] else [])
    requires !(cmp(x, y) == 0 && cmp(last, y) == 0)
    ensures TiedWith(cmp, t + [last], y)
         == TiedWith(cmp, init + [last], y) + (if cmp(x, y) == 0 then [x] else [])
  {
    TiedWithSnoc(cmp, t, last, y);
    TiedWithSnoc(cmp, init, last, y);
    var before := TiedWith(cmp, init, y);
    var withX := if cmp(x, y) == 0 then [x] else [];
    var withLast := if cmp(last, y) == 0 then [last] else [];
    if withLast == [] {
      assert before + withLast == before;
      assert before + withX + withLast == before + withX;
    } else {
      assert before + withX == before;
      assert before + withLast + withX == before + withLast;
    }
  }

  /** Insertion sort, front to back: a stable sort. */
  function StableSort<T(==,!new)>(cmp: (T, T) -> int, s: seq<T>): (r: seq<T>)
    requires ConsistentComparator(cmp)
    ensures multiset(r) == multiset(s)
    ensures Ordered(cmp, r)
    ensures forall y :: TiedWith(cmp, r, y) == TiedWith(cmp, s, y)
  {
    if s == [] then []
    else
      var init, x := s[..|s| - 1], s[|s| - 1];
      var t := StableSort(cmp, init);
      InsertStableOrdered(cmp, t, x);
      var r := InsertStable(cmp, t, x);
      assert forall y :: TiedWith(cmp, r, y) == TiedWith(cmp, s, y) by {
        forall y ensures TiedWith(cmp, r, y) == TiedWith(cmp, s, y) {
          InsertStableTies(cmp, t, x, y);
        }
      }
      assert s == init + [x];
      r
  }

  function ComparatorOf(key: ClientSortKey, order: SortOrder): (Drug, Drug) -> int {
    (a: Drug, b: Drug) => Comparator(key, order, a, b)
  }

  lemma ComparatorConsistent(key: ClientSortKey, order: SortOrder)
    ensures ConsistentComparator(ComparatorOf(key, order))
  {
    var cmp := ComparatorOf(key, order);
    forall a, b, c ensures cmp(a, b) == -cmp(b, a) && (cmp(a, b) <= 0 && cmp(b, c) <= 0 ==> cmp(a, c) <= 0) {
      ComparatorFacts(key, order, a, b, c);
    }
  }

  /** `sortDrugs`: a sorted copy. It is a permutation of the input, ordered by the comparator,
      and stable: the drugs with any one sort value keep their input order. */
  function SortDrugs(drugs: seq<Drug>, key: ClientSortKey, order: SortOrder): (r: seq<Drug>)
    ensures multiset(r) == multiset(drugs)
    ensures Ordered(ComparatorOf(key, order), r)
    ensures forall y :: TiedWith(ComparatorOf(key, order), r, y) == TiedWith(ComparatorOf(key, order), drugs, y)
  {
    ComparatorConsistent(key, order);
    StableSort(ComparatorOf(key, order), drugs)
  }

  /** Ties under the comparator are exactly the drugs with equal sort values, whatever the
      direction. */
  lemma TiesAreEqualValues(key: ClientSortKey, order: SortOrder, a: Drug, b: Drug)
    ensures ComparatorOf(key, order)(a, b) == 0 <==> Tied(key, a, b)
  {
    ComparatorFacts(key, order, a, b, b);
  }

  // ---------------------------------------------------------------------------
  // validateDrugCode, validateEmail
  // ---------------------------------------------------------------------------

  predicate IsCodeChar(c: char) { IsDigit(c) || IsAsciiLetter(c) || c == '-' }

  /** The class `[0-9A-Za-z-]` matched character by character. */
  function AllCodeChars(s: string): (b: bool)
    ensures b <==> forall i :: 0 <= i < |s| ==> IsCodeChar(s[i])
  {
    if s == [] then true
    else
      var b := IsCodeChar(s[0]) && AllCodeChars(s[1..]);
      assert forall i :: 1 <= i < |s| ==> s[i] == s[1..][i - 1];
      b
  }

  /** `validateDrugCode`: at least three characters, each a digit, an ASCII letter or `-`. */
  function ValidateDrugCode(code: string): (b: bool)
    ensures b <==> |code| >= 3 && forall i :: 0 <= i < |code| ==> IsCodeChar(code[i])
  {
    AllCodeChars(code) && |code| >= 3
  }

  /** A character of the class `[^\s@]`. */
  predicate Plain(c: char) { !IsSpace(c) && c != '@' }

  predicate AllPlain(s: string) {
    forall i :: 0 <= i < |s| ==> Plain(s[i])
  }

  /** `email` is a non-empty plain run, `@` at `k`, a non-empty plain run, `.` at `p` and a
      non-empty plain run. */
  predicate EmailShape(email: string, k: int, p: int) {
    && 0 < k && k + 1 < p && p + 1 < |email|
    && email[k] == '@' && email[p] == '.'
    && AllPlain(email[..k]) && AllPlain(email[k + 1..p]) && AllPlain(email[p + 1..])
  }

  /** What the pattern asks once the `@` is known to be the first one. */
  predicate AcceptedAfterFirstAt(email: string) {
    var k := FirstIndex(email, '@');
    && 1 <= k && k + 3 < |email|
    && AllPlain(email[..k]) && AllPlain(email[k + 1..])
    && FirstIndex(email[k + 2..|email| - 1], '.') < |email| - k - 3
  }

  /** `validateEmail`: the pattern `^[^\s@]+@[^\s@]+\.[^\s@]+$`. The first run cannot hold `@`,
      so the `@` is the first one; all that follows it must be plain and hold a `.` that is
      neither its first nor its last character. */
  function ValidateEmail(email: string): (b: bool)
    ensures b <==> exists k, p :: EmailShape(email, k, p)
  {
    EmailDecided(email);
    AcceptedAfterFirstAt(email)
  }

  lemma EmailDecided(email: string)
    ensures AcceptedAfterFirstAt(email) <==> exists k, p :: EmailShape(email, k, p)
  {
    if AcceptedAfterFirstAt(email) {
      EmailWitness(email);
    }
    forall k, p | EmailShape(email, k, p) ensures AcceptedAfterFirstAt(email) {
      EmailNecessary(email, k, p);
    }
  }

  lemma EmailWitness(email: string)
    requires AcceptedAfterFirstAt(email)
    ensures exists k, p :: EmailShape(email, k, p)
  {
    var k := FirstIndex(email, '@');
    var rest := email[k + 1..];
    var mid := email[k + 2..|email| - 1];
    var d := FirstIndex(mid, '.');
    var p := k + 2 + d;
    assert email[p] == mid[d];
    assert email[k + 1..p] == rest[..d + 1];
    assert email[p + 1..] == rest[d + 2..];
    assert EmailShape(email, k, p);
  }

  /** The `@` of any split is the first one. */
  lemma EmailAtIsFirst(email: string, k: int, p: int)
    requires EmailShape(email, k, p)
    ensures FirstIndex(email, '@') == k
  {
    var f := FirstIndex(email, '@');
    assert '@' !in email[..k] by {
      forall i | 0 <= i < k ensures email[..k][i] != '@' {
        assert Plain(email[..k][i]);
      }
    }
    assert forall i :: 0 <= i < k ==> email[..k][i] == email[i];
    assert f <= k;
  }

  lemma EmailNecessary(email: string, k: int, p: int)
    requires EmailShape(email, k, p)
    ensures AcceptedAfterFirstAt(email)
  {
    EmailAtIsFirst(email, k, p);
    var rest := email[k + 1..];
    var left, right := email[k + 1..p], email[p + 1..];
    forall i | 0 <= i < |rest|
      ensures Plain(rest[i])
    {
      if i < p - k - 1 {
        assert rest[i] == left[i];
      } else if i > p - k - 1 {
        assert rest[i] == right[i - (p - k)];
      }
    }
    var mid := email[k + 2..|email| - 1];
    assert mid[p - k - 2] == '.';
  }

  // ---------------------------------------------------------------------------
  // truncateText
  // ---------------------------------------------------------------------------

  /** `truncateText`: the text when it fits, else its first `maxLength` characters (none when
      `maxLength` is negative, as `substring` clamps) and an ellipsis. */
  function TruncateText(text: string, maxLength: int): (r: string)
    ensures |text| <= maxLength ==> r == text
    ensures |text| > maxLength ==>
      var n := if maxLength < 0 then 0 else maxLength;
      |r| == n + 3 && r[..n] == text[..n] && r[n..] == "..."
  {
    if |text| <= maxLength then text
    else text[..if maxLength < 0 then 0 else maxLength] + "..."
  }

  /** Truncating a truncated text again with the same bound changes nothing. */
  lemma TruncateTextIdempotent(text: string, maxLength: int)
    ensures TruncateText(TruncateText(text, maxLength), maxLength) == TruncateText(text, maxLength)
  {
    var r := TruncateText(text, maxLength);
    if |text| > maxLength {
      var n := if maxLength < 0 then 0 else maxLength;
      assert r[..n] + "..." == r;
    }
  }

  // ---------------------------------------------------------------------------
  // getCompanyInitials
  // ---------------------------------------------------------------------------

  /** A first character the class `[&-.，]` matches: `&` through `.`, or the full-width comma. */
  predicate SymbolStart(c: char) { ('&' <= c <= '.') || c == '，' }

  predicate Kept(w: string) { |w| > 0 && !SymbolStart(w[0]) }

  /** `.filter(word => word.length > 0 && !/^[&-.，]/.test(word))` */
  function KeptWords(ws: seq<string>): (r: seq<string>)
    ensures forall i :: 0 <= i < |r| ==> Kept(r[i])
    ensures IsSubsequence(r, ws)
    ensures forall w :: w in r <==> w in ws && Kept(w)
    ensures forall w :: multiset(r)[w] == if Kept(w) then multiset(ws)[w] else 0
  {
    if ws == [] then []
    else
      var rest := KeptWords(ws[1..]);
      assert multiset(ws) == multiset{ws[0]} + multiset(ws[1..]) by {
        assert ws == [ws[0]] + ws[1..];
      }
      var r := if Kept(ws[0]) then [ws[0]] + rest else rest;
      assert Kept(ws[0]) ==> r[1..] == rest && multiset(r) == multiset{ws[0]} + multiset(rest);
      CountsGiveMembers(r, ws);
      r
  }

  /** A sequence with the kept words' counts holds exactly the kept words. */
  lemma CountsGiveMembers(r: seq<string>, ws: seq<string>)
    requires forall w :: multiset(r)[w] == if Kept(w) then multiset(ws)[w] else 0
    ensures forall w :: w in r <==> w in ws && Kept(w)
  {
    forall w ensures w in r <==> w in ws && Kept(w) {
      assert w in r <==> multiset(r)[w] > 0;
      assert w in ws <==> multiset(ws)[w] > 0;
    }
  }

  /** The upper-cased first characters of the first two kept words. */
  function Initials(kept: seq<string>): (r: string)
    requires forall i :: 0 <= i < |kept| ==> |kept[i]| > 0
    ensures |r| == if |kept| < 2 then |kept| else 2
    ensures forall i :: 0 <= i < |r| ==> r[i] == UpperChar(kept[i][0])
  {
    var firsts := seq(|kept|, i requires 0 <= i < |kept| => UpperChar(kept[i][0]));
    if |firsts| < 2 then firsts else firsts[..2]
  }

  /** `getCompanyInitials`: the initials of the space-separated words that are non-empty and
      do not start with a symbol, at most two of them. */
  function GetCompanyInitials(companyName: string): (r: string)
    ensures |r| <= 2
    ensures var kept := KeptWords(Split(companyName, ' '));
      && |r| == (if |kept| < 2 then |kept| else 2)
      && forall i :: 0 <= i < |r| ==> r[i] == UpperChar(kept[i][0])
  {
    Initials(KeptWords(Split(companyName, ' ')))
  }

  /** Words joined by single spaces give the initials of those words that are kept. */
  lemma InitialsOfWords(ws: seq<string>)
    requires |ws| >= 1
    requires forall k :: 0 <= k < |ws| ==> ' ' !in ws[k]
    ensures GetCompanyInitials(Join(ws, ' ')) == Initials(KeptWords(ws))
  {
    SplitJoin(ws, ' ');
  }

  /** A blank name has no initials. */
  lemma InitialsOfEmpty()
    ensures GetCompanyInitials("") == ""
  {
    assert Split("", ' ') == [""];
    assert KeptWords([""]) == [];
  }
}
