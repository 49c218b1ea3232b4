/** Values, characters and string operations shared by the backend and the frontend models.
    Strings are sequences of code points; case mapping is ASCII-only. */
module Common {

  datatype Option<+T> = None | Some(value: T)

  datatype Result<+T, +E> = Ok(value: T) | Err(error: E)

  // ---------------------------------------------------------------------------
  // Characters
  // ---------------------------------------------------------------------------

  /** JavaScript white space: the WhiteSpace and LineTerminator code points, the set
      that both the regular-expression class `\s` and `String.prototype.trim` use. */
  predicate IsSpace(c: char) {
    var n := c as int;
    (9 <= n <= 13) || n == 32 || n == 0xA0 || n == 0x1680 || (0x2000 <= n <= 0x200A)
    || n == 0x2028 || n == 0x2029 || n == 0x202F || n == 0x205F || n == 0x3000 || n == 0xFEFF
  }

  /** The characters a regular-expression `.` does not match (no `s` flag). */
  predicate IsLineTerminator(c: char) {
    var n := c as int;
    n == 10 || n == 13 || n == 0x2028 || n == 0x2029
  }

  predicate IsDigit(c: char) { '0' <= c <= '9' }

  predicate IsAsciiLetter(c: char) { 'A' <= c <= 'Z' || 'a' <= c <= 'z' }

  function LowerChar(c: char): char {
    if 'A' <= c <= 'Z' then (c as int + 32) as char else c
  }

  function UpperChar(c: char): char {
    if 'a' <= c <= 'z' then (c as int - 32) as char else c
  }

  function Lower(s: string): (r: string)
    ensures |r| == |s|
  {
    seq(|s|, i requires 0 <= i < |s| => LowerChar(s[i]))
  }

  predicate AllSpace(s: string) {
    forall i :: 0 <= i < |s| ==> IsSpace(s[i])
  }

  predicate NoLineTerminator(s: string) {
    forall i :: 0 <= i < |s| ==> !IsLineTerminator(s[i])
  }

  // ---------------------------------------------------------------------------
  // Substrings
  // ---------------------------------------------------------------------------

  /** `n` occurs in `h` starting at index `i`. */
  predicate OccursAt(h: string, n: string, i: int) {
    0 <= i && i + |n| <= |h| && h[i..i + |n|] == n
  }

  /** `h.includes(n)`: decided by scanning start positions left to right. */
  function Contains(h: string, n: string): (b: bool)
    ensures b <==> exists i :: OccursAt(h, n, i)
    decreases |h|
  {
    if |n| > |h| then
      assert forall i :: !OccursAt(h, n, i);
      false
    else if h[..|n|] == n then
      assert OccursAt(h, n, 0);
      true
    else
      var b := Contains(h[1..], n);
      assert forall i :: OccursAt(h[1..], n, i) <==> OccursAt(h, n, i + 1) by {
        forall i ensures OccursAt(h[1..], n, i) <==> OccursAt(h, n, i + 1) {
          if 0 <= i && i + |n| <= |h| - 1 {
            assert h[1..][i..i + |n|] == h[i + 1..i + 1 + |n|];
          }
        }
      }
      assert !OccursAt(h, n, 0);
      assert b ==> exists i :: OccursAt(h, n, i) by {
        if b {
          var i :| OccursAt(h[1..], n, i);
          assert OccursAt(h, n, i + 1);
        }
      }
      assert (exists i :: OccursAt(h, n, i)) ==> b by {
        if exists i :: OccursAt(h, n, i) {
          var i :| OccursAt(h, n, i);
          assert i != 0;
          assert OccursAt(h[1..], n, i - 1);
        }
      }
      b
  }

  /** Index of the first `c` in `s`, or `|s|` when there is none. */
  function FirstIndex(s: string, c: char): (k: nat)
    ensures k <= |s| && c !in s[..k]
    ensures k < |s| ==> s[k] == c
  {
    if s == [] then 0
    else if s[0] == c then 0
    else
      var k := 1 + FirstIndex(s[1..], c);
      assert s[..k] == [s[0]] + s[1..][..k - 1];
      k
  }

  /** The first `c` of `a + [c] + b` is the one after `a` when `a` holds none. */
  lemma {:induction false} FirstIndexAfter(a: string, c: char, b: string)
    requires c !in a
    ensures FirstIndex(a + [c] + b, c) == |a|
    decreases |a|
  {
    if a != [] {
      assert (a + [c] + b)[1..] == a[1..] + [c] + b;
      FirstIndexAfter(a[1..], c, b);
    }
  }

  // ---------------------------------------------------------------------------
  // Trimming
  // ---------------------------------------------------------------------------

  predicate Trimmed(s: string) {
    s == [] || (!IsSpace(s[0]) && !IsSpace(s[|s| - 1]))
  }

  function TrimStart(s: string): (r: string)
    ensures |r| <= |s| && r == s[|s| - |r|..]
    ensures AllSpace(s[..|s| - |r|])
    ensures r == [] || !IsSpace(r[0])
    decreases |s|
  {
    if s != [] && IsSpace(s[0]) then
      var r := TrimStart(s[1..]);
      assert s[..|s| - |r|] == [s[0]] + s[1..][..|s| - 1 - |r|];
      r
    else s
  }

  function TrimEnd(s: string): (r: string)
    ensures |r| <= |s| && r == s[..|r|]
    ensures AllSpace(s[|r|..])
    ensures r == [] || !IsSpace(r[|r| - 1])
    decreases |s|
  {
    if s != [] && IsSpace(s[|s| - 1]) then
      var r := TrimEnd(s[..|s| - 1]);
      assert s[|r|..] == s[..|s| - 1][|r|..] + [s[|s| - 1]];
      r
    else s
  }

  /** `String.prototype.trim`: drops leading and trailing white space. */
  function Trim(s: string): (r: string)
    ensures Trimmed(r)
    ensures Trimmed(s) ==> r == s
    ensures r == [] <==> AllSpace(s)
  {
    var a := TrimStart(s);
    var r := TrimEnd(a);
    TrimFactor(s, a, r);
    r
  }

  /** Trimming text that has no white space at either end leaves it as it is. */
  lemma TrimmedFixed(s: string)
    requires Trimmed(s)
    ensures Trim(s) == s
  {
  }

  /** The trimmed text is the part of `s` between a white-space prefix and a white-space suffix. */
  lemma TrimInfix(s: string)
    ensures exists i :: OccursAt(s, Trim(s), i) && AllSpace(s[..i]) && AllSpace(s[i + |Trim(s)|..])
  {
    var a := TrimStart(s);
    var r := TrimEnd(a);
    assert Trim(s) == r;
    FactorInfix(s, a, r);
  }

  lemma FactorInfix(s: string, a: string, r: string)
    requires |a| <= |s| && a == s[|s| - |a|..] && AllSpace(s[..|s| - |a|]) && (a == [] || !IsSpace(a[0]))
    requires |r| <= |a| && r == a[..|r|] && AllSpace(a[|r|..]) && (r == [] || !IsSpace(r[|r| - 1]))
    ensures exists i :: OccursAt(s, r, i) && AllSpace(s[..i]) && AllSpace(s[i + |r|..])
  {
    TrimFactor(s, a, r);
    var i := |s| - |a|;
    assert OccursAt(s, r, i) && AllSpace(s[..i]) && AllSpace(s[i + |r|..]);
  }

  /** What `Trim` needs about a factor `r` cut out of `s` by the two one-sided trims. */
  lemma TrimFactor(s: string, a: string, r: string)
    requires |a| <= |s| && a == s[|s| - |a|..] && AllSpace(s[..|s| - |a|]) && (a == [] || !IsSpace(a[0]))
    requires |r| <= |a| && r == a[..|r|] && AllSpace(a[|r|..]) && (r == [] || !IsSpace(r[|r| - 1]))
    ensures Trimmed(r)
    ensures OccursAt(s, r, |s| - |a|) && AllSpace(s[..|s| - |a|]) && AllSpace(s[|s| - |a| + |r|..])
    ensures Trimmed(s) ==> r == s
    ensures r == [] <==> AllSpace(s)
  {
    var i := |s| - |a|;
    if r != [] { assert r[0] == a[0]; }
    forall k | 0 <= k < |r| ensures s[i..i + |r|][k] == r[k] {
      assert s[i..i + |r|][k] == s[i + k] == a[k];
    }
    assert s[i + |r|..] == a[|r|..];
    if r == [] {
      assert a[0..] == a;
      assert s[..i] == s;
    }
  }

  // ---------------------------------------------------------------------------
  // Lexicographic order (JavaScript `<` on strings, MongoDB's binary string order)
  // ---------------------------------------------------------------------------

  /** Three-way comparison of strings, character by character; a proper prefix comes first. */
  function LexCompare(a: string, b: string): (c: int)
    ensures -1 <= c <= 1
  {
    if a == [] && b == [] then 0
    else if a == [] then -1
    else if b == [] then 1
    else if a[0] < b[0] then -1
    else if b[0] < a[0] then 1
    else LexCompare(a[1..], b[1..])
  }

  predicate LexLess(a: string, b: string) { LexCompare(a, b) < 0 }

  lemma {:induction false} LexCompareAntisymmetric(a: string, b: string)
    ensures LexCompare(a, b) == -LexCompare(b, a)
  {
    if a != [] && b != [] && a[0] == b[0] {
      LexCompareAntisymmetric(a[1..], b[1..]);
    }
  }

  lemma {:induction false} LexCompareZero(a: string, b: string)
    ensures LexCompare(a, b) == 0 <==> a == b
  {
    if a != [] && b != [] && a[0] == b[0] {
      LexCompareZero(a[1..], b[1..]);
      assert a == [a[0]] + a[1..] && b == [b[0]] + b[1..];
    }
  }

  lemma {:induction false} LexCompareTransitive(a: string, b: string, c: string)
    requires LexCompare(a, b) < 0 && LexCompare(b, c) < 0
    ensures LexCompare(a, c) < 0
  {
    if a != [] && b != [] && c != [] && a[0] == b[0] && b[0] == c[0] {
      LexCompareTransitive(a[1..], b[1..], c[1..]);
    }
  }

  /** Three-way comparison of integers. */
  function IntCompare(x: int, y: int): (c: int)
    ensures c == 0 <==> x == y
    ensures c < 0 <==> x < y
    ensures -1 <= c <= 1
  {
    if x < y then -1 else if y < x then 1 else 0
  }

  // ---------------------------------------------------------------------------
  // Splitting and joining on one character (`String.prototype.split(sep)`)
  // ---------------------------------------------------------------------------

  function Join(ws: seq<string>, sep: char): string
    requires |ws| >= 1
  {
    if |ws| == 1 then ws[0] else ws[0] + [sep] + Join(ws[1..], sep)
  }

  /** The pieces between the separators, empty pieces included; `""` splits into `[""]`. */
  function Split(s: string, sep: char): (ws: seq<string>)
    ensures |ws| >= 1
    ensures forall k :: 0 <= k < |ws| ==> sep !in ws[k]
    ensures Join(ws, sep) == s
    decreases |s|
  {
    if s == [] then [""]
    else if s[0] == sep then
      var rest := Split(s[1..], sep);
      assert s == [sep] + s[1..];
      [""] + rest
    else
      var rest := Split(s[1..], sep);
      var ws := [[s[0]] + rest[0]] + rest[1..];
      assert ws[1..] == rest[1..];
      assert |rest| > 1 ==> Join(rest, sep) == rest[0] + [sep] + Join(rest[1..], sep);
      assert s == [s[0]] + s[1..];
      ws
  }

  /** A piece without the separator splits into itself. */
  lemma {:induction false} SplitPlain(w: string, sep: char)
    requires sep !in w
    ensures Split(w, sep) == [w]
    decreases |w|
  {
    if w != [] {
      SplitPlain(w[1..], sep);
      assert w == [w[0]] + w[1..];
    }
  }

  /** A separator-free piece followed by the separator splits off as the first piece. */
  lemma {:induction false} SplitPrefix(w: string, rest: string, sep: char)
    requires sep !in w
    ensures Split(w + [sep] + rest, sep) == [w] + Split(rest, sep)
    decreases |w|
  {
    var s := w + [sep] + rest;
    if w == [] {
      assert s[1..] == rest;
    } else {
      assert s[1..] == w[1..] + [sep] + rest;
      SplitPrefix(w[1..], rest, sep);
      assert w == [w[0]] + w[1..];
    }
  }

  /** Splitting undoes joining when no piece holds the separator. */
  lemma {:induction false} SplitJoin(ws: seq<string>, sep: char)
    requires |ws| >= 1
    requires forall k :: 0 <= k < |ws| ==> sep !in ws[k]
    ensures Split(Join(ws, sep), sep) == ws
    decreases |ws|
  {
    if |ws| == 1 {
      SplitPlain(ws[0], sep);
    } else {
      SplitJoin(ws[1..], sep);
      SplitPrefix(ws[0], Join(ws[1..], sep), sep);
      assert ws == [ws[0]] + ws[1..];
    }
  }

  // ---------------------------------------------------------------------------
  // Decimal printing (`Number.prototype.toString` on integers)
  // ---------------------------------------------------------------------------

  function DigitChar(d: nat): char
    requires d < 10
  {
    ('0' as int + d) as char
  }

  function DigitValue(c: char): nat
    requires IsDigit(c)
  {
    c as int - '0' as int
  }

  /** The value of a string of decimal digits, most significant first. */
  function DigitsValue(ds: string): nat
    requires forall i :: 0 <= i < |ds| ==> IsDigit(ds[i])
  {
    if ds == [] then 0 else DigitsValue(ds[..|ds| - 1]) * 10 + DigitValue(ds[|ds| - 1])
  }

  /** Shortest decimal digits of `n`. */
  function NatToString(n: nat): (s: string)
    ensures |s| >= 1
    ensures forall i :: 0 <= i < |s| ==> IsDigit(s[i])
    ensures DigitsValue(s) == n
  {
    if n < 10 then [DigitChar(n)]
    else
      var s := NatToString(n / 10) + [DigitChar(n % 10)];
      assert s[..|s| - 1] == NatToString(n / 10);
      s
  }

  function IntToString(n: int): string {
    if n < 0 then "-" + NatToString(-n) else NatToString(n)
  }

  // ---------------------------------------------------------------------------
  // Strictly sorted sequences
  // ---------------------------------------------------------------------------

  predicate StrictlySorted<T>(s: seq<T>, less: (T, T) -> bool) {
    forall i, j :: 0 <= i < j < |s| ==> less(s[i], s[j])
  }

  /** Under an asymmetric order, a strictly sorted sequence is determined by its members. */
  lemma {:induction false} StrictlySortedUnique<T>(s1: seq<T>, s2: seq<T>, less: (T, T) -> bool)
    requires StrictlySorted(s1, less) && StrictlySorted(s2, less)
    requires forall x, y :: !(less(x, y) && less(y, x))
    requires forall x :: x in s1 <==> x in s2
    ensures s1 == s2
    decreases |s1|
  {
    assert s1 != [] ==> s1[0] in s2;
    assert s2 != [] ==> s2[0] in s1;
    if s1 != [] && s2 != [] {
      var a, b := s1[0], s2[0];
      var i :| 0 <= i < |s1| && s1[i] == b;
      var j :| 0 <= j < |s2| && s2[j] == a;
      assert i == 0 || less(a, b);
      assert j == 0 || less(b, a);
      assert a == b;
      var t1, t2 := s1[1..], s2[1..];
      forall x ensures x in t1 <==> x in t2 {
        HeadNotInTail(s1, less, x);
        HeadNotInTail(s2, less, x);
      }
      StrictlySortedUnique(t1, t2, less);
      assert s1 == [a] + t1 && s2 == [b] + t2;
    }
  }

  lemma HeadNotInTail<T>(s: seq<T>, less: (T, T) -> bool, x: T)
    requires s != [] && StrictlySorted(s, less)
    requires forall x, y :: !(less(x, y) && less(y, x))
    ensures StrictlySorted(s[1..], less)
    ensures x in s[1..] <==> x in s && x != s[0]
  {
    if x in s[1..] {
      var i :| 0 <= i < |s[1..]| && s[1..][i] == x;
      assert less(s[0], s[i + 1]);
    }
    if x in s && x != s[0] {
      var i :| 0 <= i < |s| && s[i] == x;
      assert s[1..][i - 1] == x;
    }
    forall i, j | 0 <= i < j < |s[1..]| ensures less(s[1..][i], s[1..][j]) {
      assert s[1..][i] == s[i + 1] && s[1..][j] == s[j + 1];
    }
  }
}
