/** Breakpoint arithmetic of the frontend layout, with the window's inner width passed in. */
module Responsive {
  import opened Common

  datatype Breakpoint = Xs | Sm | Md | Lg | Xl

  /** Smallest width, in pixels, at which each breakpoint applies. */
  function Threshold(b: Breakpoint): nat {
    match b
    case Xs => 0
    case Sm => 600
    case Md => 900
    case Lg => 1200
    case Xl => 1536
  }

  /** The breakpoints from largest to smallest, the order the fallback scan walks. */
  const OrderedBreakpoints: seq<Breakpoint> := [Xl, Lg, Md, Sm, Xs]

  /** Position of a breakpoint among the five, smallest first; thresholds grow with it. */
  function Rank(b: Breakpoint): (n: nat)
    ensures n < 5 && OrderedBreakpoints[4 - n] == b
  {
    match b
    case Xs => 0
    case Sm => 1
    case Md => 2
    case Lg => 3
    case Xl => 4
  }

  lemma ThresholdsIncrease(a: Breakpoint, b: Breakpoint)
    ensures Rank(a) < Rank(b) <==> Threshold(a) < Threshold(b)
  {
  }

  /** `getCurrentBreakpoint`: the largest breakpoint whose threshold the width reaches; a
      width below every positive threshold, negative ones included, is `xs`. */
  function GetCurrentBreakpoint(width: int): (b: Breakpoint)
    ensures b == Xs || Threshold(b) <= width
    ensures forall c :: Threshold(c) <= width ==> Rank(c) <= Rank(b)
  {
    if width >= Threshold(Xl) then Xl
    else if width >= Threshold(Lg) then Lg
    else if width >= Threshold(Md) then Md
    else if width >= Threshold(Sm) then Sm
    else Xs
  }

  /** A wider window never has a smaller breakpoint. */
  lemma {:induction false} BreakpointMonotonic(w1: int, w2: int)
    requires w1 <= w2
    ensures Rank(GetCurrentBreakpoint(w1)) <= Rank(GetCurrentBreakpoint(w2))
  {
    var b1 := GetCurrentBreakpoint(w1);
    assert b1 == Xs || Threshold(b1) <= w2;
  }

  /** `isMobile`: narrower than `sm`, that is, breakpoint `xs`. */
  function IsMobile(width: int): (r: bool)
    ensures r <==> GetCurrentBreakpoint(width) == Xs
  {
    width < Threshold(Sm)
  }

  /** `isTablet`: from `sm` up to below `lg`, that is, breakpoint `sm` or `md`. */
  function IsTablet(width: int): (r: bool)
    ensures r <==> GetCurrentBreakpoint(width) in {Sm, Md}
  {
    width >= Threshold(Sm) && width < Threshold(Lg)
  }

  /** `isDesktop`: from `lg` up, that is, breakpoint `lg` or `xl`. */
  function IsDesktop(width: int): (r: bool)
    ensures r <==> GetCurrentBreakpoint(width) in {Lg, Xl}
  {
    width >= Threshold(Lg)
  }

  /** Every width is exactly one of mobile, tablet and desktop. */
  lemma DeviceClassesPartition(width: int)
    ensures IsMobile(width) || IsTablet(width) || IsDesktop(width)
    ensures !(IsMobile(width) && IsTablet(width))
    ensures !(IsMobile(width) && IsDesktop(width))
    ensures !(IsTablet(width) && IsDesktop(width))
  {
  }

  // ---------------------------------------------------------------------------
  // getOptimalColumns
  // ---------------------------------------------------------------------------

  const DefaultMinCardWidth := 280
  const DefaultMaxColumns := 5
  const DefaultGap := 24

  /** `Math.floor(a / b)` for a non-zero divisor. */
  function FloorDiv(a: int, b: int): (q: int)
    requires b != 0
    ensures b > 0 ==> q * b <= a < q * b + b
    ensures b < 0 ==> q * b >= a > q * b + b
  {
    if b > 0 then a / b else (-a) / (-b)
  }

  /** What `Math.floor(available / step)` yields: a whole number, or for a zero step an
      infinity of the dividend's sign, or `NaN` for 0 / 0. */
  datatype Columns = Finite(n: int) | PlusInfinity | MinusInfinity | NotANumber

  function PossibleColumns(available: int, step: int): (c: Columns)
    ensures step != 0 ==> c == Finite(FloorDiv(available, step))
  {
    if step != 0 then Finite(FloorDiv(available, step))
    else if available > 0 then PlusInfinity
    else if available < 0 then MinusInfinity
    else NotANumber
  }

  /** `getOptimalColumns`: as many columns as fit, `floor((width - gap) / (minCardWidth + gap))`,
      clamped below by 1 and then above by `maxColumns`. It is `None` only when both the
      divisor and the dividend are 0, where JavaScript produces `NaN`. */
  function GetOptimalColumns(containerWidth: int, minCardWidth: int, maxColumns: int, gap: int): (r: Option<int>)
    ensures r.None? <==> minCardWidth + gap == 0 && containerWidth == gap
    ensures r.Some? && maxColumns >= 1 ==> 1 <= r.value <= maxColumns
    ensures r.Some? && maxColumns < 1 ==> r.value == maxColumns
    ensures minCardWidth + gap > 0 && maxColumns >= 1 ==>
      var fit := FloorDiv(containerWidth - gap, minCardWidth + gap);
      r == Some(if fit < 1 then 1 else if fit > maxColumns then maxColumns else fit)
  {
    match PossibleColumns(containerWidth - gap, minCardWidth + gap)
    case Finite(n) =>
      var atLeastOne := if n > 1 then n else 1;
      Some(if atLeastOne < maxColumns then atLeastOne else maxColumns)
    case PlusInfinity => Some(maxColumns)
    case MinusInfinity => Some(if 1 < maxColumns then 1 else maxColumns)
    case NotANumber => None
  }

  /** Multiplying by a positive number keeps the order. */
  lemma MulLeft(x: int, y: int, b: int)
    requires b > 0 && x <= y
    ensures x * b <= y * b
  {
    var d: nat := y - x;
    assert y * b == x * b + d * b;
  }

  lemma FloorDivMonotonic(a1: int, a2: int, b: int)
    requires b > 0 && a1 <= a2
    ensures FloorDiv(a1, b) <= FloorDiv(a2, b)
  {
    var q1, q2 := FloorDiv(a1, b), FloorDiv(a2, b);
    if q2 + 1 <= q1 {
      MulLeft(q2 + 1, q1, b);
    }
  }

  /** A wider container never gets fewer columns. */
  lemma OptimalColumnsMonotonic(w1: int, w2: int, minCardWidth: int, maxColumns: int, gap: int)
    requires w1 <= w2 && minCardWidth + gap > 0
    ensures GetOptimalColumns(w1, minCardWidth, maxColumns, gap).Some?
    ensures GetOptimalColumns(w2, minCardWidth, maxColumns, gap).Some?
    ensures GetOptimalColumns(w1, minCardWidth, maxColumns, gap).value
         <= GetOptimalColumns(w2, minCardWidth, maxColumns, gap).value
  {
    FloorDivMonotonic(w1 - gap, w2 - gap, minCardWidth + gap);
  }

  /** With the default card width, column limit and gap, a card needs 304 pixels. */
  lemma DefaultColumns(containerWidth: int)
    ensures var r := GetOptimalColumns(containerWidth, DefaultMinCardWidth, DefaultMaxColumns, DefaultGap);
      && r.Some? && 1 <= r.value <= 5
      && (containerWidth >= 24 + 5 * 304 ==> r.value == 5)
      && (containerWidth < 24 + 2 * 304 ==> r.value == 1)
  {
    var fit := FloorDiv(containerWidth - 24, 304);
    if containerWidth >= 24 + 5 * 304 {
      assert fit >= 5;
    }
    if containerWidth < 24 + 2 * 304 {
      assert fit < 2;
    }
  }

  // ---------------------------------------------------------------------------
  // getResponsiveValue
  // ---------------------------------------------------------------------------

  /** `getResponsiveValue`: the value given for the current breakpoint, else the value of the
      nearest smaller breakpoint that has one, else the fallback. A larger breakpoint's value
      is never used. A property set to `undefined` counts as absent, so `values` maps only the
      defined ones. */
  method GetResponsiveValue<T>(width: int, values: map<Breakpoint, T>, fallback: T) returns (r: T)
    ensures var current := GetCurrentBreakpoint(width);
      (exists c :: c in values && Rank(c) <= Rank(current)) ==>
        exists c ::
          && c in values && Rank(c) <= Rank(current) && r == values[c]
          && forall d :: Rank(c) < Rank(d) <= Rank(current) ==> d !in values
    ensures var current := GetCurrentBreakpoint(width);
      (forall c :: Rank(c) <= Rank(current) ==> c !in values) ==> r == fallback
  {
    var current := GetCurrentBreakpoint(width);
    if current in values {
      return values[current];
    }
    var i := 4 - Rank(current) + 1;
    while i < |OrderedBreakpoints|
      invariant 4 - Rank(current) < i <= 5
      invariant forall j :: 4 - Rank(current) <= j < i ==> OrderedBreakpoints[j] !in values
    {
      var bp := OrderedBreakpoints[i];
      if bp in values {
        assert Rank(bp) == 4 - i;
        forall d | Rank(bp) < Rank(d) <= Rank(current) ensures d !in values {
          assert OrderedBreakpoints[4 - Rank(d)] == d;
        }
        return values[bp];
      }
      i := i + 1;
    }
    forall c | Rank(c) <= Rank(current) ensures c !in values {
      assert OrderedBreakpoints[4 - Rank(c)] == c;
    }
    return fallback;
  }
}
