/** `sizeForClientSize` and `adjustedSize`: a size under the hints of section 4.1.2.3 of the
    Inter-Client Communication Conventions Manual. Doubles are exact reals here. */
module SizeHints {
  import opened Geometry
  import opened Options

  /** The hints as read, with the program's defaults for missing ones; `min` and `max` are the
      limits of the window, `hintMin` and `base` the raw minimum and base sizes. */
  datatype Hints = Hints(
    min: Size, max: Size, hintMin: Size, base: Size, hasBase: bool, inc: Size,
    hasAspect: bool, minAspect: Size, maxAspect: Size, decorated: bool, borders: Size)
  {
    /** What the readers of the hints guarantee: no increment and no denominator of an aspect
        ratio is below one. The numerators are whatever the client says. */
    predicate WellFormed() {
      inc.width >= 1 && inc.height >= 1 && minAspect.height >= 1 && maxAspect.height >= 1
    }

    /** A decorated window is not made smaller than its borders. */
    function MinSize(): (r: Size)
      ensures r.width >= min.width && r.height >= min.height
      ensures decorated ==> r.width >= Max(borders.width, 0) && r.height >= Max(borders.height, 0)
      ensures r.width == min.width || (decorated && r.width == Max(borders.width, 0))
      ensures r.height == min.height || (decorated && r.height == Max(borders.height, 0))
    {
      if decorated
      then Size(Max(Max(borders.width, 0), min.width), Max(Max(borders.height, 0), min.height))
      else min
    }

    /** The origin of the increments: the base size, or else the minimum. */
    function GridOrigin(): (r: Size)
      ensures (hasBase ==> r == base) && (!hasBase ==> r == hintMin)
    {
      if hasBase then base else hintMin
    }

    /** base <= min <= max and min ratio <= max ratio */
    predicate Consistent() {
      && WellFormed()
      && 0 <= GridOrigin().width <= MinSize().width <= max.width
      && 0 <= GridOrigin().height <= MinSize().height <= max.height
      && (if hasBase then true else base == Size(0, 0))
      && minAspect.width * maxAspect.height <= maxAspect.width * minAspect.height
    }
  }

  /** `int(x)` */
  function Truncated(x: real): int { if x < 0.0 then -((-x).Floor) else x.Floor }

  /** `x / inc * inc` */
  function WholeSteps(x: int, inc: int): int
    requires inc >= 1
  {
    Quotient(x, inc) * inc
  }

  function Clamped(x: int, lo: int, hi: int): int { Max(lo, Min(hi, x)) }

  function Gridded(x: int, origin: int, inc: int): int
    requires inc >= 1
  {
    WholeSteps(x - origin, inc) + origin
  }

  // ---------------------------------------------------------------- the aspect ratio

  predicate TooNarrow(h: Hints, s: Size) {
    h.minAspect.width * s.height > h.minAspect.height * s.width
  }

  predicate TooWide(h: Hints, s: Size) {
    h.maxAspect.width * s.height < h.maxAspect.height * s.width
  }

  /** The two comparisons say that the quotient of the sides is below the one ratio or above the other. */
  lemma RatiosAreQuotients(h: Hints, s: Size)
    requires h.WellFormed() && s.height >= 1
    ensures TooNarrow(h, s) <==>
              s.width as real / s.height as real < h.minAspect.width as real / h.minAspect.height as real
    ensures TooWide(h, s) <==>
              s.width as real / s.height as real > h.maxAspect.width as real / h.maxAspect.height as real
  {
    QuotientsCompare(s.width, s.height, h.minAspect.width, h.minAspect.height);
    QuotientsCompare(h.maxAspect.width, h.maxAspect.height, s.width, s.height);
  }

  lemma QuotientsCompare(a: int, b: int, c: int, d: int)
    requires b >= 1 && d >= 1
    ensures a as real / b as real < c as real / d as real <==> c * b > d * a
  {
    var x, y := a as real / b as real, c as real / d as real;
    assert x * b as real == a as real && y * d as real == c as real;
    var p := b as real * d as real;
    assert p > 0.0;
    assert x * p == (a * d) as real && y * p == (c * b) as real;
    assert x < y ==> x * p < y * p;
    assert x >= y ==> x * p >= y * p;
  }

  /** Limits of a size from which the base size has been subtracted. */
  datatype Limits = Limits(min: Size, max: Size)

  function Ideal(a: int, x: int, b: int): real
    requires b != 0
  {
    a as real * x as real / b as real
  }

  /** The four macros compute how far a size is from a bound, in whole increments. Two of them
      divide by a numerator. */
  function ColumnsToAdd(h: Hints, s: Size): int
    requires h.WellFormed()
  {
    WholeSteps(Truncated(Ideal(h.minAspect.width, s.height, h.minAspect.height) - s.width as real), h.inc.width)
  }

  function RowsToShed(h: Hints, s: Size): int
    requires h.WellFormed() && h.minAspect.width != 0
  {
    WholeSteps(Truncated(s.height as real - Ideal(s.width, h.minAspect.height, h.minAspect.width)), h.inc.height)
  }

  function RowsToAdd(h: Hints, s: Size): int
    requires h.WellFormed() && h.maxAspect.width != 0
  {
    WholeSteps(Truncated(Ideal(s.width, h.maxAspect.height, h.maxAspect.width) - s.height as real), h.inc.height)
  }

  function ColumnsToShed(h: Hints, s: Size): int
    requires h.WellFormed()
  {
    WholeSteps(Truncated(s.width as real - Ideal(h.maxAspect.width, s.height, h.maxAspect.height)), h.inc.width)
  }

  /** The four macros. The result is None where an infinite quotient is converted to an integer,
      which has no defined value. */
  function GrowW(h: Hints, lim: Limits, s: Size): Option<Size>
    requires h.WellFormed()
  {
    if !TooNarrow(h, s) then Some(s)
    else
      var delta := ColumnsToAdd(h, s);
      if s.width + delta <= lim.max.width then Some(s.(width := s.width + delta)) else Some(s)
  }

  function ShrinkHGrowW(h: Hints, lim: Limits, s: Size): Option<Size>
    requires h.WellFormed()
  {
    if !TooNarrow(h, s) then Some(s)
    else if h.minAspect.width == 0 then None
    else
      var delta := RowsToShed(h, s);
      if s.height - delta >= lim.min.height then Some(s.(height := s.height - delta)) else GrowW(h, lim, s)
  }

  function GrowH(h: Hints, lim: Limits, s: Size): Option<Size>
    requires h.WellFormed()
  {
    if !TooWide(h, s) then Some(s)
    else if h.maxAspect.width == 0 then None
    else
      var delta := RowsToAdd(h, s);
      if s.height + delta <= lim.max.height then Some(s.(height := s.height + delta)) else Some(s)
  }

  function ShrinkWGrowH(h: Hints, lim: Limits, s: Size): Option<Size>
    requires h.WellFormed()
  {
    if !TooWide(h, s) then Some(s)
    else
      var delta := ColumnsToShed(h, s);
      if s.width - delta >= lim.min.width then Some(s.(width := s.width - delta)) else GrowH(h, lim, s)
  }

  datatype Step = DoGrowW | DoShrinkHGrowW | DoGrowH | DoShrinkWGrowH

  function Apply(h: Hints, lim: Limits, s: Size, step: Step): Option<Size>
    requires h.WellFormed()
  {
    match step
    case DoGrowW => GrowW(h, lim, s)
    case DoShrinkHGrowW => ShrinkHGrowW(h, lim, s)
    case DoGrowH => GrowH(h, lim, s)
    case DoShrinkWGrowH => ShrinkWGrowH(h, lim, s)
  }

  function ApplyAll(h: Hints, lim: Limits, s: Size, steps: seq<Step>): Option<Size>
    requires h.WellFormed()
    decreases |steps|
  {
    if steps == [] then Some(s)
    else
      var t := Apply(h, lim, s, steps[0]);
      if t.None? then None else ApplyAll(h, lim, t.value, steps[1..])
  }

  /** The side to keep is changed last, and for a maximum all steps that shrink come first. */
  function Order(mode: SizeMode): seq<Step> {
    match mode
    case SizeAny | FixedW => [DoGrowH, DoShrinkHGrowW, DoShrinkWGrowH, DoGrowW]
    case FixedH => [DoGrowW, DoShrinkWGrowH, DoShrinkHGrowW, DoGrowH]
    case SizeMax => [DoShrinkHGrowW, DoShrinkWGrowH, DoGrowW, DoGrowH]
  }

  function AspectStage(h: Hints, lim: Limits, s: Size, mode: SizeMode): Option<Size>
    requires h.WellFormed()
  {
    ApplyAll(h, lim, s, Order(mode))
  }

  // ---------------------------------------------------------------- one repair step

  /** For a positive quotient the reals only do integer division. */
  lemma TruncatedIsDivision(a: int, x: int, b: int, w: int)
    requires b >= 1 && a * x >= b * w
    ensures Truncated(Ideal(a, x, b) - w as real) == a * x / b - w >= 0
  {
    assert a as real * x as real == (a * x) as real;
    RealQuotient(a * x, b);
    assert (Ideal(a, x, b) - w as real).Floor == a * x / b - w;
    QuotientAtLeast(a * x, b, w);
  }

  lemma RealQuotient(p: int, b: int)
    requires b >= 1
    ensures (p / b) as real <= p as real / b as real < (p / b) as real + 1.0
  {
    var q, r := p / b, p % b;
    assert p == q * b + r;
    assert (q * b) as real == q as real * b as real;
    assert p as real / b as real == q as real + r as real / b as real;
    assert 0.0 <= r as real / b as real < 1.0;
  }

  lemma QuotientAtLeast(p: int, b: int, w: int)
    requires b >= 1 && p >= b * w
    ensures p / b >= w
  {
    var q := p / b;
    assert p == q * b + p % b;
    if q < w {
      Monotone(b, q + 1, w);
      assert false;
    }
  }

  lemma StepsBelow(x: int, inc: int)
    requires inc >= 1 && x >= 0
    ensures 0 <= WholeSteps(x, inc) <= x < WholeSteps(x, inc) + inc
    ensures WholeSteps(x, inc) % inc == 0
  {
    var q := x / inc;
    assert x == q * inc + x % inc;
    assert q <= -1 ==> q * inc <= -inc;
    assert q >= 0 ==> q * inc >= 0;
    MultipleOf(q, inc);
  }

  lemma MultipleOf(k: int, inc: int)
    requires inc >= 1
    ensures (k * inc) % inc == 0
  {
    var m := k * inc;
    assert m == m / inc * inc + m % inc;
    var j := k - m / inc;
    assert j * inc == m % inc;
    assert j >= 1 ==> j * inc >= inc;
    assert j <= -1 ==> j * inc <= -inc;
  }

  lemma Monotone(a: int, x: int, y: int)
    requires a >= 0 && x <= y
    ensures a * x <= a * y
  {
  }

  lemma MultiplesAdd(x: int, y: int, inc: int)
    requires inc >= 1 && x % inc == 0 && y % inc == 0
    ensures (x + y) % inc == 0
  {
    assert x + y == (x / inc + y / inc) * inc;
    MultipleOf(x / inc + y / inc, inc);
  }

  /** Growing `x` toward the ratio a : b of `y` never passes it and stops within one increment. */
  lemma GrowsToward(a: int, b: int, x: int, y: int, inc: int)
    requires a >= 1 && b >= 1 && inc >= 1 && a * y > b * x
    ensures
      var delta := WholeSteps(Truncated(Ideal(a, y, b) - x as real), inc);
      && delta >= 0 && delta % inc == 0
      && b * (x + delta) <= a * y < b * (x + delta + inc)
  {
    TruncatedIsDivision(a, y, b, x);
    var n := a * y / b - x;
    StepsBelow(n, inc);
    var delta := WholeSteps(n, inc);
    var q := a * y / b;
    assert q == x + n;
    assert a * y == b * q + a * y % b;
    Monotone(b, x + delta, q);
    Monotone(b, q + 1, x + delta + inc);
    assert b * (q + 1) == b * q + b;
  }

  /** Shrinking `y` toward the ratio a : b of `x` never passes it and stops within one increment. */
  lemma ShrinksToward(a: int, b: int, x: int, y: int, inc: int)
    requires a >= 1 && b >= 1 && inc >= 1 && a * y > b * x && x >= 0
    ensures
      var delta := WholeSteps(Truncated(y as real - Ideal(x, b, a)), inc);
      && 0 <= delta <= y && delta % inc == 0
      && a * (y - delta - inc) < b * x <= a * (y - delta)
  {
    FloorOfDifference(a, b, x, y);
    var n := Truncated(y as real - Ideal(x, b, a));
    StepsBelow(n, inc);
    var delta := WholeSteps(n, inc);
    Monotone(a, y - n, y - delta);
    Monotone(a, y - delta - inc, y - n - 1);
    Monotone(b, 0, x);
    assert y - delta < 0 ==> a * (y - delta) < 0;
  }

  lemma FloorOfDifference(a: int, b: int, x: int, y: int)
    requires a >= 1 && b >= 1 && a * y > b * x
    ensures
      var n := Truncated(y as real - Ideal(x, b, a));
      n >= 0 && a * (y - n - 1) < b * x <= a * (y - n)
  {
    var n := Truncated(y as real - Ideal(x, b, a));
    IdealCompares(x, b, a, y);
    assert y as real > Ideal(x, b, a);
    assert n as real <= y as real - Ideal(x, b, a) < n as real + 1.0;
    assert (y - n - 1) as real < Ideal(x, b, a) <= (y - n) as real;
    IdealCompares(x, b, a, y - n);
    IdealCompares(x, b, a, y - n - 1);
  }

  /** An integer is compared with a quotient by cross multiplication. */
  lemma IdealCompares(x: int, b: int, a: int, k: int)
    requires a >= 1
    ensures k as real >= Ideal(x, b, a) <==> a * k >= b * x
    ensures k as real > Ideal(x, b, a) <==> a * k > b * x
  {
    var z := Ideal(x, b, a);
    assert z * a as real == (x * b) as real by {
      assert x as real * b as real == (x * b) as real;
    }
    assert k as real * a as real == (a * k) as real;
    assert (k as real - z) * a as real == k as real * a as real - z * a as real;
  }

  /** A size that keeps the tighter ratio p : q keeps the looser ratio a : b. */
  lemma LooserRatio(a: int, b: int, p: int, q: int, x: int, y: int)
    requires a >= 1 && b >= 1 && p >= 1 && q >= 1 && y >= 0
    requires p * b <= a * q && q * x <= p * y
    ensures b * x <= a * y
  {
    assert b * (q * x) <= b * (p * y);
    assert (p * b) * y <= (a * q) * y;
    assert q * (b * x) <= q * (a * y);
  }

  // ---------------------------------------------------------------- the whole stage

  /** What every step, and every sequence of steps, keeps: both sizes stay on their grids, do not
      grow beyond the maximum or shrink below the minimum, a bound that holds goes on
      holding, and a size within both bounds is left alone. */
  predicate SafeChange(h: Hints, lim: Limits, s: Size, r: Size)
    requires h.WellFormed()
  {
    && (r.width - s.width) % h.inc.width == 0 && (r.height - s.height) % h.inc.height == 0
    && r.width <= Max(s.width, lim.max.width) && r.height <= Max(s.height, lim.max.height)
    && r.width >= Min(s.width, lim.min.width) && r.height >= Min(s.height, lim.min.height)
    && r.width >= 0 && r.height >= 0
    && (!TooNarrow(h, s) ==> !TooNarrow(h, r))
    && (!TooWide(h, s) ==> !TooWide(h, r))
    && (!TooNarrow(h, s) && !TooWide(h, s) ==> r == s)
  }

  predicate RatiosOrdered(h: Hints) {
    h.minAspect.width * h.maxAspect.height <= h.maxAspect.width * h.minAspect.height
  }

  /** `r` repaired a narrow size: one increment more, or one row less, would satisfy the bound. */
  predicate NarrowRepaired(h: Hints, r: Size) {
    !TooNarrow(h, r.(width := r.width + h.inc.width)) || !TooNarrow(h, r.(height := r.height - h.inc.height))
  }

  predicate WideRepaired(h: Hints, r: Size) {
    !TooWide(h, r.(height := r.height + h.inc.height)) || !TooWide(h, r.(width := r.width - h.inc.width))
  }

  /** Neither way of repairing a narrow size is allowed by the limits. */
  predicate NarrowForced(h: Hints, lim: Limits, s: Size)
    requires h.WellFormed()
  {
    && h.minAspect.width != 0
    && s.height - RowsToShed(h, s) < lim.min.height && s.width + ColumnsToAdd(h, s) > lim.max.width
  }

  predicate WideForced(h: Hints, lim: Limits, s: Size)
    requires h.WellFormed()
  {
    && h.maxAspect.width != 0
    && s.width - ColumnsToShed(h, s) < lim.min.width && s.height + RowsToAdd(h, s) > lim.max.height
  }

  predicate IsSize(s: Size) { s.width >= 0 && s.height >= 0 }

  /** The guard of the failing case: a size is too wide for a ratio whose numerator is not positive. */
  predicate Hopeless(h: Hints, s: Size) { h.maxAspect.width <= 0 && TooWide(h, s) }

  /** Only a positive minimum ratio makes a size too narrow, and then the maximum ratio is positive. */
  lemma NarrowMeansPositive(h: Hints, s: Size)
    requires h.WellFormed() && IsSize(s) && TooNarrow(h, s)
    ensures h.minAspect.width >= 1
    ensures RatiosOrdered(h) ==> h.maxAspect.width >= 1
  {
    var a := h.minAspect.width;
    assert h.minAspect.height * s.width >= 0;
    assert a <= 0 ==> a * s.height <= 0;
    assert a * h.maxAspect.height >= a;
    assert h.maxAspect.width <= 0 ==> h.maxAspect.width * h.minAspect.height <= 0;
  }

  lemma NotBoth(h: Hints, s: Size)
    requires h.WellFormed() && RatiosOrdered(h) && IsSize(s)
    ensures !(TooNarrow(h, s) && TooWide(h, s))
  {
    if TooNarrow(h, s) {
      NarrowMeansPositive(h, s);
      LooserRatio(h.maxAspect.width, h.maxAspect.height, h.minAspect.width, h.minAspect.height, s.width, s.height);
    }
  }

  /** A size that keeps a positive maximum ratio keeps the minimum ratio too, if that is smaller. */
  lemma MaximumKeepsMinimum(h: Hints, s: Size)
    requires h.WellFormed() && RatiosOrdered(h) && IsSize(s) && h.maxAspect.width >= 1
    requires h.maxAspect.height * s.width >= h.maxAspect.width * s.height
    ensures !TooNarrow(h, s)
  {
    if TooNarrow(h, s) {
      NarrowMeansPositive(h, s);
      LooserRatio(h.minAspect.height, h.minAspect.width, h.maxAspect.height, h.maxAspect.width, s.height, s.width);
      assert false;
    }
  }

  lemma GrowWIsSafe(h: Hints, lim: Limits, s: Size)
    requires h.WellFormed() && RatiosOrdered(h) && IsSize(s)
    ensures
      var r := GrowW(h, lim, s).value;
      && SafeChange(h, lim, s, r)
      && (TooNarrow(h, s) ==>
            NarrowRepaired(h, r) || (r == s && s.width + ColumnsToAdd(h, s) > lim.max.width))
  {
    if TooNarrow(h, s) {
      NarrowMeansPositive(h, s);
      GrowsToward(h.minAspect.width, h.minAspect.height, s.width, s.height, h.inc.width);
      var r := GrowW(h, lim, s).value;
      LooserRatio(h.maxAspect.width, h.maxAspect.height, h.minAspect.width, h.minAspect.height, r.width, r.height);
    }
  }

  lemma NegatedMultiple(x: int, inc: int)
    requires inc >= 1 && x % inc == 0
    ensures (-x) % inc == 0
  {
    assert -x == -(x / inc) * inc;
    MultipleOf(-(x / inc), inc);
  }

  lemma ShedRowsIsSafe(h: Hints, lim: Limits, s: Size)
    requires h.WellFormed() && RatiosOrdered(h) && IsSize(s) && TooNarrow(h, s) && h.minAspect.width >= 1
    requires s.height - RowsToShed(h, s) >= lim.min.height
    ensures
      var r := s.(height := s.height - RowsToShed(h, s));
      SafeChange(h, lim, s, r) && NarrowRepaired(h, r)
  {
    NarrowMeansPositive(h, s);
    ShrinksToward(h.minAspect.width, h.minAspect.height, s.width, s.height, h.inc.height);
    NegatedMultiple(RowsToShed(h, s), h.inc.height);
    LooserRatio(h.maxAspect.width, h.maxAspect.height, h.minAspect.width, h.minAspect.height,
                s.width, s.height - RowsToShed(h, s));
  }

  lemma ShrinkHIsSafe(h: Hints, lim: Limits, s: Size)
    requires h.WellFormed() && RatiosOrdered(h) && IsSize(s)
    ensures ShrinkHGrowW(h, lim, s).Some?
    ensures
      var r := ShrinkHGrowW(h, lim, s).value;
      && SafeChange(h, lim, s, r)
      && (TooNarrow(h, s) ==> NarrowRepaired(h, r) || (r == s && NarrowForced(h, lim, s)))
  {
    if TooNarrow(h, s) {
      NarrowMeansPositive(h, s);
      if s.height - RowsToShed(h, s) >= lim.min.height {
        ShedRowsIsSafe(h, lim, s);
      } else {
        GrowWIsSafe(h, lim, s);
      }
    }
  }

  lemma GrowHIsSafe(h: Hints, lim: Limits, s: Size)
    requires h.WellFormed() && RatiosOrdered(h) && IsSize(s) && !Hopeless(h, s)
    ensures GrowH(h, lim, s).Some?
    ensures
      var r := GrowH(h, lim, s).value;
      && SafeChange(h, lim, s, r)
      && (TooWide(h, s) ==>
            WideRepaired(h, r) || (r == s && s.height + RowsToAdd(h, s) > lim.max.height))
  {
    if TooWide(h, s) {
      GrowsToward(h.maxAspect.height, h.maxAspect.width, s.height, s.width, h.inc.height);
      var r := GrowH(h, lim, s).value;
      if r != s {
        MaximumKeepsMinimum(h, r);
      }
    }
  }

  lemma ShedColumnsIsSafe(h: Hints, lim: Limits, s: Size)
    requires h.WellFormed() && RatiosOrdered(h) && IsSize(s) && TooWide(h, s) && h.maxAspect.width >= 1
    requires s.width - ColumnsToShed(h, s) >= lim.min.width
    ensures
      var r := s.(width := s.width - ColumnsToShed(h, s));
      SafeChange(h, lim, s, r) && WideRepaired(h, r)
  {
    assert Ideal(h.maxAspect.width, s.height, h.maxAspect.height) == Ideal(s.height, h.maxAspect.width, h.maxAspect.height);
    ShrinksToward(h.maxAspect.height, h.maxAspect.width, s.height, s.width, h.inc.width);
    NegatedMultiple(ColumnsToShed(h, s), h.inc.width);
    MaximumKeepsMinimum(h, s.(width := s.width - ColumnsToShed(h, s)));
  }

  lemma ShrinkWIsSafe(h: Hints, lim: Limits, s: Size)
    requires h.WellFormed() && RatiosOrdered(h) && IsSize(s) && !Hopeless(h, s)
    ensures ShrinkWGrowH(h, lim, s).Some?
    ensures
      var r := ShrinkWGrowH(h, lim, s).value;
      && SafeChange(h, lim, s, r)
      && (TooWide(h, s) ==> WideRepaired(h, r) || (r == s && WideForced(h, lim, s)))
  {
    if TooWide(h, s) && s.width - ColumnsToShed(h, s) >= lim.min.width {
      ShedColumnsIsSafe(h, lim, s);
    } else {
      GrowHIsSafe(h, lim, s);
    }
  }

  lemma SafeChangesCompose(h: Hints, lim: Limits, s: Size, t: Size, r: Size)
    requires h.WellFormed() && SafeChange(h, lim, s, t) && SafeChange(h, lim, t, r)
    ensures SafeChange(h, lim, s, r)
  {
    MultiplesAdd(t.width - s.width, r.width - t.width, h.inc.width);
    MultiplesAdd(t.height - s.height, r.height - t.height, h.inc.height);
  }

  lemma StepIsSafe(h: Hints, lim: Limits, s: Size, step: Step)
    requires h.WellFormed() && RatiosOrdered(h) && IsSize(s) && !Hopeless(h, s)
    ensures Apply(h, lim, s, step).Some?
    ensures
      var r := Apply(h, lim, s, step).value;
      SafeChange(h, lim, s, r) && IsSize(r) && !Hopeless(h, r)
  {
    match step
    case DoGrowW => GrowWIsSafe(h, lim, s);
    case DoShrinkHGrowW => ShrinkHIsSafe(h, lim, s);
    case DoGrowH => GrowHIsSafe(h, lim, s);
    case DoShrinkWGrowH => ShrinkWIsSafe(h, lim, s);
  }

  lemma UnchangedIsSafe(h: Hints, lim: Limits, s: Size)
    requires h.WellFormed() && IsSize(s)
    ensures SafeChange(h, lim, s, s)
  {
  }

  /** Steps in any order and number are safe. */
  lemma {:induction false} StepsAreSafe(h: Hints, lim: Limits, s: Size, steps: seq<Step>)
    requires h.WellFormed() && RatiosOrdered(h) && IsSize(s) && !Hopeless(h, s)
    ensures ApplyAll(h, lim, s, steps).Some?
    ensures SafeChange(h, lim, s, ApplyAll(h, lim, s, steps).value)
    decreases |steps|
  {
    if steps == [] {
      UnchangedIsSafe(h, lim, s);
    } else {
      StepIsSafe(h, lim, s, steps[0]);
      var t := Apply(h, lim, s, steps[0]).value;
      StepsAreSafe(h, lim, t, steps[1..]);
      SafeChangesCompose(h, lim, s, t, ApplyAll(h, lim, s, steps).value);
    }
  }

  // ---------------------------------------------------------------- numerators that are not positive

  /** A maximum numerator of zero asks for no width at all. The two orders that shrink the width
      before they grow the height get there, if the width is whole increments and may vanish. */
  predicate WidthVanishes(h: Hints, lim: Limits, s: Size, mode: SizeMode)
    requires h.WellFormed()
  {
    (mode.FixedH? || mode.SizeMax?) && s.width % h.inc.width == 0 && lim.min.width <= 0
  }

  /** The size is wider than nothing, and the program divides by zero. */
  predicate Undefined(h: Hints, lim: Limits, s: Size, mode: SizeMode)
    requires h.WellFormed()
  {
    h.maxAspect.width == 0 && s.width > 0 && !WidthVanishes(h, lim, s, mode)
  }

  /** In every mode the four steps together are defined exactly outside that guard. Whenever they are
      defined they are safe, and for a negative maximum numerator too they keep to the grids
      and the maximum; only the minimum may be missed then. */
  lemma AspectStageIsSafe(h: Hints, lim: Limits, s: Size, mode: SizeMode)
    requires h.WellFormed() && RatiosOrdered(h) && IsSize(s)
    ensures
      var stage := AspectStage(h, lim, s, mode);
      && (stage.None? <==> Undefined(h, lim, s, mode))
      && (stage.Some? && (h.maxAspect.width >= 0 || !TooWide(h, s)) ==> SafeChange(h, lim, s, stage.value))
      && (stage.Some? && lim.min.width >= 0 && lim.max.height >= 0 ==> KeepsGridAndMaximum(h, lim, s, stage.value))
  {
    if h.maxAspect.width >= 0 {
      NonNegativeStage(h, lim, s, mode);
    } else {
      NegativeStage(h, lim, s, mode);
      if !TooWide(h, s) {
        StepsAreSafe(h, lim, s, Order(mode));
      }
    }
  }

  lemma NonNegativeStage(h: Hints, lim: Limits, s: Size, mode: SizeMode)
    requires h.WellFormed() && RatiosOrdered(h) && IsSize(s) && h.maxAspect.width >= 0
    ensures AspectStage(h, lim, s, mode).None? <==> Undefined(h, lim, s, mode)
    ensures AspectStage(h, lim, s, mode).Some? ==> SafeChange(h, lim, s, AspectStage(h, lim, s, mode).value)
  {
    if Hopeless(h, s) {
      ZeroStage(h, lim, s, mode);
    } else {
      assert h.maxAspect.height * s.width >= s.width;
      StepsAreSafe(h, lim, s, Order(mode));
    }
  }

  lemma NegativeStage(h: Hints, lim: Limits, s: Size, mode: SizeMode)
    requires h.WellFormed() && RatiosOrdered(h) && h.maxAspect.width < 0 && s.width >= 0
    ensures AspectStage(h, lim, s, mode).Some?
    ensures lim.min.width >= 0 && lim.max.height >= 0 ==>
              KeepsGridAndMaximum(h, lim, s, AspectStage(h, lim, s, mode).value)
  {
    NegativeKeepsDefined(h, lim, s, Order(mode));
    if lim.min.width >= 0 && lim.max.height >= 0 {
      NegativeKeepsGrid(h, lim, s, Order(mode));
    }
  }

  lemma ZeroStage(h: Hints, lim: Limits, s: Size, mode: SizeMode)
    requires h.WellFormed() && RatiosOrdered(h) && IsSize(s) && h.maxAspect.width == 0 && TooWide(h, s)
    ensures AspectStage(h, lim, s, mode).None? <==> Undefined(h, lim, s, mode)
    ensures AspectStage(h, lim, s, mode).Some? ==> SafeChange(h, lim, s, AspectStage(h, lim, s, mode).value)
  {
    ZeroNumerator(h, lim, s, mode);
    if WidthVanishes(h, lim, s, mode) {
      NegatedMultiple(s.width, h.inc.width);
    }
  }

  predicate KeepsGridAndMaximum(h: Hints, lim: Limits, s: Size, r: Size)
    requires h.WellFormed()
  {
    && (r.width - s.width) % h.inc.width == 0 && (r.height - s.height) % h.inc.height == 0
    && r.width <= Max(s.width, lim.max.width) && r.height <= Max(s.height, lim.max.height)
    && r.width >= 0
  }

  /** Neither numerator is zero when the maximum is negative. */
  lemma {:induction false} NegativeKeepsDefined(h: Hints, lim: Limits, s: Size, steps: seq<Step>)
    requires h.WellFormed() && RatiosOrdered(h) && h.maxAspect.width < 0
    ensures ApplyAll(h, lim, s, steps).Some? && h.minAspect.width < 0
    decreases |steps|
  {
    assert h.maxAspect.width * h.minAspect.height < 0;
    assert h.minAspect.width >= 0 ==> h.minAspect.width * h.maxAspect.height >= 0;
    if steps != [] {
      NegativeKeepsDefined(h, lim, Apply(h, lim, s, steps[0]).value, steps[1..]);
    }
  }

  lemma {:induction false} NegativeKeepsGrid(h: Hints, lim: Limits, s: Size, steps: seq<Step>)
    requires h.WellFormed() && RatiosOrdered(h) && h.maxAspect.width < 0 && s.width >= 0
    requires lim.min.width >= 0 && lim.max.height >= 0
    ensures ApplyAll(h, lim, s, steps).Some?
    ensures KeepsGridAndMaximum(h, lim, s, ApplyAll(h, lim, s, steps).value)
    decreases |steps|
  {
    NegativeKeepsDefined(h, lim, s, steps);
    if steps != [] {
      NegativeStepKeepsGrid(h, lim, s, steps[0]);
      var t := Apply(h, lim, s, steps[0]).value;
      NegativeKeepsGrid(h, lim, t, steps[1..]);
      GridChangesCompose(h, lim, s, t, ApplyAll(h, lim, s, steps).value);
    }
  }

  lemma GridChangesCompose(h: Hints, lim: Limits, s: Size, t: Size, r: Size)
    requires h.WellFormed() && KeepsGridAndMaximum(h, lim, s, t) && KeepsGridAndMaximum(h, lim, t, r)
    ensures KeepsGridAndMaximum(h, lim, s, r)
  {
    MultiplesAdd(t.width - s.width, r.width - t.width, h.inc.width);
    MultiplesAdd(t.height - s.height, r.height - t.height, h.inc.height);
  }

  lemma NegativeStepKeepsGrid(h: Hints, lim: Limits, s: Size, step: Step)
    requires h.WellFormed() && RatiosOrdered(h) && h.maxAspect.width < 0 && s.width >= 0
    requires lim.min.width >= 0 && lim.max.height >= 0
    ensures Apply(h, lim, s, step).Some?
    ensures KeepsGridAndMaximum(h, lim, s, Apply(h, lim, s, step).value)
  {
    NegativeKeepsDefined(h, lim, s, []);
    match step
    case DoGrowW => GrowWKeepsGrid(h, lim, s);
    case DoShrinkHGrowW => ShrinkHKeepsGrid(h, lim, s);
    case DoGrowH => GrowHKeepsGrid(h, lim, s);
    case DoShrinkWGrowH => ShrinkWKeepsGrid(h, lim, s);
  }

  lemma GrowWKeepsGrid(h: Hints, lim: Limits, s: Size)
    requires h.WellFormed() && s.width >= 0
    ensures KeepsGridAndMaximum(h, lim, s, GrowW(h, lim, s).value)
  {
    if TooNarrow(h, s) {
      NarrowGrows(h, s);
    }
  }

  lemma ShrinkHKeepsGrid(h: Hints, lim: Limits, s: Size)
    requires h.WellFormed() && h.minAspect.width < 0 && s.width >= 0 && lim.max.height >= 0
    ensures KeepsGridAndMaximum(h, lim, s, ShrinkHGrowW(h, lim, s).value)
  {
    GrowWKeepsGrid(h, lim, s);
    NegativeSheds(h, s);
    HeightKeepsGrid(h, lim, s, -RowsToShed(h, s));
  }

  lemma HeightKeepsGrid(h: Hints, lim: Limits, s: Size, delta: int)
    requires h.WellFormed() && s.width >= 0 && delta % h.inc.height == 0
    requires s.height + delta <= Max(s.height, lim.max.height)
    ensures KeepsGridAndMaximum(h, lim, s, s) && KeepsGridAndMaximum(h, lim, s, s.(height := s.height + delta))
  {
    assert s.height + delta - s.height == delta;
  }

  lemma GrowHKeepsGrid(h: Hints, lim: Limits, s: Size)
    requires h.WellFormed() && h.maxAspect.width < 0 && s.width >= 0
    ensures KeepsGridAndMaximum(h, lim, s, GrowH(h, lim, s).value)
  {
    var delta := RowsToAdd(h, s);
    StepsOnGrid(Truncated(Ideal(s.width, h.maxAspect.height, h.maxAspect.width) - s.height as real), h.inc.height);
    if s.height + delta <= lim.max.height {
      HeightKeepsGrid(h, lim, s, delta);
    } else {
      HeightKeepsGrid(h, lim, s, 0);
    }
  }

  lemma WidthKeepsGrid(h: Hints, lim: Limits, s: Size, less: int)
    requires h.WellFormed() && 0 <= less <= s.width && (-less) % h.inc.width == 0
    ensures KeepsGridAndMaximum(h, lim, s, s.(width := s.width - less))
  {
    assert s.width - less - s.width == -less;
  }

  lemma ShrinkWKeepsGrid(h: Hints, lim: Limits, s: Size)
    requires h.WellFormed() && h.maxAspect.width < 0 && s.width >= 0 && lim.min.width >= 0
    ensures KeepsGridAndMaximum(h, lim, s, ShrinkWGrowH(h, lim, s).value)
  {
    if TooWide(h, s) && s.width - ColumnsToShed(h, s) >= lim.min.width {
      WideSheds(h, s);
      WidthKeepsGrid(h, lim, s, ColumnsToShed(h, s));
    } else {
      GrowHKeepsGrid(h, lim, s);
    }
  }

  lemma StepsOnGrid(x: int, inc: int)
    requires inc >= 1
    ensures WholeSteps(x, inc) % inc == 0 && (-WholeSteps(x, inc)) % inc == 0
  {
    MultipleOf(Quotient(x, inc), inc);
    NegatedMultiple(WholeSteps(x, inc), inc);
  }

  lemma NarrowGrows(h: Hints, s: Size)
    requires h.WellFormed() && TooNarrow(h, s)
    ensures ColumnsToAdd(h, s) >= 0 && ColumnsToAdd(h, s) % h.inc.width == 0
  {
    IdealCompares(h.minAspect.width, s.height, h.minAspect.height, s.width);
    var x := Ideal(h.minAspect.width, s.height, h.minAspect.height) - s.width as real;
    NonNegativeSteps(x, h.inc.width);
    StepsOnGrid(Truncated(x), h.inc.width);
  }

  lemma WideSheds(h: Hints, s: Size)
    requires h.WellFormed() && TooWide(h, s)
    ensures ColumnsToShed(h, s) >= 0 && (-ColumnsToShed(h, s)) % h.inc.width == 0
  {
    IdealCompares(h.maxAspect.width, s.height, h.maxAspect.height, s.width);
    var x := s.width as real - Ideal(h.maxAspect.width, s.height, h.maxAspect.height);
    NonNegativeSteps(x, h.inc.width);
    StepsOnGrid(Truncated(x), h.inc.width);
  }

  /** The height to reach is negative, or zero for no width. */
  lemma NegativeSheds(h: Hints, s: Size)
    requires h.WellFormed() && h.minAspect.width < 0 && s.width >= 0
    ensures s.height - RowsToShed(h, s) <= Max(s.height, 0) && (-RowsToShed(h, s)) % h.inc.height == 0
  {
    var a := -h.minAspect.width;
    var ideal := Ideal(s.width, h.minAspect.height, h.minAspect.width);
    assert ideal <= 0.0 by {
      assert (s.width * h.minAspect.height) as real == s.width as real * h.minAspect.height as real;
      assert s.width * h.minAspect.height >= 0;
    }
    var x := s.height as real - ideal;
    StepsOnGrid(Truncated(x), h.inc.height);
    if x >= 0.0 {
      NonNegativeSteps(x, h.inc.height);
    } else {
      assert Truncated(x) == -(-x).Floor;
      StepsBelow((-x).Floor, h.inc.height);
      assert s.height as real + (-x).Floor as real <= 0.0;
    }
  }

  lemma ZeroNumerator(h: Hints, lim: Limits, s: Size, mode: SizeMode)
    requires h.WellFormed() && RatiosOrdered(h) && IsSize(s) && h.maxAspect.width == 0 && s.width > 0
    ensures AspectStage(h, lim, s, mode)
         == if WidthVanishes(h, lim, s, mode) then Some(s.(width := 0)) else None
  {
    var o := Order(mode);
    ZeroNumeratorSteps(h, lim, s);
    if mode.FixedH? || mode.SizeMax? {
      assert o[1] == DoShrinkWGrowH && o[0] != DoGrowH && o[2] != DoShrinkWGrowH && o[3] == DoGrowH;
      assert o[1..][1..] == [o[2], o[3]] && o[1..][0] == o[1];
      assert ApplyAll(h, lim, s, o) == ApplyAll(h, lim, s, o[1..]);
      var t := ShrinkWGrowH(h, lim, s);
      if t.Some? {
        ZeroNumeratorSteps(h, lim, t.value);
        NoMoreSteps(h, lim, t.value, o[2], o[3]);
      }
    }
  }

  /** What each step does when the maximum numerator is zero. */
  lemma ZeroNumeratorSteps(h: Hints, lim: Limits, s: Size)
    requires h.WellFormed() && RatiosOrdered(h) && IsSize(s) && h.maxAspect.width == 0
    ensures GrowW(h, lim, s) == ShrinkHGrowW(h, lim, s) == Some(s)
    ensures GrowH(h, lim, s) == if s.width > 0 then None else Some(s)
    ensures s.width > 0 ==>
              ShrinkWGrowH(h, lim, s)
              == if s.width % h.inc.width >= lim.min.width then Some(s.(width := s.width % h.inc.width)) else None
  {
    assert h.maxAspect.height * s.width >= s.width;
    if TooNarrow(h, s) {
      NarrowMeansPositive(h, s);
      assert false;
    }
    assert Ideal(0, s.height, h.maxAspect.height) == 0.0;
    assert ColumnsToShed(h, s) == s.width - s.width % h.inc.width;
  }

  lemma NoMoreSteps(h: Hints, lim: Limits, s: Size, a: Step, b: Step)
    requires h.WellFormed() && Apply(h, lim, s, a) == Some(s)
    ensures ApplyAll(h, lim, s, [a, b]) == Apply(h, lim, s, b)
  {
    assert [a, b][1..] == [b];
    assert [b][1..] == [];
    var t := Apply(h, lim, s, b);
    assert t.Some? ==> ApplyAll(h, lim, t.value, []) == t;
    assert ApplyAll(h, lim, s, [b]) == t;
  }

  /** No width, and a height of whole increments that may vanish. */
  predicate Vanishing(h: Hints, lim: Limits, s: Size)
    requires h.WellFormed()
  {
    s.width == 0 <= s.height <= lim.max.height && s.height % h.inc.height == 0 && lim.min.width == 0
  }

  /** A negative maximum numerator, of a size without width: whatever whole increments the height
      has are given up in every mode, however high the minimum is. */
  lemma NegativeNumeratorShrinks(h: Hints, lim: Limits, s: Size, mode: SizeMode)
    requires h.WellFormed() && RatiosOrdered(h) && h.maxAspect.width < 0 && Vanishing(h, lim, s)
    ensures AspectStage(h, lim, s, mode) == Some(Size(0, 0))
  {
    StepsShrink(h, lim, s, Order(mode));
    assert Order(mode)[0] == DoGrowH || Order(mode)[3] == DoGrowH;
  }

  lemma {:induction false} StepsShrink(h: Hints, lim: Limits, s: Size, steps: seq<Step>)
    requires h.WellFormed() && RatiosOrdered(h) && h.maxAspect.width < 0 && Vanishing(h, lim, s)
    ensures ApplyAll(h, lim, s, steps) == Some(s) || ApplyAll(h, lim, s, steps) == Some(Size(0, 0))
    ensures DoGrowH in steps ==> ApplyAll(h, lim, s, steps) == Some(Size(0, 0))
    decreases |steps|
  {
    if steps != [] {
      NegativeNumeratorStep(h, lim, s, steps[0]);
      StepsShrink(h, lim, Apply(h, lim, s, steps[0]).value, steps[1..]);
    }
  }

  lemma NegativeNumeratorStep(h: Hints, lim: Limits, s: Size, step: Step)
    requires h.WellFormed() && RatiosOrdered(h) && h.maxAspect.width < 0 && Vanishing(h, lim, s)
    ensures
      var r := Apply(h, lim, s, step);
      && (r == Some(s) || r == Some(Size(0, 0)))
      && Vanishing(h, lim, r.value)
      && (step == DoGrowH ==> r == Some(Size(0, 0)))
  {
    assert !TooNarrow(h, s) by {
      if TooNarrow(h, s) {
        NarrowMeansPositive(h, s);
        assert false;
      }
    }
    match step
    case DoGrowW =>
    case DoShrinkHGrowW =>
    case DoGrowH => NegativeNumeratorGrowsH(h, lim, s);
    case DoShrinkWGrowH =>
      NegativeNumeratorGrowsH(h, lim, s);
      NegativeNumeratorSheds(h, s);
  }

  lemma NegativeNumeratorGrowsH(h: Hints, lim: Limits, s: Size)
    requires h.WellFormed() && h.maxAspect.width < 0 && Vanishing(h, lim, s)
    ensures GrowH(h, lim, s) == Some(Size(0, 0))
  {
    NegativeTimes(h.maxAspect.width, s.height);
    NoIdeal(h.maxAspect.height, h.maxAspect.width);
    WholeHeight(s.height, h.inc.height);
  }

  lemma NegativeTimes(a: int, y: int)
    requires a < 0 && y >= 0
    ensures a * y <= -y
  {
  }

  lemma NoIdeal(b: int, a: int)
    requires a != 0
    ensures Ideal(0, b, a) == 0.0
  {
  }

  lemma WholeHeight(y: int, inc: int)
    requires y >= 0 && inc >= 1 && y % inc == 0
    ensures WholeSteps(Truncated(0.0 - y as real), inc) == -y
  {
    assert Truncated(0.0 - y as real) == -y;
    assert y / inc * inc == y;
  }

  lemma NegativeNumeratorSheds(h: Hints, s: Size)
    requires h.WellFormed() && h.maxAspect.width < 0 && s.width == 0 <= s.height
    ensures ColumnsToShed(h, s) >= 0
  {
    var a := h.maxAspect.width;
    assert (a * s.height) as real == a as real * s.height as real;
    assert Ideal(a, s.height, h.maxAspect.height) <= 0.0;
    NonNegativeSteps(0.0 - Ideal(a, s.height, h.maxAspect.height), h.inc.width);
  }

  lemma NonNegativeSteps(x: real, inc: int)
    requires x >= 0.0 && inc >= 1
    ensures WholeSteps(Truncated(x), inc) >= 0
  {
    StepsBelow(Truncated(x), inc);
  }

  /** The steps are defined and safe for all sizes and limits. */
  ghost predicate AlwaysSafe(h: Hints)
    requires h.WellFormed()
  {
    forall lim, s, mode | IsSize(s) ::
      AspectStage(h, lim, s, mode).Some? && SafeChange(h, lim, s, AspectStage(h, lim, s, mode).value)
  }

  /** A maximum ratio that is positive is needed for that, and enough. */
  lemma SafeIfPositive(h: Hints)
    requires h.WellFormed() && RatiosOrdered(h)
    ensures AlwaysSafe(h) <==> h.maxAspect.width >= 1
  {
    if h.maxAspect.width >= 1 {
      forall lim, s, mode | IsSize(s)
        ensures AspectStage(h, lim, s, mode).Some? && SafeChange(h, lim, s, AspectStage(h, lim, s, mode).value)
      {
        AspectStageIsSafe(h, lim, s, mode);
      }
    } else if h.maxAspect.width == 0 {
      var s := Size(1, 1);
      var lim := Limits(s, s);
      AspectStageIsSafe(h, lim, s, FixedW);
      assert AspectStage(h, lim, s, FixedW).None?;
    } else {
      var s := Size(0, h.inc.height);
      var lim := Limits(s, s);
      NegativeNumeratorShrinks(h, lim, s, FixedW);
      assert !SafeChange(h, lim, s, AspectStage(h, lim, s, FixedW).value);
    }
  }

  // ---------------------------------------------------------------- how far a size is repaired

  /** A size outside one bound ends within one increment of it, unless the limits forbid both
      ways of repairing it; then it stays as it is. */
  lemma AspectStageRepairs(h: Hints, lim: Limits, s: Size, mode: SizeMode)
    requires h.WellFormed() && RatiosOrdered(h) && IsSize(s)
    ensures
      var stage := AspectStage(h, lim, s, mode);
      && (stage.None? <==> Undefined(h, lim, s, mode))
      && (stage.Some? && TooNarrow(h, s) ==>
            NarrowRepaired(h, stage.value) || (stage.value == s && NarrowForced(h, lim, s)))
      && (stage.Some? && TooWide(h, s) && h.maxAspect.width >= 0 ==>
            WideRepaired(h, stage.value) || (stage.value == s && WideForced(h, lim, s)))
  {
    AspectStageIsSafe(h, lim, s, mode);
    NotBoth(h, s);
    if TooNarrow(h, s) {
      NarrowMeansPositive(h, s);
      NarrowSteps(h, lim, s, Order(mode));
      assert Order(mode)[0] == DoShrinkHGrowW || Order(mode)[1] == DoShrinkHGrowW || Order(mode)[2] == DoShrinkHGrowW;
    } else if h.maxAspect.width == 0 && TooWide(h, s) {
      ZeroNumerator(h, lim, s, mode);
    } else if h.maxAspect.width > 0 && TooWide(h, s) {
      WideSteps(h, lim, s, Order(mode));
      assert Order(mode)[1] == DoShrinkWGrowH || Order(mode)[2] == DoShrinkWGrowH;
    }
  }

  /** On a narrow size only the two steps for narrow sizes act. */
  lemma {:induction false} NarrowSteps(h: Hints, lim: Limits, s: Size, steps: seq<Step>)
    requires h.WellFormed() && RatiosOrdered(h) && IsSize(s) && h.maxAspect.width >= 1 && !TooWide(h, s)
    requires TooNarrow(h, s) || NarrowRepaired(h, s)
    ensures ApplyAll(h, lim, s, steps).Some?
    ensures
      var r := ApplyAll(h, lim, s, steps).value;
      || NarrowRepaired(h, r)
      || (r == s && TooNarrow(h, s) && (DoShrinkHGrowW in steps ==> NarrowForced(h, lim, s)))
    ensures NarrowRepaired(h, s) ==> NarrowRepaired(h, ApplyAll(h, lim, s, steps).value)
    decreases |steps|
  {
    if steps != [] {
      StepIsSafe(h, lim, s, steps[0]);
      NarrowStep(h, lim, s, steps[0]);
      NarrowSteps(h, lim, Apply(h, lim, s, steps[0]).value, steps[1..]);
    }
  }

  lemma NarrowStep(h: Hints, lim: Limits, s: Size, step: Step)
    requires h.WellFormed() && RatiosOrdered(h) && IsSize(s) && !TooWide(h, s)
    ensures Apply(h, lim, s, step).Some?
    ensures
      var r := Apply(h, lim, s, step).value;
      r == s || NarrowRepaired(h, r)
    ensures TooNarrow(h, s) && step == DoShrinkHGrowW && !NarrowForced(h, lim, s) ==>
              NarrowRepaired(h, Apply(h, lim, s, step).value)
  {
    GrowWIsSafe(h, lim, s);
    ShrinkHIsSafe(h, lim, s);
  }

  lemma {:induction false} WideSteps(h: Hints, lim: Limits, s: Size, steps: seq<Step>)
    requires h.WellFormed() && RatiosOrdered(h) && IsSize(s) && h.maxAspect.width >= 1 && !TooNarrow(h, s)
    requires TooWide(h, s) || WideRepaired(h, s)
    ensures ApplyAll(h, lim, s, steps).Some?
    ensures
      var r := ApplyAll(h, lim, s, steps).value;
      || WideRepaired(h, r)
      || (r == s && TooWide(h, s) && (DoShrinkWGrowH in steps ==> WideForced(h, lim, s)))
    ensures WideRepaired(h, s) ==> WideRepaired(h, ApplyAll(h, lim, s, steps).value)
    decreases |steps|
  {
    if steps != [] {
      StepIsSafe(h, lim, s, steps[0]);
      WideStep(h, lim, s, steps[0]);
      WideSteps(h, lim, Apply(h, lim, s, steps[0]).value, steps[1..]);
    }
  }

  lemma WideStep(h: Hints, lim: Limits, s: Size, step: Step)
    requires h.WellFormed() && RatiosOrdered(h) && IsSize(s) && h.maxAspect.width >= 1 && !TooNarrow(h, s)
    ensures Apply(h, lim, s, step).Some?
    ensures
      var r := Apply(h, lim, s, step).value;
      r == s || WideRepaired(h, r)
    ensures TooWide(h, s) && step == DoShrinkWGrowH && !WideForced(h, lim, s) ==>
              WideRepaired(h, Apply(h, lim, s, step).value)
  {
    GrowHIsSafe(h, lim, s);
    ShrinkWIsSafe(h, lim, s);
  }

  // ---------------------------------------------------------------- the whole function

  /** The size on the increment grid, before the aspect ratio is looked at. */
  function GridStage(h: Hints, size: Size): Size
    requires h.WellFormed()
  {
    var c := LimitStage(h, size);
    Size(Gridded(c.width, h.GridOrigin().width, h.inc.width),
         Gridded(c.height, h.GridOrigin().height, h.inc.height))
  }

  function LimitStage(h: Hints, size: Size): Size {
    Size(Clamped(Max(size.width, 1), h.MinSize().width, h.max.width),
         Clamped(Max(size.height, 1), h.MinSize().height, h.max.height))
  }

  function LimitsWithoutBase(h: Hints): Limits {
    Limits(Size(h.MinSize().width - h.base.width, h.MinSize().height - h.base.height),
           Size(h.max.width - h.base.width, h.max.height - h.base.height))
  }

  function WithoutBase(h: Hints, size: Size): Size {
    Size(size.width - h.base.width, size.height - h.base.height)
  }

  function AspectSize(h: Hints, size: Size, mode: SizeMode): Option<Size>
    requires h.WellFormed()
  {
    match AspectStage(h, LimitsWithoutBase(h), WithoutBase(h, size), mode)
    case None => None
    case Some(r) => Some(Size(r.width + h.base.width, r.height + h.base.height))
  }

  /** A full-screen window disobeys increments and aspect ratio: `strict` is false. */
  function ClientSize(h: Hints, size: Size, mode: SizeMode, strict: bool): Option<Size>
    requires h.WellFormed()
  {
    var aspect := if h.hasAspect then AspectSize(h, GridStage(h, size), mode) else Some(GridStage(h, size));
    if aspect.Some? && !strict then Some(LimitStage(h, size)) else aspect
  }

  function SizeForClientSize(h: Hints, size: Size, mode: SizeMode, noframe: bool, strict: bool): Option<Size>
    requires h.WellFormed()
  {
    match ClientSize(h, size, mode, strict)
    case None => None
    case Some(r) => if noframe then Some(r) else Some(Size(r.width + h.borders.width, r.height + h.borders.height))
  }

  function AdjustedSize(h: Hints, frame: Size, mode: SizeMode, strict: bool): Option<Size>
    requires h.WellFormed()
  {
    SizeForClientSize(h, Size(Max(frame.width - h.borders.width, 1), Max(frame.height - h.borders.height, 1)),
                      mode, false, strict)
  }

  /** The limits and the increments together: a size of its own choosing is chosen again. */
  lemma GridIsIdempotent(x: int, lo: int, hi: int, origin: int, inc: int)
    requires inc >= 1
    ensures
      var r := Gridded(Clamped(Max(x, 1), lo, hi), origin, inc);
      Gridded(Clamped(Max(r, 1), lo, hi), origin, inc) == r
  {
    var c := Clamped(Max(x, 1), lo, hi);
    var r := Gridded(c, origin, inc);
    var c' := Clamped(Max(r, 1), lo, hi);
    TruncatesTowardOrigin(c - origin, inc);
    SameCell(c - origin, c' - origin, inc);
  }

  lemma TruncatesTowardOrigin(x: int, inc: int)
    requires inc >= 1
    ensures x >= 0 ==> 0 <= WholeSteps(x, inc) <= x < WholeSteps(x, inc) + inc
    ensures x < 0 ==> WholeSteps(x, inc) - inc < x <= WholeSteps(x, inc) <= 0
  {
    if x >= 0 {
      StepsBelow(x, inc);
    } else {
      StepsBelow(-x, inc);
    }
  }

  /** Anything between a length and its whole steps has the same whole steps. */
  lemma SameCell(x: int, y: int, inc: int)
    requires inc >= 1
    requires Between(WholeSteps(x, inc), y, x)
    ensures WholeSteps(y, inc) == WholeSteps(x, inc)
  {
    TruncatesTowardOrigin(x, inc);
    TruncatesTowardOrigin(y, inc);
    SameMultiple(Quotient(x, inc), Quotient(y, inc), inc);
  }

  lemma SameMultiple(p: int, q: int, inc: int)
    requires inc >= 1 && -inc < q * inc - p * inc < inc
    ensures p == q
  {
    var j := q - p;
    assert q * inc - p * inc == j * inc;
    assert j >= 1 ==> j * inc >= inc;
    assert j <= -1 ==> j * inc <= -inc;
  }

  /** Without aspect hints the hints are idempotent, for client sizes and for frame sizes,
      whatever the limits, the base size and the increments are. */
  lemma HintsAreIdempotent(h: Hints, size: Size, mode: SizeMode, strict: bool)
    requires h.WellFormed() && !h.hasAspect
    ensures
      var once := SizeForClientSize(h, size, mode, true, strict);
      once.Some? && SizeForClientSize(h, once.value, mode, true, strict) == once
  {
    var lo, o := h.MinSize(), h.GridOrigin();
    GridIsIdempotent(size.width, lo.width, h.max.width, o.width, h.inc.width);
    GridIsIdempotent(size.height, lo.height, h.max.height, o.height, h.inc.height);
  }

  lemma AdjustedSizeIsIdempotent(h: Hints, size: Size, mode: SizeMode, strict: bool)
    requires h.WellFormed() && !h.hasAspect
    ensures
      var once := AdjustedSize(h, size, mode, strict);
      once.Some? && AdjustedSize(h, once.value, mode, strict) == once
  {
    var client := WithoutBorders(h, size);
    HintsAreIdempotent(h, client, mode, strict);
    AdjustedIsFramed(h, size, mode, strict);
    AdjustedIsFramed(h, AdjustedSize(h, size, mode, strict).value, mode, strict);
    var once := SizeForClientSize(h, client, mode, true, strict).value;
    assert WithoutBorders(h, AdjustedSize(h, size, mode, strict).value) == once;
  }

  function WithoutBorders(h: Hints, frame: Size): Size {
    Size(frame.width - h.borders.width, frame.height - h.borders.height)
  }

  /** An empty client size is taken for one pixel, by either function. */
  lemma AdjustedIsFramed(h: Hints, frame: Size, mode: SizeMode, strict: bool)
    requires h.WellFormed()
    ensures AdjustedSize(h, frame, mode, strict)
         == SizeForClientSize(h, WithoutBorders(h, frame), mode, false, strict)
  {
    var client := WithoutBorders(h, frame);
    assert LimitStage(h, Size(Max(client.width, 1), Max(client.height, 1))) == LimitStage(h, client);
  }

  // ---------------------------------------------------------------- which side is kept

  lemma FirstStep(h: Hints, lim: Limits, s: Size, a: Step, rest: seq<Step>)
    requires h.WellFormed()
    ensures ApplyAll(h, lim, s, [a] + rest)
         == match Apply(h, lim, s, a)
            case None => None
            case Some(t) => ApplyAll(h, lim, t, rest)
  {
    assert ([a] + rest)[1..] == rest;
  }

  lemma FourSteps(h: Hints, lim: Limits, s: Size, a: Step, b: Step, c: Step, d: Step)
    requires h.WellFormed()
    ensures ApplyAll(h, lim, s, [a, b, c, d]) == Then(h, lim, Then(h, lim, Then(h, lim, Apply(h, lim, s, a), b), c), d)
  {
    assert [a, b, c, d] == [a] + [b, c, d];
    FirstStep(h, lim, s, a, [b, c, d]);
    var t := Apply(h, lim, s, a);
    if t.Some? {
      ThreeSteps(h, lim, t.value, b, c, d);
    }
  }

  lemma ThreeSteps(h: Hints, lim: Limits, s: Size, b: Step, c: Step, d: Step)
    requires h.WellFormed()
    ensures ApplyAll(h, lim, s, [b, c, d]) == Then(h, lim, Then(h, lim, Apply(h, lim, s, b), c), d)
  {
    assert [b, c, d] == [b] + [c, d] && [c, d] == [c] + [d] && [d] == [d] + [];
    FirstStep(h, lim, s, b, [c, d]);
    var t := Apply(h, lim, s, b);
    if t.Some? {
      FirstStep(h, lim, t.value, c, [d]);
      var u := Apply(h, lim, t.value, c);
      if u.Some? {
        FirstStep(h, lim, u.value, d, []);
      }
    }
  }

  function Then(h: Hints, lim: Limits, s: Option<Size>, step: Step): Option<Size>
    requires h.WellFormed()
  {
    match s
    case None => None
    case Some(t) => Apply(h, lim, t, step)
  }

  /** The height alone repairs a narrow size; the columns added are worth less than a row. */
  predicate NarrowKeepsWidth(h: Hints, s: Size, r: Size)
    requires h.WellFormed() && h.minAspect.width != 0
  {
    && r.height == s.height - RowsToShed(h, s)
    && 0 <= r.width - s.width && h.minAspect.height * (r.width - s.width) < h.minAspect.width * h.inc.height
  }

  predicate NarrowKeepsHeight(h: Hints, s: Size, r: Size)
    requires h.WellFormed()
  {
    && r.width == s.width + ColumnsToAdd(h, s)
    && 0 <= s.height - r.height && h.minAspect.width * (s.height - r.height) < h.minAspect.height * h.inc.width
  }

  predicate WideKeepsWidth(h: Hints, s: Size, r: Size)
    requires h.WellFormed() && h.maxAspect.width != 0
  {
    && r.height == s.height + RowsToAdd(h, s)
    && 0 <= s.width - r.width && h.maxAspect.height * (s.width - r.width) < h.maxAspect.width * h.inc.height
  }

  predicate WideKeepsHeight(h: Hints, s: Size, r: Size)
    requires h.WellFormed()
  {
    && r.width == s.width - ColumnsToShed(h, s)
    && 0 <= r.height - s.height && h.maxAspect.width * (r.height - s.height) < h.maxAspect.height * h.inc.width
  }

  /** The mode says which side may change, where the limits leave room: the other one changes by less than
      one increment is worth. For a maximum both sides shrink first. */
  lemma ModeKeepsSide(h: Hints, lim: Limits, s: Size, mode: SizeMode)
    requires h.WellFormed() && RatiosOrdered(h) && IsSize(s) && h.maxAspect.width >= 1
    ensures AspectStage(h, lim, s, mode).Some?
    ensures
      var r := AspectStage(h, lim, s, mode).value;
      && (TooNarrow(h, s) && h.minAspect.width != 0 && !mode.FixedH? && s.height - RowsToShed(h, s) >= lim.min.height
          ==> NarrowKeepsWidth(h, s, r))
      && (TooNarrow(h, s) && mode.FixedH? && s.width + ColumnsToAdd(h, s) <= lim.max.width
          ==> NarrowKeepsHeight(h, s, r))
      && (TooWide(h, s) && !mode.FixedH? && !mode.SizeMax? && s.height + RowsToAdd(h, s) <= lim.max.height
          ==> WideKeepsWidth(h, s, r))
      && (TooWide(h, s) && (mode.FixedH? || mode.SizeMax?) && s.width - ColumnsToShed(h, s) >= lim.min.width
          ==> WideKeepsHeight(h, s, r))
  {
    StepsAreSafe(h, lim, s, Order(mode));
    NotBoth(h, s);
    var o := Order(mode);
    assert o == [o[0], o[1], o[2], o[3]];
    FourSteps(h, lim, s, o[0], o[1], o[2], o[3]);
    if TooNarrow(h, s) {
      NarrowMeansPositive(h, s);
      if mode.FixedH? {
        if s.width + ColumnsToAdd(h, s) <= lim.max.width {
          AddThenShed(h, lim, s);
        }
      } else if s.height - RowsToShed(h, s) >= lim.min.height {
        ShedThenAdd(h, lim, s);
      }
    } else if TooWide(h, s) {
      if mode.FixedH? || mode.SizeMax? {
        if s.width - ColumnsToShed(h, s) >= lim.min.width {
          ShedThenGrow(h, lim, s);
        }
      } else if s.height + RowsToAdd(h, s) <= lim.max.height {
        GrowThenShed(h, lim, s);
      }
    }
  }

  /** Rows are shed, and then columns are added for what is left. */
  lemma ShedThenAdd(h: Hints, lim: Limits, s: Size)
    requires h.WellFormed() && RatiosOrdered(h) && IsSize(s) && TooNarrow(h, s) && h.minAspect.width >= 1
    requires s.height - RowsToShed(h, s) >= lim.min.height
    ensures
      var t := s.(height := s.height - RowsToShed(h, s));
      var r := GrowW(h, lim, t).value;
      && ShrinkHGrowW(h, lim, s) == Some(t)
      && !TooWide(h, s) && !TooWide(h, t) && !TooWide(h, r) && NarrowKeepsWidth(h, s, r)
  {
    NotBoth(h, s);
    ShedRowsIsSafe(h, lim, s);
    var t := s.(height := s.height - RowsToShed(h, s));
    GrowWIsSafe(h, lim, t);
    var a, b := h.minAspect.width, h.minAspect.height;
    RowsShedToward(h, s);
    Product(a, h.inc.height);
    if TooNarrow(h, t) {
      ColumnsAddedToward(h, t);
      RestAfterShrinking(a, b, t.width, t.height, h.inc.height, ColumnsToAdd(h, t));
    }
  }

  /** After shrinking `y` toward the ratio, what is left is worth less than one of its increments. */
  lemma RestAfterShrinking(a: int, b: int, x: int, y: int, inc: int, delta: int)
    requires a * (y - inc) < b * x && b * (x + delta) <= a * y
    ensures b * delta < a * inc
  {
    assert a * (y - inc) == a * y - a * inc;
    assert b * (x + delta) == b * x + b * delta;
  }

  /** And so it is after growing `x` toward it. */
  lemma RestAfterGrowing(a: int, b: int, x: int, y: int, inc: int, delta: int)
    requires a * y < b * (x + inc) && b * x <= a * (y - delta)
    ensures a * delta < b * inc
  {
    assert b * (x + inc) == b * x + b * inc;
    assert a * (y - delta) == a * y - a * delta;
  }

  lemma ColumnsAddedToward(h: Hints, s: Size)
    requires h.WellFormed() && TooNarrow(h, s) && h.minAspect.width >= 1
    ensures
      var a, b, delta := h.minAspect.width, h.minAspect.height, ColumnsToAdd(h, s);
      && delta >= 0 && delta % h.inc.width == 0
      && b * (s.width + delta) <= a * s.height < b * (s.width + delta + h.inc.width)
  {
    GrowsToward(h.minAspect.width, h.minAspect.height, s.width, s.height, h.inc.width);
  }

  lemma RowsShedToward(h: Hints, s: Size)
    requires h.WellFormed() && IsSize(s) && TooNarrow(h, s) && h.minAspect.width >= 1
    ensures
      var a, b, delta := h.minAspect.width, h.minAspect.height, RowsToShed(h, s);
      && 0 <= delta <= s.height && delta % h.inc.height == 0
      && a * (s.height - delta - h.inc.height) < b * s.width <= a * (s.height - delta)
  {
    ShrinksToward(h.minAspect.width, h.minAspect.height, s.width, s.height, h.inc.height);
  }

  /** Columns are added, and then rows are shed for what is left. */
  lemma AddThenShed(h: Hints, lim: Limits, s: Size)
    requires h.WellFormed() && RatiosOrdered(h) && IsSize(s) && TooNarrow(h, s) && h.minAspect.width >= 1
    requires s.width + ColumnsToAdd(h, s) <= lim.max.width
    ensures
      var t := s.(width := s.width + ColumnsToAdd(h, s));
      && GrowW(h, lim, s) == Some(t) && ShrinkHGrowW(h, lim, t).Some?
      && !TooWide(h, s) && !TooWide(h, t)
      && (var r := ShrinkHGrowW(h, lim, t).value; !TooWide(h, r) && NarrowKeepsHeight(h, s, r))
  {
    NotBoth(h, s);
    GrowWIsSafe(h, lim, s);
    var t := s.(width := s.width + ColumnsToAdd(h, s));
    ShrinkHIsSafe(h, lim, t);
    RestIsShed(h, lim, s, t);
  }

  lemma RestIsShed(h: Hints, lim: Limits, s: Size, t: Size)
    requires h.WellFormed() && IsSize(s) && TooNarrow(h, s) && h.minAspect.width >= 1
    requires t == s.(width := s.width + ColumnsToAdd(h, s)) && IsSize(t)
    ensures ShrinkHGrowW(h, lim, t).Some? && NarrowKeepsHeight(h, s, ShrinkHGrowW(h, lim, t).value)
  {
    var a, b := h.minAspect.width, h.minAspect.height;
    ColumnsAddedToward(h, s);
    Product(b, h.inc.width);
    if TooNarrow(h, t) {
      RowsShedToward(h, t);
      RestAfterGrowing(a, b, t.width, t.height, h.inc.width, RowsToShed(h, t));
      ColumnsAddedToward(h, t);
      LessThanOneStep(b, t.width, ColumnsToAdd(h, t), h.inc.width);
    }
    var r := ShrinkHGrowW(h, lim, t).value;
    assert r.width == t.width && (r.height == t.height || r.height == t.height - RowsToShed(h, t));
    assert r.height == t.height ==> a * (s.height - r.height) == 0;
  }

  lemma LessThanOneStep(b: int, x: int, delta: int, inc: int)
    requires b >= 1 && inc >= 1 && delta >= 0 && delta % inc == 0 && b * (x + delta) < b * (x + inc)
    ensures delta == 0
  {
    assert delta >= inc ==> b * (x + delta) >= b * (x + inc);
  }

  lemma Product(a: int, b: int)
    requires a >= 1 && b >= 1
    ensures a * b >= 1
  {
  }

  lemma RowsAddedToward(h: Hints, s: Size)
    requires h.WellFormed() && TooWide(h, s) && h.maxAspect.width >= 1
    ensures
      var a, b, delta := h.maxAspect.width, h.maxAspect.height, RowsToAdd(h, s);
      && delta >= 0 && delta % h.inc.height == 0
      && a * (s.height + delta) <= b * s.width < a * (s.height + delta + h.inc.height)
  {
    GrowsToward(h.maxAspect.height, h.maxAspect.width, s.height, s.width, h.inc.height);
  }

  lemma ColumnsShedToward(h: Hints, s: Size)
    requires h.WellFormed() && IsSize(s) && TooWide(h, s) && h.maxAspect.width >= 1
    ensures
      var a, b, delta := h.maxAspect.width, h.maxAspect.height, ColumnsToShed(h, s);
      && 0 <= delta <= s.width && delta % h.inc.width == 0
      && b * (s.width - delta - h.inc.width) < a * s.height <= b * (s.width - delta)
  {
    var a, b := h.maxAspect.width, h.maxAspect.height;
    assert Ideal(a, s.height, b) == Ideal(s.height, a, b);
    ShrinksToward(b, a, s.height, s.width, h.inc.width);
  }

  /** Rows are added, and then columns are shed for what is left. */
  lemma GrowThenShed(h: Hints, lim: Limits, s: Size)
    requires h.WellFormed() && RatiosOrdered(h) && IsSize(s) && TooWide(h, s) && h.maxAspect.width >= 1
    requires s.height + RowsToAdd(h, s) <= lim.max.height
    ensures
      var t := s.(height := s.height + RowsToAdd(h, s));
      && GrowH(h, lim, s) == Some(t) && ShrinkWGrowH(h, lim, t).Some?
      && !TooNarrow(h, s) && !TooNarrow(h, t)
      && (var r := ShrinkWGrowH(h, lim, t).value; !TooNarrow(h, r) && WideKeepsWidth(h, s, r))
  {
    NotBoth(h, s);
    GrowHIsSafe(h, lim, s);
    var t := s.(height := s.height + RowsToAdd(h, s));
    ShrinkWIsSafe(h, lim, t);
    WideRestIsShed(h, lim, s, t);
  }

  lemma WideRestIsShed(h: Hints, lim: Limits, s: Size, t: Size)
    requires h.WellFormed() && TooWide(h, s) && h.maxAspect.width >= 1
    requires t == s.(height := s.height + RowsToAdd(h, s)) && IsSize(t)
    ensures ShrinkWGrowH(h, lim, t).Some? && WideKeepsWidth(h, s, ShrinkWGrowH(h, lim, t).value)
  {
    var a, b := h.maxAspect.width, h.maxAspect.height;
    RowsAddedToward(h, s);
    Product(a, h.inc.height);
    if TooWide(h, t) {
      ColumnsShedToward(h, t);
      RestAfterGrowing(b, a, t.height, t.width, h.inc.height, ColumnsToShed(h, t));
      RowsAddedToward(h, t);
      LessThanOneStep(a, t.height, RowsToAdd(h, t), h.inc.height);
    }
    var r := ShrinkWGrowH(h, lim, t).value;
    assert r.height == t.height && (r.width == t.width || r.width == t.width - ColumnsToShed(h, t));
    assert r.width == t.width ==> b * (s.width - r.width) == 0;
  }

  /** Columns are shed, and then rows are added for what is left. */
  lemma ShedThenGrow(h: Hints, lim: Limits, s: Size)
    requires h.WellFormed() && RatiosOrdered(h) && IsSize(s) && TooWide(h, s) && h.maxAspect.width >= 1
    requires s.width - ColumnsToShed(h, s) >= lim.min.width
    ensures
      var t := s.(width := s.width - ColumnsToShed(h, s));
      && ShrinkWGrowH(h, lim, s) == Some(t) && GrowH(h, lim, t).Some?
      && !TooNarrow(h, s) && !TooNarrow(h, t)
      && (var r := GrowH(h, lim, t).value; !TooNarrow(h, r) && WideKeepsHeight(h, s, r))
  {
    NotBoth(h, s);
    ShedColumnsIsSafe(h, lim, s);
    var t := s.(width := s.width - ColumnsToShed(h, s));
    GrowHIsSafe(h, lim, t);
    WideRestIsGrown(h, lim, s, t);
  }

  lemma WideRestIsGrown(h: Hints, lim: Limits, s: Size, t: Size)
    requires h.WellFormed() && IsSize(s) && TooWide(h, s) && h.maxAspect.width >= 1
    requires t == s.(width := s.width - ColumnsToShed(h, s))
    ensures GrowH(h, lim, t).Some? && WideKeepsHeight(h, s, GrowH(h, lim, t).value)
  {
    var a, b := h.maxAspect.width, h.maxAspect.height;
    ColumnsShedToward(h, s);
    Product(b, h.inc.width);
    if TooWide(h, t) {
      RowsAddedToward(h, t);
      RestAfterShrinking(b, a, t.height, t.width, h.inc.width, RowsToAdd(h, t));
    }
    var r := GrowH(h, lim, t).value;
    assert r.width == t.width && (r.height == t.height || r.height == t.height + RowsToAdd(h, t));
    assert r.height == t.height ==> a * (r.height - s.height) == 0;
  }

  // ---------------------------------------------------------------- the request is followed

  /** `w` is `x`, or the limit that `x` is beyond; where the limits clash the lower one holds. */
  predicate Nearest(x: int, lo: int, hi: int, w: int) {
    && lo <= w && (lo <= hi ==> w <= hi)
    && (lo <= x <= hi ==> w == x)
    && (x < lo ==> w == lo)
    && (x > hi ==> w == hi || w == lo > hi)
  }

  /** The last grid value on the way from the origin to `w`. */
  predicate LastOnGrid(w: int, origin: int, inc: int, r: int)
    requires inc >= 1
  {
    && (r - origin) % inc == 0
    && (w >= origin ==> r <= w < r + inc)
    && (w < origin ==> r - inc < w <= r)
  }

  /** `w` is the requested size, of one pixel at least, or the nearest that the limits allow, and `g`
      is its part in whole increments. */
  predicate Follows(h: Hints, size: Size, w: Size, g: Size)
    requires h.WellFormed()
  {
    && Nearest(Max(size.width, 1), h.MinSize().width, h.max.width, w.width)
    && Nearest(Max(size.height, 1), h.MinSize().height, h.max.height, w.height)
    && LastOnGrid(w.width, h.GridOrigin().width, h.inc.width, g.width)
    && LastOnGrid(w.height, h.GridOrigin().height, h.inc.height, g.height)
  }

  /** No aspect check has anything to do. */
  predicate WithinRatios(h: Hints, g: Size) {
    h.hasAspect ==> !TooNarrow(h, WithoutBase(h, g)) && !TooWide(h, WithoutBase(h, g))
  }

  lemma StagesFollow(h: Hints, size: Size)
    requires h.WellFormed()
    ensures Follows(h, size, LimitStage(h, size), GridStage(h, size))
  {
    var w, o := LimitStage(h, size), h.GridOrigin();
    GriddedIsLast(w.width, o.width, h.inc.width);
    GriddedIsLast(w.height, o.height, h.inc.height);
  }

  lemma GriddedIsLast(w: int, origin: int, inc: int)
    requires inc >= 1
    ensures LastOnGrid(w, origin, inc, Gridded(w, origin, inc))
  {
    TruncatesTowardOrigin(w - origin, inc);
    StepsOnGrid(w - origin, inc);
  }

  lemma {:induction false} WithinRatiosStays(h: Hints, lim: Limits, s: Size, steps: seq<Step>)
    requires h.WellFormed() && !TooNarrow(h, s) && !TooWide(h, s)
    ensures ApplyAll(h, lim, s, steps) == Some(s)
    decreases |steps|
  {
    if steps != [] {
      WithinRatiosStays(h, lim, s, steps[1..]);
    }
  }

  /** Every request is followed as far as the limits and the increments allow: what comes back is that
      size, with the borders if they are asked for, unless an aspect ratio has to be repaired.
      Without strict geometry increments and ratios are disobeyed. */
  lemma RequestIsFollowed(h: Hints, size: Size, mode: SizeMode, noframe: bool, strict: bool)
    returns (w: Size, g: Size)
    requires h.WellFormed()
    ensures Follows(h, size, w, g)
    ensures
      var r := SizeForClientSize(h, size, mode, noframe, strict);
      var wanted := if strict then g else w;
      && (WithinRatios(h, g) ==> r.Some?)
      && (r.Some? && (WithinRatios(h, g) || !strict) ==>
            r.value == if noframe then wanted
                       else Size(wanted.width + h.borders.width, wanted.height + h.borders.height))
  {
    w, g := LimitStage(h, size), GridStage(h, size);
    StagesFollow(h, size);
    UntouchedWithinRatios(h, g, mode);
  }

  lemma UntouchedWithinRatios(h: Hints, g: Size, mode: SizeMode)
    requires h.WellFormed()
    ensures h.hasAspect && WithinRatios(h, g) ==> AspectSize(h, g, mode) == Some(g)
  {
    if h.hasAspect && WithinRatios(h, g) {
      WithinRatiosStays(h, LimitsWithoutBase(h), WithoutBase(h, g), Order(mode));
    }
  }

  /** Only one size and one part of it follow a request. */
  lemma OneSizeFollows(h: Hints, size: Size, w: Size, g: Size, w': Size, g': Size)
    requires h.WellFormed() && Follows(h, size, w, g) && Follows(h, size, w', g')
    ensures w == w' && g == g'
  {
    OneIsLast(w.width, h.GridOrigin().width, h.inc.width, g.width, g'.width);
    OneIsLast(w.height, h.GridOrigin().height, h.inc.height, g.height, g'.height);
  }

  lemma OneIsLast(w: int, origin: int, inc: int, r: int, r': int)
    requires inc >= 1 && LastOnGrid(w, origin, inc, r) && LastOnGrid(w, origin, inc, r')
    ensures r == r'
  {
    var p, q := (r - origin) / inc, (r' - origin) / inc;
    assert r - origin == p * inc && r' - origin == q * inc;
    SameMultiple(p, q, inc);
  }

  // ---------------------------------------------------------------- what the hints promise

  predicate OnGrid(h: Hints, s: Size)
    requires h.WellFormed()
  {
    (s.width - h.GridOrigin().width) % h.inc.width == 0 && (s.height - h.GridOrigin().height) % h.inc.height == 0
  }

  /** On the grid, and between base and maximum. */
  predicate IsGridded(h: Hints, s: Size)
    requires h.WellFormed()
  {
    OnGrid(h, s) && h.base.width <= s.width <= h.max.width && h.base.height <= s.height <= h.max.height
  }

  lemma GridIsObeyed(h: Hints, size: Size)
    requires h.Consistent()
    ensures
      var g, o := GridStage(h, size), h.GridOrigin();
      && OnGrid(h, g) && o.width <= g.width <= h.max.width && o.height <= g.height <= h.max.height
  {
    var c := LimitStage(h, size);
    StepsBelow(c.width - h.GridOrigin().width, h.inc.width);
    StepsBelow(c.height - h.GridOrigin().height, h.inc.height);
  }

  /** What the hints promise of a size: both sides are on the increment grid and within the
      maximum, and no repair goes below the minimum. `g` is the size before the repair. */
  predicate Obeys(h: Hints, g: Size, r: Size)
    requires h.WellFormed()
  {
    && OnGrid(h, r) && r.width <= h.max.width && r.height <= h.max.height
    && r.width >= Min(g.width, h.MinSize().width) && r.height >= Min(g.height, h.MinSize().height)
    && (WithinRatios(h, g) ==> r == g)
  }

  /** The program divides by zero on the way from `g`. */
  predicate Divides(h: Hints, g: Size, mode: SizeMode)
    requires h.WellFormed()
  {
    h.hasAspect && Undefined(h, LimitsWithoutBase(h), WithoutBase(h, g), mode)
  }

  /** No negative maximum numerator makes the size too wide. */
  predicate NumeratorsFit(h: Hints, g: Size) {
    h.hasAspect ==> h.maxAspect.width >= 0 || !TooWide(h, WithoutBase(h, g))
  }

  /** The hints are obeyed, but for the minimum if a numerator does not fit. */
  predicate ObeysAsFit(h: Hints, g: Size, r: Size)
    requires h.WellFormed()
  {
    && OnGrid(h, r) && r.width <= h.max.width && r.height <= h.max.height
    && (NumeratorsFit(h, g) ==> Obeys(h, g, r))
  }

  lemma AspectKeepsGrid(h: Hints, g: Size, mode: SizeMode)
    requires h.Consistent() && h.hasAspect && IsGridded(h, g)
    ensures AspectSize(h, g, mode).None? <==> Divides(h, g, mode)
    ensures AspectSize(h, g, mode).Some? ==> ObeysAsFit(h, g, AspectSize(h, g, mode).value)
  {
    var o, lim, s := h.GridOrigin(), LimitsWithoutBase(h), WithoutBase(h, g);
    AspectStageIsSafe(h, lim, s, mode);
    var stage := AspectStage(h, lim, s, mode);
    if stage.Some? {
      var r := stage.value;
      MultiplesAdd(g.width - o.width, r.width - s.width, h.inc.width);
      MultiplesAdd(g.height - o.height, r.height - s.height, h.inc.height);
    }
  }

  /** How far the ratios are met by a client size: within one increment, unless the limits of the window leave
      no room on either side. */
  lemma RatiosAreRepaired(h: Hints, g: Size, mode: SizeMode)
    requires h.Consistent() && h.hasAspect && IsGridded(h, g) && AspectSize(h, g, mode).Some?
    ensures
      var s, r := WithoutBase(h, g), AspectSize(h, g, mode).value;
      && (TooNarrow(h, s) ==>
            || NarrowRepaired(h, WithoutBase(h, r))
            || (r == g && h.minAspect.width != 0
                && g.height - RowsToShed(h, s) < h.MinSize().height && g.width + ColumnsToAdd(h, s) > h.max.width))
      && (TooWide(h, s) && h.maxAspect.width > 0 ==>
            || WideRepaired(h, WithoutBase(h, r))
            || (r == g && g.width - ColumnsToShed(h, s) < h.MinSize().width && g.height + RowsToAdd(h, s) > h.max.height))
  {
    AspectStageRepairs(h, LimitsWithoutBase(h), WithoutBase(h, g), mode);
  }

  /** And which side of it is kept, where they leave room. */
  lemma ModeKeepsClientSide(h: Hints, g: Size, mode: SizeMode)
    requires h.Consistent() && h.hasAspect && IsGridded(h, g) && h.maxAspect.width >= 1
    ensures AspectSize(h, g, mode).Some?
    ensures
      var s, r := WithoutBase(h, g), WithoutBase(h, AspectSize(h, g, mode).value);
      && (TooNarrow(h, s) && h.minAspect.width != 0 && !mode.FixedH? && g.height - RowsToShed(h, s) >= h.MinSize().height
          ==> NarrowKeepsWidth(h, s, r))
      && (TooNarrow(h, s) && mode.FixedH? && g.width + ColumnsToAdd(h, s) <= h.max.width
          ==> NarrowKeepsHeight(h, s, r))
      && (TooWide(h, s) && !mode.FixedH? && !mode.SizeMax? && g.height + RowsToAdd(h, s) <= h.max.height
          ==> WideKeepsWidth(h, s, r))
      && (TooWide(h, s) && (mode.FixedH? || mode.SizeMax?) && g.width - ColumnsToShed(h, s) >= h.MinSize().width
          ==> WideKeepsHeight(h, s, r))
  {
    ModeKeepsSide(h, LimitsWithoutBase(h), WithoutBase(h, g), mode);
  }

  /** The hints give every size in every mode what they promise, or the program divides by zero. */
  lemma HintsAreObeyed(h: Hints, size: Size, mode: SizeMode)
    requires h.Consistent()
    ensures
      var g, r := GridStage(h, size), ClientSize(h, size, mode, true);
      && Follows(h, size, LimitStage(h, size), g)
      && (r.None? <==> Divides(h, g, mode))
      && (r.Some? ==> ObeysAsFit(h, g, r.value))
  {
    StagesFollow(h, size);
    GridIsObeyed(h, size);
    if h.hasAspect {
      AspectKeepsGrid(h, GridStage(h, size), mode);
    }
  }

  /** A client whose width over height may be zero at most: the program divides by zero exactly if
      the size is wider than the base. */
  lemma ZeroRatioDivides(h: Hints, size: Size)
    requires h.Consistent() && h.hasAspect && h.maxAspect.width == 0
    ensures ClientSize(h, size, SizeAny, true).None? <==> GridStage(h, size).width > h.base.width
  {
    HintsAreObeyed(h, size, SizeAny);
  }

  /** `sizeForClientSize` as the window computes it. */
  method ComputeSize(h: Hints, wsize: Size, mode: SizeMode, noframe: bool, strict: bool) returns (r: Option<Size>)
    requires h.WellFormed()
    ensures r == SizeForClientSize(h, wsize, mode, noframe, strict)
    ensures
      var w, g := LimitStage(h, wsize), GridStage(h, wsize);
      && Follows(h, wsize, w, g)
      && (r.Some? && noframe && !strict ==> r.value == w)
      && (noframe && strict && WithinRatios(h, g) ==> r == Some(g))
      && (h.Consistent() ==>
            && (r.None? <==> Divides(h, g, mode))
            && (r.Some? && noframe && strict ==> ObeysAsFit(h, g, r.value)))
  {
    StagesFollow(h, wsize);
    UntouchedWithinRatios(h, GridStage(h, wsize), mode);
    if h.Consistent() {
      HintsAreObeyed(h, wsize, mode);
    }
    var limited, s := ComputeGrid(h, wsize);
    if h.hasAspect {
      r := KeepAspect(h, s, mode);
      if r.None? {
        return;
      }
      s := r.value;
    }
    if !strict {
      s := limited;
    }
    if !noframe {
      s := Size(s.width + h.borders.width, s.height + h.borders.height);
    }
    r := Some(s);
  }

  method ComputeGrid(h: Hints, wsize: Size) returns (limited: Size, gridded: Size)
    requires h.WellFormed()
    ensures limited == LimitStage(h, wsize) && gridded == GridStage(h, wsize)
  {
    var w, height := wsize.width, wsize.height;
    if w < 1 { w := 1; }
    if height < 1 { height := 1; }
    var minSize := h.min;
    if h.decorated {
      var decoMinSize := Size(0, 0);
      if h.borders.width > decoMinSize.width { decoMinSize := decoMinSize.(width := h.borders.width); }
      if h.borders.height > decoMinSize.height { decoMinSize := decoMinSize.(height := h.borders.height); }
      if decoMinSize.width > minSize.width { minSize := minSize.(width := decoMinSize.width); }
      if decoMinSize.height > minSize.height { minSize := minSize.(height := decoMinSize.height); }
    }
    assert minSize == h.MinSize();
    w, height := Min(h.max.width, w), Min(h.max.height, height);
    w, height := Max(minSize.width, w), Max(minSize.height, height);
    limited := Size(w, height);
    var origin := if h.hasBase then h.base else h.hintMin;
    w := WholeSteps(w - origin.width, h.inc.width) + origin.width;
    height := WholeSteps(height - origin.height, h.inc.height) + origin.height;
    gridded := Size(w, height);
  }

  /** The four aspect checks, in an order that depends on the side to keep. */
  method KeepAspect(h: Hints, size: Size, mode: SizeMode) returns (r: Option<Size>)
    requires h.WellFormed() && h.hasAspect
    ensures r == AspectSize(h, size, mode)
    ensures h.Consistent() && IsGridded(h, size) ==>
              (r.None? <==> Divides(h, size, mode)) && (r.Some? ==> ObeysAsFit(h, size, r.value))
  {
    if h.Consistent() && IsGridded(h, size) {
      AspectKeepsGrid(h, size, mode);
    }
    var lim := LimitsWithoutBase(h);
    r := CheckAll(h, lim, WithoutBase(h, size), Order(mode));
    if r.Some? {
      r := Some(Size(r.value.width + h.base.width, r.value.height + h.base.height));
    }
  }

  method CheckAll(h: Hints, lim: Limits, size: Size, steps: seq<Step>) returns (r: Option<Size>)
    requires h.WellFormed()
    ensures r == ApplyAll(h, lim, size, steps)
    ensures RatiosOrdered(h) && IsSize(size) && !Hopeless(h, size) ==> r.Some? && SafeChange(h, lim, size, r.value)
  {
    if RatiosOrdered(h) && IsSize(size) && !Hopeless(h, size) {
      StepsAreSafe(h, lim, size, steps);
    }
    r := Some(size);
    for i := 0 to |steps|
      invariant r.Some? && ApplyAll(h, lim, r.value, steps[i..]) == ApplyAll(h, lim, size, steps)
    {
      assert steps[i..][1..] == steps[i + 1..];
      match steps[i] {
        case DoGrowW => r := CheckGrowW(h, lim, r.value);
        case DoShrinkHGrowW => r := CheckShrinkHGrowW(h, lim, r.value);
        case DoGrowH => r := CheckGrowH(h, lim, r.value);
        case DoShrinkWGrowH => r := CheckShrinkWGrowH(h, lim, r.value);
      }
      if r.None? {
        return;
      }
    }
  }

  /** The macros compare and divide doubles. */
  method Exceeds(a: int, x: int, b: int, y: int) returns (r: bool)
    ensures r <==> a * x > b * y
  {
    assert a as real * x as real == (a * x) as real;
    assert b as real * y as real == (b * y) as real;
    r := a as real * x as real > b as real * y as real;
  }

  method StepsToward(a: int, x: int, b: int, y: int, inc: int) returns (delta: int)
    requires b != 0 && inc >= 1
    ensures delta == WholeSteps(Truncated(Ideal(a, x, b) - y as real), inc)
  {
    delta := Quotient(Truncated(a as real * x as real / b as real - y as real), inc) * inc;
  }

  method StepsFrom(y: int, a: int, x: int, b: int, inc: int) returns (delta: int)
    requires b != 0 && inc >= 1
    ensures delta == WholeSteps(Truncated(y as real - Ideal(a, x, b)), inc)
  {
    delta := Quotient(Truncated(y as real - a as real * x as real / b as real), inc) * inc;
  }

  method CheckGrowW(h: Hints, lim: Limits, s: Size) returns (r: Option<Size>)
    requires h.WellFormed()
    ensures r == GrowW(h, lim, s)
  {
    r := Some(s);
    var narrow := Exceeds(h.minAspect.width, s.height, h.minAspect.height, s.width);
    if narrow {
      var delta := StepsToward(h.minAspect.width, s.height, h.minAspect.height, s.width, h.inc.width);
      if s.width + delta <= lim.max.width {
        r := Some(s.(width := s.width + delta));
      }
    }
  }

  method CheckShrinkHGrowW(h: Hints, lim: Limits, s: Size) returns (r: Option<Size>)
    requires h.WellFormed()
    ensures r == ShrinkHGrowW(h, lim, s)
  {
    r := Some(s);
    var narrow := Exceeds(h.minAspect.width, s.height, h.minAspect.height, s.width);
    if narrow {
      if h.minAspect.width == 0 {
        return None;
      }
      var delta := StepsFrom(s.height, s.width, h.minAspect.height, h.minAspect.width, h.inc.height);
      if s.height - delta >= lim.min.height {
        r := Some(s.(height := s.height - delta));
      } else {
        r := CheckGrowW(h, lim, s);
      }
    }
  }

  method CheckGrowH(h: Hints, lim: Limits, s: Size) returns (r: Option<Size>)
    requires h.WellFormed()
    ensures r == GrowH(h, lim, s)
  {
    r := Some(s);
    var wide := Exceeds(h.maxAspect.height, s.width, h.maxAspect.width, s.height);
    if wide {
      if h.maxAspect.width == 0 {
        return None;
      }
      var delta := StepsToward(s.width, h.maxAspect.height, h.maxAspect.width, s.height, h.inc.height);
      if s.height + delta <= lim.max.height {
        r := Some(s.(height := s.height + delta));
      }
    }
  }

  method CheckShrinkWGrowH(h: Hints, lim: Limits, s: Size) returns (r: Option<Size>)
    requires h.WellFormed()
    ensures r == ShrinkWGrowH(h, lim, s)
  {
    r := Some(s);
    var wide := Exceeds(h.maxAspect.height, s.width, h.maxAspect.width, s.height);
    if wide {
      var delta := StepsFrom(s.width, h.maxAspect.width, s.height, h.maxAspect.height, h.inc.width);
      if s.width - delta >= lim.min.width {
        r := Some(s.(width := s.width - delta));
      } else {
        r := CheckGrowH(h, lim, s);
      }
    }
  }

}
