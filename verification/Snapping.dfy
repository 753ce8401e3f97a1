/** Snapping of a moved window to the edges of other windows. */
module Snapping {
  import opened Geometry

  /** A window that might be snapped to. */
  datatype Other = Other(
    frame: Rect, isMoved: bool, isMinimized: bool, isHiddenTab: bool, onDesktop: bool, onActivity: bool,
    isDesktopOrSplash: bool)
  {
    predicate IsCandidate() {
      !isMoved && !isMinimized && !isHiddenTab && onDesktop && onActivity && !isDesktopOrSplash
    }
  }

  /** The interval that a window covers on one axis; the end is exclusive. */
  datatype Span = Span(start: int, end: int) {
    predicate Covers(x: int) { start <= x <= end }

    predicate Meets(other: Span) {
      || other.start <= start <= other.end
      || other.start <= end <= other.end
      || (start <= other.start && end >= other.end)
    }
  }

  function SpanX(r: Rect): Span { Span(r.left, r.left + r.Width()) }

  function SpanY(r: Rect): Span { Span(r.top, r.top + r.Height()) }

  /** The position on one axis and the distance to beat. */
  datatype Choice = Choice(position: int, delta: int)

  datatype Settings = Settings(zone: nat, onlyWhenOverlapping: bool, guidedX: bool, guidedY: bool)

  function Nearer(allowed: bool, zone: nat, distance: int, position: int, c: Choice): Choice {
    if allowed && Abs(distance) < zone && Abs(distance) < c.delta then Choice(position, Abs(distance)) else c
  }

  /** Outer edges: the far end of the other window, then its near end. */
  function OuterEdges(own: Span, other: Span, zone: nat, overlapping: bool, c: Choice): Choice {
    var far := Nearer(overlapping ==> own.start < other.end, zone, other.end - own.start, other.end, c);
    Nearer(overlapping ==> own.end > other.start, zone, own.end - other.start, other.start - (own.end - own.start), far)
  }

  /** Corners: the same ends of both windows are aligned. */
  function InnerEdges(own: Span, other: Span, zone: nat, overlapping: bool, c: Choice): Choice {
    var ends := Nearer(overlapping ==> own.end > other.end, zone, other.end - own.end,
                       other.end - (own.end - own.start), c);
    Nearer(overlapping ==> own.start < other.start, zone, own.start - other.start, other.start, ends)
  }

  /** The chosen position touches the other window from outside. */
  predicate Touches(own: Span, other: Span, position: int) {
    position == other.end || position + (own.end - own.start) == other.start
  }

  datatype Place = Place(x: Choice, y: Choice)

  function Outer(tried: bool, own: Span, other: Span, g: Settings, c: Choice): Choice {
    if tried then OuterEdges(own, other, g.zone, g.onlyWhenOverlapping, c) else c
  }

  function Inner(tried: bool, own: Span, other: Span, g: Settings, c: Choice): Choice {
    if tried then InnerEdges(own, other, g.zone, g.onlyWhenOverlapping, c) else c
  }

  /** One turn of the loop. */
  function Against(moved: Rect, g: Settings, p: Place, other: Rect): Place {
    var ownX, ownY, x, y := SpanX(moved), SpanY(moved), SpanX(other), SpanY(other);
    var x1 := Outer(!g.guidedX && ownY.Meets(y), ownX, x, g, p.x);
    var y1 := Outer(!g.guidedY && ownX.Meets(x), ownY, y, g, p.y);
    var y2 := Inner(!g.guidedY && Touches(ownX, x, x1.position), ownY, y, g, y1);
    var x2 := Inner(!g.guidedX && Touches(ownY, y, y2.position), ownX, x, g, x1);
    Place(x2, y2)
  }

  function AgainstAll(moved: Rect, g: Settings, p: Place, others: seq<Other>): Place {
    if others == [] then p
    else
      var before := AgainstAll(moved, g, p, others[..|others| - 1]);
      var o := others[|others| - 1];
      if o.IsCandidate() then Against(moved, g, before, o.frame) else before
  }

  // ---------------------------------------------------------------- what the choice means

  /** Aligned with some edge of the other window that may be used. */
  predicate AtEdge(own: Span, other: Span, overlapping: bool, position: int) {
    var size := own.end - own.start;
    || (position == other.end && (overlapping ==> own.start < other.end))
    || (position == other.start - size && (overlapping ==> own.end > other.start))
    || (position == other.end - size && (overlapping ==> own.end > other.end))
    || (position == other.start && (overlapping ==> own.start < other.start))
  }

  /** Two windows meet on an axis if their closed intervals share a coordinate. */
  lemma MeetingIsSharing(own: Span, other: Span)
    requires own.start <= own.end && other.start <= other.end
    ensures own.Meets(other) <==> exists x :: own.Covers(x) && other.Covers(x)
    ensures own.Meets(other) <==> other.Meets(own)
  {
    if own.Meets(other) {
      var x := Max(own.start, other.start);
      assert own.Covers(x) && other.Covers(x);
    }
  }

  /** A position touches a window if the intervals then share an end, but no more. */
  lemma TouchingIsContact(own: Span, other: Span, position: int)
    requires own.start < own.end && other.start < other.end
    ensures
      var placed := Span(position, position + (own.end - own.start));
      Touches(own, other, position)
      <==> placed.Meets(other) && !(placed.start < other.end && other.start < placed.end)
  {
  }

  /** Nothing was chosen, or a position at an edge that is as far away as the distance says, nearer
      than the zone and than the distance to beat at the beginning. */
  ghost predicate Justified(own: Span, zone: nat, overlapping: bool, first: Choice, c: Choice, edges: seq<Span>) {
    || c == first
    || (c.delta == Abs(c.position - own.start) && c.delta < zone && c.delta < first.delta
        && exists i :: 0 <= i < |edges| && AtEdge(own, edges[i], overlapping, c.position))
  }

  /** No outer edge of `other` that may be used is nearer than the choice. */
  predicate NoneNearer(own: Span, other: Span, g: Settings, c: Choice) {
    && ((g.onlyWhenOverlapping ==> own.start < other.end) ==> Abs(other.end - own.start) >= Min(g.zone, c.delta))
    && ((g.onlyWhenOverlapping ==> own.end > other.start) ==> Abs(own.end - other.start) >= Min(g.zone, c.delta))
  }

  function EdgesX(others: seq<Other>): (r: seq<Span>)
    ensures |r| == |others| && forall i | 0 <= i < |others| :: r[i] == SpanX(others[i].frame)
  {
    seq(|others|, i requires 0 <= i < |others| => SpanX(others[i].frame))
  }

  function EdgesY(others: seq<Other>): (r: seq<Span>)
    ensures |r| == |others| && forall i | 0 <= i < |others| :: r[i] == SpanY(others[i].frame)
  {
    seq(|others|, i requires 0 <= i < |others| => SpanY(others[i].frame))
  }

  /** Both axes of the result, for all windows that were looked at. */
  ghost predicate Settled(moved: Rect, g: Settings, first: Place, p: Place, others: seq<Other>) {
    && Justified(SpanX(moved), g.zone, g.onlyWhenOverlapping, first.x, p.x, EdgesX(others))
    && Justified(SpanY(moved), g.zone, g.onlyWhenOverlapping, first.y, p.y, EdgesY(others))
    && p.x.delta <= first.x.delta && p.y.delta <= first.y.delta
    && forall o | o in others && o.IsCandidate() :: SettledAgainst(moved, g, p, o.frame)
  }

  predicate SettledAgainst(moved: Rect, g: Settings, p: Place, other: Rect) {
    && (!g.guidedX && SpanY(moved).Meets(SpanY(other)) ==> NoneNearer(SpanX(moved), SpanX(other), g, p.x))
    && (!g.guidedY && SpanX(moved).Meets(SpanX(other)) ==> NoneNearer(SpanY(moved), SpanY(other), g, p.y))
  }

  /** A change of one axis that never goes further away. */
  predicate AxisStep(own: Span, other: Span, g: Settings, c: Choice, r: Choice) {
    || r == c
    || (r.delta == Abs(r.position - own.start) && r.delta < g.zone && r.delta < c.delta
        && AtEdge(own, other, g.onlyWhenOverlapping, r.position))
  }

  lemma OuterEdgesStep(own: Span, other: Span, g: Settings, c: Choice)
    ensures
      var r := OuterEdges(own, other, g.zone, g.onlyWhenOverlapping, c);
      NoneNearer(own, other, g, r) && AxisStep(own, other, g, c, r)
  {
  }

  lemma InnerEdgesStep(own: Span, other: Span, g: Settings, c: Choice)
    ensures AxisStep(own, other, g, c, InnerEdges(own, other, g.zone, g.onlyWhenOverlapping, c))
  {
  }

  lemma AxisStepsCompose(own: Span, other: Span, g: Settings, c: Choice, d: Choice, r: Choice)
    requires AxisStep(own, other, g, c, d) && AxisStep(own, other, g, d, r)
    ensures AxisStep(own, other, g, c, r)
    ensures NoneNearer(own, other, g, d) ==> NoneNearer(own, other, g, r)
  {
  }

  lemma AgainstSteps(moved: Rect, g: Settings, p: Place, other: Rect)
    ensures
      var r := Against(moved, g, p, other);
      && AxisStep(SpanX(moved), SpanX(other), g, p.x, r.x)
      && AxisStep(SpanY(moved), SpanY(other), g, p.y, r.y)
      && SettledAgainst(moved, g, r, other)
  {
    var ownX, ownY, x, y := SpanX(moved), SpanY(moved), SpanX(other), SpanY(other);
    OuterEdgesStep(ownX, x, g, p.x);
    OuterEdgesStep(ownY, y, g, p.y);
    var x1 := Outer(!g.guidedX && ownY.Meets(y), ownX, x, g, p.x);
    var y1 := Outer(!g.guidedY && ownX.Meets(x), ownY, y, g, p.y);
    InnerEdgesStep(ownX, x, g, x1);
    InnerEdgesStep(ownY, y, g, y1);
    var y2 := Inner(!g.guidedY && Touches(ownX, x, x1.position), ownY, y, g, y1);
    var x2 := Inner(!g.guidedX && Touches(ownY, y, y2.position), ownX, x, g, x1);
    AxisStepsCompose(ownX, x, g, p.x, x1, x2);
    AxisStepsCompose(ownY, y, g, p.y, y1, y2);
  }

  lemma CloserKeepsSettled(moved: Rect, g: Settings, p: Place, r: Place, other: Rect)
    requires SettledAgainst(moved, g, p, other)
    requires r.x.delta <= p.x.delta && r.y.delta <= p.y.delta
    ensures SettledAgainst(moved, g, r, other)
  {
  }

  lemma StepKeepsJustified(own: Span, g: Settings, first: Choice, c: Choice, r: Choice, edges: seq<Span>, other: Span)
    requires Justified(own, g.zone, g.onlyWhenOverlapping, first, c, edges)
    requires AxisStep(own, other, g, c, r) && c.delta <= first.delta
    ensures Justified(own, g.zone, g.onlyWhenOverlapping, first, r, edges + [other])
  {
    if r != c {
      assert (edges + [other])[|edges|] == other;
    } else if c != first {
      var i :| 0 <= i < |edges| && AtEdge(own, edges[i], g.onlyWhenOverlapping, c.position);
      assert (edges + [other])[i] == edges[i];
    }
  }

  lemma SkipKeepsJustified(own: Span, zone: nat, overlapping: bool, first: Choice, c: Choice, edges: seq<Span>, other: Span)
    requires Justified(own, zone, overlapping, first, c, edges)
    ensures Justified(own, zone, overlapping, first, c, edges + [other])
  {
    if c != first {
      var i :| 0 <= i < |edges| && AtEdge(own, edges[i], overlapping, c.position);
      assert (edges + [other])[i] == edges[i];
    }
  }

  /** On each axis the window stays or goes to an edge inside the zone, and no outer edge of an
      overlapping window is nearer than that, although the corners that are tried depend
      on what the other axis has chosen so far. */
  lemma {:induction false} NearestEdgeWins(moved: Rect, g: Settings, first: Place, others: seq<Other>)
    ensures Settled(moved, g, first, AgainstAll(moved, g, first, others), others)
    decreases |others|
  {
    if others != [] {
      var n := |others| - 1;
      var before, o := others[..n], others[n];
      NearestEdgeWins(moved, g, first, before);
      var p := AgainstAll(moved, g, first, before);
      assert EdgesX(others) == EdgesX(before) + [SpanX(o.frame)];
      assert EdgesY(others) == EdgesY(before) + [SpanY(o.frame)];
      var r := Against(moved, g, p, o.frame);
      AgainstSteps(moved, g, p, o.frame);
      if o.IsCandidate() {
        StepKeepsJustified(SpanX(moved), g, first.x, p.x, r.x, EdgesX(before), SpanX(o.frame));
        StepKeepsJustified(SpanY(moved), g, first.y, p.y, r.y, EdgesY(before), SpanY(o.frame));
        forall other | other in others && other.IsCandidate() ensures SettledAgainst(moved, g, r, other.frame) {
          if other in before {
            CloserKeepsSettled(moved, g, p, r, other.frame);
          }
        }
      } else {
        SkipKeepsJustified(SpanX(moved), g.zone, g.onlyWhenOverlapping, first.x, p.x, EdgesX(before), SpanX(o.frame));
        SkipKeepsJustified(SpanY(moved), g.zone, g.onlyWhenOverlapping, first.y, p.y, EdgesY(before), SpanY(o.frame));
        assert forall other | other in others && other.IsCandidate() :: other in before;
      }
    }
  }

  /** Windows that are minimized, hidden, elsewhere or not really windows are never snapped to, nor is the moved one. */
  lemma OthersAreIgnored(moved: Rect, g: Settings, first: Place, others: seq<Other>, o: Other)
    requires o.isMoved || o.isMinimized || o.isHiddenTab || !o.onDesktop || !o.onActivity || o.isDesktopOrSplash
    ensures AgainstAll(moved, g, first, others + [o]) == AgainstAll(moved, g, first, others)
  {
    assert (others + [o])[..|others|] == others;
  }

  // ---------------------------------------------------------------- corners

  /** No aligned end of `other` that may be used is nearer than the choice. */
  predicate NoCornerNearer(own: Span, other: Span, g: Settings, c: Choice) {
    && ((g.onlyWhenOverlapping ==> own.end > other.end) ==> Abs(other.end - own.end) >= Min(g.zone, c.delta))
    && ((g.onlyWhenOverlapping ==> own.start < other.start) ==> Abs(own.start - other.start) >= Min(g.zone, c.delta))
  }

  /** When one axis has come to touch a window, the other one is aligned with it, unless an edge is nearer.
      The horizontal choice `c` from the outer edges decides about the rows; the rows then decide
      about the columns. An axis that is guided stays, and so does one without any contact. */
  lemma CornersAreTried(moved: Rect, g: Settings, p: Place, other: Rect) returns (c: Choice)
    ensures
      var r := Against(moved, g, p, other);
      && AxisStep(SpanX(moved), SpanX(other), g, p.x, c) && AxisStep(SpanX(moved), SpanX(other), g, c, r.x)
      && (r.x == c || Touches(SpanY(moved), SpanY(other), r.y.position))
      && (g.guidedX || !SpanY(moved).Meets(SpanY(other)) ==> c == p.x)
      && (g.guidedX ==> r.x == p.x) && (g.guidedY ==> r.y == p.y)
      && (!SpanX(moved).Meets(SpanX(other)) && !Touches(SpanX(moved), SpanX(other), c.position) ==> r.y == p.y)
      && (!g.guidedY && Touches(SpanX(moved), SpanX(other), c.position) ==>
            NoCornerNearer(SpanY(moved), SpanY(other), g, r.y))
      && (!g.guidedX && Touches(SpanY(moved), SpanY(other), r.y.position) ==>
            NoCornerNearer(SpanX(moved), SpanX(other), g, r.x))
  {
    var ownX, ownY, x, y := SpanX(moved), SpanY(moved), SpanX(other), SpanY(other);
    c := Outer(!g.guidedX && ownY.Meets(y), ownX, x, g, p.x);
    OuterEdgesStep(ownX, x, g, p.x);
    InnerEdgesStep(ownX, x, g, c);
  }

  /** Both choices only ever come nearer. */
  lemma {:induction false} ChoicesComeNearer(moved: Rect, g: Settings, first: Place, others: seq<Other>, i: nat)
    requires i <= |others|
    ensures AgainstAll(moved, g, first, others).x.delta <= AgainstAll(moved, g, first, others[..i]).x.delta
    ensures AgainstAll(moved, g, first, others).y.delta <= AgainstAll(moved, g, first, others[..i]).y.delta
    decreases |others|
  {
    if i < |others| {
      var n := |others| - 1;
      assert others[..n][..i] == others[..i];
      ChoicesComeNearer(moved, g, first, others[..n], i);
      AgainstSteps(moved, g, AgainstAll(moved, g, first, others[..n]), others[n].frame);
    } else {
      assert others[..i] == others;
    }
  }

  /** So in the end no corner is missed: wherever the turn of a window ends with the rows touching it, no
      aligned column of it is nearer than the columns finally chosen, and the same for the rows. */
  lemma NoCornerIsMissed(moved: Rect, g: Settings, first: Place, others: seq<Other>, i: nat)
    requires i < |others| && others[i].IsCandidate()
    ensures
      var o, turn, r := others[i].frame, AgainstAll(moved, g, first, others[..i + 1]), AgainstAll(moved, g, first, others);
      && (!g.guidedX && Touches(SpanY(moved), SpanY(o), turn.y.position) ==>
            NoCornerNearer(SpanX(moved), SpanX(o), g, r.x))
      && (!g.guidedY && Touches(SpanX(moved), SpanX(o), turn.x.position)
          && !Touches(SpanY(moved), SpanY(o), turn.y.position) ==>
            NoCornerNearer(SpanY(moved), SpanY(o), g, r.y))
  {
    assert others[..i + 1][..i] == others[..i];
    var c := CornersAreTried(moved, g, AgainstAll(moved, g, first, others[..i]), others[i].frame);
    ChoicesComeNearer(moved, g, first, others, i + 1);
  }

  // ---------------------------------------------------------------- with borders and centre off

  /** The distances to beat are then the far bounds of the screen. */
  function Start(moved: Rect, xmax: int, ymax: int): Place {
    Place(Choice(moved.left, xmax), Choice(moved.top, ymax))
  }

  /** An outer edge of another window that may be snapped to, at a distance. */
  predicate EdgeAt(own: Span, other: Span, g: Settings, distance: nat) {
    || ((g.onlyWhenOverlapping ==> own.start < other.end) && distance == Abs(other.end - own.start))
    || ((g.onlyWhenOverlapping ==> own.end > other.start) && distance == Abs(own.end - other.start))
  }

  predicate EdgeAtX(moved: Rect, g: Settings, other: Rect, distance: nat) {
    SpanY(moved).Meets(SpanY(other)) && EdgeAt(SpanX(moved), SpanX(other), g, distance)
  }

  predicate EdgeAtY(moved: Rect, g: Settings, other: Rect, distance: nat) {
    SpanX(moved).Meets(SpanX(other)) && EdgeAt(SpanY(moved), SpanY(other), g, distance)
  }

  /** A window that is not snapped has no edge inside the zone, and one that is snapped has none
      nearer than it moved: if the zone is not larger than the bound of the screen. */
  lemma SnapsIfEdgeInZone(moved: Rect, g: Settings, xmax: int, ymax: int, others: seq<Other>, o: Other, distance: nat)
    requires o in others && o.IsCandidate() && distance < g.zone
    ensures
      var p := AgainstAll(moved, g, Start(moved, xmax, ymax), others);
      && (g.zone <= xmax && !g.guidedX && EdgeAtX(moved, g, o.frame, distance) ==>
            Abs(p.x.position - moved.left) == p.x.delta <= distance)
      && (g.zone <= ymax && !g.guidedY && EdgeAtY(moved, g, o.frame, distance) ==>
            Abs(p.y.position - moved.top) == p.y.delta <= distance)
  {
    NearestEdgeWins(moved, g, Start(moved, xmax, ymax), others);
    var p := AgainstAll(moved, g, Start(moved, xmax, ymax), others);
    assert SettledAgainst(moved, g, p, o.frame);
  }

  /** A screen that ends at these bounds, with the moved window's centre on it. */
  predicate OnScreen(screen: Rect, moved: Rect, xmax: int, ymax: int) {
    screen.IsValid() && screen.right + 1 == xmax && screen.bottom + 1 == ymax && screen.Contains(moved.Center())
  }

  /** A zone of two pixels or more that is larger than the right bound, as it is when the screen ends
      near or left of the origin, is never used in full: some edge inside it is not snapped to. */
  lemma LargeZoneMissesEdge(g: Settings, xmax: int, ymax: int)
    returns (screen: Rect, moved: Rect, o: Other, distance: nat)
    requires g.zone > xmax && g.zone >= 2
    ensures OnScreen(screen, moved, xmax, ymax)
    ensures o.IsCandidate() && EdgeAtX(moved, g, o.frame, distance) && 0 < distance < g.zone
    ensures AgainstAll(moved, g, Start(moved, xmax, ymax), [o]).x.position == moved.left
  {
    distance := Max(xmax, 1);
    var size := 10000 + 3 * g.zone;
    screen := RectAt(xmax - 2 * size, ymax - 1000, 2 * size, 1000);
    moved := RectAt(xmax - size, ymax - 100, size, 100);
    o := Other(RectAt(xmax - distance, ymax - 100, size, 100), false, false, false, true, true, false);
    OnlyOne(moved, g, Start(moved, xmax, ymax), o);
  }

  /** The same for the vertical axis. */
  lemma LargeZoneMissesRow(g: Settings, xmax: int, ymax: int)
    returns (screen: Rect, moved: Rect, o: Other, distance: nat)
    requires g.zone > ymax && g.zone >= 2
    ensures OnScreen(screen, moved, xmax, ymax)
    ensures o.IsCandidate() && EdgeAtY(moved, g, o.frame, distance) && 0 < distance < g.zone
    ensures AgainstAll(moved, g, Start(moved, xmax, ymax), [o]).y.position == moved.top
  {
    distance := Max(ymax, 1);
    var size := 10000 + 3 * g.zone;
    screen := RectAt(xmax - 1000, ymax - 2 * size, 1000, 2 * size);
    moved := RectAt(xmax - 100, ymax - size, 100, size);
    o := Other(RectAt(xmax - 100, ymax - distance, 100, size), false, false, false, true, true, false);
    OnlyOne(moved, g, Start(moved, xmax, ymax), o);
  }

  lemma OnlyOne(moved: Rect, g: Settings, p: Place, o: Other)
    requires o.IsCandidate()
    ensures AgainstAll(moved, g, p, [o]) == Against(moved, g, p, o.frame)
  {
    assert [o][..0] == [];
  }

  // ---------------------------------------------------------------- the loop

  method SnapToWindows(moved: Rect, g: Settings, first: Place, others: seq<Other>) returns (p: Place)
    ensures p == AgainstAll(moved, g, first, others)
    ensures Settled(moved, g, first, p, others)
  {
    NearestEdgeWins(moved, g, first, others);
    var nx, ny := first.x.position, first.y.position;
    var deltaX, deltaY := first.x.delta, first.y.delta;
    for i := 0 to |others|
      invariant Place(Choice(nx, deltaX), Choice(ny, deltaY)) == AgainstAll(moved, g, first, others[..i])
    {
      assert others[..i + 1][..i] == others[..i];
      if others[i].IsCandidate() {
        nx, ny, deltaX, deltaY := SnapToWindow(moved, g, nx, ny, deltaX, deltaY, others[i].frame);
      }
    }
    assert others[..|others|] == others;
    p := Place(Choice(nx, deltaX), Choice(ny, deltaY));
  }

  method SnapToWindow(moved: Rect, g: Settings, x: int, y: int, dx: int, dy: int, other: Rect)
    returns (nx: int, ny: int, deltaX: int, deltaY: int)
    ensures Place(Choice(nx, deltaX), Choice(ny, deltaY))
         == Against(moved, g, Place(Choice(x, dx), Choice(y, dy)), other)
  {
    var ownX, ownY, otherX, otherY := SpanX(moved), SpanY(moved), SpanX(other), SpanY(other);
    var x1, dx1 := SnapOutside(!g.guidedX && ownY.Meets(otherY), ownX, otherX, g, x, dx);
    var y1, dy1 := SnapOutside(!g.guidedY && ownX.Meets(otherX), ownY, otherY, g, y, dy);
    ny, deltaY := SnapCorner(!g.guidedY && Touches(ownX, otherX, x1), ownY, otherY, g, y1, dy1);
    nx, deltaX := SnapCorner(!g.guidedX && Touches(ownY, otherY, ny), ownX, otherX, g, x1, dx1);
  }

  method SnapOutside(tried: bool, own: Span, other: Span, g: Settings, n: int, delta: int)
    returns (n': int, delta': int)
    ensures Choice(n', delta') == Outer(tried, own, other, g, Choice(n, delta))
  {
    n', delta' := n, delta;
    var c, r, l, lr := own.start, own.end, other.start, other.end;
    if tried {
      if (g.onlyWhenOverlapping ==> c < lr) && Abs(lr - c) < g.zone && Abs(lr - c) < delta' {
        delta' := Abs(lr - c);
        n' := lr;
      }
      if (g.onlyWhenOverlapping ==> r > l) && Abs(r - l) < g.zone && Abs(r - l) < delta' {
        delta' := Abs(r - l);
        n' := l - (r - c);
      }
    }
  }

  method SnapCorner(tried: bool, own: Span, other: Span, g: Settings, n: int, delta: int)
    returns (n': int, delta': int)
    ensures Choice(n', delta') == Inner(tried, own, other, g, Choice(n, delta))
  {
    n', delta' := n, delta;
    var c, r, l, lr := own.start, own.end, other.start, other.end;
    if tried {
      if (g.onlyWhenOverlapping ==> r > lr) && Abs(lr - r) < g.zone && Abs(lr - r) < delta' {
        delta' := Abs(lr - r);
        n' := lr - (r - c);
      }
      if (g.onlyWhenOverlapping ==> c < l) && Abs(c - l) < g.zone && Abs(c - l) < delta' {
        delta' := Abs(c - l);
        n' := l;
      }
    }
  }

}
