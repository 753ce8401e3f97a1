/** `checkWorkspacePosition` of an ordinary window that is neither maximised nor tiled, on one
    screen whose areas have not changed. */
module WorkspacePosition {
  import opened Geometry

  /** The screen, the display size, the struts by side, and the border widths of the window. */
  datatype Surroundings = Surroundings(
    screen: Rect, displayWidth: int, displayHeight: int,
    topStruts: seq<Rect>, rightStruts: seq<Rect>, bottomStruts: seq<Rect>, leftStruts: seq<Rect>,
    borderLeft: int, borderTop: int, borderRight: int, borderBottom: int)

  datatype Side = LeftSide | TopSide | RightSide | BottomSide

  /** The free span around a window; `right` and `bottom` are exclusive. */
  datatype Bounds = Bounds(left: int, top: int, right: int, bottom: int)

  /** The innermost coordinate that the struts of one side leave to a strip. */
  function StrutEdge(side: Side, struts: seq<Rect>, strip: Rect, start: int): int {
    if struts == [] then start
    else Tightened(side, struts[|struts| - 1].Intersected(strip), StrutEdge(side, struts[..|struts| - 1], strip, start))
  }

  function Tightened(side: Side, r: Rect, edge: int): int {
    if !r.IsValid() then edge
    else
      match side
      case LeftSide => Max(edge, r.left + r.Width())
      case TopSide => Max(edge, r.top + r.Height())
      case RightSide => Min(edge, r.left)
      case BottomSide => Min(edge, r.top)
  }

  function Tall(w: Surroundings, g: Rect): Rect { RectAt(g.left, 0, g.Width(), w.displayHeight) }

  function Wide(w: Surroundings, g: Rect): Rect { RectAt(0, g.top, w.displayWidth, g.Height()) }

  function BoundsAround(w: Surroundings, g: Rect): Bounds {
    Bounds(StrutEdge(LeftSide, w.leftStruts, Wide(w, g), w.screen.left),
           StrutEdge(TopSide, w.topStruts, Tall(w, g), w.screen.top),
           StrutEdge(RightSide, w.rightStruts, Wide(w, g), w.screen.left + w.screen.Width()),
           StrutEdge(BottomSide, w.bottomStruts, Tall(w, g), w.screen.top + w.screen.Height()))
  }

  function ClientPart(w: Surroundings, g: Rect): Rect {
    Rect(g.left + w.borderLeft, g.top + w.borderTop, g.right - w.borderRight, g.bottom - w.borderBottom)
  }

  /** Whether an edge has to be put back, and by how much the border may stick out. */
  datatype Correction = Correction(save: bool, keep: bool, padding: int) {
    predicate Applies() { save || keep }
  }

  /** An edge that touched its bound and no longer does, in the frame or in the client part. */
  function EdgeCorrection(inside: bool, outside: bool, touched: bool, touches: bool,
                          clientTouched: bool, clientTouches: bool, border: int): Correction {
    Correction(inside && outside,
      if touched then !touches else clientTouched && !clientTouches,
      if !touched && clientTouched && !clientTouches then border else 0)
  }

  /** Opposite edges that both lost their bounds are both left alone. */
  function Balanced(a: Correction, b: Correction): Correction {
    if a.keep && b.keep then a.(keep := false, padding := 0) else a
  }

  function LeftCorrection(w: Surroundings, before: Rect, was: Bounds, g: Rect, now: Bounds): Correction {
    EdgeCorrection(before.left >= was.left, g.left < now.left, before.left == was.left, g.left == now.left,
      ClientPart(w, before).left == was.left, ClientPart(w, g).left == now.left, w.borderLeft)
  }

  /** The padding of the top edge is the left border, as in the program. */
  function TopCorrection(w: Surroundings, before: Rect, was: Bounds, g: Rect, now: Bounds): Correction {
    EdgeCorrection(before.top >= was.top, g.top < now.top, before.top == was.top, g.top == now.top,
      ClientPart(w, before).top == was.top, ClientPart(w, g).top == now.top, w.borderLeft)
  }

  function RightCorrection(w: Surroundings, before: Rect, was: Bounds, g: Rect, now: Bounds): Correction {
    EdgeCorrection(before.right <= was.right - 1, g.right > now.right - 1,
      before.right == was.right - 1, g.right == now.right - 1,
      ClientPart(w, before).right == was.right - 1, ClientPart(w, g).right == now.right - 1, w.borderRight)
  }

  function BottomCorrection(w: Surroundings, before: Rect, was: Bounds, g: Rect, now: Bounds): Correction {
    EdgeCorrection(before.bottom <= was.bottom - 1, g.bottom > now.bottom - 1,
      before.bottom == was.bottom - 1, g.bottom == now.bottom - 1,
      ClientPart(w, before).bottom == was.bottom - 1, ClientPart(w, g).bottom == now.bottom - 1, w.borderBottom)
  }

  function WithLeftEdge(g: Rect, x: int): Rect { g.MovedTo(Point(x, g.top)) }
  function WithTopEdge(g: Rect, y: int): Rect { g.MovedTo(Point(g.left, y)) }
  function WithRightEdge(g: Rect, x: int): Rect { g.Translated(x - g.right, 0) }
  function WithBottomEdge(g: Rect, y: int): Rect { g.Translated(0, y - g.bottom) }

  function MovedInside(w: Surroundings, g: Rect, now: Bounds, l: Correction, t: Correction, r: Correction): Rect {
    var g1 := if l.Applies() then WithLeftEdge(g, Max(now.left, w.screen.left) - l.padding) else g;
    var g2 := if t.Applies() then WithTopEdge(g1, Max(now.top, w.screen.top) - t.padding) else g1;
    if r.Applies() then WithRightEdge(g2, Min(now.right - 1, w.screen.right) + r.padding) else g2
  }

  function CutLeft(w: Surroundings, before: Rect, was: Bounds, g: Rect, now: Bounds): Rect {
    if before.left >= was.left && g.left < now.left then g.(left := Max(now.left, w.screen.left))
    else if ClientPart(w, before).left >= was.left && g.left + w.borderLeft < now.left
    then g.(left := Max(now.left, w.screen.left) - w.borderLeft)
    else g
  }

  function CutTop(w: Surroundings, before: Rect, was: Bounds, g: Rect, now: Bounds): Rect {
    if before.top >= was.top && g.top < now.top then g.(top := Max(now.top, w.screen.top))
    else if ClientPart(w, before).top >= was.top && g.top + w.borderTop < now.top
    then g.(top := Max(now.top, w.screen.top) - w.borderTop)
    else g
  }

  /** The moves and cuts in program order; the left edge is cut before the bottom edge moves. */
  function Corrected(w: Surroundings, before: Rect, was: Bounds, g: Rect, now: Bounds,
                     l: Correction, t: Correction, r: Correction, b: Correction): Rect {
    var cut := CutLeft(w, before, was, MovedInside(w, g, now, l, t, r), now);
    var moved := if b.Applies() then WithBottomEdge(cut, Min(now.bottom - 1, w.screen.bottom) + b.padding) else cut;
    CutTop(w, before, was, moved, now)
  }

  /** `checkOffscreenPosition` */
  function OnScreen(screen: Rect, g: Rect): Rect {
    var g' := if g.left > screen.right then WithLeftEdge(g, screen.right - Quotient(screen.Width(), 4))
              else if g.right < screen.left then WithRightEdge(g, screen.left + Quotient(screen.Width(), 4))
              else g;
    if g'.top > screen.bottom then WithTopEdge(g', screen.bottom - Quotient(screen.Height(), 4))
    else if g'.bottom < screen.top then WithBottomEdge(g', screen.top + Quotient(screen.Width(), 4))
    else g'
  }

  /** The position of a window at `before` whose restore geometry is `restore`. */
  function Checked(w: Surroundings, before: Rect, restore: Rect): Rect {
    var was := BoundsAround(w, before);
    var now := BoundsAround(w, restore);
    var l := LeftCorrection(w, before, was, restore, now);
    var t := TopCorrection(w, before, was, restore, now);
    var r := RightCorrection(w, before, was, restore, now);
    var b := BottomCorrection(w, before, was, restore, now);
    OnScreen(w.screen, Corrected(w, before, was, restore, now,
      Balanced(l, r), Balanced(t, b), Balanced(r, l), Balanced(b, t)))
  }

  // ---------------------------------------------------------------- the bounds

  /** The coordinate up to which a strut takes the side away; `right` and `bottom` are exclusive. */
  function Limit(side: Side, r: Rect): int {
    match side
    case LeftSide => r.right + 1
    case TopSide => r.bottom + 1
    case RightSide => r.left
    case BottomSide => r.top
  }

  /** `a` leaves no more than `b`. */
  predicate AtLeastAsTight(side: Side, a: int, b: int) {
    if side == LeftSide || side == TopSide then a >= b else a <= b
  }

  /** The bound of a side is the tightest that the screen and the struts beside the window set. */
  lemma {:induction false} StrutEdgeIsTightest(side: Side, struts: seq<Rect>, strip: Rect, start: int)
    ensures
      var edge := StrutEdge(side, struts, strip, start);
      && AtLeastAsTight(side, edge, start)
      && (forall i | 0 <= i < |struts| && struts[i].Intersected(strip).IsValid() ::
            AtLeastAsTight(side, edge, Limit(side, struts[i].Intersected(strip))))
      && (edge == start
          || exists i | 0 <= i < |struts| && struts[i].Intersected(strip).IsValid() ::
               edge == Limit(side, struts[i].Intersected(strip)))
    decreases |struts|
  {
    if struts != [] {
      var n := |struts| - 1;
      StrutEdgeIsTightest(side, struts[..n], strip, start);
      var before, r := StrutEdge(side, struts[..n], strip, start), struts[n].Intersected(strip);
      assert StrutEdge(side, struts, strip, start) == Tightened(side, r, before);
      if before != start {
        var i :| 0 <= i < n && struts[..n][i].Intersected(strip).IsValid()
          && before == Limit(side, struts[..n][i].Intersected(strip));
        assert struts[i].Intersected(strip).IsValid() && before == Limit(side, struts[i].Intersected(strip));
      }
      forall i | 0 <= i < |struts| && struts[i].Intersected(strip).IsValid()
        ensures AtLeastAsTight(side, Tightened(side, r, before), Limit(side, struts[i].Intersected(strip)))
      {
        if i < n {
          assert struts[..n][i] == struts[i];
        }
      }
    }
  }

  lemma BoundsAreOnScreen(w: Surroundings, g: Rect)
    ensures
      var b := BoundsAround(w, g);
      && b.left >= w.screen.left && b.top >= w.screen.top
      && b.right - 1 <= w.screen.right && b.bottom - 1 <= w.screen.bottom
  {
    StrutEdgeIsTightest(LeftSide, w.leftStruts, Wide(w, g), w.screen.left);
    StrutEdgeIsTightest(TopSide, w.topStruts, Tall(w, g), w.screen.top);
    StrutEdgeIsTightest(RightSide, w.rightStruts, Wide(w, g), w.screen.left + w.screen.Width());
    StrutEdgeIsTightest(BottomSide, w.bottomStruts, Tall(w, g), w.screen.top + w.screen.Height());
  }

  /** A strut of the display is beside the window exactly if it shares columns, or rows, with it, and then
      it counts with its whole extent toward the window. */
  lemma StrutsBeside(w: Surroundings, g: Rect, strut: Rect)
    requires g.IsValid() && strut.IsValid()
    requires 0 <= strut.left && strut.right < w.displayWidth && 0 <= strut.top && strut.bottom < w.displayHeight
    ensures strut.Intersected(Tall(w, g)).IsValid() <==> strut.left <= g.right && g.left <= strut.right
    ensures strut.Intersected(Wide(w, g)).IsValid() <==> strut.top <= g.bottom && g.top <= strut.bottom
    ensures strut.Intersected(Tall(w, g)).IsValid() ==>
              strut.Intersected(Tall(w, g)).top == strut.top && strut.Intersected(Tall(w, g)).bottom == strut.bottom
    ensures strut.Intersected(Wide(w, g)).IsValid() ==>
              strut.Intersected(Wide(w, g)).left == strut.left && strut.Intersected(Wide(w, g)).right == strut.right
  {
  }

  // ---------------------------------------------------------------- what is corrected

  predicate BordersAreValid(w: Surroundings) {
    w.borderLeft >= 0 && w.borderTop >= 0 && w.borderRight >= 0 && w.borderBottom >= 0
  }

  /** The position before the last check, which only looks at the screen. */
  function Settled(w: Surroundings, before: Rect, restore: Rect): Rect {
    var was, now := BoundsAround(w, before), BoundsAround(w, restore);
    var l, t := LeftCorrection(w, before, was, restore, now), TopCorrection(w, before, was, restore, now);
    var r, b := RightCorrection(w, before, was, restore, now), BottomCorrection(w, before, was, restore, now);
    Corrected(w, before, was, restore, now, Balanced(l, r), Balanced(t, b), Balanced(r, l), Balanced(b, t))
  }

  /** Where the columns go: a corrected right edge comes last, and the left edge may then be cut. */
  function ColumnsAt(w: Surroundings, g: Rect, now: Bounds, l: Correction, r: Correction): int {
    if r.Applies() then Min(now.right - 1, w.screen.right) + r.padding - g.Width() + 1
    else if l.Applies() then Max(now.left, w.screen.left) - l.padding
    else g.left
  }

  function RowsAt(w: Surroundings, g: Rect, now: Bounds, t: Correction, b: Correction): int {
    if b.Applies() then Min(now.bottom - 1, w.screen.bottom) + b.padding - g.Height() + 1
    else if t.Applies() then Max(now.top, w.screen.top) - t.padding
    else g.top
  }

  /** An edge that was inside is cut at the new bound; if only the client part was inside, the border may stick out. */
  predicate LeftRule(w: Surroundings, before: Rect, was: Bounds, now: Bounds, x: int, left: int) {
    && (before.left >= was.left ==> left == Max(x, now.left))
    && (before.left < was.left <= before.left + w.borderLeft ==> left == Max(x, now.left - w.borderLeft))
    && (before.left + w.borderLeft < was.left ==> left == x)
  }

  predicate TopRule(w: Surroundings, before: Rect, was: Bounds, now: Bounds, y: int, top: int) {
    && (before.top >= was.top ==> top == Max(y, now.top))
    && (before.top < was.top <= before.top + w.borderTop ==> top == Max(y, now.top - w.borderTop))
    && (before.top + w.borderTop < was.top ==> top == y)
  }

  lemma CorrectedEdges(w: Surroundings, before: Rect, was: Bounds, g: Rect, now: Bounds,
                       l: Correction, t: Correction, r: Correction, b: Correction)
    requires BordersAreValid(w)
    ensures
      var c := Corrected(w, before, was, g, now, l, t, r, b);
      var x, y := ColumnsAt(w, g, now, l, r), RowsAt(w, g, now, t, b);
      && c.right == x + g.Width() - 1 && c.bottom == y + g.Height() - 1
      && (now.left >= w.screen.left ==> LeftRule(w, before, was, now, x, c.left))
      && (now.top >= w.screen.top ==> TopRule(w, before, was, now, y, c.top))
  {
  }

  /** A side that was inside its bound is inside its new bound, if the window fits between the bounds; a
      window that does not fit keeps its left and its top edge inside. */
  lemma InsideStaysInside(w: Surroundings, before: Rect, restore: Rect)
    requires BordersAreValid(w)
    ensures Checked(w, before, restore) == OnScreen(w.screen, Settled(w, before, restore))
    ensures
      var was, now, r := BoundsAround(w, before), BoundsAround(w, restore), Settled(w, before, restore);
      && (before.left >= was.left ==> r.left >= now.left)
      && (before.top >= was.top ==> r.top >= now.top)
      && (before.right < was.right && restore.Width() <= now.right - now.left ==> r.right < now.right)
      && (before.bottom < was.bottom && restore.Height() <= now.bottom - now.top ==> r.bottom < now.bottom)
  {
    BoundsAreOnScreen(w, restore);
    var was, now := BoundsAround(w, before), BoundsAround(w, restore);
    ColumnsInside(w, before, was, restore, now);
    RowsInside(w, before, was, restore, now);
    EdgesOfSettled(w, before, restore);
  }

  lemma EdgesOfSettled(w: Surroundings, before: Rect, restore: Rect)
    requires BordersAreValid(w)
    ensures
      var was, now, c := BoundsAround(w, before), BoundsAround(w, restore), Settled(w, before, restore);
      var x, y := Columns(w, before, was, restore, now), Rows(w, before, was, restore, now);
      && c.right == x + restore.Width() - 1 && c.bottom == y + restore.Height() - 1
      && LeftRule(w, before, was, now, x, c.left) && TopRule(w, before, was, now, y, c.top)
      && ColumnsRule(w, before, was, restore, now, x) && RowsRule(w, before, was, restore, now, y)
  {
    BoundsAreOnScreen(w, restore);
    var was, now := BoundsAround(w, before), BoundsAround(w, restore);
    var l, t := LeftCorrection(w, before, was, restore, now), TopCorrection(w, before, was, restore, now);
    var r, b := RightCorrection(w, before, was, restore, now), BottomCorrection(w, before, was, restore, now);
    ColumnsFollow(w, before, was, restore, now);
    RowsFollow(w, before, was, restore, now);
    CorrectedEdges(w, before, was, restore, now, Balanced(l, r), Balanced(t, b), Balanced(r, l), Balanced(b, t));
  }

  function Columns(w: Surroundings, before: Rect, was: Bounds, g: Rect, now: Bounds): int {
    var l, r := LeftCorrection(w, before, was, g, now), RightCorrection(w, before, was, g, now);
    ColumnsAt(w, g, now, Balanced(l, r), Balanced(r, l))
  }

  function Rows(w: Surroundings, before: Rect, was: Bounds, g: Rect, now: Bounds): int {
    var t, b := TopCorrection(w, before, was, g, now), BottomCorrection(w, before, was, g, now);
    RowsAt(w, g, now, Balanced(t, b), Balanced(b, t))
  }

  /** The edge, or else the edge of the client part, touched its bound and does not any more. */
  predicate Lost(edge: int, bound: int, border: int, newEdge: int, newBound: int) {
    (edge == bound && newEdge != newBound) || (edge != bound && edge + border == bound && newEdge + border != newBound)
  }

  /** Where the columns go, case by case. An edge that lost its bound gets it back, with the border beyond it if only
      the client part touched; if both did, neither is favoured. An edge that left its bound is put back
      at it, and the right edge has the last word. */
  predicate ColumnsRule(w: Surroundings, before: Rect, was: Bounds, g: Rect, now: Bounds, x: int) {
    var right := x + g.Width() - 1;
    var lostLeft := Lost(before.left, was.left, w.borderLeft, g.left, now.left);
    var lostRight := Lost(before.right, was.right - 1, -w.borderRight, g.right, now.right - 1);
    var outLeft, outRight := before.left >= was.left && g.left < now.left, before.right < was.right && g.right >= now.right;
    && (lostRight && !lostLeft ==> right == now.right - 1 + if before.right == was.right - 1 then 0 else w.borderRight)
    && ((lostLeft || !lostRight) && outRight ==> right == now.right - 1)
    && (lostLeft && !lostRight && !outRight ==> x == now.left - if before.left == was.left then 0 else w.borderLeft)
    && ((lostLeft <==> lostRight) && !outRight ==> x == if outLeft then now.left else g.left)
  }

  /** The same for the rows. The border that may stick out at the top is the left one, as in the program. */
  predicate RowsRule(w: Surroundings, before: Rect, was: Bounds, g: Rect, now: Bounds, y: int) {
    var bottom := y + g.Height() - 1;
    var lostTop := Lost(before.top, was.top, w.borderTop, g.top, now.top);
    var lostBottom := Lost(before.bottom, was.bottom - 1, -w.borderBottom, g.bottom, now.bottom - 1);
    var outTop, outBottom := before.top >= was.top && g.top < now.top, before.bottom < was.bottom && g.bottom >= now.bottom;
    && (lostBottom && !lostTop ==> bottom == now.bottom - 1 + if before.bottom == was.bottom - 1 then 0 else w.borderBottom)
    && ((lostTop || !lostBottom) && outBottom ==> bottom == now.bottom - 1)
    && (lostTop && !lostBottom && !outBottom ==> y == now.top - if before.top == was.top then 0 else w.borderLeft)
    && ((lostTop <==> lostBottom) && !outBottom ==> y == if outTop then now.top else g.top)
  }

  lemma ColumnsFollow(w: Surroundings, before: Rect, was: Bounds, g: Rect, now: Bounds)
    requires now.left >= w.screen.left && now.right - 1 <= w.screen.right
    ensures ColumnsRule(w, before, was, g, now, Columns(w, before, was, g, now))
  {
  }

  lemma RowsFollow(w: Surroundings, before: Rect, was: Bounds, g: Rect, now: Bounds)
    requires now.top >= w.screen.top && now.bottom - 1 <= w.screen.bottom
    ensures RowsRule(w, before, was, g, now, Rows(w, before, was, g, now))
  {
  }

  lemma ColumnsInside(w: Surroundings, before: Rect, was: Bounds, g: Rect, now: Bounds)
    requires BordersAreValid(w) && now.left >= w.screen.left && now.right - 1 <= w.screen.right
    ensures
      var x := Columns(w, before, was, g, now);
      && (before.right < was.right && g.Width() <= now.right - now.left ==> x + g.Width() - 1 < now.right)
      && (before.left == was.left && before.right < was.right - 1 && g.right < now.right ==> x == now.left)
      && (before.right == was.right - 1 && before.left > was.left && g.left >= now.left ==>
            x + g.Width() - 1 == now.right - 1)
  {
  }

  lemma RowsInside(w: Surroundings, before: Rect, was: Bounds, g: Rect, now: Bounds)
    requires BordersAreValid(w) && now.top >= w.screen.top && now.bottom - 1 <= w.screen.bottom
    ensures
      var y := Rows(w, before, was, g, now);
      && (before.bottom < was.bottom && g.Height() <= now.bottom - now.top ==> y + g.Height() - 1 < now.bottom)
      && (before.top == was.top && before.bottom < was.bottom - 1 && g.bottom < now.bottom ==> y == now.top)
      && (before.bottom == was.bottom - 1 && before.top > was.top && g.top >= now.top ==>
            y + g.Height() - 1 == now.bottom - 1)
  {
  }

  /** An edge that touched its bound touches the new one, if the opposite edge was free and still is. */
  lemma TouchingStays(w: Surroundings, before: Rect, restore: Rect)
    requires BordersAreValid(w)
    ensures
      var was, now, r := BoundsAround(w, before), BoundsAround(w, restore), Settled(w, before, restore);
      && (before.left == was.left && before.right < was.right - 1 && restore.right < now.right ==> r.left == now.left)
      && (before.top == was.top && before.bottom < was.bottom - 1 && restore.bottom < now.bottom ==> r.top == now.top)
      && (before.right == was.right - 1 && before.left > was.left && restore.left >= now.left ==> r.right == now.right - 1)
      && (before.bottom == was.bottom - 1 && before.top > was.top && restore.top >= now.top ==> r.bottom == now.bottom - 1)
  {
    BoundsAreOnScreen(w, restore);
    var was, now := BoundsAround(w, before), BoundsAround(w, restore);
    ColumnsInside(w, before, was, restore, now);
    RowsInside(w, before, was, restore, now);
    EdgesOfSettled(w, before, restore);
  }

  /** A window that touched nothing, and whose restore geometry is within the bounds, goes exactly there. */
  lemma FreeWindowIsRestored(w: Surroundings, before: Rect, restore: Rect)
    requires BordersAreValid(w)
    requires
      var was, now := BoundsAround(w, before), BoundsAround(w, restore);
      && was.left < before.left && before.right < was.right - 1 && was.top < before.top && before.bottom < was.bottom - 1
      && now.left <= restore.left && restore.right < now.right && now.top <= restore.top && restore.bottom < now.bottom
    ensures Settled(w, before, restore) == restore
  {
  }

  /** A window off the screen is brought back on it, except that one above a screen at least four times as
      wide as high may end below: the distance is a quarter of the width on both axes. */
  lemma OffscreenComesBack(screen: Rect, g: Rect)
    requires screen.IsValid() && g.IsValid()
    ensures OnScreen(screen, g).Intersects(screen)
       <==> !(g.bottom < screen.top && g.Height() + screen.Height() <= screen.Width() / 4 + 1)
    ensures OnScreen(screen, g).Dimensions() == g.Dimensions()
    ensures g.left > screen.right ==> OnScreen(screen, g).left == screen.right - screen.Width() / 4
    ensures g.right < screen.left ==> OnScreen(screen, g).right == screen.left + screen.Width() / 4
    ensures g.top > screen.bottom ==> OnScreen(screen, g).top == screen.bottom - screen.Height() / 4
    ensures g.bottom < screen.top ==> OnScreen(screen, g).bottom == screen.top + screen.Width() / 4
    ensures screen.Intersects(g) ==> OnScreen(screen, g) == g
  {
  }

  /** So it is for a window at its restore geometry, whatever the struts are. */
  lemma SettledWindowComesBack(w: Surroundings, g: Rect)
    requires w.screen.IsValid() && g.IsValid()
    ensures Checked(w, g, g) == OnScreen(w.screen, g)
    ensures Checked(w, g, g).Intersects(w.screen)
       <==> !(g.bottom < w.screen.top && g.Height() + w.screen.Height() <= w.screen.Width() / 4 + 1)
  {
    OffscreenComesBack(w.screen, g);
    SettledWindowStays(w, g);
    assert Settled(w, g, g) == g;
  }

  /** A window that is where its restore geometry says is left alone exactly when it
      touches the screen, whatever its struts and borders. */
  lemma SettledWindowStays(w: Surroundings, g: Rect)
    requires w.screen.IsValid() && g.IsValid()
    ensures Checked(w, g, g) == g <==> w.screen.Intersects(g)
  {
    var b := BoundsAround(w, g);
    assert Corrected(w, g, b, g, b,
      Balanced(LeftCorrection(w, g, b, g, b), RightCorrection(w, g, b, g, b)),
      Balanced(TopCorrection(w, g, b, g, b), BottomCorrection(w, g, b, g, b)),
      Balanced(RightCorrection(w, g, b, g, b), LeftCorrection(w, g, b, g, b)),
      Balanced(BottomCorrection(w, g, b, g, b), TopCorrection(w, g, b, g, b))) == g;
  }

}
