/** The title-bar repair and the size hints of an interactive resize. */
module RestrictedResize {
  import opened Geometry
  import opened Options
  import opened TitleBar

  datatype Position =
    | TopLeft | Top | TopRight | Left | Center | Right | BottomLeft | Bottom | BottomRight

  /** The local variables of the title-bar repair loop. */
  datatype Repair = Repair(geometry: Rect, lastVisible: int, lastTry: Rect, titleFailed: bool)

  /** The part of the loop that decides whether the title edge is given up; the
      first time it is, the last step is taken back. */
  function AfterTitleCheck(s: Repair, realVisible: int): Repair {
    if realVisible <= s.lastVisible && !s.titleFailed
    then s.(geometry := s.lastTry, titleFailed := true)
    else s
  }

  /** One edge moves one pixel back; the title edge goes first until it is given up. */
  function OneEdgeBack(g: Rect, previous: Rect, titleFailed: bool): Option<Rect> {
    if !titleFailed && previous.top != g.top then Some(g.(top := g.top + Sign(previous.top - g.top)))
    else if previous.left != g.left then Some(g.(left := g.left + Sign(previous.left - g.left)))
    else if previous.right != g.right then Some(g.(right := g.right + Sign(previous.right - g.right)))
    else None
  }

  function EdgeDistance(g: Rect, previous: Rect): nat {
    Abs(previous.top - g.top) + Abs(previous.left - g.left) + Abs(previous.right - g.right)
  }

  /** Where the title-bar repair loop ends; `title` and `required` belong to the requested frame. */
  function RepairTitle(desk: Desk, title: Rect, required: int, previous: Rect, s: Repair): Rect
    decreases !s.titleFailed, EdgeDistance(s.geometry, previous)
  {
    var at := title.Translated(s.geometry.left, s.geometry.top);
    var realVisible := Visible(desk.available, at, false);
    if Visible(desk.available, at, true) >= required then s.geometry
    else if realVisible < s.lastVisible && s.titleFailed then s.geometry
    else
      var checked := AfterTitleCheck(s, realVisible);
      match OneEdgeBack(checked.geometry, previous, checked.titleFailed)
      case None => checked.geometry
      case Some(next) =>
        RepairTitle(desk, title, required, previous,
                    Repair(next, realVisible, checked.geometry, checked.titleFailed))
  }

  /** One turn of the loop that neither finds the title bar nor gives up. */
  lemma RepairStep(desk: Desk, title: Rect, required: int, previous: Rect, s: Repair)
    requires !Reached(desk, title, required, s.geometry)
    requires !(s.titleFailed && RealPixels(desk, title, s.geometry) < s.lastVisible)
    ensures
      var checked := AfterTitleCheck(s, RealPixels(desk, title, s.geometry));
      RepairTitle(desk, title, required, previous, s)
      == match OneEdgeBack(checked.geometry, previous, checked.titleFailed)
         case None => checked.geometry
         case Some(next) =>
           RepairTitle(desk, title, required, previous,
                       Repair(next, RealPixels(desk, title, s.geometry), checked.geometry, checked.titleFailed))
  {
  }

  predicate EdgesBetween(requested: Rect, x: Rect, previous: Rect) {
    && Between(requested.top, x.top, previous.top)
    && Between(requested.left, x.left, previous.left)
    && Between(requested.right, x.right, previous.right)
    && x.bottom == requested.bottom
  }

  lemma OneEdgeBackStaysBetween(requested: Rect, g: Rect, previous: Rect, titleFailed: bool)
    requires EdgesBetween(requested, g, previous) && OneEdgeBack(g, previous, titleFailed).Some?
    ensures
      var next := OneEdgeBack(g, previous, titleFailed).value;
      EdgesBetween(requested, next, previous) && EdgeDistance(next, previous) == EdgeDistance(g, previous) - 1
  {
  }

  /** Every edge the repair returns lies between the requested and the previous edge, and
      the bottom edge is the requested one. */
  lemma {:induction false} RepairStaysBetween(
      desk: Desk, title: Rect, required: int, requested: Rect, previous: Rect, s: Repair)
    requires EdgesBetween(requested, s.geometry, previous)
    requires EdgesBetween(requested, s.lastTry, previous)
    ensures EdgesBetween(requested, RepairTitle(desk, title, required, previous, s), previous)
    decreases !s.titleFailed, EdgeDistance(s.geometry, previous)
  {
    var at := title.Translated(s.geometry.left, s.geometry.top);
    var realVisible := Visible(desk.available, at, false);
    if Visible(desk.available, at, true) >= required || (realVisible < s.lastVisible && s.titleFailed) {
    } else {
      var checked := AfterTitleCheck(s, realVisible);
      match OneEdgeBack(checked.geometry, previous, checked.titleFailed)
      case None =>
      case Some(next) =>
        OneEdgeBackStaysBetween(requested, checked.geometry, previous, checked.titleFailed);
        RepairStaysBetween(desk, title, required, requested, previous,
                           Repair(next, realVisible, checked.geometry, checked.titleFailed));
    }
  }

  // A resize that drags only the top edge shows what the repair can and cannot do.

  /** The frame with its top edge `k` pixels on the way back. */
  function TopBack(g: Rect, previous: Rect, k: nat): Rect {
    g.(top := g.top + k * Sign(previous.top - g.top))
  }

  function RealPixels(desk: Desk, title: Rect, g: Rect): int {
    Visible(desk.available, title.Translated(g.left, g.top), false)
  }

  predicate Reached(desk: Desk, title: Rect, required: int, g: Rect) {
    Visible(desk.available, title.Translated(g.left, g.top), true) >= required
  }

  /** The title bar becomes reachable `k` pixels back, and every pixel before that showed more of it. */
  predicate GainsUntilReached(desk: Desk, title: Rect, required: int, previous: Rect, g: Rect, lastVisible: int, k: nat) {
    && k <= Abs(previous.top - g.top)
    && Reached(desk, title, required, TopBack(g, previous, k))
    && (k > 0 ==> RealPixels(desk, title, g) > lastVisible)
    && forall j | 0 < j < k ::
         RealPixels(desk, title, TopBack(g, previous, j)) > RealPixels(desk, title, TopBack(g, previous, j - 1))
  }

  lemma TopBackShifts(g: Rect, previous: Rect, k: nat)
    requires k < Abs(previous.top - g.top)
    ensures TopBack(TopBack(g, previous, 1), previous, k) == TopBack(g, previous, k + 1)
  {
    var next := TopBack(g, previous, 1);
    if next.top != previous.top {
      assert Sign(previous.top - next.top) == Sign(previous.top - g.top);
    }
  }

  /** Gaining from one pixel back on is gaining from here, once this pixel gained. */
  lemma GainsShift(desk: Desk, title: Rect, required: int, previous: Rect, g: Rect, lastVisible: int, k: nat)
    requires previous.top != g.top && k < Abs(previous.top - g.top)
    requires RealPixels(desk, title, g) > lastVisible
    ensures
      GainsUntilReached(desk, title, required, previous, TopBack(g, previous, 1), RealPixels(desk, title, g), k)
      <==> GainsUntilReached(desk, title, required, previous, g, lastVisible, k + 1)
  {
    var next := TopBack(g, previous, 1);
    forall j: nat | j <= k ensures TopBack(next, previous, j) == TopBack(g, previous, j + 1) {
      TopBackShifts(g, previous, j);
    }
    assert TopBack(g, previous, 0) == g;
    if GainsUntilReached(desk, title, required, previous, next, RealPixels(desk, title, g), k) {
      forall j | 0 < j < k + 1
        ensures RealPixels(desk, title, TopBack(g, previous, j)) > RealPixels(desk, title, TopBack(g, previous, j - 1))
      {
        if j > 1 {
          assert TopBack(next, previous, j - 1) == TopBack(g, previous, j);
          assert TopBack(next, previous, j - 2) == TopBack(g, previous, j - 1);
        }
      }
    }
    if GainsUntilReached(desk, title, required, previous, g, lastVisible, k + 1) {
      forall j | 0 < j < k
        ensures RealPixels(desk, title, TopBack(next, previous, j)) > RealPixels(desk, title, TopBack(next, previous, j - 1))
      {
        assert TopBack(next, previous, j - 1) == TopBack(g, previous, j);
        assert TopBack(next, previous, j) == TopBack(g, previous, j + 1);
      }
      if k > 0 {
        assert RealPixels(desk, title, TopBack(g, previous, 1)) > RealPixels(desk, title, TopBack(g, previous, 0));
      }
    }
  }

  /** The repair of a dragged top edge ends with a reachable title bar exactly when the visible part
      grows with every pixel on the way back: one pixel without a gain gives the edge up for good. */
  lemma {:induction false} TopDragRepaired(
      desk: Desk, title: Rect, required: int, previous: Rect, g: Rect, lastVisible: int, lastTry: Rect)
    requires g.left == previous.left && g.right == previous.right
    requires lastTry.left == previous.left && lastTry.right == previous.right
    requires lastTry == g || !Reached(desk, title, required, lastTry)
    ensures
      var r := RepairTitle(desk, title, required, previous, Repair(g, lastVisible, lastTry, false));
      Reached(desk, title, required, r)
      <==> exists k: nat :: GainsUntilReached(desk, title, required, previous, g, lastVisible, k)
    decreases Abs(previous.top - g.top)
  {
    assert TopBack(g, previous, 0) == g;
    if Reached(desk, title, required, g) {
      assert GainsUntilReached(desk, title, required, previous, g, lastVisible, 0);
    } else if RealPixels(desk, title, g) > lastVisible && previous.top != g.top {
      var gained := RealPixels(desk, title, g);
      var next := TopBack(g, previous, 1);
      TopDragRepaired(desk, title, required, previous, next, gained, g);
      GainsFromNext(desk, title, required, previous, g, lastVisible);
    }
  }

  /** While the title bar gains, it can be reached from here exactly if it can be from one pixel back. */
  lemma GainsFromNext(desk: Desk, title: Rect, required: int, previous: Rect, g: Rect, lastVisible: int)
    requires !Reached(desk, title, required, g) && previous.top != g.top
    requires RealPixels(desk, title, g) > lastVisible
    ensures
      var next, gained := TopBack(g, previous, 1), RealPixels(desk, title, g);
      (exists k: nat :: GainsUntilReached(desk, title, required, previous, g, lastVisible, k))
      <==> (exists k: nat :: GainsUntilReached(desk, title, required, previous, next, gained, k))
  {
    var next, gained := TopBack(g, previous, 1), RealPixels(desk, title, g);
    assert TopBack(g, previous, 0) == g;
    forall k: nat | k < Abs(previous.top - g.top)
      ensures GainsUntilReached(desk, title, required, previous, next, gained, k)
              <==> GainsUntilReached(desk, title, required, previous, g, lastVisible, k + 1)
    {
      GainsShift(desk, title, required, previous, g, lastVisible, k);
    }
    if k: nat :| GainsUntilReached(desk, title, required, previous, g, lastVisible, k) {
      assert GainsUntilReached(desk, title, required, previous, next, gained, k - 1);
    }
    if k: nat :| GainsUntilReached(desk, title, required, previous, next, gained, k) {
      assert GainsUntilReached(desk, title, required, previous, g, lastVisible, k + 1);
    }
  }

  /** If the first pixel back shows nothing more of the title bar, the repair gives the request back. */
  lemma NoGainGivesUp(desk: Desk, title: Rect, required: int, previous: Rect, g: Rect)
    requires g.left == previous.left && g.right == previous.right && g.top != previous.top
    requires !Reached(desk, title, required, g)
    requires !Reached(desk, title, required, TopBack(g, previous, 1))
    requires -1 < RealPixels(desk, title, g)
    requires RealPixels(desk, title, TopBack(g, previous, 1)) <= RealPixels(desk, title, g)
    ensures RepairTitle(desk, title, required, previous, Repair(g, -1, g, false)) == g
  {
    var next, pixels := TopBack(g, previous, 1), RealPixels(desk, title, g);
    RepairStep(desk, title, required, previous, Repair(g, -1, g, false));
    RepairStep(desk, title, required, previous, Repair(next, pixels, g, false));
  }

  /** In any case the title bar stays out of reach then. */
  lemma NoGainLosesTitle(desk: Desk, title: Rect, required: int, previous: Rect, g: Rect)
    requires g.left == previous.left && g.right == previous.right
    requires !Reached(desk, title, required, g)
    requires !Reached(desk, title, required, TopBack(g, previous, 1))
    requires RealPixels(desk, title, TopBack(g, previous, 1)) <= RealPixels(desk, title, g)
    ensures !Reached(desk, title, required, RepairTitle(desk, title, required, previous, Repair(g, -1, g, false)))
  {
    TopDragRepaired(desk, title, required, previous, g, -1, g);
    assert TopBack(g, previous, 0) == g;
    forall k: nat ensures !GainsUntilReached(desk, title, required, previous, g, -1, k) {
      assert k > 1 ==> RealPixels(desk, title, TopBack(g, previous, 1)) <= RealPixels(desk, title, TopBack(g, previous, 0));
    }
  }

  // ---------------------------------------------------------------- a window on one screen

  /** A single screen, and a window whose title bar is fully visible and has at least a hundred columns. */
  predicate TitleInside(area: Rect, previous: Rect, borderTop: int) {
    && area.left <= previous.left && previous.right <= area.right
    && area.top <= previous.top && previous.top + borderTop - 1 <= area.bottom
    && previous.Width() >= 100 && previous.Height() >= 1 && borderTop >= 1
  }

  /** How far the top edge may be dragged up in one event: to the top of the screen, and then
      by the height of the title bar. */
  function Reach(area: Rect, previous: Rect, borderTop: int): int { previous.top - area.top + borderTop }

  /** The repair of its top edge, dragged up by `d` pixels in one event. */
  function RepairedTop(area: Rect, previous: Rect, borderTop: int, d: nat): Rect {
    var desk, requested := Desk([area], [], 1), previous.(top := previous.top - d);
    RepairTitle(desk, TitleRect(requested, borderTop), RequiredPixels(requested, borderTop), previous,
                Repair(requested, -1, requested, false))
  }

  /** One event that drags the top edge up keeps the title bar exactly if it drags no further than that:
      only then does every pixel on the way back show more of it. */
  lemma TopDragKeepsTitle(area: Rect, previous: Rect, borderTop: int, d: nat)
    requires TitleInside(area, previous, borderTop)
    ensures
      var desk, requested := Desk([area], [], 1), previous.(top := previous.top - d);
      Reached(desk, TitleRect(requested, borderTop), RequiredPixels(requested, borderTop),
              RepairedTop(area, previous, borderTop, d))
      <==> d <= Reach(area, previous, borderTop)
    ensures d > Reach(area, previous, borderTop) ==>
              RepairedTop(area, previous, borderTop, d) == previous.(top := previous.top - d)
    ensures TitleReachable(Desk([area], [], 1), previous, borderTop)
  {
    FullyVisible(Desk([area], [], 1), area, previous, previous, borderTop);
    if d <= Reach(area, previous, borderTop) {
      ShortDragIsRepaired(area, previous, borderTop, d);
    } else {
      LongDragIsNot(area, previous, borderTop, d);
    }
  }

  lemma ShortDragIsRepaired(area: Rect, previous: Rect, borderTop: int, d: nat)
    requires TitleInside(area, previous, borderTop) && d <= Reach(area, previous, borderTop)
    ensures
      var desk, requested := Desk([area], [], 1), previous.(top := previous.top - d);
      Reached(desk, TitleRect(requested, borderTop), RequiredPixels(requested, borderTop),
              RepairedTop(area, previous, borderTop, d))
  {
    var desk, requested := Desk([area], [], 1), previous.(top := previous.top - d);
    var title, required := TitleRect(requested, borderTop), RequiredPixels(requested, borderTop);
    TopDragRepaired(desk, title, required, previous, requested, -1, requested);
    if requested.top >= area.top {
      FullyVisible(desk, area, requested, requested, borderTop);
      assert TopBack(requested, previous, 0) == requested;
      assert GainsUntilReached(desk, title, required, previous, requested, -1, 0);
    } else {
      EveryPixelGains(area, previous, borderTop, d, area.top - requested.top);
    }
  }

  lemma LongDragIsNot(area: Rect, previous: Rect, borderTop: int, d: nat)
    requires TitleInside(area, previous, borderTop) && d > Reach(area, previous, borderTop)
    ensures
      var desk, requested := Desk([area], [], 1), previous.(top := previous.top - d);
      && RepairedTop(area, previous, borderTop, d) == requested
      && !Reached(desk, TitleRect(requested, borderTop), RequiredPixels(requested, borderTop), requested)
      && !TitleReachable(desk, requested, borderTop)
  {
    var desk, requested := Desk([area], [], 1), previous.(top := previous.top - d);
    var title, required := TitleRect(requested, borderTop), RequiredPixels(requested, borderTop);
    SomePixelsRequired(requested, borderTop);
    OnePixelDown(requested, previous);
    HiddenAbove(desk, area, title, requested);
    HiddenAbove(desk, area, title, TopBack(requested, previous, 1));
    NoGainGivesUp(desk, title, required, previous, requested);
  }

  /** `hidden` rows of the requested title bar are above the screen. */
  lemma EveryPixelGains(area: Rect, previous: Rect, borderTop: int, d: nat, hidden: nat)
    requires TitleInside(area, previous, borderTop) && 1 <= hidden <= borderTop
    requires previous.top - d == area.top - hidden
    ensures
      var desk, requested := Desk([area], [], 1), previous.(top := previous.top - d);
      GainsUntilReached(desk, TitleRect(requested, borderTop), RequiredPixels(requested, borderTop), previous,
                        requested, -1, hidden)
  {
    var desk, requested := Desk([area], [], 1), previous.(top := previous.top - d);
    var title, w := TitleRect(requested, borderTop), previous.Width();
    forall j: nat | 0 < j < hidden
      ensures RealPixels(desk, title, TopBack(requested, previous, j))
            > RealPixels(desk, title, TopBack(requested, previous, j - 1))
    {
      var rows := borderTop - hidden + j;
      PixelsBack(area, previous, borderTop, d, hidden, w, j, rows);
      PixelsBack(area, previous, borderTop, d, hidden, w, j - 1, rows - 1);
      OneMore(w, rows);
    }
    PixelsBack(area, previous, borderTop, d, hidden, w, 0, borderTop - hidden);
    Product(w, borderTop - hidden);
    TopBackIs(requested, previous, 0);
    TopBackIs(requested, previous, hidden);
    FullyVisible(desk, area, previous.(top := area.top), requested, borderTop);
  }

  /** The same frame, `j` pixels back, with `rows` rows of the title bar on the screen. */
  lemma PixelsBack(area: Rect, previous: Rect, borderTop: int, d: nat, hidden: nat, w: nat, j: nat, rows: nat)
    requires TitleInside(area, previous, borderTop) && 1 <= hidden <= borderTop && j <= hidden
    requires previous.top - d == area.top - hidden
    requires w == previous.Width() && rows == borderTop - hidden + j
    ensures
      var desk, requested := Desk([area], [], 1), previous.(top := previous.top - d);
      RealPixels(desk, TitleRect(requested, borderTop), TopBack(requested, previous, j)) == w * rows
  {
    var requested := previous.(top := previous.top - d);
    var back := TopBack(requested, previous, j);
    assert back == previous.(top := area.top - (borderTop - rows)) by {
      TopBackIs(requested, previous, j);
    }
    assert TitleRect(requested, borderTop) == TitleRect(previous, borderTop);
    RowsBelowTop(Desk([area], [], 1), area, previous, borderTop, w, rows);
  }

  lemma Product(w: int, n: int)
    requires w >= 0 && n >= 0
    ensures w * n >= 0 && (n == 0 ==> w * n == 0)
  {
  }

  lemma OneMore(w: int, n: int)
    requires w >= 1
    ensures w * n > w * (n - 1)
  {
  }

  lemma TopBackIs(g: Rect, previous: Rect, j: nat)
    requires g.top < previous.top
    ensures TopBack(g, previous, j) == g.(top := g.top + j)
  {
  }

  /** Only the last `rows` rows of the title bar are on the screen. */
  lemma RowsBelowTop(desk: Desk, area: Rect, previous: Rect, borderTop: int, w: nat, rows: nat)
    requires w == previous.Width()
    requires desk.available == [area] && TitleInside(area, previous, borderTop) && rows <= borderTop
    ensures RealPixels(desk, TitleRect(previous, borderTop), previous.(top := area.top - (borderTop - rows)))
         == w * rows
  {
    var at := TitleRect(previous, borderTop).Translated(previous.left, area.top - (borderTop - rows));
    LastRows(area, at, w, rows);
    OneRegion(area, at);
    assert desk.available == [area];
  }

  lemma LastRows(area: Rect, at: Rect, w: int, rows: nat)
    requires w == at.Width()
    requires area.left <= at.left <= at.right <= area.right
    requires at.top <= area.top && at.bottom == area.top + rows - 1 <= area.bottom
    ensures Overlap(area, at, false) == w * rows
  {
    if rows == 0 {
      NoneLeft(area, at, w, rows);
    } else {
      PartlyHidden(area, at, w, rows);
    }
  }

  lemma NoneLeft(area: Rect, at: Rect, w: int, rows: int)
    requires at.bottom < area.top && rows == 0
    ensures Overlap(area, at, false) == w * rows
  {
    NoOverlap(area, at, false);
    assert w * rows == 0;
  }

  lemma PartlyHidden(area: Rect, at: Rect, w: int, rows: int)
    requires w == at.Width()
    requires area.left <= at.left <= at.right <= area.right && rows >= 1
    requires at.top <= area.top && at.bottom == area.top + rows - 1 <= area.bottom
    ensures Overlap(area, at, false) == w * rows
  {
    var r := area.Intersected(at);
    assert r == at.(top := area.top);
    assert r.Width() == w && r.Height() == rows;
  }

  lemma FullyVisible(desk: Desk, area: Rect, previous: Rect, requested: Rect, borderTop: int)
    requires desk.available == [area] && TitleInside(area, previous, borderTop)
    requires requested.left == previous.left && requested.right == previous.right
    ensures Reached(desk, TitleRect(requested, borderTop), RequiredPixels(requested, borderTop), previous)
  {
    var at := TitleRect(requested, borderTop).Translated(previous.left, previous.top);
    OneRegion(area, at);
    assert area.Intersected(at) == at;
    assert at.Width() * at.Height() == previous.Width() * borderTop >= 100 * borderTop;
  }

  lemma OnePixelDown(g: Rect, previous: Rect)
    requires g.top < previous.top
    ensures TopBack(g, previous, 1) == g.(top := g.top + 1)
  {
  }

  lemma SomePixelsRequired(g: Rect, borderTop: int)
    requires g.Width() >= 1 && g.Height() >= 1 && borderTop >= 1
    ensures RequiredPixels(g, borderTop) >= 1
  {
    assert g.Width() * g.Height() >= 1;
  }

  lemma HiddenAbove(desk: Desk, area: Rect, title: Rect, g: Rect)
    requires desk.available == [area] && g.top + title.bottom < area.top
    requires title.top <= title.bottom
    ensures RealPixels(desk, title, g) == 0
    ensures forall required :: required > 0 ==> !Reached(desk, title, required, g)
  {
    var at := title.Translated(g.left, g.top);
    OneRegion(area, at);
    NoOverlap(area, at, true);
    NoOverlap(area, at, false);
    assert desk.available == [area];
  }

  lemma NoOverlap(area: Rect, at: Rect, full: bool)
    requires !area.Intersects(at)
    ensures Overlap(area, at, full) == 0
  {
    var r := area.Intersected(at);
    assert r == NullRect() && r.Width() == 0;
    assert r.Width() * r.Height() == 0;
  }

  lemma OneRegion(area: Rect, at: Rect)
    ensures forall full :: Visible([area], at, full) == Overlap(area, at, full)
  {
    assert [area][..0] == [];
  }

  // ---------------------------------------------------------------- one resize event

  /** What a resize event depends on besides the pointer. `snap` stands for `adjustClientSize`
      and `adjust` for `adjustedSize`; nothing is known about either, except that snapping
      leaves the edges alone that the pointer does not drag. */
  datatype ResizeEnv = ResizeEnv(
    desk: Desk, borderTop: int, restricted: bool,
    snap: (Rect, Position) -> Rect, adjust: (Size, SizeMode) -> Size)

  function ModeSize(mode: Position): SizeMode {
    match mode
    case Top | Bottom => FixedH
    case Left | Right => FixedW
    case _ => SizeAny
  }

  predicate DragsTop(mode: Position) { mode.TopLeft? || mode.Top? || mode.TopRight? }
  predicate DragsLeft(mode: Position) { mode.TopLeft? || mode.Left? || mode.BottomLeft? }
  predicate DragsBottom(mode: Position) { mode.BottomLeft? || mode.Bottom? || mode.BottomRight? }
  predicate DragsRight(mode: Position) { mode.TopRight? || mode.Right? || mode.BottomRight? }

  ghost predicate SnapsDraggedEdges(env: ResizeEnv, mode: Position) {
    forall g: Rect ::
      var r := env.snap(g, mode);
      && (!DragsTop(mode) ==> r.top == g.top)
      && (!DragsLeft(mode) ==> r.left == g.left)
      && (!DragsBottom(mode) ==> r.bottom == g.bottom)
      && (!DragsRight(mode) ==> r.right == g.right)
  }

  /** The frame with its dragged edges at the two pointer points, `calculateMoveResizeGeom`. */
  function Dragged(mode: Position, orig: Rect, topLeft: Point, bottomRight: Point): Rect {
    Rect(if DragsLeft(mode) then topLeft.x else orig.left,
         if DragsTop(mode) then topLeft.y else orig.top,
         if DragsRight(mode) then bottomRight.x else orig.right,
         if DragsBottom(mode) then bottomRight.y else orig.bottom)
  }

  /** The frame of the requested size hints, grown from the edges that are not dragged. */
  function WithHints(mode: Position, g: Rect, size: Size): Rect {
    var topLeft := Point(g.right - size.width + 1, g.bottom - size.height + 1);
    var bottomRight := Point(g.left + size.width - 1, g.top + size.height - 1);
    var orig := match ModeSize(mode)
      case FixedH => g.(right := bottomRight.x)
      case FixedW => g.(bottom := bottomRight.y)
      case _ => g;
    Dragged(mode, orig, topLeft, bottomRight)
  }

  /** The frame before the size hints: dragged, snapped and with its title bar repaired. */
  function Constrained(env: ResizeEnv, mode: Position, initial: Rect, previous: Rect,
                       topLeft: Point, bottomRight: Point): Rect {
    var requested := env.snap(Dragged(mode, initial, topLeft, bottomRight), mode);
    if env.restricted
    then RepairTitle(env.desk, TitleRect(requested, env.borderTop), RequiredPixels(requested, env.borderTop),
                     previous, Repair(requested, -1, requested, false))
    else requested
  }

  function ResizeEvent(env: ResizeEnv, mode: Position, initial: Rect, previous: Rect,
                       topLeft: Point, bottomRight: Point): Rect {
    var g := Constrained(env, mode, initial, previous, topLeft, bottomRight);
    WithHints(mode, g, env.adjust(g.Dimensions(), ModeSize(mode)))
  }

  /** The corner the user does not hold is where it was when the resize began. */
  predicate Anchored(mode: Position, initial: Rect, g: Rect) {
    && (if DragsLeft(mode) then g.right == initial.right else g.left == initial.left)
    && (if DragsTop(mode) then g.bottom == initial.bottom else g.top == initial.top)
  }

  /** A resize event gives exactly a size the hints allow and keeps the opposite corner. */
  lemma ResizeEventOutcome(env: ResizeEnv, mode: Position, initial: Rect, previous: Rect,
                           topLeft: Point, bottomRight: Point)
    requires mode != Center && SnapsDraggedEdges(env, mode)
    requires Anchored(mode, initial, previous)
    ensures
      var g := Constrained(env, mode, initial, previous, topLeft, bottomRight);
      var r := ResizeEvent(env, mode, initial, previous, topLeft, bottomRight);
      && Anchored(mode, initial, r)
      && r.Dimensions() == env.adjust(g.Dimensions(), ModeSize(mode))
      && EdgesBetween(env.snap(Dragged(mode, initial, topLeft, bottomRight), mode), g, previous)
      && (!env.restricted ==> g == env.snap(Dragged(mode, initial, topLeft, bottomRight), mode))
  {
    var requested := env.snap(Dragged(mode, initial, topLeft, bottomRight), mode);
    RepairStaysBetween(env.desk, TitleRect(requested, env.borderTop), RequiredPixels(requested, env.borderTop),
                       requested, previous, Repair(requested, -1, requested, false));
  }

  /** The whole event, with no snapping and no size hints: the window comes out with a title bar
      that can be reached exactly if the top edge was not dragged too far. */
  lemma TopDragEventKeepsTitle(area: Rect, previous: Rect, borderTop: int, d: nat, topLeft: Point, bottomRight: Point,
                               env: ResizeEnv)
    requires TitleInside(area, previous, borderTop) && topLeft.y == previous.top - d
    requires env.desk == Desk([area], [], 1) && env.borderTop == borderTop && env.restricted
    requires forall g: Rect :: env.snap(g, Top) == g
    requires forall size: Size :: env.adjust(size, FixedH) == size
    ensures
      TitleReachable(env.desk, ResizeEvent(env, Top, previous, previous, topLeft, bottomRight), borderTop)
      <==> d <= Reach(area, previous, borderTop)
  {
    EventIsRepair(area, previous, borderTop, d, topLeft, bottomRight, env);
    assert env.desk == Desk([area], [], 1);
    if d <= Reach(area, previous, borderTop) {
      ShortDragIsReachable(area, previous, borderTop, d);
    } else {
      LongDragIsNot(area, previous, borderTop, d);
    }
  }

  lemma ShortDragIsReachable(area: Rect, previous: Rect, borderTop: int, d: nat)
    requires TitleInside(area, previous, borderTop) && d <= Reach(area, previous, borderTop)
    ensures TitleReachable(Desk([area], [], 1), RepairedTop(area, previous, borderTop, d), borderTop)
  {
    var desk, requested := Desk([area], [], 1), previous.(top := previous.top - d);
    var title, required := TitleRect(requested, borderTop), RequiredPixels(requested, borderTop);
    ShortDragIsRepaired(area, previous, borderTop, d);
    RepairStaysBetween(desk, title, required, requested, previous, Repair(requested, -1, requested, false));
    SmallerIsReachable(desk, requested, RepairedTop(area, previous, borderTop, d), borderTop);
  }

  lemma SmallerIsReachable(desk: Desk, g: Rect, r: Rect, borderTop: int)
    requires r.left == g.left && r.right == g.right && r.Width() >= 0 && r.Height() <= g.Height()
    requires Reached(desk, TitleRect(g, borderTop), RequiredPixels(g, borderTop), r)
    ensures TitleReachable(desk, r, borderTop)
  {
    SmallerNeedsLess(g, r, borderTop);
    assert TitleRect(r, borderTop) == TitleRect(g, borderTop);
  }

  lemma EventIsRepair(area: Rect, previous: Rect, borderTop: int, d: nat, topLeft: Point, bottomRight: Point,
                      env: ResizeEnv)
    requires topLeft.y == previous.top - d
    requires env.desk == Desk([area], [], 1) && env.borderTop == borderTop && env.restricted
    requires forall g: Rect :: env.snap(g, Top) == g
    requires forall size: Size :: env.adjust(size, FixedH) == size
    ensures ResizeEvent(env, Top, previous, previous, topLeft, bottomRight) == RepairedTop(area, previous, borderTop, d)
  {
    var r := RepairedTop(area, previous, borderTop, d);
    assert Dragged(Top, previous, topLeft, bottomRight) == previous.(top := previous.top - d);
    assert WithHints(Top, r, r.Dimensions()) == r;
  }

  lemma SmallerNeedsLess(g: Rect, r: Rect, borderTop: int)
    requires r.Width() == g.Width() >= 0 && r.Height() <= g.Height()
    ensures RequiredPixels(r, borderTop) <= RequiredPixels(g, borderTop)
  {
    assert g.Width() * (g.Height() - r.Height()) >= 0;
    assert g.Width() * g.Height() == g.Width() * r.Height() + g.Width() * (g.Height() - r.Height());
  }

  /** One resize: every event brings the two pointer points; all else may change with it. */
  datatype Motion = Motion(env: ResizeEnv, topLeft: Point, bottomRight: Point)

  function ResizeDrag(mode: Position, initial: Rect, motions: seq<Motion>): Rect
    decreases |motions|
  {
    if motions == [] then initial
    else
      var m := motions[|motions| - 1];
      ResizeEvent(m.env, mode, initial, ResizeDrag(mode, initial, motions[..|motions| - 1]),
                  m.topLeft, m.bottomRight)
  }

  /** Whatever the pointer, the struts, the neighbours and the size hints do during a resize, the
      corner opposite to the dragged one never moves. */
  lemma {:induction false} ResizeDragKeepsCorner(mode: Position, initial: Rect, motions: seq<Motion>)
    requires mode != Center
    requires forall m | m in motions :: SnapsDraggedEdges(m.env, mode)
    ensures Anchored(mode, initial, ResizeDrag(mode, initial, motions))
    decreases |motions|
  {
    if motions != [] {
      var m := motions[|motions| - 1];
      var before := motions[..|motions| - 1];
      ResizeDragKeepsCorner(mode, initial, before);
      ResizeEventOutcome(m.env, mode, initial, ResizeDrag(mode, initial, before), m.topLeft, m.bottomRight);
    }
  }

}
