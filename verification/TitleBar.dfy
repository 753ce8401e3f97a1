/** How much of a title bar can be seen, from `AbstractClient::handleMoveResize`. */
module TitleBar {
  import opened Geometry

  /** What the screens leave for a window: the rectangles of the visible area without
      struts, the struts themselves, and the number of screens. */
  datatype Desk = Desk(available: seq<Rect>, struts: seq<Rect>, screens: nat)

  /** The pixels of `title` inside `area`, all of them or only in regions of full height. */
  function Overlap(area: Rect, title: Rect, fullOnly: bool): int {
    var r := area.Intersected(title);
    if fullOnly && r.Height() != title.Height() then 0 else r.Width() * r.Height()
  }

  function Visible(available: seq<Rect>, title: Rect, fullOnly: bool): int {
    if available == [] then 0
    else Visible(available[..|available| - 1], title, fullOnly)
         + Overlap(available[|available| - 1], title, fullOnly)
  }

  lemma VisibleWithNext(available: seq<Rect>, title: Rect, fullOnly: bool, i: nat)
    requires i < |available|
    ensures Visible(available[..i + 1], title, fullOnly)
            == Visible(available[..i], title, fullOnly) + Overlap(available[i], title, fullOnly)
  {
    assert available[..i + 1][..i] == available[..i];
  }

  /** The title bar of a frame as large as `g`, placed at the origin. */
  function TitleRect(g: Rect, borderTop: int): Rect {
    RectAt(0, 0, g.Width(), borderTop)
  }

  /** A restricted move keeps 100 pixels per title-bar row, or the whole window if it is smaller. */
  function RequiredPixels(g: Rect, borderTop: int): (r: int)
    ensures r <= 100 * borderTop && r <= g.Width() * g.Height()
    ensures r == 100 * borderTop || r == g.Width() * g.Height()
  {
    Min(100 * borderTop, g.Width() * g.Height())
  }

  function TitlePixels(desk: Desk, g: Rect, borderTop: int): int {
    Visible(desk.available, TitleRect(g, borderTop).Translated(g.left, g.top), true)
  }

  predicate TitleReachable(desk: Desk, g: Rect, borderTop: int) {
    TitlePixels(desk, g, borderTop) >= RequiredPixels(g, borderTop)
  }

  // ---------------------------------------------------------------- what is counted

  function Points(r: Rect): set<Point> {
    set x, y | r.left <= x <= r.right && r.top <= y <= r.bottom :: Point(x, y)
  }

  function Column(x: int, top: int, bottom: int): set<Point> {
    set y | top <= y <= bottom :: Point(x, y)
  }

  lemma {:induction false} ColumnCount(x: int, top: int, bottom: int)
    requires bottom >= top - 1
    ensures |Column(x, top, bottom)| == bottom - top + 1
    decreases bottom - top
  {
    if bottom >= top {
      ColumnCount(x, top, bottom - 1);
      assert Column(x, top, bottom) == Column(x, top, bottom - 1) + {Point(x, bottom)};
    } else {
      assert Column(x, top, bottom) == {};
    }
  }

  lemma LastColumn(r: Rect)
    requires r.Width() >= 1 && r.Height() >= 0
    ensures |Points(r)| == |Points(r.(right := r.right - 1))| + r.Height()
  {
    var rest, last := Points(r.(right := r.right - 1)), Column(r.right, r.top, r.bottom);
    ColumnCount(r.right, r.top, r.bottom);
    assert Points(r) == rest + last;
    assert rest !! last;
  }

  lemma OneMoreTimes(w: int, n: int)
    ensures w * n == (w - 1) * n + n
  {
  }

  /** A rectangle has as many points as its width times its height. */
  lemma {:induction false} PointsCount(r: Rect)
    requires r.Width() >= 0 && r.Height() >= 0
    ensures |Points(r)| == r.Width() * r.Height()
    decreases r.Width()
  {
    if r.Width() == 0 {
      assert Points(r) == {};
    } else {
      PointsCount(r.(right := r.right - 1));
      LastColumn(r);
      OneMoreTimes(r.Width(), r.Height());
    }
  }

  /** The region covers the rows of the title bar from end to end. */
  predicate FullHeight(area: Rect, title: Rect) { area.top <= title.top && title.bottom <= area.bottom }

  /** The points of the title bar that the region shows. */
  function Shown(area: Rect, title: Rect, fullOnly: bool): set<Point> {
    if fullOnly && !FullHeight(area, title) then {} else Points(area) * Points(title)
  }

  lemma PointsMeet(a: Rect, b: Rect)
    ensures a.Intersects(b) ==> Points(a) * Points(b) == Points(a.Intersected(b))
    ensures !a.Intersects(b) && a.IsValid() ==> Points(a) * Points(b) == {}
  {
  }

  lemma PartCounts(r: Rect, title: Rect, fullOnly: bool, part: set<Point>, overlap: int)
    requires r.Width() >= 0 && r.Height() >= 0
    requires overlap == if fullOnly && r.Height() != title.Height() then 0 else r.Width() * r.Height()
    requires part == if fullOnly && r.Height() != title.Height() then {} else Points(r)
    ensures overlap == |part|
  {
    PointsCount(r);
  }

  lemma MeetHasSize(area: Rect, title: Rect)
    requires area.IsValid() && title.Width() >= 0 && title.Height() >= 1 && area.Intersects(title)
    ensures area.Intersected(title).Width() >= 0
    ensures area.Intersected(title).Height() >= 0
  {
  }

  lemma MeetHasRows(area: Rect, title: Rect)
    requires area.IsValid() && title.Height() >= 1 && area.Intersects(title)
    ensures area.Intersected(title).Height() == title.Height() <==> FullHeight(area, title)
  {
  }

  lemma NoPoints(r: Rect)
    requires r.Width() <= 0
    ensures Points(r) == {}
  {
  }

  lemma PartIsShown(area: Rect, title: Rect, fullOnly: bool, r: Rect)
    requires area.IsValid() && title.Width() >= 0 && title.Height() >= 1 && r == area.Intersected(title)
    ensures r.Width() >= 0 && r.Height() >= 0
    ensures Shown(area, title, fullOnly) == if fullOnly && r.Height() != title.Height() then {} else Points(r)
  {
    PointsMeet(area, title);
    if area.Intersects(title) {
      MeetHasSize(area, title);
      MeetHasRows(area, title);
    } else {
      assert r == NullRect();
      NoPoints(r);
    }
  }

  lemma OverlapCounts(area: Rect, title: Rect, fullOnly: bool)
    requires area.IsValid() && title.Width() >= 0 && title.Height() >= 1
    ensures Overlap(area, title, fullOnly) == |Shown(area, title, fullOnly)|
  {
    PartIsShown(area, title, fullOnly, area.Intersected(title));
    PartCounts(area.Intersected(title), title, fullOnly, Shown(area, title, fullOnly), Overlap(area, title, fullOnly));
  }

  function AllShown(available: seq<Rect>, title: Rect, fullOnly: bool): set<Point> {
    if available == [] then {}
    else AllShown(available[..|available| - 1], title, fullOnly) + Shown(available[|available| - 1], title, fullOnly)
  }

  /** The rectangles of a region do not overlap. */
  predicate IsRegion(available: seq<Rect>) {
    && (forall i | 0 <= i < |available| :: available[i].IsValid())
    && forall i, j | 0 <= i < j < |available| :: !available[i].Intersects(available[j])
  }

  lemma {:induction false} ShownElsewhere(available: seq<Rect>, title: Rect, fullOnly: bool, area: Rect)
    requires forall i | 0 <= i < |available| :: available[i].IsValid() && !available[i].Intersects(area)
    requires area.IsValid()
    ensures AllShown(available, title, fullOnly) !! Shown(area, title, fullOnly)
    decreases |available|
  {
    if available != [] {
      ShownElsewhere(available[..|available| - 1], title, fullOnly, area);
      assert Points(available[|available| - 1]) !! Points(area);
    }
  }

  /** The pixel sums are numbers of points of the title bar: those on the region, or those in its full-height parts. */
  lemma {:induction false} VisibleCounts(available: seq<Rect>, title: Rect, fullOnly: bool)
    requires IsRegion(available) && title.Width() >= 0 && title.Height() >= 1
    ensures Visible(available, title, fullOnly) == |AllShown(available, title, fullOnly)|
    decreases |available|
  {
    if available != [] {
      var n := |available| - 1;
      VisibleCounts(available[..n], title, fullOnly);
      OverlapCounts(available[n], title, fullOnly);
      ShownElsewhere(available[..n], title, fullOnly, available[n]);
    }
  }
}
