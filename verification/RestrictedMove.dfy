/** The push-back loop of a restricted interactive move. */
module RestrictedMove {
  import opened Geometry
  import opened TitleBar

  /** The first "top panel" strut that the frame touches, as the row just below it. */
  function RowBelowPanel(struts: seq<Rect>, g: Rect): int {
    if struts == [] then -1
    else if IsPanelOver(struts[0], g) then struts[0].bottom + 1
    else RowBelowPanel(struts[1..], g)
  }

  predicate IsPanelOver(r: Rect, g: Rect) {
    r.top == 0 && r.Width() > r.Height() && r.Intersects(g) && g.top < r.bottom
  }

  /** With several screens a frame under a top panel is put below it at once. */
  predicate JumpsBelowPanel(desk: Desk, g: Rect) {
    desk.screens > 1 && RowBelowPanel(desk.struts, g) > -1
  }

  function BelowPanel(desk: Desk, g: Rect): Rect {
    g.Translated(0, RowBelowPanel(desk.struts, g) - g.top)
  }

  /** One pixel back toward the previous position: sideways when part of the title bar
      shows, vertically otherwise. */
  function OnePixelBack(g: Rect, previous: Rect, visible: int): Rect {
    var dx := Sign(previous.left - g.left);
    var dy := Sign(previous.top - g.top);
    if visible != 0 && dx != 0 then g.Translated(dx, 0)
    else if dy != 0 then g.Translated(0, dy)
    else g.Translated(dx, dy)
  }

  function Distance(g: Rect, previous: Rect): nat {
    Abs(previous.left - g.left) + Abs(previous.top - g.top)
  }

  /** Where the push-back loop ends. */
  function PushBack(desk: Desk, g: Rect, previous: Rect, borderTop: int): Rect
    requires g.Dimensions() == previous.Dimensions()
    decreases Distance(g, previous)
  {
    if TitleReachable(desk, g, borderTop) then g
    else if JumpsBelowPanel(desk, g) then BelowPanel(desk, g)
    else
      var next := OnePixelBack(g, previous, TitlePixels(desk, g, borderTop));
      if next == previous then previous else PushBack(desk, next, previous, borderTop)
  }

  predicate OnTheWay(from: Rect, x: Rect, to: Rect) {
    && x.Dimensions() == from.Dimensions()
    && Between(from.left, x.left, to.left)
    && Between(from.top, x.top, to.top)
  }

  lemma OnePixelCloser(g: Rect, previous: Rect, visible: int)
    requires g.Dimensions() == previous.Dimensions()
    ensures OnTheWay(g, OnePixelBack(g, previous, visible), previous)
    ensures OnTheWay(g, previous, previous)
  {
  }

  lemma WayGoesOn(g: Rect, next: Rect, previous: Rect)
    requires OnTheWay(g, next, previous)
    ensures forall x :: OnTheWay(next, x, previous) ==> OnTheWay(g, x, previous)
  {
  }

  /** The push-back stops at a reachable title bar, at the previous geometry, or below a panel.
      It never leaves the box between the requested and the previous position, except to jump
      below a panel, and it does not touch a request that is fine. */
  lemma {:induction false} PushBackOutcome(desk: Desk, g: Rect, previous: Rect, borderTop: int)
    requires g.Dimensions() == previous.Dimensions()
    ensures
      var r := PushBack(desk, g, previous, borderTop);
      && r.Dimensions() == g.Dimensions()
      && (TitleReachable(desk, g, borderTop) ==> r == g)
      && (|| (OnTheWay(g, r, previous) && (TitleReachable(desk, r, borderTop) || r == previous))
          || (exists h :: OnTheWay(g, h, previous) && JumpsBelowPanel(desk, h) && r == BelowPanel(desk, h)))
    decreases Distance(g, previous)
  {
    if !TitleReachable(desk, g, borderTop) {
      if JumpsBelowPanel(desk, g) {
        assert OnTheWay(g, g, previous);
      } else {
        var next := OnePixelBack(g, previous, TitlePixels(desk, g, borderTop));
        OnePixelCloser(g, previous, TitlePixels(desk, g, borderTop));
        if next != previous {
          PushBackOutcome(desk, next, previous, borderTop);
          WayGoesOn(g, next, previous);
        }
      }
    }
  }

  /** `b` is one pixel nearer to `target` than `a`. */
  predicate OneNearer(a: int, b: int, target: int) {
    Between(a, b, target) && Abs(b - a) == 1
  }

  /** A frame of the same size, one pixel nearer on one axis: sideways while part of the title bar shows
      or the rows agree, and vertically otherwise. */
  predicate StepsBack(g: Rect, next: Rect, previous: Rect, showing: bool) {
    && next.Dimensions() == g.Dimensions()
    && if g.left != previous.left && (showing || g.top == previous.top)
       then next.top == g.top && OneNearer(g.left, next.left, previous.left)
       else next.left == g.left && OneNearer(g.top, next.top, previous.top)
  }

  predicate Stops(desk: Desk, g: Rect, previous: Rect, borderTop: int) {
    TitleReachable(desk, g, borderTop) || JumpsBelowPanel(desk, g) || g == previous
  }

  /** The frames that the loop goes through. */
  predicate IsWayBack(desk: Desk, path: seq<Rect>, previous: Rect, borderTop: int) {
    && path != []
    && Stops(desk, path[|path| - 1], previous, borderTop)
    && forall j | 0 <= j < |path| - 1 ::
         && !Stops(desk, path[j], previous, borderTop)
         && StepsBack(path[j], path[j + 1], previous, TitlePixels(desk, path[j], borderTop) != 0)
  }

  /** The push-back takes single pixels and stops at the first frame whose title bar can be reached, that
      is under a panel, or that is the previous one. */
  lemma {:induction false} PushBackStopsFirst(desk: Desk, g: Rect, previous: Rect, borderTop: int)
    returns (path: seq<Rect>)
    requires g.Dimensions() == previous.Dimensions()
    ensures IsWayBack(desk, path, previous, borderTop) && path[0] == g
    ensures
      var r, last := PushBack(desk, g, previous, borderTop), path[|path| - 1];
      if TitleReachable(desk, last, borderTop) || (last == previous && |path| > 1) || !JumpsBelowPanel(desk, last)
      then r == last
      else r == last.MovedTo(Point(last.left, RowBelowPanel(desk.struts, last)))
    decreases Distance(g, previous)
  {
    if Stops(desk, g, previous, borderTop) {
      path := [g];
    } else {
      var next := OnePixelBack(g, previous, TitlePixels(desk, g, borderTop));
      assert StepsBack(g, next, previous, TitlePixels(desk, g, borderTop) != 0);
      if next == previous {
        path := [g, next];
      } else {
        var rest := PushBackStopsFirst(desk, next, previous, borderTop);
        path := [g] + rest;
      }
    }
  }

  /** Which panel counts: the first one over the frame, and then the row below it. */
  lemma {:induction false} FirstPanelCounts(struts: seq<Rect>, g: Rect, i: nat)
    requires i <= |struts|
    requires forall j | 0 <= j < i :: !IsPanelOver(struts[j], g)
    ensures i == |struts| ==> RowBelowPanel(struts, g) == -1
    ensures i < |struts| && IsPanelOver(struts[i], g) ==> RowBelowPanel(struts, g) == struts[i].bottom + 1
    decreases i
  {
    if i > 0 {
      assert forall j | 0 <= j < i - 1 :: struts[1..][j] == struts[j + 1];
      FirstPanelCounts(struts[1..], g, i - 1);
    }
  }

  /** The frame is under a panel: with several screens, it touches a strut that lies along the top of
      the display and reaches below the top of the frame. */
  ghost predicate UnderPanel(desk: Desk, g: Rect) {
    && desk.screens >= 2
    && exists i | 0 <= i < |desk.struts| :: LiesOver(desk.struts[i], g)
  }

  predicate LiesOver(r: Rect, g: Rect) {
    && r.top == 0 && r.Height() < r.Width()
    && r.left <= g.right && g.left <= r.right && 0 <= g.bottom && g.top < r.bottom
  }

  /** Then, and only then, it jumps, and to the row below a panel that it was under. */
  lemma {:induction false} JumpsFromUnderPanel(desk: Desk, g: Rect)
    requires forall i | 0 <= i < |desk.struts| :: desk.struts[i].IsValid()
    ensures JumpsBelowPanel(desk, g) <==> UnderPanel(desk, g)
    ensures UnderPanel(desk, g) ==>
              exists i :: 0 <= i < |desk.struts| && IsPanelOver(desk.struts[i], g)
                && BelowPanel(desk, g) == g.MovedTo(Point(g.left, desk.struts[i].bottom + 1))
                && !desk.struts[i].Intersects(BelowPanel(desk, g))
  {
    var i := FirstPanel(desk.struts, g);
    FirstPanelCounts(desk.struts, g, i);
    assert i < |desk.struts| ==> LiesOver(desk.struts[i], g);
    if UnderPanel(desk, g) {
      var j :| 0 <= j < |desk.struts| && LiesOver(desk.struts[j], g);
      assert IsPanelOver(desk.struts[j], g);
    }
  }

  lemma FirstPanel(struts: seq<Rect>, g: Rect) returns (i: nat)
    ensures i <= |struts| && (forall j | 0 <= j < i :: !IsPanelOver(struts[j], g))
    ensures i < |struts| ==> IsPanelOver(struts[i], g)
  {
    i := 0;
    while i < |struts| && !IsPanelOver(struts[i], g)
      invariant i <= |struts| && forall j | 0 <= j < i :: !IsPanelOver(struts[j], g)
    {
      i := i + 1;
    }
  }

  /** One drag: every motion event asks for a top-left corner (the pointer position after
      snapping) and starts from the geometry the previous event left. */
  function Drag(desk: Desk, g: Rect, requests: seq<Point>, borderTop: int): (r: Rect)
    ensures r.Dimensions() == g.Dimensions()
    decreases |requests|
  {
    if requests == [] then g
    else
      var last := |requests| - 1;
      var before := Drag(desk, g, requests[..last], borderTop);
      PushBackOutcome(desk, before.MovedTo(requests[last]), before, borderTop);
      PushBack(desk, before.MovedTo(requests[last]), before, borderTop)
  }

  /** On one screen a title bar that can be reached at the start of a drag can be reached
      after every motion event of the drag, wherever the pointer goes. */
  lemma {:induction false} DragKeepsTitleReachable(desk: Desk, g: Rect, requests: seq<Point>, borderTop: int, events: nat)
    requires desk.screens <= 1
    requires TitleReachable(desk, g, borderTop)
    requires events <= |requests|
    ensures TitleReachable(desk, Drag(desk, g, requests[..events], borderTop), borderTop)
    decreases events
  {
    if events > 0 {
      DragKeepsTitleReachable(desk, g, requests, borderTop, events - 1);
      assert requests[..events][..events - 1] == requests[..events - 1];
      var before := Drag(desk, g, requests[..events - 1], borderTop);
      PushBackOutcome(desk, before.MovedTo(requests[events - 1]), before, borderTop);
    }
  }
}
