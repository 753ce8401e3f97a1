/** The window side of an interactive move or resize: the record that
    `handleMoveResize` updates in place with every pointer motion. */
module MoveResizeClient {
  import opened Geometry
  import opened TitleBar
  import opened RestrictedMove
  import opened RestrictedResize

  /** The visible pixels of a title bar, in regions of full height and in all regions. */
  method CountVisible(available: seq<Rect>, titleRect: Rect) returns (visible: int, realVisible: int)
    ensures visible == Visible(available, titleRect, true)
    ensures realVisible == Visible(available, titleRect, false)
  {
    visible, realVisible := 0, 0;
    for i := 0 to |available|
      invariant visible == Visible(available[..i], titleRect, true)
      invariant realVisible == Visible(available[..i], titleRect, false)
    {
      VisibleWithNext(available, titleRect, true, i);
      VisibleWithNext(available, titleRect, false, i);
      var r := available[i].Intersected(titleRect);
      var pixels := r.Width() * r.Height();
      realVisible := realVisible + pixels;
      if r.Height() == titleRect.Height() {
        visible := visible + pixels;
      }
    }
    assert available[..|available|] == available;
  }

  /** The row below the first top panel over the frame, or -1. */
  method FindPanel(struts: seq<Rect>, g: Rect) returns (newTitleTop: int)
    ensures newTitleTop == RowBelowPanel(struts, g)
  {
    newTitleTop := -1;
    for i := 0 to |struts|
      invariant newTitleTop == -1
      invariant RowBelowPanel(struts, g) == RowBelowPanel(struts[i..], g)
    {
      if IsPanelOver(struts[i], g) {
        newTitleTop := struts[i].bottom + 1;
        break;
      }
    }
  }

  class Client {
    const borderTop: int
    const unrestricted: bool
    const pointer: Position
    const initialGeometry: Rect
    var geometry: Rect

    constructor (borderTop: int, unrestricted: bool, pointer: Position, initialGeometry: Rect)
      ensures this.borderTop == borderTop && this.unrestricted == unrestricted && this.pointer == pointer
      ensures this.initialGeometry == initialGeometry && geometry == initialGeometry
    {
      this.borderTop := borderTop;
      this.unrestricted := unrestricted;
      this.pointer := pointer;
      this.initialGeometry := initialGeometry;
      geometry := initialGeometry;
    }

    /** The push-back loop: afterwards the title bar is reachable, or the frame is where it
        was before the motion event, or it jumped below a panel. */
    method PushBackToReachable(desk: Desk, previous: Rect)
      requires geometry.Dimensions() == previous.Dimensions()
      modifies this
      ensures geometry == PushBack(desk, old(geometry), previous, borderTop)
    {
      var bTitleRect := TitleRect(geometry, borderTop);
      var requiredPixels := Min(100 * bTitleRect.Height(), geometry.Width() * geometry.Height());
      while true
        invariant geometry.Dimensions() == previous.Dimensions()
        invariant PushBack(desk, geometry, previous, borderTop) == PushBack(desk, old(geometry), previous, borderTop)
        invariant bTitleRect == TitleRect(geometry, borderTop)
        invariant requiredPixels == RequiredPixels(geometry, borderTop)
        decreases Distance(geometry, previous)
      {
        var visiblePixels, _ := CountVisible(desk.available, bTitleRect.Translated(geometry.left, geometry.top));
        if visiblePixels >= requiredPixels {
          break;
        }
        if desk.screens > 1 {
          var newTitleTop := FindPanel(desk.struts, geometry);
          if newTitleTop > -1 {
            geometry := geometry.MovedTo(Point(geometry.left, newTitleTop));
            break;
          }
        }
        var dx, dy := Sign(previous.left - geometry.left), Sign(previous.top - geometry.top);
        if visiblePixels != 0 && dx != 0 {
          dy := 0;
        } else if dy != 0 {
          dx := 0;
        }
        geometry := geometry.Translated(dx, dy);
        if geometry == previous {
          break;
        }
      }
    }

    /** A motion event of a move; `snap` stands for `adjustClientPosition`. */
    method HandleMove(desk: Desk, topLeft: Point, snap: Point -> Point) returns (update: bool)
      modifies this
      ensures geometry == if unrestricted then old(geometry).MovedTo(snap(topLeft))
                          else PushBack(desk, old(geometry).MovedTo(snap(topLeft)), old(geometry), borderTop)
      ensures update <==> geometry.TopLeft() != old(geometry).TopLeft()
      ensures !unrestricted && desk.screens <= 1 && TitleReachable(desk, old(geometry), borderTop)
              ==> TitleReachable(desk, geometry, borderTop)
    {
      var previous := geometry;
      geometry := geometry.MovedTo(topLeft);
      geometry := geometry.MovedTo(snap(geometry.TopLeft()));
      if !unrestricted {
        PushBackOutcome(desk, geometry, previous, borderTop);
        PushBackToReachable(desk, previous);
      }
      update := geometry.TopLeft() != previous.TopLeft();
    }

    /** The title-bar repair of a restricted resize. */
    method RepairTitleBar(desk: Desk, previous: Rect)
      modifies this
      ensures geometry == RepairTitle(desk, TitleRect(old(geometry), borderTop), RequiredPixels(old(geometry), borderTop),
                                      previous, Repair(old(geometry), -1, old(geometry), false))
      ensures EdgesBetween(old(geometry), geometry, previous)
    {
      var bTitleRect := TitleRect(geometry, borderTop);
      var requiredPixels := Min(100 * bTitleRect.Height(), geometry.Width() * geometry.Height());
      RepairStaysBetween(desk, bTitleRect, requiredPixels, geometry, previous, Repair(geometry, -1, geometry, false));
      RepairLoop(desk, bTitleRect, requiredPixels, previous);
    }

    method RepairLoop(desk: Desk, bTitleRect: Rect, requiredPixels: int, previous: Rect)
      modifies this
      ensures geometry == RepairTitle(desk, bTitleRect, requiredPixels, previous,
                                      Repair(old(geometry), -1, old(geometry), false))
    {
      var lastVisiblePixels := -1;
      var lastTry := geometry;
      var titleFailed := false;
      while true
        invariant RepairTitle(desk, bTitleRect, requiredPixels, previous,
                              Repair(geometry, lastVisiblePixels, lastTry, titleFailed))
               == RepairTitle(desk, bTitleRect, requiredPixels, previous, Repair(old(geometry), -1, old(geometry), false))
        decreases !titleFailed, EdgeDistance(geometry, previous)
      {
        var visiblePixels, realVisiblePixels :=
          CountVisible(desk.available, bTitleRect.Translated(geometry.left, geometry.top));
        ghost var before := Repair(geometry, lastVisiblePixels, lastTry, titleFailed);
        if visiblePixels >= requiredPixels {
          break;
        }
        if realVisiblePixels <= lastVisiblePixels {
          if titleFailed && realVisiblePixels < lastVisiblePixels {
            break;
          } else {
            if !titleFailed {
              geometry := lastTry;
            }
            titleFailed := true;
          }
        }
        lastVisiblePixels := realVisiblePixels;
        lastTry := geometry;
        RepairStep(desk, bTitleRect, requiredPixels, previous, before);
        var moved := MoveEdgeBack(previous, titleFailed);
        if !moved {
          break;
        }
      }
    }

    /** One edge of the frame moves one pixel back. */
    method MoveEdgeBack(previous: Rect, titleFailed: bool) returns (moved: bool)
      modifies `geometry
      ensures moved <==> OneEdgeBack(old(geometry), previous, titleFailed).Some?
      ensures geometry == if moved then OneEdgeBack(old(geometry), previous, titleFailed).value else old(geometry)
      ensures moved ==> EdgeDistance(geometry, previous) < EdgeDistance(old(geometry), previous)
    {
      var topChanged := previous.top != geometry.top && !titleFailed;
      var leftChanged := previous.left != geometry.left && !topChanged;
      var rightChanged := previous.right != geometry.right && !topChanged;
      if topChanged {
        geometry := geometry.(top := geometry.top + Sign(previous.top - geometry.top));
      } else if leftChanged {
        geometry := geometry.(left := geometry.left + Sign(previous.left - geometry.left));
      } else if rightChanged {
        geometry := geometry.(right := geometry.right + Sign(previous.right - geometry.right));
      }
      moved := topChanged || leftChanged || rightChanged;
    }

    /** A motion event of a resize. */
    method HandleResize(env: ResizeEnv, topLeft: Point, bottomRight: Point) returns (update: bool)
      requires pointer != Center && SnapsDraggedEdges(env, pointer)
      requires env.restricted == !unrestricted && env.borderTop == borderTop
      modifies this
      ensures geometry == ResizeEvent(env, pointer, initialGeometry, old(geometry), topLeft, bottomRight)
      ensures Anchored(pointer, initialGeometry, old(geometry)) ==> Anchored(pointer, initialGeometry, geometry)
      ensures update <==> geometry.Dimensions() != old(geometry).Dimensions()
    {
      var previous := geometry;
      var sizeMode := CalculateGeometry(initialGeometry, topLeft, bottomRight);
      geometry := env.snap(geometry, pointer);
      if !unrestricted {
        RepairTitleBar(env.desk, previous);
      }
      var size := env.adjust(geometry.Dimensions(), sizeMode);
      var newTopLeft := Point(geometry.right - size.width + 1, geometry.bottom - size.height + 1);
      var newBottomRight := Point(geometry.left + size.width - 1, geometry.top + size.height - 1);
      var orig := geometry;
      if sizeMode == FixedH {
        orig := orig.(right := newBottomRight.x);
      } else if sizeMode == FixedW {
        orig := orig.(bottom := newBottomRight.y);
      }
      sizeMode := CalculateGeometry(orig, newTopLeft, newBottomRight);
      update := geometry.Dimensions() != previous.Dimensions();
      if Anchored(pointer, initialGeometry, previous) {
        ResizeEventOutcome(env, pointer, initialGeometry, previous, topLeft, bottomRight);
      }
    }

    /** `calculateMoveResizeGeom` */
    method CalculateGeometry(orig: Rect, topLeft: Point, bottomRight: Point) returns (sizeMode: SizeMode)
      requires pointer != Center
      modifies this
      ensures geometry == Dragged(pointer, orig, topLeft, bottomRight)
      ensures sizeMode == ModeSize(pointer)
    {
      sizeMode := SizeAny;
      match pointer
      case TopLeft =>
        geometry := RectBetween(topLeft, orig.BottomRight());
      case BottomRight =>
        geometry := RectBetween(orig.TopLeft(), bottomRight);
      case BottomLeft =>
        geometry := RectBetween(Point(topLeft.x, orig.top), Point(orig.right, bottomRight.y));
      case TopRight =>
        geometry := RectBetween(Point(orig.left, topLeft.y), Point(bottomRight.x, orig.bottom));
      case Top =>
        geometry := RectBetween(Point(orig.left, topLeft.y), orig.BottomRight());
        sizeMode := FixedH;
      case Bottom =>
        geometry := RectBetween(orig.TopLeft(), Point(orig.right, bottomRight.y));
        sizeMode := FixedH;
      case Left =>
        geometry := RectBetween(Point(topLeft.x, orig.top), orig.BottomRight());
        sizeMode := FixedW;
      case Right =>
        geometry := RectBetween(orig.TopLeft(), Point(bottomRight.x, orig.bottom));
        sizeMode := FixedW;
      case Center =>
        assert false;
    }
  }

}
