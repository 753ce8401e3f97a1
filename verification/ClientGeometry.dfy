/** The window whose geometry the user, the client and the workspace change: the members of
    `AbstractClient` and `Client` that hold the logical geometry, the X frame, the
    maximise mode and the quick-tile mode. */
module ClientGeometry {
  import opened Geometry
  import G = GeometryUpdates
  import opened Maximizing
  import opened WorkspacePosition
  import opened QuickTiling

  /** The outermost unblock sends one request at most, an inner one none. */
  lemma UnblockSendsAtMostOne(f: G.Frame)
    requires G.Inv(f) && f.blocked > 0
    ensures
      var r := G.Unblock(f);
      && G.Inv(r) && r.geom == f.geom && r.deferMoves == f.deferMoves
      && (r.blocked > 0 ==> r == f.(blocked := r.blocked))
      && f.log <= r.log && |r.log| <= |f.log| + 1
  {
  }

  predicate OneWayToOther(from: MaximizeMode, to: MaximizeMode) {
    (from == VERTICAL && to == HORIZONTAL) || (from == HORIZONTAL && to == VERTICAL)
  }

  class Client {
    const env: MaximizeEnv
    const surroundings: Surroundings
    const decorated: bool

    var geom: Rect
    var frame: Rect
    var committed: Rect
    var blocked: nat
    var pending: G.Pending
    var deferMoves: bool
    var needsMove: bool
    ghost var log: seq<G.Commit>

    var maximizeMode: MaximizeMode
    var geomRestore: Rect
    var tile: Tile
    var electricMode: Tile

    ghost function Frame(): G.Frame
      reads this
    {
      G.Frame(geom, frame, committed, blocked, pending, deferMoves, needsMove, log)
    }

    ghost function Placement(): Shape
      reads this
    {
      Shape(geom, maximizeMode, geomRestore, tile)
    }

    /** A managed window of geometry `g`. */
    constructor (env: MaximizeEnv, surroundings: Surroundings, decorated: bool, g: Rect)
      ensures this.env == env && this.surroundings == surroundings && this.decorated == decorated
      ensures G.AtRest(Frame()) && Plain(Placement(), g) && geomRestore == g && frame == g
    {
      this.env, this.surroundings, this.decorated := env, surroundings, decorated;
      geom, frame, committed, geomRestore := g, g, g, g;
      blocked, pending, deferMoves, needsMove, log := 0, G.PendingNone, false, false, [];
      maximizeMode, tile, electricMode := RESTORE, NO_TILE, NO_TILE;
    }

    // -------------------------------------------------------------- geometry updates

    method SetGeometry(g: Rect, force: bool)
      modifies `geom, `frame, `committed, `pending, `needsMove, `log
      ensures Frame() == G.SetGeometry(old(Frame()), g, force)
    {
      if !force && geom == g && pending == G.PendingNone {
        return;
      }
      geom := g;
      if blocked != 0 {
        RaisePending(force);
        return;
      }
      var resized := committed.Dimensions() != geom.Dimensions() || pending == G.PendingForced;
      if resized {
        frame := g;
        log := log + [G.SetFrame(g)];
      } else if deferMoves {
        needsMove := true;
      } else {
        frame := frame.MovedTo(g.TopLeft());
        log := log + [G.MoveFrame(g.TopLeft())];
      }
      committed := geom;
    }

    method RaisePending(force: bool)
      modifies `pending
      ensures pending == G.Raised(old(pending), force)
    {
      if pending == G.PendingForced {
      } else if force {
        pending := G.PendingForced;
      } else {
        pending := G.PendingNormal;
      }
    }

    method PlainResize(s: Size, force: bool)
      requires pending == G.PendingNone || blocked != 0
      modifies `geom, `frame, `committed, `pending, `log
      ensures Frame() == G.PlainResize(old(Frame()), s, force)
    {
      if !force && geom.Dimensions() == s {
        return;
      }
      geom := geom.WithSize(s);
      if blocked != 0 {
        RaisePending(force);
        return;
      }
      frame := frame.WithSize(s);
      log := log + [G.ResizeFrame(s)];
      committed := geom;
    }

    method Move(p: Point, force: bool)
      requires pending == G.PendingNone || blocked != 0
      modifies `geom, `frame, `committed, `pending, `log
      ensures Frame() == G.Move(old(Frame()), p, force)
    {
      if !force && geom.TopLeft() == p {
        return;
      }
      geom := geom.MovedTo(p);
      if blocked != 0 {
        RaisePending(force);
        return;
      }
      frame := frame.MovedTo(p);
      log := log + [G.MoveFrame(p)];
      committed := geom;
    }

    method BlockGeometryUpdates(block: bool)
      requires block || blocked > 0
      modifies `geom, `frame, `committed, `pending, `needsMove, `log, `blocked
      ensures Frame() == if block then G.Block(old(Frame())) else G.Unblock(old(Frame()))
    {
      if block {
        if blocked == 0 {
          pending := G.PendingNone;
        }
        blocked := blocked + 1;
      } else {
        blocked := blocked - 1;
        if blocked == 0 {
          if pending != G.PendingNone {
            SetGeometry(geom, false);
            pending := G.PendingNone;
          }
        }
      }
    }

    method LeaveMoveResize()
      requires G.Inv(Frame()) && blocked == 0
      modifies `frame, `deferMoves, `needsMove, `log
      ensures Frame() == G.LeaveMoveResize(old(Frame()))
      ensures frame == geom && G.AtRest(Frame())
    {
      if needsMove {
        frame := frame.MovedTo(geom.TopLeft());
        log := log + [G.MoveFrame(geom.TopLeft())];
        needsMove := false;
      }
      deferMoves := false;
    }

    // -------------------------------------------------------------- maximising

    /** Nothing has reached the frame since it looked like `before`. */
    ghost predicate Quiet(before: G.Frame)
      reads this
    {
      && G.Inv(Frame()) && blocked == before.blocked && deferMoves == before.deferMoves
      && frame == before.frame && committed == before.committed && needsMove == before.needsMove && log == before.log
    }

    /** At most one request has reached the frame since `before`, and none inside a block. */
    ghost predicate SentAtMostOne(before: G.Frame)
      reads this
    {
      && G.Inv(Frame()) && blocked == before.blocked && deferMoves == before.deferMoves
      && (blocked > 0 ==> Quiet(before))
      && before.log <= log && |log| <= |before.log| + 1
    }

    /** `setGeometry` inside a block. */
    method Reshape(g: Rect, force: bool)
      requires blocked > 0 && G.Inv(Frame())
      modifies `geom, `frame, `committed, `pending, `needsMove, `log
      ensures Quiet(old(Frame())) && geom == g
    {
      SetGeometry(g, force);
    }

    /** `move` inside a block. */
    method Shift(p: Point)
      requires blocked > 0 && G.Inv(Frame())
      modifies `geom, `frame, `committed, `pending, `log
      ensures Quiet(old(Frame())) && geom == old(geom).MovedTo(p)
    {
      Move(p, false);
    }

    /** Moves the window to where smart placement wants it, inside a block. */
    method PlaceSmart(s: Size, force: bool)
      requires blocked > 0 && G.Inv(Frame())
      modifies `geom, `frame, `committed, `pending, `log
      ensures Quiet(old(Frame())) && geom == PlacedSmart(env, old(geom), s)
    {
      PlainResize(s, force);
      Shift(env.placeSmart(geom, env.area));
    }

    /** Remembers the sizes that maximising away from `oldMode` will lose. */
    method SaveSizes(oldMode: MaximizeMode, adjust: bool)
      modifies `geomRestore
      ensures geomRestore == Saved(old(Placement()).(mode := oldMode), adjust)
    {
      if tile == NO_TILE {
        if !adjust && !oldMode.vertical {
          geomRestore := geomRestore.(top := geom.top);
          geomRestore := geomRestore.WithHeight(geom.Height());
        }
        if !adjust && !oldMode.horizontal {
          geomRestore := geomRestore.(left := geom.left);
          geomRestore := geomRestore.WithWidth(geom.Width());
        }
      }
    }

    /** The switch over the new mode, inside a block. */
    method SwitchTo(oldMode: MaximizeMode)
      requires blocked > 0 && G.Inv(Frame())
      modifies `geom, `frame, `committed, `pending, `needsMove, `log, `geomRestore, `tile
      ensures Quiet(old(Frame()))
      ensures Placement() == Switched(env, old(Placement()).(mode := oldMode), maximizeMode)
    {
      var area := env.area;
      if maximizeMode == VERTICAL {
        if oldMode.horizontal {
          if geomRestore.Width() == 0 || !area.Contains(geomRestore.Center()) {
            PlaceSmart(Size(Quotient(geom.Width() * 2, 3), area.Height()), decorated);
          } else {
            Reshape(RectAt(geomRestore.left, area.top, geomRestore.Width(), area.Height()), decorated);
          }
        } else {
          Reshape(RectAt(geom.left, area.top, geom.Width(), area.Height()), decorated);
        }
      } else if maximizeMode == HORIZONTAL {
        if oldMode.vertical {
          if geomRestore.Height() == 0 || !area.Contains(geomRestore.Center()) {
            PlaceSmart(Size(area.Width(), Quotient(geom.Height() * 2, 3)), decorated);
          } else {
            Reshape(RectAt(area.left, geomRestore.top, area.Width(), geomRestore.Height()), decorated);
          }
        } else {
          Reshape(RectAt(area.left, geom.top, area.Width(), geom.Height()), decorated);
        }
      } else if maximizeMode == RESTORE {
        RestoreGeometry(oldMode);
      } else {
        Reshape(area, decorated);
        tile := if env.electricBorderMaximize && geom.top == area.top then TILE_MAXIMIZE else NO_TILE;
      }
    }

    method RestoreGeometry(oldMode: MaximizeMode)
      requires blocked > 0 && G.Inv(Frame()) && maximizeMode == RESTORE
      modifies `geom, `frame, `committed, `pending, `needsMove, `log, `geomRestore, `tile
      ensures Quiet(old(Frame()))
      ensures Placement() == Switched(env, old(Placement()).(mode := oldMode), RESTORE)
    {
      var restore := FindRestore(oldMode);
      Reshape(restore, decorated);
      if !env.area.Contains(geomRestore.Center()) {
        Shift(env.place(geom, env.area));
      }
      tile := NO_TILE;
    }

    /** The geometry to restore: what is remembered, or else what placement finds. */
    method FindRestore(oldMode: MaximizeMode) returns (restore: Rect)
      requires blocked > 0 && G.Inv(Frame())
      modifies `geom, `frame, `committed, `pending, `log, `geomRestore
      ensures Quiet(old(Frame()))
      ensures
        var s := old(Placement()).(mode := oldMode);
        var target := RestoreTarget(s);
        && restore == (if target.IsValid() then target else FallbackTarget(env, s))
        && geomRestore == if target.IsValid() then s.restore else restore
    {
      restore := geom;
      if oldMode.vertical {
        restore := restore.(top := geomRestore.top);
        restore := restore.(bottom := geomRestore.bottom);
      }
      if oldMode.horizontal {
        restore := restore.(left := geomRestore.left);
        restore := restore.(right := geomRestore.right);
      }
      assert restore == RestoreTarget(old(Placement()).(mode := oldMode));
      if !restore.IsValid() {
        restore := PlaceForRestore(oldMode);
      }
    }

    /** The window was never seen in its restored state: placement finds a position for it. */
    method PlaceForRestore(ghost oldMode: MaximizeMode) returns (restore: Rect)
      requires blocked > 0 && G.Inv(Frame())
      modifies `geom, `frame, `committed, `pending, `log, `geomRestore
      ensures Quiet(old(Frame()))
      ensures restore == geomRestore == FallbackTarget(env, old(Placement()).(mode := oldMode))
    {
      var s := Size(Quotient(env.area.Width() * 2, 3), Quotient(env.area.Height() * 2, 3));
      if geomRestore.Width() > 0 {
        s := s.(width := geomRestore.Width());
      }
      if geomRestore.Height() > 0 {
        s := s.(height := geomRestore.Height());
      }
      PlaceSmart(s, false);
      restore := geom;
      if geomRestore.Width() > 0 {
        restore := restore.MovedTo(Point(geomRestore.left, restore.top));
      }
      if geomRestore.Height() > 0 {
        restore := restore.MovedTo(Point(restore.left, geomRestore.top));
      }
      geomRestore := restore;
    }

    /** Everything after the mode has been flipped, inside a block. */
    method ApplyMode(oldMode: MaximizeMode, adjust: bool)
      requires blocked > 0 && G.Inv(Frame())
      modifies `geom, `frame, `committed, `pending, `needsMove, `log, `geomRestore, `tile
      ensures Quiet(old(Frame()))
      ensures Placement() == Changed(env, old(Placement()).(mode := oldMode), maximizeMode, adjust)
    {
      ghost var before := Placement().(mode := oldMode);
      SaveSizes(oldMode, adjust);
      if tile != NO_TILE {
        if oldMode == FULL && !env.area.Contains(geomRestore.Center()) {
        } else if (oldMode == VERTICAL && maximizeMode == RESTORE) || (oldMode == FULL && maximizeMode == HORIZONTAL) {
          tile := NO_TILE;
        }
      }
      ghost var saved := before.(restore := Saved(before, adjust));
      assert Placement().(mode := oldMode) == saved.(tile := TileAfterChange(env, saved, maximizeMode));
      SwitchTo(oldMode);
    }

    /** A window that is maximised one way and not the other would first be restored, but the
        nested call finds nothing to flip and returns at once. */
    method ChangeInBlock(oldMode: MaximizeMode, adjust: bool)
      requires G.Inv(Frame())
      modifies this
      ensures Placement() == Changed(env, old(Placement()).(mode := oldMode), old(maximizeMode), adjust)
      ensures SentAtMostOne(old(Frame())) && electricMode == old(electricMode)
      decreases OneWayToOther(oldMode, maximizeMode), 0
    {
      BlockGeometryUpdates(true);
      ghost var entry := Placement();
      if OneWayToOther(oldMode, maximizeMode) {
        ChangeMaximize(false, false, false);
        assert Placement() == entry;
      }
      ApplyMode(oldMode, adjust);
      UnblockSendsAtMostOne(Frame());
      BlockGeometryUpdates(false);
    }

    /** Flips the given directions, or only adjusts the size. */
    method ChangeMaximize(vertical: bool, horizontal: bool, adjust: bool)
      requires G.Inv(Frame())
      modifies this
      ensures Placement() == Maximizing.ChangeMaximize(env, old(Placement()), vertical, horizontal, adjust)
      ensures SentAtMostOne(old(Frame())) && electricMode == old(electricMode)
      decreases vertical && horizontal, 1
    {
      if !env.resizable {
        return;
      }
      var oldMode := maximizeMode;
      if !adjust {
        if vertical {
          maximizeMode := maximizeMode.(vertical := !maximizeMode.vertical);
        }
        if horizontal {
          maximizeMode := maximizeMode.(horizontal := !maximizeMode.horizontal);
        }
      }
      if !adjust && maximizeMode == oldMode {
        return;
      }
      ChangeInBlock(oldMode, adjust);
    }

    method SetMaximize(vertical: bool, horizontal: bool)
      requires G.Inv(Frame())
      modifies this
      ensures Placement() == Maximizing.SetMaximize(env, old(Placement()), vertical, horizontal)
      ensures SentAtMostOne(old(Frame())) && electricMode == old(electricMode)
    {
      ChangeMaximize(
        if maximizeMode.vertical then !vertical else vertical,
        if maximizeMode.horizontal then !horizontal else horizontal,
        false);
    }

    // -------------------------------------------------------------- workspace position

    /** The innermost coordinate that the struts of one side leave to a strip. */
    static method FindStrutEdge(side: Side, struts: seq<Rect>, strip: Rect, start: int) returns (edge: int)
      ensures edge == StrutEdge(side, struts, strip, start)
    {
      edge := start;
      for i := 0 to |struts|
        invariant edge == StrutEdge(side, struts[..i], strip, start)
      {
        assert struts[..i + 1][..i] == struts[..i];
        var r := struts[i].Intersected(strip);
        if r.IsValid() {
          match side
          case LeftSide => edge := Max(edge, r.left + r.Width());
          case TopSide => edge := Max(edge, r.top + r.Height());
          case RightSide => edge := Min(edge, r.left);
          case BottomSide => edge := Min(edge, r.top);
        }
      }
      assert struts[..|struts|] == struts;
    }

    method FindBounds(g: Rect) returns (b: Bounds)
      ensures b == BoundsAround(surroundings, g)
    {
      var w := surroundings;
      var top := FindStrutEdge(TopSide, w.topStruts, Tall(w, g), w.screen.top);
      var right := FindStrutEdge(RightSide, w.rightStruts, Wide(w, g), w.screen.left + w.screen.Width());
      var bottom := FindStrutEdge(BottomSide, w.bottomStruts, Tall(w, g), w.screen.top + w.screen.Height());
      var left := FindStrutEdge(LeftSide, w.leftStruts, Wide(w, g), w.screen.left);
      b := Bounds(left, top, right, bottom);
    }

    /** Whether one edge lost its bound. */
    static method FindCorrection(inside: bool, outside: bool, touched: bool, touches: bool,
                                 clientTouched: bool, clientTouches: bool, border: int) returns (c: Correction)
      ensures c == EdgeCorrection(inside, outside, touched, touches, clientTouched, clientTouches, border)
    {
      c := Correction(false, false, 0);
      if inside {
        c := c.(save := outside);
      }
      if touched {
        c := c.(keep := !touches);
      } else if clientTouched && !clientTouches {
        c := c.(padding := border, keep := true);
      }
    }

    /** The position that an unmaximised, untiled window should have. */
    method CorrectedPosition() returns (newGeom: Rect)
      ensures newGeom == Checked(surroundings, geom, geomRestore)
    {
      var w := surroundings;
      var was := FindBounds(geom);
      var now := FindBounds(geomRestore);
      var oldClient, newClient := ClientPart(w, geom), ClientPart(w, geomRestore);
      newGeom := geomRestore;
      var l := FindCorrection(geom.left >= was.left, newGeom.left < now.left, geom.left == was.left,
        newGeom.left == now.left, oldClient.left == was.left, newClient.left == now.left, w.borderLeft);
      var t := FindCorrection(geom.top >= was.top, newGeom.top < now.top, geom.top == was.top,
        newGeom.top == now.top, oldClient.top == was.top, newClient.top == now.top, w.borderLeft);
      var r := FindCorrection(geom.right <= was.right - 1, newGeom.right > now.right - 1, geom.right == was.right - 1,
        newGeom.right == now.right - 1, oldClient.right == was.right - 1, newClient.right == now.right - 1, w.borderRight);
      var b := FindCorrection(geom.bottom <= was.bottom - 1, newGeom.bottom > now.bottom - 1,
        geom.bottom == was.bottom - 1, newGeom.bottom == now.bottom - 1,
        oldClient.bottom == was.bottom - 1, newClient.bottom == now.bottom - 1, w.borderBottom);
      l, r := Balance(l, r);
      t, b := Balance(t, b);
      newGeom := ApplyCorrections(w, geom, was, newGeom, now, l, t, r, b);
      newGeom := OnScreen(w.screen, newGeom);
    }

    /** Opposite edges that both lost their bounds are both left alone. */
    static method Balance(a: Correction, b: Correction) returns (a': Correction, b': Correction)
      ensures a' == Balanced(a, b) && b' == Balanced(b, a)
    {
      a', b' := a, b;
      if a.keep && b.keep {
        a' := a'.(keep := false, padding := 0);
        b' := b'.(keep := false, padding := 0);
      }
    }

    static method ApplyCorrections(w: Surroundings, before: Rect, was: Bounds, g: Rect, now: Bounds,
                                   l: Correction, t: Correction, r: Correction, b: Correction) returns (newGeom: Rect)
      ensures newGeom == Corrected(w, before, was, g, now, l, t, r, b)
    {
      newGeom := MoveInside(w, g, now, l, t, r);
      newGeom := CutLeftEdge(w, before, was, newGeom, now);
      if b.save || b.keep {
        newGeom := WithBottomEdge(newGeom, Min(now.bottom - 1, w.screen.bottom) + b.padding);
      }
      newGeom := CutTopEdge(w, before, was, newGeom, now);
    }

    static method MoveInside(w: Surroundings, g: Rect, now: Bounds, l: Correction, t: Correction, r: Correction)
      returns (newGeom: Rect)
      ensures newGeom == MovedInside(w, g, now, l, t, r)
    {
      newGeom := g;
      if l.save || l.keep {
        newGeom := WithLeftEdge(newGeom, Max(now.left, w.screen.left) - l.padding);
      }
      if t.save || t.keep {
        newGeom := WithTopEdge(newGeom, Max(now.top, w.screen.top) - t.padding);
      }
      if r.save || r.keep {
        newGeom := WithRightEdge(newGeom, Min(now.right - 1, w.screen.right) + r.padding);
      }
    }

    static method CutLeftEdge(w: Surroundings, before: Rect, was: Bounds, g: Rect, now: Bounds) returns (newGeom: Rect)
      ensures newGeom == CutLeft(w, before, was, g, now)
    {
      newGeom := g;
      if before.left >= was.left && newGeom.left < now.left {
        newGeom := newGeom.(left := Max(now.left, w.screen.left));
      } else if ClientPart(w, before).left >= was.left && newGeom.left + w.borderLeft < now.left {
        newGeom := newGeom.(left := Max(now.left, w.screen.left) - w.borderLeft);
      }
    }

    static method CutTopEdge(w: Surroundings, before: Rect, was: Bounds, g: Rect, now: Bounds) returns (newGeom: Rect)
      ensures newGeom == CutTop(w, before, was, g, now)
    {
      newGeom := g;
      if before.top >= was.top && newGeom.top < now.top {
        newGeom := newGeom.(top := Max(now.top, w.screen.top));
      } else if ClientPart(w, before).top >= was.top && newGeom.top + w.borderTop < now.top {
        newGeom := newGeom.(top := Max(now.top, w.screen.top) - w.borderTop);
      }
    }

    method CheckWorkspacePosition()
      requires G.Inv(Frame()) && blocked > 0
      modifies this
      ensures Placement() == CheckPosition(env, surroundings, old(Placement()), electricMode)
      ensures Quiet(old(Frame())) && electricMode == old(electricMode)
    {
      if maximizeMode != RESTORE {
        ChangeMaximize(false, false, true);
        Reshape(OnScreen(surroundings.screen, geom), false);
        return;
      }
      if tile != NO_TILE {
        Reshape(ElectricBorderGeometry(), false);
        return;
      }
      var newGeom := CorrectedPosition();
      if newGeom != geom {
        Reshape(newGeom, false);
      }
    }

    // -------------------------------------------------------------- quick tiling

    function ElectricBorderGeometry(): (r: Rect)
      reads this
      ensures r == ElectricGeometry(env, Placement(), electricMode)
    {
      if electricMode == TILE_MAXIMIZE then
        if maximizeMode == FULL then geomRestore else env.area
      else TileGeometry(env.area, electricMode)
    }

    method SetQuickTileMode(requested: Tile)
      requires G.Inv(Frame())
      modifies this
      ensures Placement() == QuickTiling.SetQuickTileMode(env, surroundings, old(Placement()), requested)
      ensures env.resizable ==>
                GoalOf(Placement())
                == NextGoal(env.electricBorderMaximize, GoalOf(old(Placement())), QuickTiling.TileTo(requested))
      ensures SentAtMostOne(old(Frame()))
    {
      ghost var entry := Placement();
      if env.resizable || maximizeMode == FULL {
        TileInBlock(requested);
      }
      if env.resizable {
        RequestReachesGoal(env, surroundings, entry, QuickTiling.TileTo(requested));
        assert Placement() == Apply(env, surroundings, entry, QuickTiling.TileTo(requested));
      }
    }

    method TileInBlock(requested: Tile)
      requires G.Inv(Frame()) && (env.resizable || maximizeMode == FULL)
      modifies this
      ensures Placement() == QuickTiling.SetQuickTileMode(env, surroundings, old(Placement()), requested)
      ensures SentAtMostOne(old(Frame()))
    {
      BlockGeometryUpdates(true);
      if requested == TILE_MAXIMIZE {
        QuickTileMaximized();
      } else {
        TileTo(requested);
      }
      UnblockSendsAtMostOne(Frame());
      BlockGeometryUpdates(false);
    }

    method TileTo(requested: Tile)
      requires G.Inv(Frame()) && blocked > 0 && requested != TILE_MAXIMIZE
      modifies this
      ensures Placement() == TiledTo(env, surroundings, old(Placement()), requested)
      ensures Quiet(old(Frame()))
    {
      SetElectricMode(requested);
      if maximizeMode != RESTORE {
        TileMaximizedWindow(electricMode);
      } else {
        TileRestoredWindow(electricMode);
      }
    }

    /** Opposite sides cancel. */
    method SetElectricMode(requested: Tile)
      requires requested != TILE_MAXIMIZE
      modifies `electricMode
      ensures electricMode == Sanitized(requested) == Sanitized(electricMode)
    {
      var mode := requested;
      if mode.left && mode.right {
        mode := mode.(left := false, right := false);
      }
      if mode.top && mode.bottom {
        mode := mode.(top := false, bottom := false);
      }
      electricMode := mode;
    }

    /** Restores a maximised window and tiles it with one request. */
    method TileMaximizedWindow(mode: Tile)
      requires G.Inv(Frame()) && blocked > 0
      requires electricMode == mode == Sanitized(mode) && maximizeMode != RESTORE
      modifies this
      ensures Placement() == TiledFromMaximized(env, old(Placement()), mode)
      ensures Quiet(old(Frame()))
    {
      SetMaximize(false, false);
      if mode != NO_TILE {
        Reshape(ElectricBorderGeometry(), decorated);
      }
      tile := mode;
    }

    method TileRestoredWindow(requested: Tile)
      requires G.Inv(Frame()) && blocked > 0
      requires electricMode == requested == Sanitized(requested) && maximizeMode == RESTORE
      modifies this
      ensures Placement() == TiledFromRestored(env, surroundings, old(Placement()), requested)
      ensures Quiet(old(Frame()))
    {
      var mode := requested;
      if mode != NO_TILE {
        mode := EnterTile(mode);
      }
      if mode == NO_TILE {
        UntiledForgetsTile(env, surroundings, old(Placement()));
        Untile();
      }
    }

    /** Tiles the window, or toggles the tile off that it is in already. */
    method EnterTile(requested: Tile) returns (mode: Tile)
      requires G.Inv(Frame()) && blocked > 0
      requires electricMode == requested == Sanitized(requested) != NO_TILE && maximizeMode == RESTORE
      modifies `geom, `frame, `committed, `pending, `needsMove, `log, `geomRestore, `tile, `electricMode
      ensures Quiet(old(Frame()))
      ensures mode == electricMode == if old(tile) == requested then NO_TILE else requested
      ensures mode == NO_TILE ==> Placement() == old(Placement()).(tile := NO_TILE)
      ensures mode != NO_TILE ==>
                Placement() == old(Placement()).(
                                 tile := requested, geom := TileGeometry(env.area, requested),
                                 restore := if old(tile) == NO_TILE then old(geom) else old(geomRestore))
    {
      mode := requested;
      if tile == mode {
        mode := NO_TILE;
        electricMode := mode;
      } else if tile == NO_TILE {
        geomRestore := geom;
      }
      if mode != NO_TILE {
        Reshape(ElectricBorderGeometry(), decorated);
      }
      tile := mode;
    }

    method Untile()
      requires G.Inv(Frame()) && blocked > 0
      requires electricMode == NO_TILE && maximizeMode == RESTORE
      modifies this
      ensures Placement() == Untiled(env, surroundings, old(Placement()))
      ensures Quiet(old(Frame()))
    {
      tile := NO_TILE;
      if !geomRestore.IsValid() {
        geomRestore := geom;
      }
      Reshape(geomRestore, decorated);
      CheckWorkspacePosition();
    }

    method QuickTileMaximized()
      requires G.Inv(Frame()) && blocked > 0
      modifies this
      ensures Placement() == TileMaximized(env, old(Placement()))
      ensures Quiet(old(Frame()))
    {
      tile := NO_TILE;
      if maximizeMode == FULL {
        SetMaximize(false, false);
      } else {
        var prevRestore := geomRestore;
        SetMaximize(true, true);
        if geom.top != env.area.top {
          Reshape(geom.MovedTo(Point(geom.left, env.area.top)), false);
        }
        tile := TILE_MAXIMIZE;
        geomRestore := prevRestore;
      }
    }
  }

}
