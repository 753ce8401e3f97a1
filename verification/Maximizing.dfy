/** Maximising and restoring: `setMaximize` and `changeMaximize`, as functions on the geometry, the
    maximise mode, the restore geometry and the quick-tile mode of a window without aspect
    hints, size limits or window rules. */
module Maximizing {
  import opened Geometry

  datatype MaximizeMode = MaximizeMode(vertical: bool, horizontal: bool)

  const RESTORE := MaximizeMode(false, false)
  const VERTICAL := MaximizeMode(true, false)
  const HORIZONTAL := MaximizeMode(false, true)
  const FULL := MaximizeMode(true, true)

  /** A combination of the four quick-tile flags. */
  datatype Tile = Tile(left: bool, right: bool, top: bool, bottom: bool)

  const NO_TILE := Tile(false, false, false, false)
  const TILE_MAXIMIZE := Tile(true, true, true, true)

  datatype Shape = Shape(geom: Rect, mode: MaximizeMode, restore: Rect, tile: Tile)

  /** What maximising depends on: the maximise area of the only screen, whether the window can be
      resized, whether a full maximise counts as a tile, and where placement would put it. */
  datatype MaximizeEnv = MaximizeEnv(
    area: Rect, resizable: bool, electricBorderMaximize: bool,
    placeSmart: (Rect, Rect) -> Point, place: (Rect, Rect) -> Point)

  function PlacedSmart(env: MaximizeEnv, g: Rect, s: Size): Rect {
    g.WithSize(s).MovedTo(env.placeSmart(g.WithSize(s), env.area))
  }

  /** The restore geometry after the sizes have been saved that are about to be lost. */
  function Saved(s: Shape, adjust: bool): Rect {
    if s.tile != NO_TILE || adjust then s.restore
    else
      var r := if s.mode.vertical then s.restore
               else s.restore.(top := s.geom.top).WithHeight(s.geom.Height());
      if s.mode.horizontal then r else r.(left := s.geom.left).WithWidth(s.geom.Width())
  }

  /** A partial change of a maximised, tiled window leaves the quick-tile mode. */
  function TileAfterChange(env: MaximizeEnv, s: Shape, next: MaximizeMode): Tile {
    if s.tile != NO_TILE
       && !(s.mode == FULL && !env.area.Contains(s.restore.Center()))
       && ((s.mode == VERTICAL && next == RESTORE) || (s.mode == FULL && next == HORIZONTAL))
    then NO_TILE
    else s.tile
  }

  /** The restore geometry is remembered in one direction only if the other was never lost. */
  function RestoreTarget(s: Shape): Rect {
    var r := if s.mode.vertical then s.geom.(top := s.restore.top, bottom := s.restore.bottom) else s.geom;
    if s.mode.horizontal then r.(left := s.restore.left, right := s.restore.right) else r
  }

  function FallbackSize(env: MaximizeEnv, restore: Rect): Size {
    Size(if restore.Width() > 0 then restore.Width() else Quotient(env.area.Width() * 2, 3),
         if restore.Height() > 0 then restore.Height() else Quotient(env.area.Height() * 2, 3))
  }

  function FallbackTarget(env: MaximizeEnv, s: Shape): Rect {
    var g := PlacedSmart(env, s.geom, FallbackSize(env, s.restore));
    var g' := if s.restore.Width() > 0 then g.MovedTo(Point(s.restore.left, g.top)) else g;
    if s.restore.Height() > 0 then g'.MovedTo(Point(g'.left, s.restore.top)) else g'
  }

  /** The switch over the new mode; `s` still has the old mode and the saved restore geometry. */
  function Switched(env: MaximizeEnv, s: Shape, next: MaximizeMode): Shape {
    var area := env.area;
    var onScreen := area.Contains(s.restore.Center());
    var t := s.(mode := next);
    if next == VERTICAL then
      if !s.mode.horizontal then t.(geom := RectAt(s.geom.left, area.top, s.geom.Width(), area.Height()))
      else if s.restore.Width() == 0 || !onScreen then
        t.(geom := PlacedSmart(env, s.geom, Size(Quotient(s.geom.Width() * 2, 3), area.Height())))
      else t.(geom := RectAt(s.restore.left, area.top, s.restore.Width(), area.Height()))
    else if next == HORIZONTAL then
      if !s.mode.vertical then t.(geom := RectAt(area.left, s.geom.top, area.Width(), s.geom.Height()))
      else if s.restore.Height() == 0 || !onScreen then
        t.(geom := PlacedSmart(env, s.geom, Size(area.Width(), Quotient(s.geom.Height() * 2, 3))))
      else t.(geom := RectAt(area.left, s.restore.top, area.Width(), s.restore.Height()))
    else if next == RESTORE then
      var target := RestoreTarget(s);
      var r := if target.IsValid() then target else FallbackTarget(env, s);
      var restore := if target.IsValid() then s.restore else r;
      t.(restore := restore, tile := NO_TILE,
         geom := if area.Contains(restore.Center()) then r else r.MovedTo(env.place(r, area)))
    else t.(geom := area, tile := if env.electricBorderMaximize then TILE_MAXIMIZE else NO_TILE)
  }

  function Changed(env: MaximizeEnv, s: Shape, next: MaximizeMode, adjust: bool): Shape {
    var saved := s.(restore := Saved(s, adjust));
    Switched(env, saved.(tile := TileAfterChange(env, saved, next)), next)
  }

  /** `changeMaximize` flips the given directions. */
  function ChangeMaximize(env: MaximizeEnv, s: Shape, vertical: bool, horizontal: bool, adjust: bool): Shape {
    var next := if adjust then s.mode
                else MaximizeMode(s.mode.vertical != vertical, s.mode.horizontal != horizontal);
    if !env.resizable || (!adjust && next == s.mode) then s
    else Changed(env, s, next, adjust)
  }

  function SetMaximize(env: MaximizeEnv, s: Shape, vertical: bool, horizontal: bool): Shape {
    ChangeMaximize(env, s,
      if s.mode.vertical then !vertical else vertical,
      if s.mode.horizontal then !horizontal else horizontal,
      false)
  }

  // ---------------------------------------------------------------- path independence

  /** The geometry that belongs to a mode: the area where maximised, the original elsewhere. */
  function Stretched(mode: MaximizeMode, g: Rect, area: Rect): Rect {
    Rect(if mode.horizontal then area.left else g.left, if mode.vertical then area.top else g.top,
         if mode.horizontal then area.right else g.right, if mode.vertical then area.bottom else g.bottom)
  }

  function Run(env: MaximizeEnv, s: Shape, requests: seq<MaximizeMode>): Shape {
    if requests == [] then s
    else
      var last := requests[|requests| - 1];
      SetMaximize(env, Run(env, s, requests[..|requests| - 1]), last.vertical, last.horizontal)
  }

  /** An ordinary window of geometry `g`, not maximised and not tiled. */
  predicate Plain(s: Shape, g: Rect) {
    s.geom == g && s.mode == RESTORE && s.tile == NO_TILE
  }

  predicate Remembers(env: MaximizeEnv, g: Rect, s: Shape) {
    && s.geom == Stretched(s.mode, g, env.area)
    && (if s.mode == RESTORE then s.tile == NO_TILE else s.restore == g)
  }

  lemma SetMaximizeRemembers(env: MaximizeEnv, g: Rect, s: Shape, vertical: bool, horizontal: bool)
    requires g.IsValid() && env.resizable && env.area.Contains(g.Center())
    requires Remembers(env, g, s)
    ensures Remembers(env, g, SetMaximize(env, s, vertical, horizontal))
    ensures SetMaximize(env, s, vertical, horizontal).mode == MaximizeMode(vertical, horizontal)
  {
  }

  /** After any sequence of requests the geometry depends on the last request, the original
      geometry and the area alone, although the restore geometry is saved piece by piece. */
  lemma {:induction false} MaximizePathIndependent(env: MaximizeEnv, g: Rect, s: Shape, requests: seq<MaximizeMode>)
    requires g.IsValid() && env.resizable && env.area.Contains(g.Center())
    requires Plain(s, g)
    ensures
      var r := Run(env, s, requests);
      && Remembers(env, g, r)
      && r.mode == (if requests == [] then RESTORE else requests[|requests| - 1])
    decreases |requests|
  {
    if requests != [] {
      var before := requests[..|requests| - 1];
      MaximizePathIndependent(env, g, s, before);
      SetMaximizeRemembers(env, g, Run(env, s, before),
                           requests[|requests| - 1].vertical, requests[|requests| - 1].horizontal);
    }
  }

  /** Two histories that end with the same request end with the same geometry, and one that ends
      with a restore gives the original geometry back. */
  lemma RestoreGivesOriginal(env: MaximizeEnv, g: Rect, s: Shape, s': Shape,
                             requests: seq<MaximizeMode>, others: seq<MaximizeMode>, last: MaximizeMode)
    requires g.IsValid() && env.resizable && env.area.Contains(g.Center())
    requires Plain(s, g) && Plain(s', g)
    ensures Run(env, s, requests + [last]).geom == Run(env, s', others + [last]).geom
    ensures last == RESTORE ==> Run(env, s, requests + [last]).geom == g
  {
    MaximizePathIndependent(env, g, s, requests + [last]);
    MaximizePathIndependent(env, g, s', others + [last]);
  }

  /** Where a restore has to leave a window to placement: it keeps the size it is restored to. */
  lemma RestoreElsewhereIsPlaced(env: MaximizeEnv, s: Shape)
    requires env.resizable && s.mode != RESTORE
    ensures
      var saved := if s.tile != NO_TILE then s.restore
                   else Rect(if s.mode.horizontal then s.restore.left else s.geom.left,
                             if s.mode.vertical then s.restore.top else s.geom.top,
                             if s.mode.horizontal then s.restore.right else s.geom.right,
                             if s.mode.vertical then s.restore.bottom else s.geom.bottom);
      var target := Rect(if s.mode.horizontal then saved.left else s.geom.left,
                         if s.mode.vertical then saved.top else s.geom.top,
                         if s.mode.horizontal then saved.right else s.geom.right,
                         if s.mode.vertical then saved.bottom else s.geom.bottom);
      var r := SetMaximize(env, s, false, false);
      target.IsValid() ==>
        && r.mode == RESTORE && r.restore == saved
        && r.geom.Dimensions() == target.Dimensions()
        && r.geom.TopLeft() == if env.area.Contains(saved.Center()) then target.TopLeft() else env.place(target, env.area)
  {
  }

  /** A restore without a usable restore geometry takes what is known of it, two thirds of the area for
      an unknown side, and leaves an unknown position to placement. */
  lemma RestoreFallsBack(env: MaximizeEnv, s: Shape)
    requires env.resizable && s.mode == FULL && !s.restore.IsValid()
    ensures
      var width := if s.restore.Width() > 0 then s.restore.Width() else Quotient(env.area.Width() * 2, 3);
      var height := if s.restore.Height() > 0 then s.restore.Height() else Quotient(env.area.Height() * 2, 3);
      var spot := env.placeSmart(s.geom.WithSize(Size(width, height)), env.area);
      var r := SetMaximize(env, s, false, false);
      && r.mode == RESTORE && r.tile == NO_TILE
      && r.restore == RectAt(if s.restore.Width() > 0 then s.restore.left else spot.x,
                             if s.restore.Height() > 0 then s.restore.top else spot.y, width, height)
      && r.geom.Dimensions() == Size(width, height)
      && r.geom.TopLeft() == if env.area.Contains(r.restore.Center()) then r.restore.TopLeft()
                             else env.place(r.restore, env.area)
  {
  }

  /** Giving up one direction of a full maximise brings back the other extent, or, if that is
      unknown or elsewhere, two thirds of the present one at a place that placement chooses. */
  lemma PartialRestore(env: MaximizeEnv, s: Shape)
    requires env.resizable && s.mode == FULL
    ensures
      var v, h := SetMaximize(env, s, true, false), SetMaximize(env, s, false, true);
      var here := env.area.Contains(s.restore.Center());
      && v.mode == VERTICAL && h.mode == HORIZONTAL && v.restore == s.restore == h.restore
      && (s.restore.Width() != 0 && here ==>
            v.geom == RectAt(s.restore.left, env.area.top, s.restore.Width(), env.area.Height()))
      && (s.restore.Height() != 0 && here ==>
            h.geom == RectAt(env.area.left, s.restore.top, env.area.Width(), s.restore.Height()))
      && (s.restore.Width() == 0 || !here ==>
            var size := Size(Quotient(s.geom.Width() * 2, 3), env.area.Height());
            v.geom.Dimensions() == size && v.geom.TopLeft() == env.placeSmart(s.geom.WithSize(size), env.area))
      && (s.restore.Height() == 0 || !here ==>
            var size := Size(env.area.Width(), Quotient(s.geom.Height() * 2, 3));
            h.geom.Dimensions() == size && h.geom.TopLeft() == env.placeSmart(s.geom.WithSize(size), env.area))
  {
  }

  /** An adjustment of the size keeps mode and restore geometry, and fills the area again where maximised. */
  lemma AdjustingRefills(env: MaximizeEnv, s: Shape, vertical: bool, horizontal: bool)
    requires env.resizable && s.mode != RESTORE
    ensures
      var r := ChangeMaximize(env, s, vertical, horizontal, true);
      r.mode == s.mode && r.restore == s.restore && r.geom == Stretched(s.mode, s.geom, env.area)
  {
  }

  /** A window keeps its quick-tile mode through a maximise in one direction, except that giving up the vertical
      direction of a full maximise on the screen of the restore geometry leaves it. */
  lemma TileSurvivesPartial(env: MaximizeEnv, s: Shape)
    requires env.resizable
    ensures s.mode != VERTICAL ==> SetMaximize(env, s, true, false).tile == s.tile
    ensures s.mode != HORIZONTAL ==>
              SetMaximize(env, s, false, true).tile
              == if s.mode == FULL && env.area.Contains(s.restore.Center()) then NO_TILE else s.tile
    ensures SetMaximize(env, s, false, false).tile == if s.mode == RESTORE then s.tile else NO_TILE
  {
  }

  /** The centre must lie in the area: if it does not, maximising and restoring hands the
      window to placement, and it comes back only if placement happens to leave it there. */
  lemma RestoreNeedsCentre(env: MaximizeEnv, g: Rect, s: Shape)
    requires g.IsValid() && env.resizable && Plain(s, g)
    requires env.place(g, env.area) != g.TopLeft()
    ensures Run(env, s, [FULL, RESTORE]).geom == g <==> env.area.Contains(g.Center())
  {
    assert [FULL, RESTORE][..1] == [FULL];
    assert [FULL][..0] == [];
    var full := Run(env, s, [FULL]);
    assert full == SetMaximize(env, Run(env, s, []), true, true);
    assert full.restore == g && full.mode == FULL;
    assert Run(env, s, [FULL, RESTORE]) == SetMaximize(env, full, false, false);
  }

}
