/** Quick tiling on one screen: `setQuickTileMode` and `electricBorderMaximizeGeometry`. */
module QuickTiling {
  import opened Geometry
  import opened Maximizing
  import opened WorkspacePosition

  /** Opposite flags cancel each other. */
  function Sanitized(t: Tile): (r: Tile)
    ensures !(r.left && r.right) && !(r.top && r.bottom)
    ensures t.left != t.right ==> r.left == t.left && r.right == t.right
    ensures t.top != t.bottom ==> r.top == t.top && r.bottom == t.bottom
    ensures (t.left == t.right ==> !r.left && !r.right) && (t.top == t.bottom ==> !r.top && !r.bottom)
  {
    Tile(t.left && !t.right, t.right && !t.left, t.top && !t.bottom, t.bottom && !t.top)
  }

  function TileGeometry(area: Rect, t: Tile): Rect {
    var r :=
      if t.left then area.(right := area.left + Quotient(area.Width(), 2) - 1)
      else if t.right then area.(left := area.right - (area.Width() - Quotient(area.Width(), 2)) + 1)
      else area;
    if t.top then r.(bottom := r.top + Quotient(r.Height(), 2) - 1)
    else if t.bottom then r.(top := r.bottom - (r.Height() - Quotient(r.Height(), 2)) + 1)
    else r
  }

  /** `electricBorderMaximizeGeometry` for the last requested mode. */
  function ElectricGeometry(env: MaximizeEnv, s: Shape, electric: Tile): Rect {
    if electric == TILE_MAXIMIZE then (if s.mode == FULL then s.restore else env.area)
    else TileGeometry(env.area, electric)
  }

  /** `checkWorkspacePosition` of a window in any mode. */
  function CheckPosition(env: MaximizeEnv, w: Surroundings, s: Shape, electric: Tile): Shape {
    if s.mode != RESTORE then
      var adjusted := ChangeMaximize(env, s, false, false, true);
      adjusted.(geom := OnScreen(w.screen, adjusted.geom))
    else if s.tile != NO_TILE then s.(geom := ElectricGeometry(env, s, electric))
    else s.(geom := Checked(w, s.geom, s.restore))
  }

  /** Leaving a tile gives the restore geometry back, then checks it against the workspace. */
  function Untiled(env: MaximizeEnv, w: Surroundings, s: Shape): Shape {
    var restore := if s.restore.IsValid() then s.restore else s.geom;
    CheckPosition(env, w, s.(tile := NO_TILE, restore := restore, geom := restore), NO_TILE)
  }

  lemma UntiledForgetsTile(env: MaximizeEnv, w: Surroundings, s: Shape)
    ensures Untiled(env, w, s.(tile := NO_TILE)) == Untiled(env, w, s)
  {
  }

  function TileMaximized(env: MaximizeEnv, s: Shape): Shape {
    var untiled := s.(tile := NO_TILE);
    if s.mode == FULL then SetMaximize(env, untiled, false, false)
    else
      var m := SetMaximize(env, untiled, true, true);
      m.(geom := if m.geom.top != env.area.top then m.geom.MovedTo(Point(m.geom.left, env.area.top)) else m.geom,
         tile := TILE_MAXIMIZE, restore := s.restore)
  }

  function TiledFromMaximized(env: MaximizeEnv, s: Shape, t: Tile): Shape {
    var r := SetMaximize(env, s, false, false);
    r.(tile := t, geom := if t != NO_TILE then TileGeometry(env.area, t) else r.geom)
  }

  /** A request for the tile the window is in toggles it off. */
  function TiledFromRestored(env: MaximizeEnv, w: Surroundings, s: Shape, t: Tile): Shape {
    if t == NO_TILE || s.tile == t then Untiled(env, w, s)
    else
      s.(tile := t, geom := TileGeometry(env.area, t), restore := if s.tile == NO_TILE then s.geom else s.restore)
  }

  function TiledTo(env: MaximizeEnv, w: Surroundings, s: Shape, requested: Tile): Shape {
    var t := Sanitized(requested);
    if s.mode != RESTORE then TiledFromMaximized(env, s, t) else TiledFromRestored(env, w, s, t)
  }

  function SetQuickTileMode(env: MaximizeEnv, w: Surroundings, s: Shape, requested: Tile): Shape {
    if !env.resizable && s.mode != FULL then s
    else if requested == TILE_MAXIMIZE then TileMaximized(env, s)
    else TiledTo(env, w, s, requested)
  }

  // ---------------------------------------------------------------- path independence

  datatype Request = TileTo(t: Tile) | MaximizeFully | RestoreFully

  function Apply(env: MaximizeEnv, w: Surroundings, s: Shape, q: Request): Shape {
    match q
    case TileTo(t) => SetQuickTileMode(env, w, s, t)
    case MaximizeFully => SetMaximize(env, s, true, true)
    case RestoreFully => SetMaximize(env, s, false, false)
  }

  function Run(env: MaximizeEnv, w: Surroundings, s: Shape, requests: seq<Request>): Shape {
    if requests == [] then s
    else Apply(env, w, Run(env, w, s, requests[..|requests| - 1]), requests[|requests| - 1])
  }

  /** What the window shows in a state: the area, the tile of its mode, or its own geometry. */
  function Shown(area: Rect, g: Rect, s: Shape): Rect {
    if s.mode == FULL then area else if s.tile == NO_TILE then g else TileGeometry(area, s.tile)
  }

  predicate TileInv(env: MaximizeEnv, g: Rect, s: Shape) {
    && s.restore == g
    && s.geom == Shown(env.area, g, s)
    && (s.mode == RESTORE || (s.mode == FULL && env.resizable))
    && (if s.mode == FULL then s.tile == NO_TILE || s.tile == TILE_MAXIMIZE else s.tile == Sanitized(s.tile))
  }

  /** A window that may be tiled and comes back: it is in the area, and the area on the screen. */
  predicate Tileable(env: MaximizeEnv, w: Surroundings, g: Rect) {
    && g.IsValid() && env.area.Contains(g.Center())
    && w.screen.IsValid() && w.screen.Intersects(g)
  }

  lemma ApplyKeepsTileInv(env: MaximizeEnv, w: Surroundings, g: Rect, s: Shape, q: Request)
    requires Tileable(env, w, g) && TileInv(env, g, s)
    ensures TileInv(env, g, Apply(env, w, s, q))
  {
    SettledWindowStays(w, g);
    if q.TileTo? {
      SanitizedTwice(q.t);
      if q.t == TILE_MAXIMIZE && env.resizable {
        TileMaximizedKeepsTileInv(env, g, s);
      }
    }
  }

  lemma SanitizedTwice(t: Tile)
    ensures Sanitized(Sanitized(t)) == Sanitized(t)
  {
  }

  lemma TileMaximizedKeepsTileInv(env: MaximizeEnv, g: Rect, s: Shape)
    requires g.IsValid() && env.area.Contains(g.Center())
    requires TileInv(env, g, s)
    requires env.resizable
    ensures TileInv(env, g, TileMaximized(env, s))
  {
  }

  /** What a request asks for: the maximise mode and the tile that follow from those before it. */
  datatype Goal = Goal(mode: MaximizeMode, tile: Tile)

  function GoalOf(s: Shape): Goal { Goal(s.mode, s.tile) }

  function NextGoal(electricBorderMaximize: bool, v: Goal, q: Request): Goal {
    match q
    case TileTo(t) =>
      if t == TILE_MAXIMIZE then (if v.mode == FULL then Goal(RESTORE, NO_TILE) else Goal(FULL, TILE_MAXIMIZE))
      else if v == Goal(RESTORE, Sanitized(t)) then Goal(RESTORE, NO_TILE)
      else Goal(RESTORE, Sanitized(t))
    case MaximizeFully =>
      if v.mode == FULL then v else Goal(FULL, if electricBorderMaximize then TILE_MAXIMIZE else NO_TILE)
    case RestoreFully =>
      if v.mode == RESTORE then v else Goal(RESTORE, NO_TILE)
  }

  function FinalGoal(electricBorderMaximize: bool, v: Goal, requests: seq<Request>): Goal {
    if requests == [] then v
    else NextGoal(electricBorderMaximize, FinalGoal(electricBorderMaximize, v, requests[..|requests| - 1]),
                  requests[|requests| - 1])
  }

  /** Every request reaches its goal, from any state of a window that can be resized, and a tile
      that is asked for is shown. */
  lemma RequestReachesGoal(env: MaximizeEnv, w: Surroundings, s: Shape, q: Request)
    requires env.resizable
    ensures
      var r := Apply(env, w, s, q);
      && GoalOf(r) == NextGoal(env.electricBorderMaximize, GoalOf(s), q)
      && (q.TileTo? && r.mode == RESTORE && r.tile != NO_TILE ==> r.geom == TileGeometry(env.area, r.tile))
  {
  }

  /** A tile remembers the geometry before the first of several tiles in a row. */
  lemma TilingRemembers(env: MaximizeEnv, w: Surroundings, s: Shape, t: Tile)
    requires env.resizable && s.mode == RESTORE
    requires t != TILE_MAXIMIZE && Sanitized(t) != NO_TILE && Sanitized(t) != s.tile
    ensures Apply(env, w, s, TileTo(t)).restore == if s.tile == NO_TILE then s.geom else s.restore
  {
  }

  /** Maximising by a tile keeps the restore geometry that there was. */
  lemma TileMaximizedRemembers(env: MaximizeEnv, w: Surroundings, s: Shape)
    requires env.resizable && s.mode != FULL
    ensures Apply(env, w, s, TileTo(TILE_MAXIMIZE)).restore == s.restore
    ensures Apply(env, w, s, TileTo(TILE_MAXIMIZE)).geom == env.area
  {
  }

  /** Without a usable restore geometry, leaving a tile leaves the window where it is, but for the position check. */
  lemma UntilingWithoutRestore(env: MaximizeEnv, w: Surroundings, s: Shape)
    requires env.resizable && s.mode == RESTORE
    ensures
      var r, g := Apply(env, w, s, TileTo(NO_TILE)), if s.restore.IsValid() then s.restore else s.geom;
      r.restore == g && r.geom == Checked(w, g, g) && r.mode == RESTORE && r.tile == NO_TILE
  {
  }

  /** The position check of a window that is maximised or tiled: it fills again what its mode says, and
      nothing else changes; an ordinary window goes where its own check says. */
  lemma PositionCheckRefills(env: MaximizeEnv, w: Surroundings, s: Shape, electric: Tile)
    ensures
      var r := CheckPosition(env, w, s, electric);
      && r.mode == s.mode && r.restore == s.restore
      && (s.mode != RESTORE ==>
            r.geom == OnScreen(w.screen, if env.resizable then Stretched(s.mode, s.geom, env.area) else s.geom))
      && (s.mode != FULL || !env.resizable ==> r.tile == s.tile)
      && (s.mode == FULL && env.resizable ==> r.tile == if env.electricBorderMaximize then TILE_MAXIMIZE else NO_TILE)
      && (s.mode == RESTORE && s.tile != NO_TILE ==>
            r.geom == if electric == TILE_MAXIMIZE then env.area else TileGeometry(env.area, electric))
      && (s.mode == RESTORE && s.tile == NO_TILE ==> r.geom == Checked(w, s.geom, s.restore))
  {
  }

  /** A window that cannot be resized can only be restored. */
  lemma UnresizableStays(env: MaximizeEnv, w: Surroundings, s: Shape, q: Request)
    requires !env.resizable && s.mode != FULL
    ensures Apply(env, w, s, q) == s
  {
  }

  /** So the mode and the tile after a whole sequence follow from the requests alone. */
  lemma {:induction false} RunReachesGoal(env: MaximizeEnv, w: Surroundings, s: Shape, requests: seq<Request>)
    requires env.resizable
    ensures GoalOf(Run(env, w, s, requests)) == FinalGoal(env.electricBorderMaximize, GoalOf(s), requests)
    decreases |requests|
  {
    if requests != [] {
      var before := requests[..|requests| - 1];
      RunReachesGoal(env, w, s, before);
      RequestReachesGoal(env, w, Run(env, w, s, before), requests[|requests| - 1]);
    }
  }

  /** Asking twice for the same side, after any history, gives the original geometry back, unless
      the window was on that side to begin with: then it is there again. */
  lemma AskingTwiceUndoes(env: MaximizeEnv, w: Surroundings, g: Rect, s: Shape, requests: seq<Request>, t: Tile)
    requires Tileable(env, w, g) && env.resizable && t != TILE_MAXIMIZE
    requires Plain(s, g) && s.restore == g
    ensures
      var v, r := GoalOf(Run(env, w, s, requests)), Run(env, w, s, requests + [TileTo(t), TileTo(t)]);
      var tile := if v == Goal(RESTORE, Sanitized(t)) then Sanitized(t) else NO_TILE;
      && GoalOf(r) == Goal(RESTORE, tile)
      && r.geom == if tile == NO_TILE then g else TileGeometry(env.area, tile)
  {
    var once, twice := requests + [TileTo(t)], requests + [TileTo(t), TileTo(t)];
    assert twice[..|twice| - 1] == once && once[..|once| - 1] == requests;
    TilePathIndependent(env, w, g, s, twice);
    RequestReachesGoal(env, w, Run(env, w, s, requests), TileTo(t));
    RequestReachesGoal(env, w, Run(env, w, s, once), TileTo(t));
  }

  /** Over every sequence of quick-tile requests mixed with full maximise and restore, the restore
      geometry stays the original one, and the window shows what its final mode says. */
  lemma {:induction false} TilePathIndependent(
      env: MaximizeEnv, w: Surroundings, g: Rect, s: Shape, requests: seq<Request>)
    requires Tileable(env, w, g)
    requires Plain(s, g) && s.restore == g
    ensures
      var r := Run(env, w, s, requests);
      && r.restore == g && r.geom == Shown(env.area, g, r) && TileInv(env, g, r)
      && (env.resizable ==> GoalOf(r) == FinalGoal(env.electricBorderMaximize, GoalOf(s), requests))
    decreases |requests|
  {
    if env.resizable {
      RunReachesGoal(env, w, s, requests);
    }
    if requests != [] {
      TilePathIndependent(env, w, g, s, requests[..|requests| - 1]);
      ApplyKeepsTileInv(env, w, g, Run(env, w, s, requests[..|requests| - 1]), requests[|requests| - 1]);
    }
  }

  /** Maximising a tile in one direction forgets part of the original: what comes back has the
      columns of the tile and the rows of the original geometry, so it is the original
      exactly when the tile has its columns. */
  lemma PartialMaximizeOfTile(env: MaximizeEnv, g: Rect, s: Shape)
    requires env.resizable && g.IsValid() && env.area.Contains(g.Center())
    requires TileInv(env, g, s) && s.mode == RESTORE && s.tile != NO_TILE
    requires s.geom.IsValid()
    ensures
      var r := SetMaximize(env, SetMaximize(env, s, true, false), false, false);
      && r.mode == RESTORE && r.tile == NO_TILE
      && r.geom == Rect(s.geom.left, g.top, s.geom.right, g.bottom)
      && (r.geom == g <==> s.geom.left == g.left && s.geom.right == g.right)
  {
    var v := SetMaximize(env, s, true, false);
    assert v.mode == VERTICAL && v.restore == g && v.tile == s.tile;
  }

  /** In the other direction the rows are lost. */
  lemma PartialMaximizeOfTileAcross(env: MaximizeEnv, g: Rect, s: Shape)
    requires env.resizable && g.IsValid() && env.area.Contains(g.Center())
    requires TileInv(env, g, s) && s.mode == RESTORE && s.tile != NO_TILE
    requires s.geom.IsValid()
    ensures
      var r := SetMaximize(env, SetMaximize(env, s, false, true), false, false);
      && r.mode == RESTORE && r.tile == NO_TILE
      && r.geom == Rect(g.left, s.geom.top, g.right, s.geom.bottom)
      && (r.geom == g <==> s.geom.top == g.top && s.geom.bottom == g.bottom)
  {
    var v := SetMaximize(env, s, false, true);
    assert v.mode == HORIZONTAL && v.restore == g && v.tile == s.tile;
  }

  // ---------------------------------------------------------------- the tiles cover the area

  const LEFT := Tile(true, false, false, false)
  const RIGHT := Tile(false, true, false, false)
  const TOP := Tile(false, false, true, false)
  const BOTTOM := Tile(false, false, false, true)

  function Both(a: Tile, b: Tile): Tile {
    Tile(a.left || b.left, a.right || b.right, a.top || b.top, a.bottom || b.bottom)
  }

  /** Every point of the area, of odd or even size, is in exactly one half of either split and in
      exactly one quarter, the one where its two halves meet; no tile leaves the area, and each half
      is on its own side. */
  lemma TilesPartitionArea(area: Rect, p: Point)
    requires area.IsValid()
    ensures TileGeometry(area, LEFT).left == area.left && TileGeometry(area, RIGHT).right == area.right
    ensures TileGeometry(area, TOP).top == area.top && TileGeometry(area, BOTTOM).bottom == area.bottom
    ensures
      var left := TileGeometry(area, LEFT).Contains(p);
      var right := TileGeometry(area, RIGHT).Contains(p);
      var top := TileGeometry(area, TOP).Contains(p);
      var bottom := TileGeometry(area, BOTTOM).Contains(p);
      && (area.Contains(p) <==> left || right) && !(left && right)
      && (area.Contains(p) <==> top || bottom) && !(top && bottom)
      && (TileGeometry(area, Both(LEFT, TOP)).Contains(p) <==> left && top)
      && (TileGeometry(area, Both(LEFT, BOTTOM)).Contains(p) <==> left && bottom)
      && (TileGeometry(area, Both(RIGHT, TOP)).Contains(p) <==> right && top)
      && (TileGeometry(area, Both(RIGHT, BOTTOM)).Contains(p) <==> right && bottom)
  {
  }

  /** The two halves differ by at most one column or row. */
  lemma HalvesAreEqual(area: Rect)
    requires area.IsValid()
    ensures 0 <= TileGeometry(area, RIGHT).Width() - TileGeometry(area, LEFT).Width() <= 1
    ensures 0 <= TileGeometry(area, BOTTOM).Height() - TileGeometry(area, TOP).Height() <= 1
  {
  }

}
