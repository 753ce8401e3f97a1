/** Deferred geometry updates: `setGeometry`, `plainResize`, `move` and `blockGeometryUpdates`,
    as functions on the logical geometry and the X frame. */
module GeometryUpdates {
  import opened Geometry

  datatype Pending = PendingNone | PendingNormal | PendingForced

  /** A request to the X frame. */
  datatype Commit = SetFrame(r: Rect) | MoveFrame(p: Point) | ResizeFrame(s: Size)

  /** `committed` is the geometry of the last update that was not held back; `deferMoves` holds
      while the user moves or resizes the window under a compositor, and `needsMove`
      when an X move was put off until that ends. `log` records the requests. */
  datatype Frame = Frame(
    geom: Rect, frame: Rect, committed: Rect, blocked: nat, pending: Pending,
    deferMoves: bool, needsMove: bool, log: seq<Commit>)

  function Apply(frame: Rect, c: Commit): Rect {
    match c
    case SetFrame(r) => r
    case MoveFrame(p) => frame.MovedTo(p)
    case ResizeFrame(s) => frame.WithSize(s)
  }

  function Send(f: Frame, c: Commit): Frame {
    f.(frame := Apply(f.frame, c), log := f.log + [c])
  }

  function Raised(p: Pending, force: bool): Pending {
    if p == PendingForced || force then PendingForced else PendingNormal
  }

  function SetGeometry(f: Frame, g: Rect, force: bool): Frame {
    if !force && f.geom == g && f.pending == PendingNone then f
    else if f.blocked > 0 then f.(geom := g, pending := Raised(f.pending, force))
    else
      var placed :=
        if f.committed.Dimensions() != g.Dimensions() || f.pending == PendingForced then Send(f, SetFrame(g))
        else if f.deferMoves then f.(needsMove := true)
        else Send(f, MoveFrame(g.TopLeft()));
      placed.(geom := g, committed := g)
  }

  function PlainResize(f: Frame, s: Size, force: bool): Frame {
    var g := f.geom.WithSize(s);
    if !force && f.geom.Dimensions() == s then f
    else if f.blocked > 0 then f.(geom := g, pending := Raised(f.pending, force))
    else Send(f, ResizeFrame(s)).(geom := g, committed := g)
  }

  function Move(f: Frame, p: Point, force: bool): Frame {
    var g := f.geom.MovedTo(p);
    if !force && f.geom.TopLeft() == p then f
    else if f.blocked > 0 then f.(geom := g, pending := Raised(f.pending, force))
    else Send(f, MoveFrame(p)).(geom := g, committed := g)
  }

  function Block(f: Frame): Frame {
    f.(blocked := f.blocked + 1, pending := if f.blocked == 0 then PendingNone else f.pending)
  }

  function Unblock(f: Frame): Frame
    requires f.blocked > 0
  {
    var g := f.(blocked := f.blocked - 1);
    if g.blocked == 0 && g.pending != PendingNone
    then SetGeometry(g, g.geom, false).(pending := PendingNone)
    else g
  }

  /** The deferred X move when the user lets go of the window. */
  function LeaveMoveResize(f: Frame): Frame {
    (if f.needsMove then Send(f, MoveFrame(f.geom.TopLeft())) else f).(needsMove := false, deferMoves := false)
  }

  /** What holds between any two operations, blocked or not. */
  predicate Inv(f: Frame) {
    && f.frame.Dimensions() == f.committed.Dimensions()
    && (!f.needsMove ==> f.frame == f.committed)
    && (f.blocked == 0 ==> f.pending == PendingNone)
    && (f.pending == PendingNone ==> f.geom == f.committed)
  }

  lemma SetGeometryKeepsInv(f: Frame, g: Rect, force: bool)
    requires Inv(f)
    ensures Inv(SetGeometry(f, g, force)) && SetGeometry(f, g, force).geom == g
  {
  }

  lemma PlainResizeKeepsInv(f: Frame, s: Size, force: bool)
    requires Inv(f)
    ensures Inv(PlainResize(f, s, force))
    ensures PlainResize(f, s, force).geom == f.geom.WithSize(s)
  {
  }

  lemma MoveKeepsInv(f: Frame, p: Point, force: bool)
    requires Inv(f)
    ensures Inv(Move(f, p, force))
    ensures Move(f, p, force).geom == f.geom.MovedTo(p)
  {
  }

  lemma BlocksKeepInv(f: Frame)
    requires Inv(f)
    ensures Inv(Block(f)) && Block(f).geom == f.geom
    ensures f.blocked > 0 ==> Inv(Unblock(f)) && Unblock(f).geom == f.geom
  {
  }

  /** Letting go of the window brings the frame to the logical geometry. */
  lemma LeaveKeepsInv(f: Frame)
    requires Inv(f) && f.blocked == 0
    ensures Inv(LeaveMoveResize(f)) && LeaveMoveResize(f).frame == f.geom == LeaveMoveResize(f).geom
    ensures !LeaveMoveResize(f).needsMove && !LeaveMoveResize(f).deferMoves
  {
  }

  // ---------------------------------------------------------------- programs

  /** Calls on one window, with properly nested blocks. */
  datatype Program =
    | Done
    | SetGeometryThen(g: Rect, force: bool, rest: Program)
    | PlainResizeThen(s: Size, force: bool, rest: Program)
    | MoveThen(p: Point, force: bool, rest: Program)
    | BlockedThen(body: Program, rest: Program)

  function Run(f: Frame, p: Program): (r: Frame)
    ensures r.blocked == f.blocked
    decreases p
  {
    match p
    case Done => f
    case SetGeometryThen(g, force, rest) => Run(SetGeometry(f, g, force), rest)
    case PlainResizeThen(s, force, rest) => Run(PlainResize(f, s, force), rest)
    case MoveThen(q, force, rest) => Run(Move(f, q, force), rest)
    case BlockedThen(body, rest) => Run(Unblock(Run(Block(f), body)), rest)
  }

  /** The same calls without any block. */
  function Unbatched(p: Program): Program {
    match p
    case Done => Done
    case SetGeometryThen(g, force, rest) => SetGeometryThen(g, force, Unbatched(rest))
    case PlainResizeThen(s, force, rest) => PlainResizeThen(s, force, Unbatched(rest))
    case MoveThen(q, force, rest) => MoveThen(q, force, Unbatched(rest))
    case BlockedThen(body, rest) => Append(Unbatched(body), Unbatched(rest))
  }

  function Append(p: Program, q: Program): Program {
    match p
    case Done => q
    case SetGeometryThen(g, force, rest) => SetGeometryThen(g, force, Append(rest, q))
    case PlainResizeThen(s, force, rest) => PlainResizeThen(s, force, Append(rest, q))
    case MoveThen(r, force, rest) => MoveThen(r, force, Append(rest, q))
    case BlockedThen(body, rest) => BlockedThen(body, Append(rest, q))
  }

  /** The rectangle the caller asks for, whatever is sent when. */
  function Intended(g: Rect, p: Program): Rect
    decreases p
  {
    match p
    case Done => g
    case SetGeometryThen(h, _, rest) => Intended(h, rest)
    case PlainResizeThen(s, _, rest) => Intended(g.WithSize(s), rest)
    case MoveThen(q, _, rest) => Intended(g.MovedTo(q), rest)
    case BlockedThen(body, rest) => Intended(Intended(g, body), rest)
  }

  predicate AnyForced(p: Program) {
    match p
    case Done => false
    case SetGeometryThen(_, force, rest) => force || AnyForced(rest)
    case PlainResizeThen(_, force, rest) => force || AnyForced(rest)
    case MoveThen(_, force, rest) => force || AnyForced(rest)
    case BlockedThen(body, rest) => AnyForced(body) || AnyForced(rest)
  }

  /** Some call is forced or asks for something new. */
  predicate Touches(g: Rect, p: Program)
    decreases p
  {
    match p
    case Done => false
    case SetGeometryThen(h, force, rest) => force || h != g || Touches(h, rest)
    case PlainResizeThen(s, force, rest) => force || s != g.Dimensions() || Touches(g.WithSize(s), rest)
    case MoveThen(q, force, rest) => force || q != g.TopLeft() || Touches(g.MovedTo(q), rest)
    case BlockedThen(body, rest) => Touches(g, body) || Touches(Intended(g, body), rest)
  }

  function Accumulated(before: Pending, g: Rect, p: Program): Pending {
    if before == PendingForced || AnyForced(p) then PendingForced
    else if before == PendingNormal || Touches(g, p) then PendingNormal
    else PendingNone
  }

  /** While updates are blocked nothing reaches the frame; the calls only add up. */
  lemma {:induction false} NothingSentWhileBlocked(f: Frame, p: Program)
    requires f.blocked > 0
    ensures Run(f, p) == f.(geom := Intended(f.geom, p), pending := Accumulated(f.pending, f.geom, p))
    decreases p
  {
    match p
    case Done =>
    case SetGeometryThen(g, force, rest) => NothingSentWhileBlocked(SetGeometry(f, g, force), rest);
    case PlainResizeThen(s, force, rest) => NothingSentWhileBlocked(PlainResize(f, s, force), rest);
    case MoveThen(q, force, rest) => NothingSentWhileBlocked(Move(f, q, force), rest);
    case BlockedThen(body, rest) =>
      NothingSentWhileBlocked(Block(f), body);
      var inner := f.(geom := Intended(f.geom, body), pending := Accumulated(f.pending, f.geom, body));
      assert Unblock(Run(Block(f), body)) == inner;
      NothingSentWhileBlocked(inner, rest);
      assert Accumulated(inner.pending, inner.geom, rest) == Accumulated(f.pending, f.geom, p);
  }

  /** A window at rest: no block is open and nothing is put off. */
  predicate AtRest(f: Frame) {
    Inv(f) && f.blocked == 0 && !f.deferMoves && !f.needsMove
  }

  /** The outermost unblock sends at most one request: none if no call did anything, a full
      resize if the size is new or a call was forced, and a move otherwise. */
  lemma OutermostUnblockSendsOnce(f: Frame, body: Program)
    requires AtRest(f)
    ensures
      var r := Run(f, BlockedThen(body, Done));
      && AtRest(r)
      && r.geom == Intended(f.geom, body) == r.frame
      && r.log == f.log + (
           if !Touches(f.geom, body) then []
           else if r.geom.Dimensions() != f.committed.Dimensions() || AnyForced(body) then [SetFrame(r.geom)]
           else [MoveFrame(r.geom.TopLeft())])
  {
    NothingSentWhileBlocked(Block(f), body);
    ForcedTouches(f.geom, body);
    UntouchedIsIntended(f.geom, body);
    assert Run(f, BlockedThen(body, Done))
        == Unblock(Block(f).(geom := Intended(f.geom, body), pending := Accumulated(f.pending, f.geom, body)));
  }

  lemma {:induction false} ForcedTouches(g: Rect, p: Program)
    ensures AnyForced(p) ==> Touches(g, p)
    decreases p
  {
    match p
    case Done =>
    case SetGeometryThen(h, _, rest) => ForcedTouches(h, rest);
    case PlainResizeThen(s, _, rest) => ForcedTouches(g.WithSize(s), rest);
    case MoveThen(q, _, rest) => ForcedTouches(g.MovedTo(q), rest);
    case BlockedThen(body, rest) =>
      ForcedTouches(g, body);
      ForcedTouches(Intended(g, body), rest);
  }

  lemma {:induction false} UntouchedIsIntended(g: Rect, p: Program)
    ensures !Touches(g, p) ==> Intended(g, p) == g
    decreases p
  {
    match p
    case Done =>
    case SetGeometryThen(h, _, rest) => UntouchedIsIntended(h, rest);
    case PlainResizeThen(s, _, rest) => UntouchedIsIntended(g.WithSize(s), rest);
    case MoveThen(q, _, rest) => UntouchedIsIntended(g.MovedTo(q), rest);
    case BlockedThen(body, rest) =>
      UntouchedIsIntended(g, body);
      UntouchedIsIntended(Intended(g, body), rest);
  }

  /** Any program leaves the frame, the logical geometry and the caller's intention equal. */
  lemma {:induction false} RunReachesIntended(f: Frame, p: Program)
    requires AtRest(f)
    ensures AtRest(Run(f, p))
    ensures Run(f, p).geom == Run(f, p).frame == Intended(f.geom, p)
    decreases p
  {
    match p
    case Done =>
    case SetGeometryThen(g, force, rest) => RunReachesIntended(SetGeometry(f, g, force), rest);
    case PlainResizeThen(s, force, rest) => RunReachesIntended(PlainResize(f, s, force), rest);
    case MoveThen(q, force, rest) => RunReachesIntended(Move(f, q, force), rest);
    case BlockedThen(body, rest) =>
      OutermostUnblockSendsOnce(f, body);
      RunReachesIntended(Run(f, BlockedThen(body, Done)), rest);
  }

  lemma {:induction false} IntendedAppend(g: Rect, p: Program, q: Program)
    ensures Intended(g, Append(p, q)) == Intended(Intended(g, p), q)
    decreases p
  {
    match p
    case Done =>
    case SetGeometryThen(h, _, rest) => IntendedAppend(h, rest, q);
    case PlainResizeThen(s, _, rest) => IntendedAppend(g.WithSize(s), rest, q);
    case MoveThen(r, _, rest) => IntendedAppend(g.MovedTo(r), rest, q);
    case BlockedThen(body, rest) => IntendedAppend(Intended(g, body), rest, q);
  }

  lemma {:induction false} IntendedUnbatched(g: Rect, p: Program)
    ensures Intended(g, Unbatched(p)) == Intended(g, p)
    decreases p
  {
    match p
    case Done =>
    case SetGeometryThen(h, _, rest) => IntendedUnbatched(h, rest);
    case PlainResizeThen(s, _, rest) => IntendedUnbatched(g.WithSize(s), rest);
    case MoveThen(r, _, rest) => IntendedUnbatched(g.MovedTo(r), rest);
    case BlockedThen(body, rest) =>
      IntendedUnbatched(g, body);
      IntendedUnbatched(Intended(g, body), rest);
      IntendedAppend(g, Unbatched(body), Unbatched(rest));
  }

  /** Batching is invisible in the end: the same calls without blocks put the frame in the same place. */
  lemma BatchedRefinesImmediate(f: Frame, p: Program)
    requires AtRest(f)
    ensures Run(f, p).frame == Run(f, Unbatched(p)).frame
    ensures Run(f, p).geom == Run(f, Unbatched(p)).geom
  {
    RunReachesIntended(f, p);
    RunReachesIntended(f, Unbatched(p));
    IntendedUnbatched(f.geom, p);
  }

  /** The same while the user drags the window under a compositor: programs keep the
      invariant, and letting go brings the frame to the logical geometry. */
  /** Only calls of `setGeometry`, in blocks or not. */
  predicate SetsGeometryOnly(p: Program) {
    match p
    case Done => true
    case SetGeometryThen(_, _, rest) => SetsGeometryOnly(rest)
    case PlainResizeThen(_, _, _) => false
    case MoveThen(_, _, _) => false
    case BlockedThen(body, rest) => SetsGeometryOnly(body) && SetsGeometryOnly(rest)
  }

  /** Every request after the first `n` sets the whole frame. */
  predicate NoMovesSince(log: seq<Commit>, n: nat) {
    forall k | n <= k < |log| :: log[k].SetFrame?
  }

  /** While the user drags the window under a compositor, no position reaches the frame on its own, in
      any program of updates; what was put off is noted, and letting go then sends it at once. */
  lemma {:induction false} DraggingSendsNoMoves(f: Frame, p: Program)
    requires Inv(f) && f.deferMoves && SetsGeometryOnly(p)
    ensures
      var r := Run(f, p);
      && Inv(r) && r.deferMoves && f.log <= r.log && NoMovesSince(r.log, |f.log|)
      && (r.needsMove <== f.needsMove)
      && LeaveMoveResize(r).log == r.log + (if r.needsMove then [MoveFrame(r.geom.TopLeft())] else [])
    decreases p
  {
    match p
    case Done =>
    case SetGeometryThen(g, force, rest) =>
      DraggedUpdate(f, g, force);
      DraggingSendsNoMoves(SetGeometry(f, g, force), rest);
    case BlockedThen(body, rest) =>
      BlocksKeepInv(f);
      DraggingSendsNoMoves(Block(f), body);
      var inner := Run(Block(f), body);
      DraggedUnblock(inner);
      DraggingSendsNoMoves(Unblock(inner), rest);
  }

  /** `r` has sent no move since `f`. */
  predicate NoMoveSent(f: Frame, r: Frame) {
    Inv(r) && r.deferMoves && f.log <= r.log && NoMovesSince(r.log, |f.log|) && (f.needsMove ==> r.needsMove)
  }

  lemma DraggedUpdate(f: Frame, g: Rect, force: bool)
    requires Inv(f) && f.deferMoves
    ensures NoMoveSent(f, SetGeometry(f, g, force))
  {
    SetGeometryKeepsInv(f, g, force);
  }

  lemma DraggedUnblock(f: Frame)
    requires Inv(f) && f.deferMoves && f.blocked > 0
    ensures NoMoveSent(f, Unblock(f))
  {
    BlocksKeepInv(f);
  }

  /** One update outside any block: what it sends, and when the move is put off. */
  lemma UpdateSends(f: Frame, g: Rect, force: bool)
    requires Inv(f) && f.blocked == 0
    ensures
      var r, sized, touched := SetGeometry(f, g, force), g.Dimensions() != f.geom.Dimensions(), force || g != f.geom;
      && r.geom == g && r.committed == g && r.blocked == 0 && r.pending == PendingNone
      && r.log == f.log + (if !touched then []
                           else if sized then [SetFrame(g)]
                           else if f.deferMoves then []
                           else [MoveFrame(g.TopLeft())])
      && (r.needsMove <==> f.needsMove || (touched && !sized && f.deferMoves))
      && (touched && (sized || !f.deferMoves) ==> r.frame == g)
      && (!touched || (!sized && f.deferMoves) ==> r.frame == f.frame)
  {
  }

  lemma {:induction false} DeferredMovesAreNotLost(f: Frame, p: Program)
    requires Inv(f)
    ensures Inv(Run(f, p))
    ensures Run(f, p).geom == Intended(f.geom, p)
    ensures f.blocked == 0 ==> LeaveMoveResize(Run(f, p)).frame == Intended(f.geom, p)
    decreases p
  {
    match p
    case Done =>
      if f.blocked == 0 {
        LeaveKeepsInv(f);
      }
    case SetGeometryThen(g, force, rest) =>
      SetGeometryKeepsInv(f, g, force);
      DeferredMovesAreNotLost(SetGeometry(f, g, force), rest);
    case PlainResizeThen(s, force, rest) =>
      PlainResizeKeepsInv(f, s, force);
      DeferredMovesAreNotLost(PlainResize(f, s, force), rest);
    case MoveThen(q, force, rest) =>
      MoveKeepsInv(f, q, force);
      DeferredMovesAreNotLost(Move(f, q, force), rest);
    case BlockedThen(body, rest) =>
      BlocksKeepInv(f);
      var inner := Run(Block(f), body);
      DeferredMovesAreNotLost(Block(f), body);
      BlocksKeepInv(inner);
      DeferredMovesAreNotLost(Unblock(inner), rest);
  }

}
