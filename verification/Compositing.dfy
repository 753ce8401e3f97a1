/** The scheduler of frames: what has to be repainted, one timer, and at most one swap of
    buffers that is under way. */
module Compositing {
  import opened FrameTiming
  import opened Geometry

  /** Regions are sets of pixels, windows are numbers. */
  type Region = set<int>

  datatype Config = Config(screen: Region, usesOverlay: bool, syncsToVBlank: bool, clock: Clock) {
    predicate IsValid() { clock.IsValid() }
  }

  datatype Timer = Stopped | Running(ms: nat)

  /** `painted` holds the regions of all frames so far; `swaps` and `completed` count the swaps. */
  datatype State = State(
    hasScene: bool, starting: bool, overlayVisible: bool, outputsEnabled: bool,
    bufferSwapPending: bool, composeAtSwapCompletion: bool, timer: Timer, elapsed: int,
    repaints: Region, windowRepaints: set<int>,
    painted: seq<Region>, swaps: nat, completed: nat)
  {
    predicate NeedsPaint() { repaints != {} || windowRepaints != {} }
  }

  /** What the scene and the effects do while a frame is painted. */
  datatype PaintAction = Add(region: Region) | AddAll | AddWindow(window: int) | CleanWindow(cleaned: int) | AnnounceSwap

  datatype Paint = Paint(actions: seq<PaintAction>, elapsed: int)

  datatype Event =
    | CreateScene(visible: bool)
    | Start(damaged: set<int>, paint: Paint)
    | Finish
    | AddRepaint(region: Region)
    | AddRepaintFull
    | WindowNeedsRepaint(window: int)
    | TimerFires(damaged: set<int>, paint: Paint)
    | SwapCompletes(damaged: set<int>, paint: Paint)
    | OverlayVisibility(visible: bool)
    | OutputsEnabled(enabled: bool)
    | SessionLeaves

  // ---------------------------------------------------------------- the operations

  function SetTimer(c: Config, s: State): (r: State)
    requires c.IsValid()
    ensures r == s.(timer := r.timer)
  {
    if !s.hasScene || s.starting then s
    else if s.bufferSwapPending && s.composeAtSwapCompletion then s
    else if !s.outputsEnabled then s
    else s.(timer := Running(TimerInterval(c.clock, s.elapsed)))
  }

  function Schedule(c: Config, s: State): (r: State)
    requires c.IsValid()
    ensures r == s.(timer := r.timer)
  {
    if s.timer.Running? then s else SetTimer(c, s)
  }

  function Repainted(c: Config, s: State, region: Region): (r: State)
    requires c.IsValid()
    ensures SameButRequests(s, r)
  {
    if !s.hasScene then s else Schedule(c, s.(repaints := s.repaints + region))
  }

  function RepaintedFull(c: Config, s: State): (r: State)
    requires c.IsValid()
    ensures SameButRequests(s, r)
  {
    if !s.hasScene then s else Schedule(c, s.(repaints := c.screen))
  }

  function WindowsRepainted(c: Config, s: State, windows: set<int>): (r: State)
    requires c.IsValid()
    ensures SameButRequests(s, r)
  {
    if !s.hasScene || windows == {} then s else Schedule(c, s.(windowRepaints := s.windowRepaints + windows))
  }

  function SwapAnnounced(s: State): State
    requires !s.bufferSwapPending
  {
    s.(bufferSwapPending := true, swaps := s.swaps + 1)
  }

  predicate SameButRequests(s: State, t: State) {
    && t.hasScene == s.hasScene && t.starting == s.starting && t.elapsed == s.elapsed
    && t.overlayVisible == s.overlayVisible && t.outputsEnabled == s.outputsEnabled
    && t.composeAtSwapCompletion == s.composeAtSwapCompletion
    && t.painted == s.painted && t.completed == s.completed
  }

  function Acted(c: Config, s: State, action: PaintAction): (r: State)
    requires c.IsValid() && (action.AnnounceSwap? ==> !s.bufferSwapPending)
    ensures SameButRequests(s, r)
    ensures r.bufferSwapPending <==> s.bufferSwapPending || action.AnnounceSwap?
    ensures r.swaps == s.swaps + (if action.AnnounceSwap? then 1 else 0)
  {
    match action
    case Add(region) => Repainted(c, s, region)
    case AddAll => RepaintedFull(c, s)
    case AddWindow(w) => WindowsRepainted(c, s, {w})
    case CleanWindow(w) => s.(windowRepaints := s.windowRepaints - {w})
    case AnnounceSwap => SwapAnnounced(s)
  }

  /** A scene announces one swap for a frame, or none. */
  predicate IsFrame(actions: seq<PaintAction>) {
    forall i, j | 0 <= i < j < |actions| :: !(actions[i].AnnounceSwap? && actions[j].AnnounceSwap?)
  }

  function AllActed(c: Config, s: State, actions: seq<PaintAction>): (r: State)
    requires c.IsValid() && IsFrame(actions)
    requires s.bufferSwapPending ==> AnnounceSwap !in actions
    ensures r.bufferSwapPending <==> s.bufferSwapPending || AnnounceSwap in actions
    ensures r.swaps == s.swaps + (if AnnounceSwap in actions then 1 else 0)
    ensures SameButRequests(s, r)
  {
    if actions == [] then s
    else
      var n := |actions| - 1;
      var before := AllActed(c, s, actions[..n]);
      assert actions == actions[..n] + [actions[n]];
      Acted(c, before, actions[n])
  }

  predicate CanPaint(c: Config, s: State) {
    !(c.usesOverlay && !s.overlayVisible) && !s.bufferSwapPending && s.outputsEnabled
  }

  function Composed(c: Config, s: State, damaged: set<int>, paint: Paint): (r: State)
    requires c.IsValid() && IsFrame(paint.actions)
    ensures s.painted <= r.painted
  {
    if c.usesOverlay && !s.overlayVisible then s
    else if s.bufferSwapPending then s.(composeAtSwapCompletion := true, timer := Stopped)
    else if !s.outputsEnabled then s.(timer := Stopped)
    else Frame(c, WindowsRepainted(c, s, damaged), paint)
  }

  function Frame(c: Config, s: State, paint: Paint): (r: State)
    requires c.IsValid() && IsFrame(paint.actions) && !s.bufferSwapPending
    ensures r.painted == if s.NeedsPaint() then s.painted + [s.repaints] else s.painted
  {
    if !s.NeedsPaint() then s.(elapsed := c.clock.StartNow(), timer := Stopped)
    else
      var start := s.(repaints := {}, painted := s.painted + [s.repaints]);
      Rescheduled(c, AllActed(c, start, paint.actions).(elapsed := paint.elapsed, timer := Stopped))
  }

  /** After a frame there is one more pass at least. */
  function Rescheduled(c: Config, s: State): (r: State)
    requires c.IsValid()
    ensures r.painted == s.painted
  {
    if s.bufferSwapPending && c.syncsToVBlank then s.(composeAtSwapCompletion := true) else Schedule(c, s)
  }

  function SwapCompleted(c: Config, s: State, damaged: set<int>, paint: Paint): (r: State)
    requires c.IsValid() && IsFrame(paint.actions)
    ensures s.painted <= r.painted
  {
    var done := s.(bufferSwapPending := false, completed := s.completed + 1);
    if s.composeAtSwapCompletion then Composed(c, done.(composeAtSwapCompletion := false), damaged, paint) else done
  }

  function Started(c: Config, s: State, damaged: set<int>, paint: Paint): (r: State)
    requires c.IsValid() && IsFrame(paint.actions)
    ensures s.painted <= r.painted
  {
    var full := RepaintedFull(c, Schedule(c, s.(elapsed := c.clock.StartNow())));
    Composed(c, full.(starting := false), damaged, paint)
  }

  function VisibilityChanged(c: Config, s: State, visible: bool): (r: State)
    requires c.IsValid()
    ensures r.painted == s.painted
  {
    var changed := s.(overlayVisible := visible);
    Schedule(c, if !s.overlayVisible && visible then RepaintedFull(c, changed) else changed)
  }

  // ---------------------------------------------------------------- runs

  predicate Possible(c: Config, s: State, e: Event) {
    match e
    case CreateScene(visible) => !s.hasScene
    case Start(damaged, paint) => s.starting && IsFrame(paint.actions)
    case Finish => s.hasScene && !s.bufferSwapPending
    case TimerFires(damaged, paint) => s.timer.Running? && IsFrame(paint.actions)
    case SwapCompletes(damaged, paint) => s.bufferSwapPending && IsFrame(paint.actions)
    case OverlayVisibility(visible) => s.hasScene && c.usesOverlay
    case SessionLeaves => s.hasScene && !s.starting && !s.bufferSwapPending
    case _ => true
  }

  /** Frames are only ever added. */
  function Step(c: Config, s: State, e: Event): (r: State)
    requires c.IsValid() && Possible(c, s, e)
    ensures s.painted <= r.painted
  {
    match e
    case CreateScene(visible) => s.(hasScene := true, starting := true, overlayVisible := visible)
    case Start(damaged, paint) => Started(c, s, damaged, paint)
    case Finish => s.(hasScene := false, starting := false, timer := Stopped, repaints := {}, windowRepaints := {})
    case AddRepaint(region) => Repainted(c, s, region)
    case AddRepaintFull => RepaintedFull(c, s)
    case WindowNeedsRepaint(w) => WindowsRepainted(c, s, {w})
    case TimerFires(damaged, paint) => Composed(c, s, damaged, paint)
    case SwapCompletes(damaged, paint) => SwapCompleted(c, s, damaged, paint)
    case OverlayVisibility(visible) => VisibilityChanged(c, s, visible)
    case OutputsEnabled(enabled) =>
      if enabled then RepaintedFull(c, s.(outputsEnabled := true)) else s.(outputsEnabled := false)
    case SessionLeaves => SwapAnnounced(s)
  }

  predicate Legal(c: Config, s: State, events: seq<Event>)
    requires c.IsValid()
    decreases |events|
  {
    events == [] || (Possible(c, s, events[0]) && Legal(c, Step(c, s, events[0]), events[1..]))
  }

  function Run(c: Config, s: State, events: seq<Event>): State
    requires c.IsValid() && Legal(c, s, events)
    decreases |events|
  {
    if events == [] then s else Run(c, Step(c, s, events[0]), events[1..])
  }

  predicate Live(c: Config, s: State) {
    s.hasScene && !s.starting && s.outputsEnabled && (c.usesOverlay ==> s.overlayVisible)
  }

  /** Whatever must be repainted will be: by the timer, or when the swap under way completes. */
  predicate Inv(c: Config, s: State) {
    && (Live(c, s) && s.NeedsPaint() ==> s.timer.Running? || s.composeAtSwapCompletion)
    && (s.composeAtSwapCompletion ==> s.bufferSwapPending && s.timer == Stopped)
    && (s.timer.Running? ==> s.hasScene && !s.starting && s.timer.ms <= 250)
    && (s.starting ==> s.hasScene && !s.bufferSwapPending)
    && (!s.hasScene ==> !s.NeedsPaint() && !s.bufferSwapPending && !s.starting)
    && s.swaps == s.completed + (if s.bufferSwapPending then 1 else 0)
  }

  lemma FrameKeepsInv(c: Config, s: State, paint: Paint)
    requires c.IsValid() && IsFrame(paint.actions) && !s.bufferSwapPending && !s.composeAtSwapCompletion
    requires s.hasScene && !s.starting && s.outputsEnabled && s.swaps == s.completed
    ensures Inv(c, Frame(c, s, paint))
  {
  }

  lemma ComposedKeepsInv(c: Config, s: State, damaged: set<int>, paint: Paint)
    requires c.IsValid() && IsFrame(paint.actions)
    requires s.hasScene && !s.starting
    requires s.composeAtSwapCompletion ==> s.bufferSwapPending && s.timer == Stopped
    requires s.timer.Running? ==> s.timer.ms <= 250
    requires s.swaps == s.completed + (if s.bufferSwapPending then 1 else 0)
    ensures Inv(c, Composed(c, s, damaged, paint))
  {
    if CanPaint(c, s) {
      FrameKeepsInv(c, WindowsRepainted(c, s, damaged), paint);
    }
  }

  lemma StartKeepsInv(c: Config, s: State, damaged: set<int>, paint: Paint)
    requires c.IsValid() && Inv(c, s) && s.starting && IsFrame(paint.actions)
    ensures Inv(c, Started(c, s, damaged, paint))
  {
    var full := RepaintedFull(c, Schedule(c, s.(elapsed := c.clock.StartNow())));
    ComposedKeepsInv(c, full.(starting := false), damaged, paint);
  }

  lemma CompletionKeepsInv(c: Config, s: State, damaged: set<int>, paint: Paint)
    requires c.IsValid() && Inv(c, s) && s.bufferSwapPending && IsFrame(paint.actions)
    ensures Inv(c, SwapCompleted(c, s, damaged, paint))
  {
    var done := s.(bufferSwapPending := false, completed := s.completed + 1);
    if s.composeAtSwapCompletion {
      ComposedKeepsInv(c, done.(composeAtSwapCompletion := false), damaged, paint);
      assert SwapCompleted(c, s, damaged, paint) == Composed(c, done.(composeAtSwapCompletion := false), damaged, paint);
    } else {
      assert SwapCompleted(c, s, damaged, paint) == done;
    }
  }

  lemma RepaintsKeepInv(c: Config, s: State, region: Region, windows: set<int>)
    requires c.IsValid() && Inv(c, s)
    ensures Inv(c, Repainted(c, s, region)) && Inv(c, WindowsRepainted(c, s, windows))
  {
  }

  /** The events that neither compose nor name a region. */
  predicate IsSwitch(e: Event) {
    e.CreateScene? || e.Finish? || e.AddRepaintFull? || e.OverlayVisibility? || e.OutputsEnabled? || e.SessionLeaves?
  }

  lemma SwitchKeepsInv(c: Config, s: State, e: Event)
    requires c.IsValid() && Inv(c, s) && IsSwitch(e) && Possible(c, s, e)
    ensures Inv(c, Step(c, s, e))
  {
    if e.OverlayVisibility? {
      OverlayKeepsInv(c, s, e.visible);
    }
  }

  lemma OverlayKeepsInv(c: Config, s: State, visible: bool)
    requires c.IsValid() && Inv(c, s) && s.hasScene && c.usesOverlay
    ensures Inv(c, VisibilityChanged(c, s, visible))
  {
  }

  lemma StepKeepsInv(c: Config, s: State, e: Event)
    requires c.IsValid() && Inv(c, s) && Possible(c, s, e)
    ensures Inv(c, Step(c, s, e))
  {
    match e
    case Start(damaged, paint) => StartKeepsInv(c, s, damaged, paint);
    case AddRepaint(region) => RepaintsKeepInv(c, s, region, {});
    case WindowNeedsRepaint(w) => RepaintsKeepInv(c, s, {}, {w});
    case TimerFires(damaged, paint) => ComposedKeepsInv(c, s, damaged, paint);
    case SwapCompletes(damaged, paint) => CompletionKeepsInv(c, s, damaged, paint);
    case _ => SwitchKeepsInv(c, s, e);
  }

  lemma {:induction false} RunKeepsInv(c: Config, s: State, events: seq<Event>)
    requires c.IsValid() && Inv(c, s) && Legal(c, s, events)
    ensures Inv(c, Run(c, s, events))
    decreases |events|
  {
    if events != [] {
      StepKeepsInv(c, s, events[0]);
      RunKeepsInv(c, Step(c, s, events[0]), events[1..]);
    }
  }

  // ---------------------------------------------------------------- one pass

  /** A pass paints a frame exactly if it may paint and something is requested or damaged; it paints the
      requested region. After a frame there is another pass, and after a pass without one there is
      none until something is asked for. */
  lemma PassOutcome(c: Config, s: State, damaged: set<int>, paint: Paint)
    requires c.IsValid() && IsFrame(paint.actions) && Inv(c, s) && s.hasScene && !s.starting
    ensures
      var r := Composed(c, s, damaged, paint);
      var paints := CanPaint(c, s) && (s.NeedsPaint() || damaged != {});
      && r.painted == s.painted + (if paints then [s.repaints] else [])
      && (paints ==> (r.timer.Running? || r.composeAtSwapCompletion) && r.elapsed == paint.elapsed)
      && (CanPaint(c, s) && !paints ==> r == s.(timer := Stopped, elapsed := c.clock.StartNow()))
      && (c.usesOverlay && !s.overlayVisible ==> r == s)
      && (!CanPaint(c, s) && (c.usesOverlay ==> s.overlayVisible) ==>
            r == s.(timer := Stopped, composeAtSwapCompletion := s.composeAtSwapCompletion || s.bufferSwapPending))
  {
    if CanPaint(c, s) && (s.NeedsPaint() || damaged != {}) {
      AnotherPassFollows(c, WindowsRepainted(c, s, damaged), paint);
    }
  }

  /** The timer is started where there is a scene to show and no swap to wait for; a running timer is left alone. */
  lemma SchedulingStarts(c: Config, s: State)
    requires c.IsValid()
    ensures
      var r := Schedule(c, s);
      var starts := s.hasScene && !s.starting && s.outputsEnabled && !(s.bufferSwapPending && s.composeAtSwapCompletion);
      && (s.timer.Running? || !starts ==> r == s)
      && (!s.timer.Running? && starts ==> r == s.(timer := Running(TimerInterval(c.clock, s.elapsed))))
  {
  }

  /** The first pass renders the whole screen, unless it may not paint; then it stays requested. */
  lemma StartPaintsAll(c: Config, s: State, damaged: set<int>, paint: Paint)
    requires c.IsValid() && IsFrame(paint.actions) && Inv(c, s) && s.starting && c.screen != {}
    ensures
      var r := Started(c, s, damaged, paint);
      && !r.starting
      && (CanPaint(c, s) ==> r.painted == s.painted + [c.screen])
      && (!CanPaint(c, s) ==> r.painted == s.painted && r.repaints == c.screen && r.elapsed == c.clock.StartNow())
  {
    var full := RepaintedFull(c, Schedule(c, s.(elapsed := c.clock.StartNow())));
    if CanPaint(c, s) {
      assert full.NeedsPaint();
    }
  }

  /** A scene begins with its start-up pass still to come, and ends with nothing requested and no timer. */
  lemma SceneComesAndGoes(c: Config, s: State, visible: bool)
    requires c.IsValid() && Inv(c, s)
    ensures
      !s.hasScene ==>
        var r := Step(c, s, CreateScene(visible));
        r.hasScene && r.starting && r.overlayVisible == visible && !r.NeedsPaint() && r.painted == s.painted
    ensures
      s.hasScene && !s.bufferSwapPending ==>
        var r := Step(c, s, Finish);
        !r.hasScene && !r.starting && r.timer == Stopped && !r.NeedsPaint() && r.painted == s.painted
  {
  }

  /** What becomes visible again is repainted in full; nothing else asks for a repaint. */
  lemma VisibilityRepaints(c: Config, s: State, on: bool)
    requires c.IsValid() && Inv(c, s) && s.hasScene
    ensures
      var r := VisibilityChanged(c, s, on);
      && r.overlayVisible == on && r.outputsEnabled == s.outputsEnabled
      && r.repaints == if on && !s.overlayVisible then c.screen else s.repaints
    ensures
      var r := Step(c, s, OutputsEnabled(on));
      r.outputsEnabled == on && r.overlayVisible == s.overlayVisible && r.repaints == if on then c.screen else s.repaints
  {
  }

  lemma AnotherPassFollows(c: Config, s: State, paint: Paint)
    requires c.IsValid() && IsFrame(paint.actions) && !s.bufferSwapPending && !s.composeAtSwapCompletion
    requires s.hasScene && !s.starting && s.outputsEnabled && s.NeedsPaint()
    ensures
      var r := Frame(c, s, paint);
      (r.timer.Running? || r.composeAtSwapCompletion) && r.painted == s.painted + [s.repaints] && r.elapsed == paint.elapsed
    ensures Frame(c, s, paint).composeAtSwapCompletion <==> AnnounceSwap in paint.actions && c.syncsToVBlank
  {
  }

  /** What is asked for while the scene paints is not part of that frame, and waits for the next. */
  lemma {:induction false} RequestsWhilePaintingStay(c: Config, s: State, actions: seq<PaintAction>, i: nat, pixel: int)
    requires c.IsValid() && IsFrame(actions) && s.hasScene
    requires s.bufferSwapPending ==> AnnounceSwap !in actions
    requires i < |actions| && pixel in c.screen
    requires actions[i] == AddAll || (actions[i].Add? && pixel in actions[i].region)
    ensures AllActed(c, s, actions).hasScene && pixel in AllActed(c, s, actions).repaints
    decreases |actions|
  {
    var n := |actions| - 1;
    assert actions == actions[..n] + [actions[n]];
    SceneStays(c, s, actions[..n]);
    if i < n {
      RequestsWhilePaintingStay(c, s, actions[..n], i, pixel);
    }
    ActedRequests(c, AllActed(c, s, actions[..n]), actions[n], pixel);
  }

  lemma SceneStays(c: Config, s: State, actions: seq<PaintAction>)
    requires c.IsValid() && IsFrame(actions)
    requires s.bufferSwapPending ==> AnnounceSwap !in actions
    ensures AllActed(c, s, actions).hasScene == s.hasScene
  {
  }

  /** A window is to be repainted after these actions. */
  predicate WantsRepaint(actions: seq<PaintAction>, w: int, before: bool)
    decreases |actions|
  {
    if actions == [] then before
    else
      match actions[|actions| - 1]
      case AddWindow(v) => v == w || WantsRepaint(actions[..|actions| - 1], w, before)
      case CleanWindow(v) => v != w && WantsRepaint(actions[..|actions| - 1], w, before)
      case _ => WantsRepaint(actions[..|actions| - 1], w, before)
  }

  /** Painting a window settles its own requests, and only its own; new ones wait for the next frame. */
  lemma {:induction false} WindowRequests(c: Config, s: State, actions: seq<PaintAction>, w: int)
    requires c.IsValid() && IsFrame(actions) && s.hasScene
    requires s.bufferSwapPending ==> AnnounceSwap !in actions
    ensures AllActed(c, s, actions).hasScene
    ensures w in AllActed(c, s, actions).windowRepaints <==> WantsRepaint(actions, w, w in s.windowRepaints)
    decreases |actions|
  {
    if actions != [] {
      var n := |actions| - 1;
      assert actions == actions[..n] + [actions[n]];
      WindowRequests(c, s, actions[..n], w);
      ActedWindows(c, AllActed(c, s, actions[..n]), actions[n], w);
    }
  }

  lemma ActedWindows(c: Config, s: State, action: PaintAction, w: int)
    requires c.IsValid() && s.hasScene && (action.AnnounceSwap? ==> !s.bufferSwapPending)
    ensures
      w in Acted(c, s, action).windowRepaints
      <==> action == AddWindow(w) || (w in s.windowRepaints && action != CleanWindow(w))
  {
  }

  lemma ActedRequests(c: Config, s: State, action: PaintAction, pixel: int)
    requires c.IsValid() && s.hasScene && (action.AnnounceSwap? ==> !s.bufferSwapPending) && pixel in c.screen
    ensures pixel in Acted(c, s, action).repaints
       <==> pixel in s.repaints || action == AddAll || (action.Add? && pixel in action.region)
  {
  }

  lemma FrameLeavesRequests(c: Config, s: State, damaged: set<int>, paint: Paint, i: nat, pixel: int)
    requires c.IsValid() && IsFrame(paint.actions) && s.hasScene && CanPaint(c, s) && (s.NeedsPaint() || damaged != {})
    requires i < |paint.actions| && pixel in c.screen
    requires paint.actions[i] == AddAll || (paint.actions[i].Add? && pixel in paint.actions[i].region)
    ensures pixel in Composed(c, s, damaged, paint).repaints
  {
    var t := WindowsRepainted(c, s, damaged);
    RequestsWhilePaintingStay(c, t.(repaints := {}, painted := t.painted + [t.repaints]), paint.actions, i, pixel);
  }

  // ---------------------------------------------------------------- nothing is lost

  /** The frames from the `n`-th on paint the pixel. */
  predicate PaintedSince(s: State, n: nat, pixel: int) {
    exists k :: n <= k < |s.painted| && pixel in s.painted[k]
  }

  lemma FrameKeepsPixel(c: Config, s: State, paint: Paint, pixel: int)
    requires c.IsValid() && IsFrame(paint.actions) && !s.bufferSwapPending
    requires pixel in s.repaints
    ensures
      var r := Frame(c, s, paint);
      r.painted == s.painted + [s.repaints] && PaintedSince(r, |s.painted|, pixel)
  {
    assert s.NeedsPaint();
    assert Frame(c, s, paint).painted[|s.painted|] == s.repaints;
  }

  lemma ComposedKeepsPixel(c: Config, s: State, damaged: set<int>, paint: Paint, pixel: int)
    requires c.IsValid() && IsFrame(paint.actions)
    requires pixel in s.repaints
    ensures
      var r := Composed(c, s, damaged, paint);
      if CanPaint(c, s) then PaintedSince(r, |s.painted|, pixel) && s.painted <= r.painted
      else pixel in r.repaints && r.painted == s.painted
  {
    if CanPaint(c, s) {
      FrameKeepsPixel(c, WindowsRepainted(c, s, damaged), paint, pixel);
    }
  }

  lemma StepKeepsPixel(c: Config, s: State, e: Event, pixel: int)
    requires c.IsValid() && Inv(c, s) && Possible(c, s, e) && !e.Finish?
    requires pixel in s.repaints && pixel in c.screen
    ensures
      var r := Step(c, s, e);
      PaintedSince(r, |s.painted|, pixel) || (pixel in r.repaints && r.painted == s.painted)
  {
    match e
    case Start(damaged, paint) =>
      var full := RepaintedFull(c, Schedule(c, s.(elapsed := c.clock.StartNow())));
      ComposedKeepsPixel(c, full.(starting := false), damaged, paint, pixel);
    case TimerFires(damaged, paint) => ComposedKeepsPixel(c, s, damaged, paint, pixel);
    case SwapCompletes(damaged, paint) =>
      if s.composeAtSwapCompletion {
        var done := s.(bufferSwapPending := false, completed := s.completed + 1, composeAtSwapCompletion := false);
        ComposedKeepsPixel(c, done, damaged, paint, pixel);
      }
    case _ =>
  }

  lemma {:induction false} RunPaintedGrows(c: Config, s: State, events: seq<Event>)
    requires c.IsValid() && Legal(c, s, events)
    ensures s.painted <= Run(c, s, events).painted
    decreases |events|
  {
    if events != [] {
      RunPaintedGrows(c, Step(c, s, events[0]), events[1..]);
    }
  }

  /** A pixel of the screen that must be repainted stays so until a frame paints it. */
  lemma {:induction false} PixelIsNotLost(c: Config, s: State, events: seq<Event>, pixel: int)
    requires c.IsValid() && Inv(c, s) && Legal(c, s, events) && Finish !in events
    requires pixel in s.repaints && pixel in c.screen
    ensures
      var r := Run(c, s, events);
      PaintedSince(r, |s.painted|, pixel) || pixel in r.repaints
    decreases |events|
  {
    if events != [] {
      var next := Step(c, s, events[0]);
      StepKeepsInv(c, s, events[0]);
      StepKeepsPixel(c, s, events[0], pixel);
      RunPaintedGrows(c, next, events[1..]);
      if PaintedSince(next, |s.painted|, pixel) {
        var k :| |s.painted| <= k < |next.painted| && pixel in next.painted[k];
        assert pixel in Run(c, next, events[1..]).painted[k];
      } else {
        PixelIsNotLost(c, next, events[1..], pixel);
      }
    }
  }

  // ---------------------------------------------------------------- a frame comes soon

  /** Events that do not hide the screen, or take the session away. */
  predicate Ordinary(e: Event) {
    e.AddRepaint? || e.AddRepaintFull? || e.WindowNeedsRepaint? || Progress(e)
  }

  predicate Progress(e: Event) { e.TimerFires? || e.SwapCompletes? }

  function ProgressCount(events: seq<Event>): nat {
    if events == [] then 0 else (if Progress(events[0]) then 1 else 0) + ProgressCount(events[1..])
  }

  /** How many timer or swap events it takes at most until a frame. */
  function Rank(s: State): nat {
    if s.bufferSwapPending && !s.composeAtSwapCompletion then 2 else 1
  }

  /** While something must be repainted on a visible screen, the timer can fire or the swap under
      way can complete, whatever is damaged and painted then. */
  lemma ProgressIsPossible(c: Config, s: State, damaged: set<int>, paint: Paint) returns (e: Event)
    requires Inv(c, s) && Live(c, s) && s.NeedsPaint() && IsFrame(paint.actions)
    ensures Possible(c, s, e) && Progress(e) && Ordinary(e)
  {
    e := if s.timer.Running? then TimerFires(damaged, paint) else SwapCompletes(damaged, paint);
  }

  lemma StepComesNearer(c: Config, s: State, e: Event, pixel: int)
    requires c.IsValid() && Inv(c, s) && Live(c, s) && Possible(c, s, e) && Ordinary(e)
    requires pixel in s.repaints && pixel in c.screen
    ensures
      var r := Step(c, s, e);
      || PaintedSince(r, |s.painted|, pixel)
      || (Live(c, r) && Rank(r) <= Rank(s) - (if Progress(e) then 1 else 0))
  {
    StepKeepsPixel(c, s, e, pixel);
    match e
    case TimerFires(damaged, paint) => ComposedKeepsPixel(c, s, damaged, paint, pixel);
    case SwapCompletes(damaged, paint) =>
      if s.composeAtSwapCompletion {
        var done := s.(bufferSwapPending := false, completed := s.completed + 1, composeAtSwapCompletion := false);
        ComposedKeepsPixel(c, done, damaged, paint, pixel);
      }
    case _ =>
  }

  /** While the screen is visible, a pixel that must be repainted is painted after two timer or
      swap events at the latest, whatever repaints are asked for in between. */
  lemma {:induction false} PixelIsPaintedSoon(c: Config, s: State, events: seq<Event>, pixel: int)
    requires c.IsValid() && Inv(c, s) && Live(c, s) && Legal(c, s, events)
    requires forall e | e in events :: Ordinary(e)
    requires pixel in s.repaints && pixel in c.screen
    requires ProgressCount(events) >= Rank(s)
    ensures PaintedSince(Run(c, s, events), |s.painted|, pixel)
    decreases |events|
  {
    var e := events[0];
    var next := Step(c, s, e);
    StepKeepsInv(c, s, e);
    StepKeepsPixel(c, s, e, pixel);
    StepComesNearer(c, s, e, pixel);
    RunPaintedGrows(c, next, events[1..]);
    if PaintedSince(next, |s.painted|, pixel) {
      var k :| |s.painted| <= k < |next.painted| && pixel in next.painted[k];
      assert pixel in Run(c, next, events[1..]).painted[k];
    } else {
      PixelIsPaintedSoon(c, next, events[1..], pixel);
    }
  }

  /** And two such events, or one, can always happen and do paint it. */
  lemma {:induction false} PixelCanBePainted(c: Config, s: State, pixel: int, damaged: set<int>, paint: Paint)
    returns (events: seq<Event>)
    requires c.IsValid() && Inv(c, s) && Live(c, s) && IsFrame(paint.actions)
    requires pixel in s.repaints && pixel in c.screen
    ensures |events| <= Rank(s) && (forall e | e in events :: Progress(e)) && Legal(c, s, events)
    ensures PaintedSince(Run(c, s, events), |s.painted|, pixel)
    decreases Rank(s)
  {
    var e := ProgressIsPossible(c, s, damaged, paint);
    var next := Step(c, s, e);
    StepKeepsInv(c, s, e);
    StepKeepsPixel(c, s, e, pixel);
    StepComesNearer(c, s, e, pixel);
    var rest := [];
    if !PaintedSince(next, |s.painted|, pixel) {
      rest := PixelCanBePainted(c, next, pixel, damaged, paint);
    }
    events := [e] + rest;
    assert events[1..] == rest;
    assert Legal(c, next, rest) && Run(c, s, events) == Run(c, next, rest);
  }

  lemma ComposedPaints(c: Config, s: State, damaged: set<int>, paint: Paint)
    requires c.IsValid() && IsFrame(paint.actions) && CanPaint(c, s) && s.NeedsPaint()
    ensures |Composed(c, s, damaged, paint).painted| == |s.painted| + 1
  {
  }

  lemma StepComesNearerAnyFrame(c: Config, s: State, e: Event)
    requires c.IsValid() && Inv(c, s) && Live(c, s) && Possible(c, s, e) && Ordinary(e)
    requires s.NeedsPaint() && c.screen != {}
    ensures
      var r := Step(c, s, e);
      || |r.painted| > |s.painted|
      || (Live(c, r) && r.NeedsPaint() && Rank(r) <= Rank(s) - (if Progress(e) then 1 else 0))
  {
    match e
    case TimerFires(damaged, paint) =>
      if CanPaint(c, s) {
        ComposedPaints(c, s, damaged, paint);
      }
    case SwapCompletes(damaged, paint) =>
      if s.composeAtSwapCompletion {
        var done := s.(bufferSwapPending := false, completed := s.completed + 1, composeAtSwapCompletion := false);
        ComposedPaints(c, done, damaged, paint);
      }
    case _ =>
  }

  /** The same for what windows ask for on their own: some frame comes after two such events. */
  lemma {:induction false} FrameComesSoon(c: Config, s: State, events: seq<Event>)
    requires c.IsValid() && Inv(c, s) && Live(c, s) && Legal(c, s, events)
    requires forall e | e in events :: Ordinary(e)
    requires s.NeedsPaint() && c.screen != {}
    requires ProgressCount(events) >= Rank(s)
    ensures |Run(c, s, events).painted| > |s.painted|
    decreases |events|
  {
    var next := Step(c, s, events[0]);
    StepKeepsInv(c, s, events[0]);
    StepComesNearerAnyFrame(c, s, events[0]);
    RunPaintedGrows(c, next, events[1..]);
    if |next.painted| == |s.painted| {
      FrameComesSoon(c, next, events[1..]);
    }
  }

  // ---------------------------------------------------------------- the object

  class Compositor {
    const config: Config
    var hasScene: bool
    var starting: bool
    var overlayVisible: bool
    var outputsEnabled: bool
    var bufferSwapPending: bool
    var composeAtSwapCompletion: bool
    var compositeTimer: Timer
    var timeSinceLastVBlank: int
    var repaintsRegion: Region
    var windowRepaints: set<int>
    ghost var painted: seq<Region>
    ghost var swaps: nat
    ghost var completed: nat

    ghost function Now(): State
      reads this
    {
      State(hasScene, starting, overlayVisible, outputsEnabled, bufferSwapPending, composeAtSwapCompletion,
            compositeTimer, timeSinceLastVBlank, repaintsRegion, windowRepaints, painted, swaps, completed)
    }

    constructor (config: Config, outputsEnabled: bool)
      requires config.IsValid()
      ensures this.config == config && Inv(config, Now()) && !hasScene
    {
      this.config, this.outputsEnabled := config, outputsEnabled;
      hasScene, starting, overlayVisible, bufferSwapPending, composeAtSwapCompletion := false, false, false, false, false;
      compositeTimer, timeSinceLastVBlank, repaintsRegion, windowRepaints := Stopped, 0, {}, {};
      painted, swaps, completed := [], 0, 0;
    }

    method ScheduleRepaint()
      requires config.IsValid()
      modifies `compositeTimer
      ensures Now() == Schedule(config, old(Now()))
    {
      if compositeTimer == Stopped {
        SetCompositeTimer();
      }
    }

    method SetCompositeTimer()
      requires config.IsValid()
      modifies `compositeTimer
      ensures Now() == SetTimer(config, old(Now()))
    {
      if !hasScene || starting {
        return;
      }
      if bufferSwapPending && composeAtSwapCompletion {
        return;
      }
      if !outputsEnabled {
        return;
      }
      var clock, vBlank := config.clock, config.clock.vBlankInterval;
      var waitTime := 1;
      if clock.blocksForRetrace {
        var padding := timeSinceLastVBlank;
        if padding > clock.fpsInterval {
          padding := vBlank - Remainder(padding, vBlank);
        } else {
          padding := (vBlank - Remainder(padding, vBlank)) + (Quotient(clock.fpsInterval, vBlank) - 1) * vBlank;
        }
        if padding < clock.vBlankTime {
          waitTime := ToUInt32(NanoToMilli(padding + vBlank - clock.vBlankTime));
        } else {
          waitTime := ToUInt32(NanoToMilli(padding - clock.vBlankTime));
        }
      } else if clock.fpsInterval > timeSinceLastVBlank {
        waitTime := ToUInt32(NanoToMilli(clock.fpsInterval - timeSinceLastVBlank));
        if waitTime == 0 {
          waitTime := 1;
        }
      }
      assert waitTime == WaitTime(clock, timeSinceLastVBlank);
      compositeTimer := Running(Min(waitTime, 250));
    }

    method AddRepaint(region: Region)
      requires config.IsValid()
      modifies `repaintsRegion, `compositeTimer
      ensures Now() == Repainted(config, old(Now()), region)
    {
      if !hasScene {
        return;
      }
      repaintsRegion := repaintsRegion + region;
      ScheduleRepaint();
    }

    method AddRepaintFull()
      requires config.IsValid()
      modifies `repaintsRegion, `compositeTimer
      ensures Now() == RepaintedFull(config, old(Now()))
    {
      if !hasScene {
        return;
      }
      repaintsRegion := config.screen;
      ScheduleRepaint();
    }

    /** Windows add to their own repaints and say so. */
    method AddWindowRepaints(windows: set<int>)
      requires config.IsValid()
      modifies `windowRepaints, `compositeTimer
      ensures Now() == WindowsRepainted(config, old(Now()), windows)
    {
      if !hasScene || windows == {} {
        return;
      }
      windowRepaints := windowRepaints + windows;
      ScheduleRepaint();
    }

    method AboutToSwapBuffers()
      requires !bufferSwapPending
      modifies `bufferSwapPending, `swaps
      ensures Now() == SwapAnnounced(old(Now()))
    {
      bufferSwapPending := true;
      swaps := swaps + 1;
    }

    method BufferSwapComplete(damaged: set<int>, paint: Paint)
      requires config.IsValid() && Inv(config, Now()) && Possible(config, Now(), SwapCompletes(damaged, paint))
      modifies this
      ensures Now() == Step(config, old(Now()), SwapCompletes(damaged, paint)) && Inv(config, Now())
    {
      CompletionKeepsInv(config, Now(), damaged, paint);
      ghost var done := Now().(bufferSwapPending := false, completed := completed + 1);
      bufferSwapPending := false;
      completed := completed + 1;
      if composeAtSwapCompletion {
        composeAtSwapCompletion := false;
        assert Now() == done.(composeAtSwapCompletion := false);
        PerformCompositing(damaged, paint);
      } else {
        assert Now() == done;
      }
    }

    /** `damaged` are the windows that turn out to be damaged, and `paint` is what the scene does. */
    method PerformCompositing(damaged: set<int>, paint: Paint)
      requires config.IsValid() && IsFrame(paint.actions)
      modifies this
      ensures Now() == Composed(config, old(Now()), damaged, paint)
    {
      if config.usesOverlay && !overlayVisible {
        return;
      }
      if bufferSwapPending {
        composeAtSwapCompletion := true;
        compositeTimer := Stopped;
        return;
      }
      if !outputsEnabled {
        compositeTimer := Stopped;
        return;
      }
      AddWindowRepaints(damaged);
      PaintFrame(paint);
    }

    method PaintFrame(paint: Paint)
      requires config.IsValid() && IsFrame(paint.actions) && !bufferSwapPending
      modifies this
      ensures Now() == Frame(config, old(Now()), paint)
    {
      if repaintsRegion == {} && windowRepaints == {} {
        timeSinceLastVBlank := config.clock.StartNow();
        compositeTimer := Stopped;
        return;
      }
      PaintRepaints(paint);
      Reschedule();
    }

    method PaintRepaints(paint: Paint)
      requires config.IsValid() && IsFrame(paint.actions) && !bufferSwapPending
      modifies this
      ensures
        var start := old(Now()).(repaints := {}, painted := old(painted) + [old(repaintsRegion)]);
        Now() == AllActed(config, start, paint.actions).(elapsed := paint.elapsed, timer := Stopped)
    {
      painted := painted + [repaintsRegion];
      repaintsRegion := {};
      PaintScene(paint.actions);
      timeSinceLastVBlank := paint.elapsed;
      compositeTimer := Stopped;
    }

    method Reschedule()
      requires config.IsValid()
      modifies `composeAtSwapCompletion, `compositeTimer
      ensures Now() == Rescheduled(config, old(Now()))
    {
      if bufferSwapPending && config.syncsToVBlank {
        composeAtSwapCompletion := true;
      } else {
        ScheduleRepaint();
      }
    }

    /** The calls that reach the compositor while the scene paints. */
    method PaintScene(actions: seq<PaintAction>)
      requires config.IsValid() && IsFrame(actions) && !bufferSwapPending
      modifies `compositeTimer, `repaintsRegion, `windowRepaints, `bufferSwapPending, `swaps
      ensures Now() == AllActed(config, old(Now()), actions)
    {
      for i := 0 to |actions|
        invariant Now() == AllActed(config, old(Now()), actions[..i])
      {
        assert actions[..i + 1][..i] == actions[..i];
        match actions[i]
        case Add(region) => AddRepaint(region);
        case AddAll => AddRepaintFull();
        case AddWindow(w) => AddWindowRepaints({w});
        case CleanWindow(w) => windowRepaints := windowRepaints - {w};
        case AnnounceSwap => AboutToSwapBuffers();
      }
      assert actions[..|actions|] == actions;
    }

    method TimerEvent(damaged: set<int>, paint: Paint)
      requires config.IsValid() && Inv(config, Now()) && Possible(config, Now(), TimerFires(damaged, paint))
      modifies this
      ensures Now() == Step(config, old(Now()), TimerFires(damaged, paint)) && Inv(config, Now())
    {
      StepKeepsInv(config, Now(), TimerFires(damaged, paint));
      PerformCompositing(damaged, paint);
    }

    method StartupWithWorkspace(damaged: set<int>, paint: Paint)
      requires config.IsValid() && Inv(config, Now()) && Possible(config, Now(), Start(damaged, paint))
      modifies this
      ensures Now() == Step(config, old(Now()), Start(damaged, paint)) && Inv(config, Now())
    {
      StepKeepsInv(config, Now(), Start(damaged, paint));
      timeSinceLastVBlank := config.clock.StartNow();
      ScheduleRepaint();
      AddRepaintFull();
      starting := false;
      PerformCompositing(damaged, paint);
    }

    method SetOverlayVisibility(visible: bool)
      requires config.IsValid() && Inv(config, Now()) && Possible(config, Now(), OverlayVisibility(visible))
      modifies this
      ensures Now() == Step(config, old(Now()), OverlayVisibility(visible)) && Inv(config, Now())
    {
      StepKeepsInv(config, Now(), OverlayVisibility(visible));
      var wasVisible := overlayVisible;
      overlayVisible := visible;
      if !wasVisible && overlayVisible {
        AddRepaintFull();
      }
      ScheduleRepaint();
    }
  }

}
