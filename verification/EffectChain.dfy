/** The chain of effects. Every effect reaches the next one by calling the handler again; which
    effect that is, is kept in iterators that all calls share. */
module EffectChain {

  /** One shared iterator each. */
  datatype Chain = Screen | Window | Draw | Frame

  datatype Hook =
    | PrePaintScreen | PaintScreen | PostPaintScreen
    | PrePaintWindow | PaintWindow | PostPaintWindow
    | DrawWindow | PaintEffectFrame
  {
    function Chain(): Chain {
      match this
      case PrePaintScreen | PaintScreen | PostPaintScreen => Screen
      case PrePaintWindow | PaintWindow | PostPaintWindow => Window
      case DrawWindow => Draw
      case PaintEffectFrame => Frame
    }

    /** Something is painted when no effect is left. */
    predicate HasFinalCode() {
      PaintScreen? || PaintWindow? || DrawWindow? || PaintEffectFrame?
    }
  }

  /** What an effect, or the scene, does: calls of the handler. `body` is what the code that such
      a call reaches does in turn, whichever effect or final code that is. */
  datatype Call = Invoke(hook: Hook, body: seq<Call>) | PaintDesktop(desktop: int, body: seq<Call>)

  datatype Event<E> = Enter(hook: Hook, effect: E) | Final(hook: Hook) | Leave(hook: Hook) | Desktop(number: int)

  datatype Iterators = Iterators(screen: int, window: int, draw: int, frame: int) {
    function At(c: Chain): int {
      match c
      case Screen => screen
      case Window => window
      case Draw => draw
      case Frame => frame
    }

    function Set(c: Chain, i: int): Iterators {
      match c
      case Screen => this.(screen := i)
      case Window => this.(window := i)
      case Draw => this.(draw := i)
      case Frame => this.(frame := i)
    }

    predicate Within(n: nat) {
      0 <= screen <= n && 0 <= window <= n && 0 <= draw <= n && 0 <= frame <= n
    }
  }

  /** `rendering` and `rendered`: a desktop is being painted, and which one was last. */
  datatype State<E> = State(iterators: Iterators, rendering: bool, rendered: int, trace: seq<Event<E>>) {
    function Traced(e: Event<E>): State<E> { this.(trace := trace + [e]) }

    function Moved(c: Chain, i: int): State<E> { this.(iterators := iterators.Set(c, i)) }
  }

  // ---------------------------------------------------------------- the handler, with shared iterators

  function Perform<E>(active: seq<E>, desktops: int, s: State<E>, calls: seq<Call>): (r: State<E>)
    requires s.iterators.Within(|active|)
    ensures r.iterators == s.iterators
    decreases calls, 0
  {
    if calls == [] then s
    else Perform(active, desktops, Performed(active, desktops, s, calls[0]), calls[1..])
  }

  function Performed<E>(active: seq<E>, desktops: int, s: State<E>, call: Call): (r: State<E>)
    requires s.iterators.Within(|active|)
    ensures r.iterators == s.iterators
    decreases call, 0
  {
    match call
    case Invoke(hook, body) => Invoked(active, desktops, s, hook, body)
    case PaintDesktop(d, body) => DesktopPainted(active, desktops, s, d, body)
  }

  function Invoked<E>(active: seq<E>, desktops: int, s: State<E>, hook: Hook, body: seq<Call>): (r: State<E>)
    requires s.iterators.Within(|active|)
    ensures r.iterators == s.iterators
    decreases body, 1
  {
    var c := hook.Chain();
    var it := s.iterators.At(c);
    if it != |active| then
      var r := Perform(active, desktops, s.Moved(c, it + 1).Traced(Enter(hook, active[it])), body);
      r.Moved(c, r.iterators.At(c) - 1).Traced(Leave(hook))
    else if hook.HasFinalCode() then
      Perform(active, desktops, s.Traced(Final(hook)), body).Traced(Leave(hook))
    else s
  }

  function DesktopPainted<E>(active: seq<E>, desktops: int, s: State<E>, d: int, body: seq<Call>): (r: State<E>)
    requires s.iterators.Within(|active|)
    ensures r.iterators == s.iterators
    decreases body, 2
  {
    if d < 1 || d > desktops then s
    else
      var start := s.(rendered := d, rendering := true).Traced(Desktop(d)).Moved(Screen, 0);
      Invoked(active, desktops, start, PaintScreen, body).Moved(Screen, s.iterators.screen).(rendering := false)
  }

  // ---------------------------------------------------------------- which effect comes next

  predicate OfScreen(h: Hook) { h.PrePaintScreen? || h.PaintScreen? || h.PostPaintScreen? }

  predicate OfWindow(h: Hook) { h.PrePaintWindow? || h.PaintWindow? || h.PostPaintWindow? }

  /** The three hooks of the screen go through the effects together, and so do the three of a window. */
  predicate SameKind(a: Hook, b: Hook) { a == b || (OfScreen(a) && OfScreen(b)) || (OfWindow(a) && OfWindow(b)) }

  /** An effect that calls a hook of the same kind reaches the next effect, and one that calls a hook of
      another kind the first one. */
  lemma NextOfKind<E>(active: seq<E>, desktops: int, s: State<E>, a: Hook, b: Hook)
    requires |active| >= 2 && s.iterators == Iterators(0, 0, 0, 0)
    ensures
      Invoked(active, desktops, s, a, [Invoke(b, [])]).trace
      == s.trace + [Enter(a, active[0]), Enter(b, active[if SameKind(a, b) then 1 else 0]), Leave(b), Leave(a)]
  {
    var call := Invoke(b, []);
    var t := s.Moved(a.Chain(), 1).Traced(Enter(a, active[0]));
    assert [call][1..] == [];
    assert Perform(active, desktops, t, [call]) == Invoked(active, desktops, t, b, []);
    KindsShare(a, b);
    EntersAt(active, desktops, t, b);
  }

  lemma KindsShare(a: Hook, b: Hook)
    ensures Iterators(0, 0, 0, 0).Set(a.Chain(), 1).At(b.Chain()) == if SameKind(a, b) then 1 else 0
  {
  }

  lemma EntersAt<E>(active: seq<E>, desktops: int, s: State<E>, hook: Hook)
    requires s.iterators.Within(|active|) && s.iterators.At(hook.Chain()) < |active|
    ensures Invoked(active, desktops, s, hook, []).trace
         == s.trace + [Enter(hook, active[s.iterators.At(hook.Chain())]), Leave(hook)]
  {
  }

  /** A desktop is painted from the first effect on, wherever the passes under way are. */
  lemma DesktopStartsAtFirst<E>(active: seq<E>, desktops: int, s: State<E>, d: int)
    requires active != [] && s.iterators.Within(|active|) && 1 <= d <= desktops
    ensures DesktopPainted(active, desktops, s, d, []).trace
         == s.trace + [Desktop(d), Enter(PaintScreen, active[0]), Leave(PaintScreen)]
    ensures DesktopPainted(active, desktops, s, d, []).rendered == d
  {
  }

  /** When no effect is left, the scene paints, if the hook is one that paints. */
  lemma PastTheLastEffect<E>(active: seq<E>, desktops: int, s: State<E>, hook: Hook)
    requires s.iterators.Within(|active|) && s.iterators.At(hook.Chain()) == |active|
    ensures
      hook.PrePaintScreen? || hook.PostPaintScreen? || hook.PrePaintWindow? || hook.PostPaintWindow?
      ==> Invoked(active, desktops, s, hook, []) == s
    ensures
      hook.PaintScreen? || hook.PaintWindow? || hook.DrawWindow? || hook.PaintEffectFrame?
      ==> Invoked(active, desktops, s, hook, []).trace == s.trace + [Final(hook), Leave(hook)]
  {
  }

  // ---------------------------------------------------------------- plain composition

  /** The effects that are still to come, for each chain: an argument, not a shared variable. */
  datatype Rest<E> = Rest(screen: seq<E>, window: seq<E>, draw: seq<E>, frame: seq<E>) {
    function Of(c: Chain): seq<E> {
      match c
      case Screen => screen
      case Window => window
      case Draw => draw
      case Frame => frame
    }

    function With(c: Chain, s: seq<E>): Rest<E> {
      match c
      case Screen => this.(screen := s)
      case Window => this.(window := s)
      case Draw => this.(draw := s)
      case Frame => this.(frame := s)
    }
  }

  function Composed<E>(all: seq<E>, desktops: int, rest: Rest<E>, calls: seq<Call>): seq<Event<E>>
    decreases calls, 0
  {
    if calls == [] then []
    else ComposedCall(all, desktops, rest, calls[0]) + Composed(all, desktops, rest, calls[1..])
  }

  function ComposedCall<E>(all: seq<E>, desktops: int, rest: Rest<E>, call: Call): seq<Event<E>>
    decreases call, 0
  {
    match call
    case Invoke(hook, body) => ComposedHook(all, desktops, rest, hook, body)
    case PaintDesktop(d, body) =>
      if d < 1 || d > desktops then []
      else [Desktop(d)] + ComposedHook(all, desktops, rest.With(Screen, all), PaintScreen, body)
  }

  /** The first of the remaining effects is entered and its calls reach the ones after it; when
      none remains, the final code is reached. */
  function ComposedHook<E>(all: seq<E>, desktops: int, rest: Rest<E>, hook: Hook, body: seq<Call>): seq<Event<E>>
    decreases body, 1
  {
    var effects := rest.Of(hook.Chain());
    if effects != [] then
      [Enter(hook, effects[0])] + Composed(all, desktops, rest.With(hook.Chain(), effects[1..]), body) + [Leave(hook)]
    else if hook.HasFinalCode() then [Final(hook)] + Composed(all, desktops, rest, body) + [Leave(hook)]
    else []
  }

  function Remaining<E>(active: seq<E>, it: Iterators): Rest<E>
    requires it.Within(|active|)
  {
    Rest(active[it.screen..], active[it.window..], active[it.draw..], active[it.frame..])
  }

  lemma RemainingFollowsIterator<E>(active: seq<E>, it: Iterators, c: Chain, i: nat)
    requires it.Within(|active|) && i <= |active|
    ensures Remaining(active, it.Set(c, i)) == Remaining(active, it).With(c, active[i..])
    ensures Remaining(active, it).Of(c) == active[it.At(c)..]
  {
  }

  /** The shared iterators do what plain composition does: whatever the effects call, each call
      reaches the effects after the caller, in their order, and at last the final code. */
  lemma {:induction false} SharedIteratorsCompose<E>(active: seq<E>, desktops: int, s: State<E>, calls: seq<Call>)
    requires s.iterators.Within(|active|)
    ensures Perform(active, desktops, s, calls).iterators == s.iterators
    ensures Perform(active, desktops, s, calls).trace
            == s.trace + Composed(active, desktops, Remaining(active, s.iterators), calls)
    decreases calls, 0
  {
    if calls != [] {
      CallComposes(active, desktops, s, calls[0]);
      SharedIteratorsCompose(active, desktops, Performed(active, desktops, s, calls[0]), calls[1..]);
    }
  }

  lemma {:induction false} CallComposes<E>(active: seq<E>, desktops: int, s: State<E>, call: Call)
    requires s.iterators.Within(|active|)
    ensures Performed(active, desktops, s, call).trace
            == s.trace + ComposedCall(active, desktops, Remaining(active, s.iterators), call)
    decreases call, 0
  {
    match call
    case Invoke(hook, body) => HookComposes(active, desktops, s, hook, body);
    case PaintDesktop(d, body) =>
      if 1 <= d <= desktops {
        RemainingFollowsIterator(active, s.iterators, Screen, 0);
        assert active[0..] == active;
        var start := s.(rendered := d, rendering := true).Traced(Desktop(d)).Moved(Screen, 0);
        HookComposes(active, desktops, start, PaintScreen, body);
      }
  }

  lemma {:induction false} HookComposes<E>(active: seq<E>, desktops: int, s: State<E>, hook: Hook, body: seq<Call>)
    requires s.iterators.Within(|active|)
    ensures Invoked(active, desktops, s, hook, body).trace
            == s.trace + ComposedHook(active, desktops, Remaining(active, s.iterators), hook, body)
    decreases body, 1
  {
    RemainingFollowsIterator(active, s.iterators, hook.Chain(), s.iterators.At(hook.Chain()));
    if Runs(active, s, hook) {
      InvokedRuns(active, desktops, s, hook, body);
      ComposedRuns(active, desktops, s, hook, body);
      var start := Begun(active, s, hook);
      SharedIteratorsCompose(active, desktops, start, body);
      Bracketed(s.trace, start.trace[|s.trace|], Composed(active, desktops, Remaining(active, start.iterators), body),
                Leave(hook));
    }
  }

  /** The state in which the code behind a hook runs. */
  function Begun<E>(active: seq<E>, s: State<E>, hook: Hook): State<E>
    requires s.iterators.Within(|active|)
  {
    var it := s.iterators.At(hook.Chain());
    if it != |active| then s.Moved(hook.Chain(), it + 1).Traced(Enter(hook, active[it])) else s.Traced(Final(hook))
  }

  /** There is code behind the hook: an effect, or final code. */
  predicate Runs<E>(active: seq<E>, s: State<E>, hook: Hook)
    requires s.iterators.Within(|active|)
  {
    s.iterators.At(hook.Chain()) != |active| || hook.HasFinalCode()
  }

  lemma InvokedRuns<E>(active: seq<E>, desktops: int, s: State<E>, hook: Hook, body: seq<Call>)
    requires s.iterators.Within(|active|) && Runs(active, s, hook)
    ensures Begun(active, s, hook).iterators.Within(|active|)
    ensures
      var inner := Perform(active, desktops, Begun(active, s, hook), body);
      var r := Invoked(active, desktops, s, hook, body);
      r.trace == inner.trace + [Leave(hook)] && r.rendering == inner.rendering
  {
  }

  /** Where the iterator is at the end, no effect remains; where it is not, the first that remains is
      entered, and the others remain for its calls. */
  lemma BegunFollows<E>(active: seq<E>, s: State<E>, hook: Hook)
    requires s.iterators.Within(|active|)
    ensures Begun(active, s, hook).iterators.Within(|active|)
    ensures
      var c, start, rest := hook.Chain(), Begun(active, s, hook), Remaining(active, s.iterators);
      var effects := rest.Of(c);
      && (effects == [] <==> s.iterators.At(c) == |active|)
      && start.trace == s.trace + [if effects == [] then Final(hook) else Enter(hook, effects[0])]
      && start.rendering == s.rendering
      && Remaining(active, start.iterators) == if effects == [] then rest else rest.With(c, effects[1..])
  {
    var c := hook.Chain();
    var it := s.iterators.At(c);
    RemainingFollowsIterator(active, s.iterators, c, it);
    if it != |active| {
      StepForward(active, s.iterators, c);
    }
  }

  lemma StepForward<E>(active: seq<E>, it: Iterators, c: Chain)
    requires it.Within(|active|) && it.At(c) != |active|
    ensures it.Set(c, it.At(c) + 1).Within(|active|)
    ensures
      var rest := Remaining(active, it);
      && rest.Of(c) != [] && rest.Of(c)[0] == active[it.At(c)]
      && Remaining(active, it.Set(c, it.At(c) + 1)) == rest.With(c, rest.Of(c)[1..])
  {
    RemainingFollowsIterator(active, it, c, it.At(c) + 1);
    assert active[it.At(c)..][1..] == active[it.At(c) + 1..];
  }

  lemma ComposedRuns<E>(active: seq<E>, desktops: int, s: State<E>, hook: Hook, body: seq<Call>)
    requires s.iterators.Within(|active|) && Runs(active, s, hook)
    ensures Begun(active, s, hook).iterators.Within(|active|)
    ensures
      var start := Begun(active, s, hook);
      var first := start.trace[|s.trace|];
      && start.trace == s.trace + [first] && !first.Desktop? && start.rendering == s.rendering
      && ComposedHook(active, desktops, Remaining(active, s.iterators), hook, body)
         == [first] + Composed(active, desktops, Remaining(active, start.iterators), body) + [Leave(hook)]
  {
    BegunFollows(active, s, hook);
  }

  lemma Bracketed<E>(before: seq<Event<E>>, first: Event<E>, inner: seq<Event<E>>, last: Event<E>)
    ensures before + [first] + inner + [last] == before + ([first] + inner + [last])
  {
  }

  // ---------------------------------------------------------------- what composition means

  /** Code that calls the same hook once, `depth` times in a row. */
  function Relay(hook: Hook, depth: nat): seq<Call> {
    if depth == 0 then [] else [Invoke(hook, Relay(hook, depth - 1))]
  }

  function Entries<E>(hook: Hook, effects: seq<E>): seq<Event<E>> {
    if effects == [] then [] else [Enter(hook, effects[0])] + Entries(hook, effects[1..])
  }

  function Leaves<E>(hook: Hook, n: nat): seq<Event<E>> {
    if n == 0 then [] else Leaves(hook, n - 1) + [Leave(hook)]
  }

  /** When every effect calls the next one once, all of them are entered in order, then the final
      code once, and they are left again. */
  lemma {:induction false} RelayReachesAll<E>(all: seq<E>, desktops: int, rest: Rest<E>, hook: Hook)
    requires hook.HasFinalCode()
    ensures
      var effects := rest.Of(hook.Chain());
      ComposedHook(all, desktops, rest, hook, Relay(hook, |effects|))
      == Entries(hook, effects) + [Final(hook)] + Leaves(hook, |effects| + 1)
    decreases |rest.Of(hook.Chain())|
  {
    var effects := rest.Of(hook.Chain());
    if effects == [] {
      assert Leaves<E>(hook, 1) == Leaves(hook, 0) + [Leave(hook)];
      assert Composed(all, desktops, rest, []) == [];
    } else {
      var tail, n := rest.With(hook.Chain(), effects[1..]), |effects| - 1;
      RelayReachesAll(all, desktops, tail, hook);
      RelayStep(all, desktops, rest, hook);
      Nested(Enter(hook, effects[0]), Entries(hook, effects[1..]), Final(hook), Leaves(hook, n + 1), Leave(hook));
      assert Leaves<E>(hook, n + 2) == Leaves(hook, n + 1) + [Leave(hook)];
    }
  }

  lemma RelayStep<E>(all: seq<E>, desktops: int, rest: Rest<E>, hook: Hook)
    requires rest.Of(hook.Chain()) != []
    ensures
      var effects := rest.Of(hook.Chain());
      var tail := rest.With(hook.Chain(), effects[1..]);
      ComposedHook(all, desktops, rest, hook, Relay(hook, |effects|))
      == [Enter(hook, effects[0])] + ComposedHook(all, desktops, tail, hook, Relay(hook, |effects| - 1)) + [Leave(hook)]
  {
    var effects := rest.Of(hook.Chain());
    var tail, body := rest.With(hook.Chain(), effects[1..]), Relay(hook, |effects|);
    assert body == [Invoke(hook, Relay(hook, |effects| - 1))] && body[1..] == [];
    assert Composed(all, desktops, tail, []) == [];
    assert Composed(all, desktops, tail, body) == ComposedCall(all, desktops, tail, body[0]);
  }

  lemma Nested<E>(first: Event<E>, entries: seq<Event<E>>, final: Event<E>, leaves: seq<Event<E>>, last: Event<E>)
    ensures [first] + (entries + [final] + leaves) + [last] == ([first] + entries) + [final] + (leaves + [last])
  {
  }

  predicate PaintsDesktop<E>(trace: seq<Event<E>>) {
    exists i :: 0 <= i < |trace| && trace[i].Desktop?
  }

  lemma PaintsConcat<E>(a: seq<Event<E>>, b: seq<Event<E>>)
    ensures PaintsDesktop(a + b) <==> PaintsDesktop(a) || PaintsDesktop(b)
  {
    if i :| 0 <= i < |a| && a[i].Desktop? {
      assert (a + b)[i].Desktop?;
    }
    if i :| 0 <= i < |b| && b[i].Desktop? {
      assert (a + b)[|a| + i].Desktop?;
    }
  }

  lemma PaintsInside<E>(first: Event<E>, inner: seq<Event<E>>, last: Event<E>)
    requires !first.Desktop? && !last.Desktop?
    ensures PaintsDesktop([first] + inner + [last]) <==> PaintsDesktop(inner)
  {
    PaintsConcat([first], inner);
    PaintsConcat([first] + inner, [last]);
  }

  /** The flag that says a desktop is being painted is cleared, not restored: code that runs while
      a desktop is painted keeps it exactly if no desktop is painted in its plain composition. */
  lemma {:induction false} FlagSurvivesPlainCode<E>(active: seq<E>, desktops: int, s: State<E>, calls: seq<Call>)
    requires s.iterators.Within(|active|)
    ensures Perform(active, desktops, s, calls).rendering
            <==> s.rendering && !PaintsDesktop(Composed(active, desktops, Remaining(active, s.iterators), calls))
    decreases calls, 0
  {
    if calls != [] {
      var rest := Remaining(active, s.iterators);
      CallFlag(active, desktops, s, calls[0]);
      FlagSurvivesPlainCode(active, desktops, Performed(active, desktops, s, calls[0]), calls[1..]);
      PaintsConcat(ComposedCall(active, desktops, rest, calls[0]), Composed(active, desktops, rest, calls[1..]));
    }
  }

  lemma {:induction false} CallFlag<E>(active: seq<E>, desktops: int, s: State<E>, call: Call)
    requires s.iterators.Within(|active|)
    ensures Performed(active, desktops, s, call).rendering
            <==> s.rendering && !PaintsDesktop(ComposedCall(active, desktops, Remaining(active, s.iterators), call))
    decreases call, 0
  {
    match call
    case Invoke(hook, body) => HookFlag(active, desktops, s, hook, body);
    case PaintDesktop(d, body) =>
      if 1 <= d <= desktops {
        assert ComposedCall(active, desktops, Remaining(active, s.iterators), call)[0] == Desktop(d);
      }
  }

  lemma {:induction false} HookFlag<E>(active: seq<E>, desktops: int, s: State<E>, hook: Hook, body: seq<Call>)
    requires s.iterators.Within(|active|)
    ensures Invoked(active, desktops, s, hook, body).rendering
         == (s.rendering
             && !PaintsDesktop(ComposedHook(active, desktops, Remaining(active, s.iterators), hook, body)))
    decreases body, 1
  {
    RemainingFollowsIterator(active, s.iterators, hook.Chain(), s.iterators.At(hook.Chain()));
    if Runs(active, s, hook) {
      InvokedRuns(active, desktops, s, hook, body);
      ComposedRuns(active, desktops, s, hook, body);
      var start := Begun(active, s, hook);
      FlagSurvivesPlainCode(active, desktops, start, body);
      PaintsInside(start.trace[|s.trace|], Composed(active, desktops, Remaining(active, start.iterators), body),
                   Leave(hook));
    }
  }

  /** A desktop painted while a desktop is painted, with no effect: when the inner one is done the
      flag is gone, and the outer one is still to be left. */
  lemma NestedDesktopLosesFlag<E>(s: State<E>)
    requires s.iterators == Iterators(0, 0, 0, 0)
    ensures
      var entered := s.(rendered := 1, rendering := true).Traced(Desktop(1)).Traced(Final(PaintScreen));
      var inner := Perform<E>([], 1, entered, [PaintDesktop(1, [])]);
      && entered.rendering && !inner.rendering
      && Perform<E>([], 1, s, [PaintDesktop(1, [PaintDesktop(1, [])])])
         == inner.Traced(Leave(PaintScreen)).(rendering := false)
  {
    var nested: seq<Call> := [PaintDesktop(1, [])];
    assert nested[1..] == [];
    var outer := PaintDesktop(1, nested);
    assert [outer][1..] == [];
    assert Perform<E>([], 1, s, [outer]) == Performed([], 1, s, outer);
    var start := s.(rendered := 1, rendering := true).Traced(Desktop(1)).Moved(Screen, 0);
    assert start == s.(rendered := 1, rendering := true).Traced(Desktop(1));
    var entered := start.Traced(Final(PaintScreen));
    FlagSurvivesPlainCode<E>([], 1, entered, nested);
    assert ComposedCall<E>([], 1, Remaining([], entered.iterators), nested[0])[0] == Desktop(1);
    assert Composed<E>([], 1, Remaining([], entered.iterators), nested)[0] == Desktop(1);
  }

  // ---------------------------------------------------------------- one painting pass

  function Active<E>(loaded: seq<E>, isActive: E -> bool): seq<E> {
    if loaded == [] then []
    else
      var before := Active(loaded[..|loaded| - 1], isActive);
      if isActive(loaded[|loaded| - 1]) then before + [loaded[|loaded| - 1]] else before
  }

  /** `picks` are the positions of the active effects, all of them and in order. */
  ghost predicate PicksActive<E>(loaded: seq<E>, isActive: E -> bool, picks: seq<nat>) {
    && (forall j, k | 0 <= j < k < |picks| :: picks[j] < picks[k])
    && (forall k | 0 <= k < |picks| :: picks[k] < |loaded|)
    && (forall i: nat | i < |loaded| :: i in picks <==> isActive(loaded[i]))
  }

  /** `active` are the effects at those positions. */
  ghost predicate ArePicked<E>(loaded: seq<E>, picks: seq<nat>, active: seq<E>) {
    && |active| == |picks|
    && forall k | 0 <= k < |picks| :: picks[k] < |loaded| && active[k] == loaded[picks[k]]
  }

  /** The effects of a pass: exactly those loaded effects that are active, in the order of the list. */
  ghost predicate AreTheActive<E>(loaded: seq<E>, isActive: E -> bool, active: seq<E>) {
    exists picks :: PicksActive(loaded, isActive, picks) && ArePicked(loaded, picks, active)
  }

  lemma {:induction false} ActiveArePicked<E>(loaded: seq<E>, isActive: E -> bool) returns (picks: seq<nat>)
    ensures PicksActive(loaded, isActive, picks)
    ensures ArePicked(loaded, picks, Active(loaded, isActive))
    decreases |loaded|
  {
    if loaded == [] {
      picks := [];
    } else {
      var init, e := loaded[..|loaded| - 1], loaded[|loaded| - 1];
      picks := ActiveArePicked(init, isActive);
      picks := PickNext(init, e, isActive, picks);
      assert init + [e] == loaded;
    }
  }

  lemma PickNext<E>(loaded: seq<E>, e: E, isActive: E -> bool, before: seq<nat>) returns (picks: seq<nat>)
    requires PicksActive(loaded, isActive, before) && ArePicked(loaded, before, Active(loaded, isActive))
    ensures PicksActive(loaded + [e], isActive, picks)
    ensures ArePicked(loaded + [e], picks, Active(loaded + [e], isActive))
  {
    picks := if isActive(e) then before + [|loaded|] else before;
    PicksExtend(loaded, e, isActive, before);
    PickedExtend(loaded, e, before, Active(loaded, isActive));
    assert (loaded + [e])[..|loaded|] == loaded;
  }

  lemma PickedExtend<E>(loaded: seq<E>, e: E, picks: seq<nat>, active: seq<E>)
    requires ArePicked(loaded, picks, active)
    ensures ArePicked(loaded + [e], picks, active)
    ensures ArePicked(loaded + [e], picks + [|loaded|], active + [e])
  {
  }

  lemma PicksExtend<E>(loaded: seq<E>, e: E, isActive: E -> bool, picks: seq<nat>)
    requires PicksActive(loaded, isActive, picks)
    ensures PicksActive(loaded + [e], isActive, if isActive(e) then picks + [|loaded|] else picks)
  {
    var r := if isActive(e) then picks + [|loaded|] else picks;
    forall i: nat | i <= |loaded| ensures i in r <==> isActive((loaded + [e])[i]) {
      if i == |loaded| && isActive(e) {
        assert r[|picks|] == i;
      }
      if i < |loaded| {
        assert (loaded + [e])[i] == loaded[i];
        assert i in r <==> i in picks;
      }
    }
  }

  class EffectsHandler<E> {
    var loadedEffects: seq<E>
    var activeEffects: seq<E>
    var iterators: Iterators
    var desktopRendering: bool
    var currentRenderedDesktop: int
    var numberOfDesktops: int
    ghost var trace: seq<Event<E>>

    ghost function Now(): State<E>
      reads this
    {
      State(iterators, desktopRendering, currentRenderedDesktop, trace)
    }

    ghost predicate Valid()
      reads this
    {
      iterators.Within(|activeEffects|)
    }

    constructor (loadedEffects: seq<E>, numberOfDesktops: int)
      ensures Valid() && this.loadedEffects == loadedEffects && activeEffects == []
    {
      this.loadedEffects, this.numberOfDesktops := loadedEffects, numberOfDesktops;
      activeEffects, iterators := [], Iterators(0, 0, 0, 0);
      desktopRendering, currentRenderedDesktop, trace := false, 0, [];
    }

    method StartPaint(isActive: E -> bool)
      modifies `activeEffects, `iterators
      ensures activeEffects == Active(loadedEffects, isActive)
      ensures AreTheActive(loadedEffects, isActive, activeEffects)
      ensures iterators == Iterators(0, 0, 0, 0) && Valid()
    {
      ghost var picks := ActiveArePicked(loadedEffects, isActive);
      activeEffects := [];
      for i := 0 to |loadedEffects|
        invariant activeEffects == Active(loadedEffects[..i], isActive)
      {
        assert loadedEffects[..i + 1][..i] == loadedEffects[..i];
        if isActive(loadedEffects[i]) {
          activeEffects := activeEffects + [loadedEffects[i]];
        }
      }
      assert loadedEffects[..|loadedEffects|] == loadedEffects;
      iterators := Iterators(0, 0, 0, 0);
    }

    /** Any of the eight hooks. */
    method InvokeHook(hook: Hook, body: seq<Call>)
      requires Valid()
      modifies `iterators, `desktopRendering, `currentRenderedDesktop, `trace
      ensures Valid() && Now() == Invoked(activeEffects, numberOfDesktops, old(Now()), hook, body)
      decreases body, 1
    {
      var c := hook.Chain();
      var it := iterators.At(c);
      if it != |activeEffects| {
        iterators := iterators.Set(c, it + 1);
        trace := trace + [Enter(hook, activeEffects[it])];
        RunCode(body);
        iterators := iterators.Set(c, iterators.At(c) - 1);
        trace := trace + [Leave(hook)];
      } else if hook.HasFinalCode() {
        trace := trace + [Final(hook)];
        RunCode(body);
        trace := trace + [Leave(hook)];
      }
    }

    method PaintOneDesktop(desktop: int, body: seq<Call>)
      requires Valid()
      modifies `iterators, `desktopRendering, `currentRenderedDesktop, `trace
      ensures Valid() && Now() == DesktopPainted(activeEffects, numberOfDesktops, old(Now()), desktop, body)
      decreases body, 2
    {
      if desktop < 1 || desktop > numberOfDesktops {
        return;
      }
      currentRenderedDesktop := desktop;
      desktopRendering := true;
      trace := trace + [Desktop(desktop)];
      var savedIterator := iterators.screen;
      iterators := iterators.(screen := 0);
      InvokeHook(PaintScreen, body);
      iterators := iterators.(screen := savedIterator);
      desktopRendering := false;
    }

    /** The code of an effect or of the scene. */
    method RunCode(calls: seq<Call>)
      requires Valid()
      modifies `iterators, `desktopRendering, `currentRenderedDesktop, `trace
      ensures Valid() && Now() == Perform(activeEffects, numberOfDesktops, old(Now()), calls)
      decreases calls, 0
    {
      if calls != [] {
        match calls[0] {
          case Invoke(hook, body) => InvokeHook(hook, body);
          case PaintDesktop(d, body) => PaintOneDesktop(d, body);
        }
        RunCode(calls[1..]);
      }
    }

    /** A painting pass: it ends with all iterators where it began, having run the plain nested
        composition of the active effects. */
    method PaintPass(isActive: E -> bool, calls: seq<Call>)
      modifies `activeEffects, `iterators, `desktopRendering, `currentRenderedDesktop, `trace
      ensures AreTheActive(loadedEffects, isActive, activeEffects) && iterators == Iterators(0, 0, 0, 0)
      ensures
        var all := activeEffects;
        trace == old(trace) + Composed(all, numberOfDesktops, Rest(all, all, all, all), calls)
    {
      StartPaint(isActive);
      SharedIteratorsCompose(activeEffects, numberOfDesktops, Now(), calls);
      assert Remaining(activeEffects, iterators).screen == activeEffects;
      RunCode(calls);
    }
  }

}
