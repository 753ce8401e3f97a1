/** Focus changes that the window manager asked for itself. They come back as FocusIn events, some
    get lost, and they must not be taken for a window that steals the focus. */
module FocusRequests {

  // ---------------------------------------------------------------- the queue

  function FirstOf<C(==)>(queue: seq<C>, c: C): (n: nat)
    requires c in queue
    ensures n < |queue| && queue[n] == c && forall k | 0 <= k < n :: queue[k] != c
  {
    if queue[0] == c then 0 else FirstOf(queue[1..], c) + 1
  }

  /** Everything up to the first occurrence of `c` goes. */
  function GotFocusIn<C(==)>(queue: seq<C>, c: C): seq<C> {
    if c in queue then queue[FirstOf(queue, c) + 1..] else queue
  }

  function Without<C(==)>(queue: seq<C>, c: C): seq<C> {
    if queue == [] then []
    else Without(queue[..|queue| - 1], c) + if queue[|queue| - 1] == c then [] else [queue[|queue| - 1]]
  }

  /** `requests` are all requests so far and `waiting` the numbers of those that the queue holds.
      `last` is the request that the latest FocusIn answered, or -1; requests are `spent` when a
      FocusIn takes them off the queue, and `dropped` with a window that gets hidden or goes away. */
  datatype State<C> = State(
    queue: seq<C>, requests: seq<C>, waiting: seq<nat>, last: int, spent: set<int>, dropped: set<int>)

  /** A session begins with nothing asked for. */
  function Init<C(==)>(): (s: State<C>)
    ensures Inv(s)
  {
    State([], [], [], -1, {}, {})
  }

  /** A FocusIn that answers a request is ignored if its window is not shown any more; one that no
      request caused comes from any window that took the focus itself. */
  datatype Event<C> = Request(c: C) | FocusIn(request: nat, shown: bool) | ForeignFocusIn(other: C) | Withdraw(gone: C)

  /** Answers come in the order of the requests; any of them may be lost. */
  predicate Possible<C>(s: State<C>, e: Event<C>) {
    e.FocusIn? ==> s.last < e.request < |s.requests|
  }

  /** The request may still be answered as expected. */
  predicate Open<C>(s: State<C>, i: int) {
    0 <= i < |s.requests| && i !in s.spent && i !in s.dropped
  }

  function WaitingWithout<C(==)>(requests: seq<C>, waiting: seq<nat>, c: C): (r: seq<nat>)
    requires forall k | 0 <= k < |waiting| :: waiting[k] < |requests|
    ensures forall j | j in waiting && requests[j] != c :: j in r
    ensures forall k | 0 <= k < |r| :: r[k] in waiting
    ensures Increasing(waiting) ==> Increasing(r)
  {
    if waiting == [] then []
    else
      var n := |waiting| - 1;
      var before := WaitingWithout(requests, waiting[..n], c);
      assert Increasing(waiting) ==> forall k | 0 <= k < |before| :: before[k] in waiting[..n] && before[k] < waiting[n];
      if requests[waiting[n]] == c then before else before + [waiting[n]]
  }

  predicate Increasing(s: seq<nat>) {
    forall i, j | 0 <= i < j < |s| :: s[i] < s[j]
  }

  function NumbersOf<C(==)>(requests: seq<C>, c: C): (r: set<int>)
    ensures forall j | 0 <= j < |requests| :: j in r <==> requests[j] == c
  {
    set j | 0 <= j < |requests| && requests[j] == c
  }

  /** How many requests a FocusIn for `c` takes off the queue. */
  function Popped<C(==)>(s: State<C>, c: C): (n: nat)
    ensures n <= |s.queue|
  {
    if c in s.queue then FirstOf(s.queue, c) + 1 else 0
  }

  function Taken<C(==)>(s: State<C>, c: C): State<C>
    requires |s.waiting| == |s.queue|
  {
    var n := Popped(s, c);
    s.(queue := GotFocusIn(s.queue, c), waiting := s.waiting[n..], spent := s.spent + Numbers(s.waiting[..n]))
  }

  function Numbers(s: seq<nat>): (r: set<int>)
    ensures forall j: nat :: j in r <==> j in s
    ensures forall j | j in r :: j >= 0
  {
    set j | j in s
  }

  function Step<C(==)>(s: State<C>, e: Event<C>): State<C>
    requires Inv(s) && Possible(s, e)
  {
    match e
    case Request(c) => s.(queue := s.queue + [c], requests := s.requests + [c], waiting := s.waiting + [|s.requests|])
    case FocusIn(i, shown) => (if shown then Taken(s, s.requests[i]) else s).(last := i)
    case ForeignFocusIn(c) => Taken(s, c)
    case Withdraw(c) =>
      s.(queue := Without(s.queue, c), waiting := WaitingWithout(s.requests, s.waiting, c),
         dropped := s.dropped + NumbersOf(s.requests, c))
  }

  /** The queue holds exactly the open requests, in order. */
  predicate Inv<C(==)>(s: State<C>) {
    && Explains(s.requests, s.waiting, s.queue)
    && Increasing(s.waiting)
    && s.last < |s.requests|
    && (forall j | j in s.spent + s.dropped :: 0 <= j < |s.requests|)
    && (forall j: nat | j < |s.requests| :: j in s.waiting <==> Open(s, j))
  }

  predicate Explains<C(==)>(requests: seq<C>, waiting: seq<nat>, queue: seq<C>) {
    && |waiting| == |queue|
    && forall k | 0 <= k < |waiting| :: waiting[k] < |requests| && queue[k] == requests[waiting[k]]
  }

  lemma {:induction false} WithoutExplains<C>(requests: seq<C>, waiting: seq<nat>, queue: seq<C>, c: C)
    requires Explains(requests, waiting, queue)
    ensures Explains(requests, WaitingWithout(requests, waiting, c), Without(queue, c))
    decreases |queue|
  {
    if queue != [] {
      WithoutExplains(requests, waiting[..|queue| - 1], queue[..|queue| - 1], c);
    }
  }

  /** The answer of an open request finds its window in the queue, even if the greedy search stops
      at an earlier request for the same window. */
  lemma AnswerIsFound<C>(s: State<C>, i: nat)
    requires Inv(s) && Open(s, i)
    ensures s.requests[i] in s.queue
    ensures s.waiting[Popped(s, s.requests[i]) - 1] <= i
  {
    assert i in s.waiting;
    var k :| 0 <= k < |s.waiting| && s.waiting[k] == i;
    assert s.queue[k] == s.requests[i];
  }

  /** A window is expected exactly if some request for it is open. */
  lemma ExpectedIfOpen<C>(s: State<C>, c: C)
    requires Inv(s)
    ensures c in s.queue <==> exists j: nat :: Open(s, j) && s.requests[j] == c
  {
    if j: nat :| Open(s, j) && s.requests[j] == c {
      AnswerIsFound(s, j);
    }
    if c in s.queue {
      var j := s.waiting[FirstOf(s.queue, c)];
      assert j in s.waiting;
      assert Open(s, j) && s.requests[j] == c;
    }
  }

  lemma RestExplains<C>(requests: seq<C>, waiting: seq<nat>, queue: seq<C>, n: nat)
    requires Explains(requests, waiting, queue) && Increasing(waiting) && n <= |queue|
    ensures Explains(requests, waiting[n..], queue[n..]) && Increasing(waiting[n..])
    ensures forall j | j in waiting :: j in waiting[n..] <==> n == 0 || j > waiting[n - 1]
    ensures forall j | j in waiting :: j in waiting[..n] <==> n > 0 && j <= waiting[n - 1]
  {
    forall j | j in waiting
      ensures j in waiting[n..] <==> n == 0 || j > waiting[n - 1]
      ensures j in waiting[..n] <==> n > 0 && j <= waiting[n - 1]
    {
      var k :| 0 <= k < |waiting| && waiting[k] == j;
      if k < n {
        assert waiting[..n][k] == j;
      } else {
        assert waiting[n..][k - n] == j;
      }
    }
  }

  /** A FocusIn for `c` passes a request by that was made no later than the first open one for `c`. */
  predicate PassesBy<C(==)>(s: State<C>, c: C, i: int)
    requires |s.waiting| == |s.queue|
  {
    c in s.queue && i <= s.waiting[FirstOf(s.queue, c)]
  }

  lemma TakenOpens<C>(s: State<C>, c: C, j: nat)
    requires Inv(s)
    ensures Open(Taken(s, c), j) <==> Open(s, j) && !PassesBy(s, c, j)
    ensures j in Taken(s, c).waiting <==> j in s.waiting && !PassesBy(s, c, j)
  {
    var n := Popped(s, c);
    RestExplains(s.requests, s.waiting, s.queue, n);
    assert j in s.waiting[..n] ==> j in s.waiting;
    assert j in s.waiting[n..] ==> j in s.waiting;
    if j < |s.requests| {
      assert j in s.waiting <==> Open(s, j);
    }
  }

  /** A FocusIn keeps the invariant, and it closes exactly the open requests that it passes by. */
  lemma TakenKeepsInv<C>(s: State<C>, c: C)
    requires Inv(s)
    ensures Inv(Taken(s, c))
    ensures forall j: nat :: Open(Taken(s, c), j) <==> Open(s, j) && !PassesBy(s, c, j)
  {
    var n, r := Popped(s, c), Taken(s, c);
    RestExplains(s.requests, s.waiting, s.queue, n);
    assert r.queue == s.queue[n..];
    forall j: nat
      ensures Open(r, j) <==> Open(s, j) && !PassesBy(s, c, j)
      ensures j < |s.requests| ==> (j in r.waiting <==> Open(r, j))
    {
      TakenOpens(s, c, j);
    }
    forall j | j in Numbers(s.waiting[..n]) ensures 0 <= j < |s.requests| {
      assert j in s.waiting[..n];
    }
  }

  lemma RequestKeepsInv<C>(s: State<C>, c: C)
    requires Inv(s)
    ensures Inv(Step(s, Request(c)))
  {
    var r := Step(s, Request(c));
    assert r.waiting[|s.waiting|] == |s.requests|;
    forall j: nat | j < |r.requests| ensures j in r.waiting <==> Open(r, j) {
      if j < |s.requests| {
        assert j in s.waiting <==> Open(s, j);
        assert j in r.waiting <==> j in s.waiting;
      }
    }
  }

  lemma WithdrawKeepsInv<C>(s: State<C>, c: C)
    requires Inv(s)
    ensures Inv(Step(s, Withdraw(c)))
  {
    var r := Step(s, Withdraw(c));
    WithoutExplains(s.requests, s.waiting, s.queue, c);
    WithoutForgets(s.requests, s.waiting, c);
    forall j: nat | j < |s.requests| ensures j in r.waiting <==> Open(r, j) {
      assert j in s.waiting <==> Open(s, j);
    }
  }

  lemma {:induction false} WithoutForgets<C>(requests: seq<C>, waiting: seq<nat>, c: C)
    requires forall k | 0 <= k < |waiting| :: waiting[k] < |requests|
    ensures forall k | k in WaitingWithout(requests, waiting, c) :: k < |requests| && requests[k] != c
    decreases |waiting|
  {
    if waiting != [] {
      WithoutForgets(requests, waiting[..|waiting| - 1], c);
    }
  }

  /** Requests, answers, lost and ignored answers, windows that take the focus themselves and windows
      that go away all keep the queue equal to the open requests. */
  lemma StepKeepsInv<C>(s: State<C>, e: Event<C>)
    requires Inv(s) && Possible(s, e)
    ensures Inv(Step(s, e))
  {
    match e
    case Request(c) => RequestKeepsInv(s, c);
    case FocusIn(i, shown) => TakenKeepsInv(s, s.requests[i]);
    case ForeignFocusIn(c) => TakenKeepsInv(s, c);
    case Withdraw(c) => WithdrawKeepsInv(s, c);
  }

  predicate Legal<C(==)>(s: State<C>, events: seq<Event<C>>)
    requires Inv(s)
    decreases |events|
  {
    events != [] ==>
      && Possible(s, events[0])
      && (StepKeepsInv(s, events[0]);
          Legal(Step(s, events[0]), events[1..]))
  }

  function Run<C(==)>(s: State<C>, events: seq<Event<C>>): State<C>
    requires Inv(s) && Legal(s, events)
    decreases |events|
  {
    if events == [] then s
    else
      StepKeepsInv(s, events[0]);
      Run(Step(s, events[0]), events[1..])
  }

  /** After any run the queue holds exactly the open requests. */
  lemma {:induction false} RunKeepsInv<C>(s: State<C>, events: seq<Event<C>>)
    requires Inv(s) && Legal(s, events)
    ensures Inv(Run(s, events))
    ensures s.last <= Run(s, events).last && s.requests <= Run(s, events).requests
    ensures s.spent <= Run(s, events).spent && s.dropped <= Run(s, events).dropped
    decreases |events|
  {
    if events != [] {
      StepKeepsInv(s, events[0]);
      RunKeepsInv(Step(s, events[0]), events[1..]);
    }
  }

  // ---------------------------------------------------------------- which requests stay open

  /** The event is a FocusIn that passes request `i` by. */
  predicate Overtakes<C(==)>(s: State<C>, e: Event<C>, i: int)
    requires Inv(s) && Possible(s, e)
  {
    match e
    case FocusIn(k, shown) => shown && PassesBy(s, s.requests[k], i)
    case ForeignFocusIn(c) => PassesBy(s, c, i)
    case _ => false
  }

  /** So does some event of the run, once the request has been made. */
  predicate Overtaken<C(==)>(s: State<C>, events: seq<Event<C>>, i: int)
    requires Inv(s) && Legal(s, events)
    decreases |events|
  {
    events != [] &&
    (StepKeepsInv(s, events[0]);
     (i < |s.requests| && Overtakes(s, events[0], i)) || Overtaken(Step(s, events[0]), events[1..], i))
  }

  lemma StepOpens<C>(s: State<C>, e: Event<C>, i: nat)
    requires Inv(s) && Possible(s, e) && i < |s.requests|
    ensures
      var r := Step(s, e);
      Open(r, i) <==> Open(s, i) && !Overtakes(s, e, i) && i !in r.dropped
  {
    match e
    case Request(c) =>
    case FocusIn(k, shown) => TakenKeepsInv(s, s.requests[k]);
    case ForeignFocusIn(c) => TakenKeepsInv(s, c);
    case Withdraw(c) =>
  }

  /** A request stays open exactly if no FocusIn passes it by and its window does not go away. */
  lemma {:induction false} OpenExactly<C>(s: State<C>, events: seq<Event<C>>, i: nat)
    requires Inv(s) && Legal(s, events) && i < |Run(s, events).requests|
    requires i >= |s.requests| || Open(s, i)
    ensures Open(Run(s, events), i) <==> !Overtaken(s, events, i) && i !in Run(s, events).dropped
    decreases |events|
  {
    if events != [] {
      var e := events[0];
      StepKeepsInv(s, e);
      var next := Step(s, e);
      RunKeepsInv(next, events[1..]);
      if i < |s.requests| {
        StepOpens(s, e, i);
      } else if i < |next.requests| {
        assert e.Request? && Open(next, i);
      }
      if i >= |next.requests| || Open(next, i) {
        OpenExactly(next, events[1..], i);
      }
    }
  }

  /** No window takes the focus itself while a request for it is open. */
  predicate Undisturbed<C(==)>(s: State<C>, events: seq<Event<C>>)
    requires Inv(s) && Legal(s, events)
    decreases |events|
  {
    events != [] ==>
      && (events[0].ForeignFocusIn? ==> events[0].other !in s.queue)
      && (StepKeepsInv(s, events[0]);
          Undisturbed(Step(s, events[0]), events[1..]))
  }

  /** Nothing that may still be answered is spent. */
  predicate OnlyOldIsSpent<C>(s: State<C>) { forall j | j in s.spent :: j <= s.last }

  /** Then the answers overtake no request that may still be answered. */
  lemma {:induction false} AnswersOvertakeNothing<C>(s: State<C>, events: seq<Event<C>>, i: nat)
    requires Inv(s) && Legal(s, events) && Undisturbed(s, events) && OnlyOldIsSpent(s)
    requires NoneDropped(s, events)
    requires i > Run(s, events).last
    ensures !Overtaken(s, events, i)
    decreases |events|
  {
    if events != [] {
      var e := events[0];
      StepKeepsInv(s, e);
      var next := Step(s, e);
      RunKeepsInv(next, events[1..]);
      if e.FocusIn? {
        AnswerIsFound(s, e.request);
        TakenIsOld(s, e.request);
      }
      AnswersOvertakeNothing(next, events[1..], i);
    }
  }

  lemma TakenIsOld<C>(s: State<C>, i: nat)
    requires Inv(s) && OnlyOldIsSpent(s) && Open(s, i) && s.last < i
    ensures forall j | j in Taken(s, s.requests[i]).spent :: j <= i
  {
    AnswerIsFound(s, i);
    var n := Popped(s, s.requests[i]);
    forall j: nat | j in s.waiting[..n] ensures j <= i {
      var k :| 0 <= k < n && s.waiting[..n][k] == j;
      assert s.waiting[k] <= s.waiting[n - 1];
    }
  }

  /** No answer comes for a request that was dropped. */
  predicate NoneDropped<C(==)>(s: State<C>, events: seq<Event<C>>)
    requires Inv(s) && Legal(s, events)
    decreases |events|
  {
    events != [] ==>
      && (events[0].FocusIn? ==> events[0].request !in s.dropped)
      && (StepKeepsInv(s, events[0]);
          NoneDropped(Step(s, events[0]), events[1..]))
  }

  // ---------------------------------------------------------------- focus stealing prevention

  /** Levels of prevention and of protection. */
  const NONE: nat := 0
  const LOW: nat := 1
  const MEDIUM: nat := 2
  const HIGH: nat := 3
  const EXTREME: nat := 4

  /** What the decision looks at besides the queue. */
  datatype Circumstances = Circumstances(
    sessionSaving: bool, refusesFocus: bool, activeWindow: bool, activeIsDesktop: bool,
    ignoreDesktop: bool, onCurrentDesktop: bool, sameApplication: bool, timeKnown: bool, newerThanActive: bool)

  /** `expected`: the event is a FocusIn, and the window is in the queue. */
  predicate Allowed(x: Circumstances, level: nat, protection: nat, expected: bool) {
    if x.sessionSaving && level <= MEDIUM then true
    else if expected then true
    else if x.refusesFocus then false
    else if level == NONE || protection == NONE then true
    else if level == EXTREME || protection == EXTREME then false
    else if !x.ignoreDesktop && !x.onCurrentDesktop then false
    else if !x.activeWindow || x.activeIsDesktop then true
    else if x.sameApplication && protection < HIGH then true
    else if !x.onCurrentDesktop then false
    else if level > MEDIUM && protection > LOW then false
    else if !x.timeKnown then level < MEDIUM && protection < HIGH
    else x.newerThanActive
  }

  /** Prevention is neither off nor total, and no session is being saved for a lax level. */
  predicate Applies(x: Circumstances, level: nat, protection: nat) {
    && LOW <= level <= HIGH && LOW <= protection <= HIGH
    && !(x.sessionSaving && level <= MEDIUM)
  }

  /** Nothing but the desktop is active. */
  predicate NobodyActive(x: Circumstances) { !x.activeWindow || x.activeIsDesktop }

  /** The window belongs to the application of the active window, and that is not highly protected. */
  predicate AmongFriends(x: Circumstances, protection: nat) { x.sameApplication && protection <= MEDIUM }

  /** What decides in each case, one line a case. */
  predicate Rules(x: Circumstances, level: nat, protection: nat, expected: bool, allowed: bool) {
    && (expected ==> allowed)
    && (x.sessionSaving && level <= MEDIUM ==> allowed)
    && (!expected && !(x.sessionSaving && level <= MEDIUM) ==>
          && (x.refusesFocus ==> !allowed)
          && (level == NONE || protection == NONE ==> (allowed <==> !x.refusesFocus))
          && ((level >= EXTREME || protection >= EXTREME) && level != NONE && protection != NONE ==> !allowed))
    && (Applies(x, level, protection) && !expected && !x.refusesFocus ==>
          && (NobodyActive(x) ==> (allowed <==> x.onCurrentDesktop || x.ignoreDesktop))
          && (!NobodyActive(x) && AmongFriends(x, protection) ==> (allowed <==> x.onCurrentDesktop || x.ignoreDesktop))
          && (!NobodyActive(x) && !AmongFriends(x, protection) ==>
                && (!x.onCurrentDesktop ==> !allowed)
                && (x.onCurrentDesktop && level == HIGH ==> (allowed <==> protection == LOW && x.timeKnown && x.newerThanActive))
                && (x.onCurrentDesktop && level <= MEDIUM && x.timeKnown ==> (allowed <==> x.newerThanActive))
                && (x.onCurrentDesktop && level <= MEDIUM && !x.timeKnown ==>
                      (allowed <==> level == LOW && protection <= MEDIUM))))
  }

  /** The decision is the one that the rules leave. */
  lemma RulesDecide(x: Circumstances, level: nat, protection: nat, expected: bool, allowed: bool)
    requires level <= EXTREME && protection <= EXTREME
    ensures Rules(x, level, protection, expected, allowed) <==> allowed == Allowed(x, level, protection, expected)
  {
  }

  /** A more recent user time never makes matters worse, nor does a window that would take the focus, or
      one on the current desktop. */
  lemma BetterIsAllowedMore(x: Circumstances, level: nat, protection: nat, expected: bool)
    requires Allowed(x, level, protection, expected)
    ensures Allowed(x.(newerThanActive := true), level, protection, expected)
    ensures Allowed(x.(refusesFocus := false), level, protection, expected)
    ensures Allowed(x.(onCurrentDesktop := true), level, protection, expected)
    ensures Allowed(x.(ignoreDesktop := true), level, protection, expected)
    ensures Allowed(x.(activeIsDesktop := true), level, protection, expected)
    ensures Allowed(x.(sameApplication := true), level, protection, expected)
    ensures Allowed(x.(sessionSaving := true), level, protection, expected)
    ensures Allowed(x, level, protection, true)
  {
  }

  /** Whatever the circumstances, the level and the protection, the window is allowed. */
  ghost predicate NeverRefused(expected: bool) {
    forall x, level, protection :: Allowed(x, level, protection, expected)
  }

  lemma ExpectedIsNeverRefused(expected: bool)
    ensures NeverRefused(expected) <==> expected
  {
    assert !Allowed(Circumstances(false, false, true, false, false, true, false, true, false), MEDIUM, MEDIUM, false);
  }

  /** After any run, the FocusIn event of a window is never refused exactly if some request for it is
      open: one that no FocusIn passed by, of a window that did not go away. */
  lemma AnswersAreNeverRefused<C>(s: State<C>, events: seq<Event<C>>, i: nat)
    requires Inv(s) && Legal(s, events)
    requires Possible(Run(s, events), FocusIn(i, true))
    requires i >= |s.requests| || Open(s, i)
    ensures
      var r := Run(s, events);
      && (NeverRefused(r.requests[i] in r.queue) <==> exists j: nat :: Open(r, j) && r.requests[j] == r.requests[i])
      && (Open(r, i) <==> !Overtaken(s, events, i) && i !in r.dropped)
  {
    RunKeepsInv(s, events);
    ExpectedIfOpen(Run(s, events), Run(s, events).requests[i]);
    ExpectedIsNeverRefused(Run(s, events).requests[i] in Run(s, events).queue);
    OpenExactly(s, events, i);
  }

  /** So in a session in which no window takes the focus itself while it is asked for, and no window
      goes away before its answer comes, no answer is ever refused. */
  lemma SessionNeverRefuses<C>(events: seq<Event<C>>, i: nat)
    requires Legal(Init(), events) && Undisturbed(Init(), events) && NoneDropped(Init(), events)
    requires Possible(Run(Init(), events), FocusIn(i, true)) && i !in Run(Init(), events).dropped
    ensures
      var r := Run(Init<C>(), events);
      NeverRefused(r.requests[i] in r.queue)
  {
    AnswersOvertakeNothing(Init(), events, i);
    AnswersAreNeverRefused(Init(), events, i);
    assert Open(Run(Init(), events), i);
  }

  /** A window with a request under way that takes the focus by itself makes the answer to a
      request made before it unexpected, and focus stealing prevention may refuse that. */
  lemma SelfFocusingWindowDisturbs<C>(s: State<C>, a: C, b: C)
    requires Inv(s) && a != b && a !in s.queue && b !in s.queue
    ensures Inv(Step(s, Request(a)))
    ensures
      var asked := Step(Step(s, Request(a)), Request(b));
      && Inv(asked) && Possible(asked, FocusIn(|s.requests|, true)) && NeverRefused(a in asked.queue)
      && Possible(Taken(asked, b), FocusIn(|s.requests|, true)) && !NeverRefused(a in Taken(asked, b).queue)
  {
    RequestKeepsInv(s, a);
    var one := Step(s, Request(a));
    RequestKeepsInv(one, b);
    var two := Step(one, Request(b));
    assert two.queue == s.queue + [a, b];
    assert two.queue[|s.queue|] == a && two.queue[|s.queue| + 1] == b;
    assert forall k | 0 <= k < |s.queue| :: two.queue[k] == s.queue[k];
    assert FirstOf(two.queue, b) == |s.queue| + 1;
    assert Taken(two, b).queue == [];
    ExpectedIsNeverRefused(true);
    ExpectedIsNeverRefused(false);
  }

  /** A stricter level or a better protected active window never allows more. */
  lemma StricterAllowsLess(x: Circumstances, level: nat, protection: nat, level': nat, protection': nat, expected: bool)
    requires level <= level' <= EXTREME && protection <= protection' <= EXTREME
    requires Allowed(x, level', protection', expected)
    ensures Allowed(x, level, protection, expected)
  {
  }

  /** What is allowed is allowed at every looser level, and what is refused at every stricter one. */
  ghost predicate Monotone(x: Circumstances, level: nat, protection: nat, expected: bool, allowed: bool) {
    && (allowed ==> forall l: nat, p: nat | l <= level && p <= protection :: Allowed(x, l, p, expected))
    && (!allowed ==> forall l: nat, p: nat | level <= l <= EXTREME && protection <= p <= EXTREME ::
          !Allowed(x, l, p, expected))
  }

  lemma StricterRefusesMore(x: Circumstances, level: nat, protection: nat, expected: bool)
    requires level <= EXTREME && protection <= EXTREME
    ensures Monotone(x, level, protection, expected, Allowed(x, level, protection, expected))
  {
    forall l: nat, p: nat | l <= level && p <= protection && Allowed(x, level, protection, expected)
      ensures Allowed(x, l, p, expected)
    {
      StricterAllowsLess(x, l, p, level, protection, expected);
    }
    forall l: nat, p: nat | level <= l <= EXTREME && protection <= p <= EXTREME && Allowed(x, l, p, expected)
      ensures Allowed(x, level, protection, expected)
    {
      StricterAllowsLess(x, level, protection, l, p, expected);
    }
  }

  // ---------------------------------------------------------------- the object

  class Workspace<C(==)> {
    var shouldGetFocus: seq<C>
    var activeClient: C

    constructor (activeClient: C)
      ensures shouldGetFocus == [] && this.activeClient == activeClient
    {
      shouldGetFocus, this.activeClient := [], activeClient;
    }

    method SetShouldGetFocus(c: C)
      modifies `shouldGetFocus
      ensures shouldGetFocus == old(shouldGetFocus) + [c]
    {
      shouldGetFocus := shouldGetFocus + [c];
    }

    method GotFocus(c: C)
      modifies `shouldGetFocus
      ensures shouldGetFocus == GotFocusIn(old(shouldGetFocus), c)
    {
      if c in shouldGetFocus {
        while shouldGetFocus[0] != c
          invariant c in shouldGetFocus
          invariant GotFocusIn(shouldGetFocus, c) == GotFocusIn(old(shouldGetFocus), c)
          decreases |shouldGetFocus|
        {
          shouldGetFocus := shouldGetFocus[1..];
        }
        shouldGetFocus := shouldGetFocus[1..];
      }
    }

    method AllowClientActivation(c: C, focusIn: bool, x: Circumstances, level: nat, protection: nat) returns (ok: bool)
      ensures focusIn && c in shouldGetFocus ==> ok
      ensures ok == Allowed(x, level, protection, focusIn && c in shouldGetFocus)
      ensures level <= EXTREME && protection <= EXTREME ==>
                && Rules(x, level, protection, focusIn && c in shouldGetFocus, ok)
                && Monotone(x, level, protection, focusIn && c in shouldGetFocus, ok)
    {
      if level <= EXTREME && protection <= EXTREME {
        RulesDecide(x, level, protection, focusIn && c in shouldGetFocus,
                    Allowed(x, level, protection, focusIn && c in shouldGetFocus));
        StricterRefusesMore(x, level, protection, focusIn && c in shouldGetFocus);
      }
      if x.sessionSaving && level <= MEDIUM {
        return true;
      }
      if focusIn && c in shouldGetFocus {
        return true;
      }
      if x.refusesFocus {
        return false;
      }
      if level == NONE || protection == NONE {
        return true;
      }
      if level == EXTREME || protection == EXTREME {
        return false;
      }
      if !x.ignoreDesktop && !x.onCurrentDesktop {
        return false;
      }
      if !x.activeWindow || x.activeIsDesktop {
        return true;
      }
      if x.sameApplication && protection < HIGH {
        return true;
      }
      if !x.onCurrentDesktop || (level > MEDIUM && protection > LOW) {
        return false;
      }
      if !x.timeKnown {
        return level < MEDIUM && protection < HIGH;
      }
      return x.newerThanActive;
    }

    /** Returns whether the focus has to be restored to the window that had it before. */
    method FocusInEvent(c: C, shown: bool, x: Circumstances, level: nat, protection: nat) returns (restore: bool)
      modifies this
      ensures !shown ==> !restore && shouldGetFocus == old(shouldGetFocus) && activeClient == old(activeClient)
      ensures shown ==> shouldGetFocus == GotFocusIn(old(shouldGetFocus), c)
      ensures shown ==> restore == !Allowed(x, level, protection, c in old(shouldGetFocus))
      ensures shown ==> activeClient == if restore then old(activeClient) else c
      ensures shown && c in old(shouldGetFocus) ==> activeClient == c
      ensures shown && level <= EXTREME && protection <= EXTREME ==>
                Rules(x, level, protection, c in old(shouldGetFocus), !restore)
    {
      if !shown {
        return false;
      }
      var activate := AllowClientActivation(c, true, x, level, protection);
      GotFocus(c);
      if activate {
        activeClient := c;
      }
      restore := !activate;
    }
  }

}
