/** The queue of effects to load. It loads one effect for each event it has posted to itself, so
    that the event loop stays responsive; loading may enqueue more effects, or clear the queue. */
module EffectLoadQueue {

  datatype Action<V> = Enqueue(value: V) | Clear

  /** A call from outside, or a posted event that is delivered; `during` is what the effect loader
      does to the queue while it loads. */
  datatype Event<V> = Call(action: Action<V>) | Deliver(during: seq<Action<V>>)

  datatype Fate = Waiting | Loaded | Cleared

  /** `posted` counts the posted events that are not delivered yet. `entered` is everything that
      was ever enqueued, with what became of it, and `loaded` is what was loaded, in order. */
  datatype State<V> = State(
    queue: seq<V>, dequeueScheduled: bool, posted: nat, entered: seq<V>, fates: seq<Fate>, loaded: seq<V>)

  function Init<V>(): State<V> { State([], false, 0, [], [], []) }

  // ---------------------------------------------------------------- the operations

  function ScheduleDequeue<V>(s: State<V>): State<V> {
    if s.queue == [] || s.dequeueScheduled then s else s.(dequeueScheduled := true, posted := s.posted + 1)
  }

  function Enqueued<V>(s: State<V>, v: V): State<V> {
    ScheduleDequeue(s.(queue := s.queue + [v], entered := s.entered + [v], fates := s.fates + [Waiting]))
  }

  function WaitingCleared(fates: seq<Fate>): (r: seq<Fate>)
    ensures |r| == |fates|
    ensures forall i | 0 <= i < |fates| :: r[i] == if fates[i] == Waiting then Cleared else fates[i]
  {
    if fates == [] then [] else [if fates[0] == Waiting then Cleared else fates[0]] + WaitingCleared(fates[1..])
  }

  function Emptied<V>(s: State<V>): State<V> {
    s.(queue := [], dequeueScheduled := false, fates := WaitingCleared(s.fates))
  }

  function Acted<V>(s: State<V>, a: Action<V>): State<V> {
    match a
    case Enqueue(v) => Enqueued(s, v)
    case Clear => Emptied(s)
  }

  function AllActed<V>(s: State<V>, actions: seq<Action<V>>): State<V> {
    if actions == [] then s else Acted(AllActed(s, actions[..|actions| - 1]), actions[|actions| - 1])
  }

  /** The first entry leaves the queue and is loaded. */
  function Taken<V>(s: State<V>): State<V>
    requires s.queue != [] && |s.queue| <= |s.fates|
  {
    s.(dequeueScheduled := false, queue := s.queue[1..], loaded := s.loaded + [s.queue[0]],
       fates := s.fates[|s.fates| - |s.queue| := Loaded])
  }

  function Dequeued<V>(s: State<V>, during: seq<Action<V>>): State<V>
    requires |s.queue| <= |s.fates|
  {
    if s.queue == [] then s else ScheduleDequeue(AllActed(Taken(s), during))
  }

  // ---------------------------------------------------------------- the invariant

  /** What was loaded, according to the fates. */
  function LoadedOf<V>(entered: seq<V>, fates: seq<Fate>): seq<V>
    requires |entered| == |fates|
  {
    if entered == [] then []
    else
      var n := |entered| - 1;
      LoadedOf(entered[..n], fates[..n]) + if fates[n] == Loaded then [entered[n]] else []
  }

  /** The queue holds what waits, which is what was enqueued last; what was enqueued before has
      been cleared, or has been loaded once, in that order. */
  ghost predicate Accounted<V>(s: State<V>) {
    var n := |s.entered| - |s.queue|;
    && |s.fates| == |s.entered| && n >= 0
    && s.queue == s.entered[n..]
    && (forall i | 0 <= i < n :: s.fates[i] != Waiting)
    && (forall i | n <= i < |s.fates| :: s.fates[i] == Waiting)
    && s.loaded == LoadedOf(s.entered, s.fates)
  }

  /** A dequeue is scheduled exactly if something waits, and then an event is on its way. */
  ghost predicate Scheduled<V>(s: State<V>) {
    && (s.dequeueScheduled <==> s.queue != [])
    && (s.dequeueScheduled ==> s.posted >= 1)
  }

  /** While an effect is being loaded, what waits may not be scheduled yet. */
  ghost predicate Loading<V>(s: State<V>) {
    s.dequeueScheduled ==> s.queue != [] && s.posted >= 1
  }

  ghost predicate Inv<V>(s: State<V>) { Accounted(s) && Scheduled(s) }

  lemma {:induction false} LoadedOfPrefix<V>(entered: seq<V>, fates: seq<Fate>, n: nat)
    requires |entered| == |fates| && n <= |fates|
    requires forall i | n <= i < |fates| :: fates[i] != Loaded
    ensures LoadedOf(entered, fates) == LoadedOf(entered[..n], fates[..n])
    decreases |entered|
  {
    if n == |entered| {
      assert entered[..n] == entered && fates[..n] == fates;
    } else {
      var m := |entered| - 1;
      LoadedOfPrefix(entered[..m], fates[..m], n);
      assert entered[..m][..n] == entered[..n] && fates[..m][..n] == fates[..n];
    }
  }

  lemma {:induction false} ClearingLoadsNothing<V>(entered: seq<V>, fates: seq<Fate>)
    requires |entered| == |fates|
    ensures LoadedOf(entered, WaitingCleared(fates)) == LoadedOf(entered, fates)
    decreases |entered|
  {
    if entered != [] {
      var m := |entered| - 1;
      ClearingLoadsNothing(entered[..m], fates[..m]);
      assert WaitingCleared(fates)[..m] == WaitingCleared(fates[..m]);
    }
  }

  lemma EnqueuedIsAccounted<V>(s: State<V>, v: V)
    requires Accounted(s)
    ensures Accounted(Enqueued(s, v))
  {
    var r := Enqueued(s, v);
    var n := |s.entered| - |s.queue|;
    assert r.entered[..|s.entered|] == s.entered && r.fates[..|s.fates|] == s.fates;
    assert (s.entered + [v])[n..] == s.entered[n..] + [v];
  }

  lemma ActedIsAccounted<V>(s: State<V>, a: Action<V>)
    requires Accounted(s)
    ensures Accounted(Acted(s, a)) && Acted(s, a).loaded == s.loaded
    ensures Loading(s) ==> Loading(Acted(s, a))
    ensures Scheduled(s) ==> Scheduled(Acted(s, a))
  {
    match a
    case Enqueue(v) => EnqueuedIsAccounted(s, v);
    case Clear => ClearingLoadsNothing(s.entered, s.fates);
  }

  lemma TakenIsAccounted<V>(s: State<V>)
    requires Accounted(s) && s.queue != []
    ensures Accounted(Taken(s))
    ensures Loading(Taken(s))
  {
    TakenIsLoaded(s);
  }

  lemma TakenIsLoaded<V>(s: State<V>)
    requires Accounted(s) && s.queue != []
    ensures LoadedOf(s.entered, Taken(s).fates) == s.loaded + [s.queue[0]]
  {
    var r := Taken(s);
    var n := |s.entered| - |s.queue|;
    LoadedOfPrefix(s.entered, s.fates, n);
    LoadedOfPrefix(s.entered, r.fates, n + 1);
    assert s.entered[..n + 1][..n] == s.entered[..n];
    assert r.fates[..n + 1][..n] == s.fates[..n];
    assert s.queue[0] == s.entered[n];
  }

  lemma {:induction false} AllActedIsAccounted<V>(s: State<V>, actions: seq<Action<V>>)
    requires Accounted(s) && Loading(s)
    ensures
      var r := AllActed(s, actions);
      Accounted(r) && Loading(r) && r.loaded == s.loaded
    decreases |actions|
  {
    if actions != [] {
      AllActedIsAccounted(s, actions[..|actions| - 1]);
      ActedIsAccounted(AllActed(s, actions[..|actions| - 1]), actions[|actions| - 1]);
    }
  }

  // ---------------------------------------------------------------- runs

  ghost predicate Possible<V>(s: State<V>, e: Event<V>) {
    e.Deliver? ==> s.posted >= 1
  }

  function Step<V>(s: State<V>, e: Event<V>): State<V>
    requires Accounted(s) && Possible(s, e)
  {
    match e
    case Call(a) => Acted(s, a)
    case Deliver(during) => Dequeued(s.(posted := s.posted - 1), during)
  }

  lemma DequeuedKeepsInv<V>(s: State<V>, during: seq<Action<V>>)
    requires Accounted(s) && (s.queue == [] ==> !s.dequeueScheduled)
    ensures Inv(Dequeued(s, during))
    ensures Dequeued(s, during).loaded == s.loaded + (if s.queue != [] then [s.queue[0]] else [])
  {
    if s.queue != [] {
      TakenIsAccounted(s);
      AllActedIsAccounted(Taken(s), during);
    }
  }

  /** A delivered event loads the first entry of the queue, or nothing if the queue is empty; a
      call loads nothing. */
  lemma StepKeepsInv<V>(s: State<V>, e: Event<V>)
    requires Inv(s) && Possible(s, e)
    ensures Inv(Step(s, e))
    ensures Step(s, e).loaded == s.loaded + (if e.Deliver? && s.queue != [] then [s.queue[0]] else [])
  {
    match e
    case Call(a) =>
      CallKeepsInv(s, a);
      assert Step(s, e) == Acted(s, a);
    case Deliver(during) =>
      DeliveryKeepsInv(s, during);
      assert Step(s, e) == Dequeued(s.(posted := s.posted - 1), during);
  }

  lemma CallKeepsInv<V>(s: State<V>, a: Action<V>)
    requires Inv(s)
    ensures Inv(Acted(s, a)) && Acted(s, a).loaded == s.loaded
  {
    ActedIsAccounted(s, a);
  }

  lemma DeliveryKeepsInv<V>(s: State<V>, during: seq<Action<V>>)
    requires Inv(s) && s.posted >= 1
    ensures
      var r := Dequeued(s.(posted := s.posted - 1), during);
      Inv(r) && r.loaded == s.loaded + (if s.queue != [] then [s.queue[0]] else [])
  {
    var t := s.(posted := s.posted - 1);
    assert Accounted(t);
    DequeuedKeepsInv(t, during);
  }

  ghost predicate Legal<V>(s: State<V>, events: seq<Event<V>>)
    requires Inv(s)
    decreases |events|
  {
    events != [] ==>
      && Possible(s, events[0])
      && (StepKeepsInv(s, events[0]);
          Legal(Step(s, events[0]), events[1..]))
  }

  function Run<V>(s: State<V>, events: seq<Event<V>>): (r: State<V>)
    requires Inv(s) && Legal(s, events)
    ensures Inv(r)
    decreases |events|
  {
    if events == [] then s
    else
      StepKeepsInv(s, events[0]);
      Run(Step(s, events[0]), events[1..])
  }

  /** Once no event is on its way, nothing waits: every entry was either cleared or loaded, and
      the loaded ones in the order in which they were enqueued, each once. */
  lemma QuietMeansDone<V>(s: State<V>, events: seq<Event<V>>)
    requires Inv(s) && Legal(s, events)
    requires Run(s, events).posted == 0
    ensures
      var r := Run(s, events);
      && r.queue == [] && |r.fates| == |r.entered|
      && (forall i | 0 <= i < |r.fates| :: r.fates[i] != Waiting)
      && r.loaded == LoadedOf(r.entered, r.fates)
  {
    var r := Run(s, events);
    assert Inv(r);
  }

  /** The values that a sequence of calls enqueues. */
  function Values<V>(actions: seq<Action<V>>): seq<V> {
    if actions == [] then []
    else Values(actions[..|actions| - 1])
         + match actions[|actions| - 1] { case Enqueue(v) => [v] case Clear => [] }
  }

  /** What the queue holds after such a sequence: clearing forgets all that went before. */
  function Left<V>(queue: seq<V>, actions: seq<Action<V>>): seq<V> {
    if actions == [] then queue
    else
      match actions[|actions| - 1]
      case Enqueue(v) => Left(queue, actions[..|actions| - 1]) + [v]
      case Clear => []
  }

  lemma {:induction false} CallsAdd<V>(s: State<V>, actions: seq<Action<V>>)
    ensures
      var r := AllActed(s, actions);
      r.queue == Left(s.queue, actions) && r.entered == s.entered + Values(actions)
    decreases |actions|
  {
    if actions != [] {
      CallsAdd(s, actions[..|actions| - 1]);
    }
  }

  /** What one event does to the queue: a call adds its entry last or empties it; a delivered event takes the
      first entry, and what its load enqueues goes behind the others. */
  lemma EventsAdd<V>(s: State<V>, e: Event<V>)
    requires Inv(s) && Possible(s, e)
    ensures
      var r := Step(s, e);
      match e
      case Call(Enqueue(v)) => r.queue == s.queue + [v] && r.entered == s.entered + [v]
      case Call(Clear) => r.queue == [] && r.entered == s.entered && !r.dequeueScheduled
      case Deliver(during) =>
        if s.queue == [] then r.queue == [] && r.entered == s.entered && r.posted == s.posted - 1
        else r.queue == Left(s.queue[1..], during) && r.entered == s.entered + Values(during)
  {
    if e.Deliver? && s.queue != [] {
      CallsAdd(Taken(s.(posted := s.posted - 1)), e.during);
    }
  }

  /** One event is on its way if a dequeue is scheduled, and none otherwise. */
  predicate OneEvent<V>(s: State<V>) { s.posted == if s.dequeueScheduled then 1 else 0 }

  predicate ClearsNothing<V>(e: Event<V>) {
    match e
    case Call(a) => a.Enqueue?
    case Deliver(during) => forall i | 0 <= i < |during| :: during[i].Enqueue?
  }

  lemma {:induction false} EnqueuesKeepOneEvent<V>(s: State<V>, actions: seq<Action<V>>)
    requires OneEvent(s) && forall i | 0 <= i < |actions| :: actions[i].Enqueue?
    ensures OneEvent(AllActed(s, actions))
    decreases |actions|
  {
    if actions != [] {
      EnqueuesKeepOneEvent(s, actions[..|actions| - 1]);
    }
  }

  /** However many effects are enqueued, also while others load, there is never more than one event on its
      way; only clearing the queue leaves an event behind. */
  lemma {:induction false} OneEventAtATime<V>(s: State<V>, events: seq<Event<V>>)
    requires Inv(s) && Legal(s, events) && OneEvent(s)
    requires forall e | e in events :: ClearsNothing(e)
    ensures OneEvent(Run(s, events))
    decreases |events|
  {
    if events != [] {
      var e := events[0];
      StepKeepsInv(s, e);
      assert e in events && ClearsNothing(e);
      if e.Deliver? && s.queue != [] {
        EnqueuesKeepOneEvent(Taken(s.(posted := s.posted - 1)), e.during);
      }
      OneEventAtATime(Step(s, e), events[1..]);
    }
  }

  function Deliveries<V>(n: nat): seq<Event<V>> {
    if n == 0 then [] else [Deliver([])] + Deliveries(n - 1)
  }

  lemma DeliveryTakes<V>(s: State<V>)
    requires Inv(s) && s.queue != []
    ensures
      var next := Step(s, Deliver([]));
      Inv(next) && next.queue == s.queue[1..] && next.loaded == s.loaded + [s.queue[0]]
  {
    StepKeepsInv(s, Deliver([]));
    var t := s.(posted := s.posted - 1);
    assert AllActed(Taken(t), []) == Taken(t);
  }

  lemma FirstAndRest<V>(done: seq<V>, s: seq<V>, n: nat)
    requires 0 < n <= |s|
    ensures s[1..][n - 1..] == s[n..]
    ensures done + [s[0]] + s[1..][..n - 1] == done + s[..n]
  {
    assert [s[0]] + s[1..][..n - 1] == s[..n];
  }

  lemma RunFirst<V>(s: State<V>, e: Event<V>, rest: seq<Event<V>>)
    requires Inv(s) && Possible(s, e) && Inv(Step(s, e)) && Legal(Step(s, e), rest)
    ensures Legal(s, [e] + rest) && Run(s, [e] + rest) == Run(Step(s, e), rest)
  {
    assert ([e] + rest)[1..] == rest;
  }

  /** If nothing else happens, as many events as entries wait can be delivered, and they load
      the whole queue in order. */
  lemma {:induction false} Drains<V>(s: State<V>, n: nat)
    requires Inv(s) && n <= |s.queue|
    ensures Legal(s, Deliveries(n))
    ensures Run(s, Deliveries(n)).queue == s.queue[n..]
    ensures Run(s, Deliveries(n)).loaded == s.loaded + s.queue[..n]
    decreases n
  {
    if n > 0 {
      DeliveryTakes(s);
      var next, rest := Step(s, Deliver([])), Deliveries<V>(n - 1);
      Drains(next, n - 1);
      RunFirst(s, Deliver([]), rest);
      FirstAndRest(s.loaded, s.queue, n);
    } else {
      assert s.queue[0..] == s.queue;
    }
  }

  // ---------------------------------------------------------------- the object

  class Queue<V> {
    var queue: seq<V>
    var dequeueScheduled: bool
    ghost var posted: nat
    ghost var entered: seq<V>
    ghost var fates: seq<Fate>
    ghost var loaded: seq<V>

    ghost function Now(): State<V>
      reads this
    {
      State(queue, dequeueScheduled, posted, entered, fates, loaded)
    }

    constructor ()
      ensures Now() == Init() && Inv(Now())
    {
      queue, dequeueScheduled, posted, entered, fates, loaded := [], false, 0, [], [], [];
    }

    method EnqueueEffect(value: V)
      modifies this
      ensures Now() == Enqueued(old(Now()), value)
      ensures old(Inv(Now())) ==> Inv(Now())
    {
      if Inv(Now()) {
        ActedIsAccounted(Now(), Enqueue(value));
      }
      queue := queue + [value];
      entered := entered + [value];
      fates := fates + [Waiting];
      Schedule();
    }

    method ClearQueue()
      modifies this
      ensures Now() == Emptied(old(Now()))
      ensures old(Inv(Now())) ==> Inv(Now())
    {
      if Inv(Now()) {
        ActedIsAccounted(Now(), Clear);
      }
      queue := [];
      dequeueScheduled := false;
      fates := WaitingCleared(fates);
    }

    method Schedule()
      modifies `dequeueScheduled, `posted
      ensures Now() == ScheduleDequeue(old(Now()))
    {
      if queue == [] || dequeueScheduled {
        return;
      }
      dequeueScheduled := true;
      posted := posted + 1;
    }

    /** The slot that posted events call. */
    method Dequeue(during: seq<Action<V>>)
      requires Inv(Now()) && posted >= 1
      modifies this
      ensures Now() == Step(old(Now()), Deliver(during)) && Inv(Now())
    {
      StepKeepsInv(Now(), Deliver(during));
      posted := posted - 1;
      if queue == [] {
        return;
      }
      dequeueScheduled := false;
      fates := fates[|fates| - |queue| := Loaded];
      loaded := loaded + [queue[0]];
      queue := queue[1..];
      LoadEffect(during);
      Schedule();
    }

    method LoadEffect(during: seq<Action<V>>)
      modifies this
      ensures Now() == AllActed(old(Now()), during)
    {
      for i := 0 to |during|
        invariant Now() == AllActed(old(Now()), during[..i])
      {
        assert during[..i + 1][..i] == during[..i];
        match during[i]
        case Enqueue(v) => EnqueueEffect(v);
        case Clear => ClearQueue();
      }
      assert during[..|during|] == during;
    }
  }

}
