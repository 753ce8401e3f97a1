/** The resize handshake between the window manager and a client: `_NET_WM_SYNC_REQUEST` of the
    Extended Window Manager Hints, chapter "Window Manager Protocols". The client is not trusted:
    alarms may be lost, late, repeated or made up, and both timers may expire at any time
    they are armed. The window has already been shown. */
module SyncProtocol {

  const NONE: nat := 0
  const TWO_TO_32: nat := 0x1_0000_0000

  datatype Timer = NoTimer | Stopped | Armed(milliseconds: nat)

  /** A 64-bit counter value as two halves. */
  datatype Value = Value(hi: nat, lo: nat) {
    predicate IsValid() { lo < TWO_TO_32 }

    function Id(): nat { hi * TWO_TO_32 + lo }

    /** `lo++`, with a carry when it wraps around. */
    function Next(): Value {
      var newLo := (lo + 1) % TWO_TO_32;
      Value(if lo > newLo then hi + 1 else hi, newLo)
    }
  }

  /** What went over the wire, and when support was dropped. */
  datatype Entry = Sent(value: Value) | Acknowledged(value: Value) | GaveUp

  datatype Sync = Sync(
    counter: nat, alarm: nat, value: Value, isPending: bool,
    timeout: Timer, failsafe: Timer, resizing: bool, log: seq<Entry>)

  datatype Event =
    | StartResize
    | Motion(haveResizeEffect: bool)
    | AlarmNotify(alarm: nat, value: Value)
    | TimeoutExpires
    | FailsafeExpires
    | LeaveResize

  /** A window whose client announced `counter`; NONE if it has no sync support. The
      alarm is NONE too if the server refused to create it. */
  predicate Init(s: Sync) {
    && s.value == Value(0, 0) && !s.isPending && !s.resizing && s.log == []
    && s.timeout == NoTimer && s.failsafe == NoTimer
    && (s.counter == NONE ==> s.alarm == NONE)
  }

  // ---------------------------------------------------------------- the operations

  function SendSyncRequest(s: Sync): Sync {
    if s.counter == NONE || s.isPending then s
    else
      s.(failsafe := Armed(10000), value := s.value.Next(), isPending := true,
         log := s.log + [Sent(s.value.Next())])
  }

  function DoResizeSync(s: Sync): Sync {
    if s.counter != NONE
    then SendSyncRequest(s.(timeout := Armed(250)))
    else s.(isPending := true, timeout := Armed(33))
  }

  /** `performMoveResize` lets a client without a counter take the next resize. */
  function PerformMoveResize(s: Sync): Sync {
    if s.counter == NONE then s.(isPending := false) else s
  }

  function SyncEvent(s: Sync, alarm: nat, value: Value): Sync {
    if alarm == s.alarm && value == s.value then
      var acknowledged := s.(isPending := false, failsafe := Halt(s.failsafe), log := s.log + [Acknowledged(value)]);
      if s.resizing
      then PerformMoveResize(acknowledged.(timeout := Halt(s.timeout)))
      else acknowledged
    else s
  }

  function Halt(t: Timer): Timer { if t == NoTimer then NoTimer else Stopped }

  /** The client did not answer: sync support is removed from it. */
  function DropSupport(s: Sync): Sync {
    s.(isPending := false, counter := NONE, alarm := NONE, timeout := NoTimer, failsafe := NoTimer,
       log := s.log + [GaveUp])
  }

  function LeaveMoveResize(s: Sync): Sync {
    s.(isPending := s.isPending && s.counter != NONE, timeout := NoTimer, resizing := false)
  }

  /** One event; a timer that is not armed cannot expire and no alarm has the number NONE. */
  function Step(s: Sync, e: Event): Sync {
    match e
    case StartResize => s.(resizing := true)
    case Motion(effect) =>
      if !s.resizing || s.isPending then s
      else if effect then PerformMoveResize(s)
      else DoResizeSync(s)
    case AlarmNotify(alarm, value) => if alarm == NONE then s else SyncEvent(s, alarm, value)
    case TimeoutExpires => if s.timeout.Armed? then PerformMoveResize(s.(timeout := Stopped)) else s
    case FailsafeExpires => if s.failsafe.Armed? then DropSupport(s) else s
    case LeaveResize => if s.resizing then LeaveMoveResize(s) else s
  }

  function Run(s: Sync, events: seq<Event>): Sync
    decreases |events|
  {
    if events == [] then s else Step(Run(s, events[..|events| - 1]), events[|events| - 1])
  }

  // ---------------------------------------------------------------- properties of the log

  /** The values requested so far, in order. */
  function Requests(log: seq<Entry>): seq<Value> {
    if log == [] then []
    else
      var before := Requests(log[..|log| - 1]);
      match log[|log| - 1]
      case Sent(v) => before + [v]
      case _ => before
  }

  /** The requests that were neither acknowledged nor given up. */
  function Outstanding(log: seq<Entry>): set<Value> {
    if log == [] then {} else StillOutstanding(Outstanding(log[..|log| - 1]), log[|log| - 1])
  }

  function StillOutstanding(before: set<Value>, e: Entry): set<Value> {
    match e
    case Sent(v) => before + {v}
    case Acknowledged(v) => before - {v}
    case GaveUp => {}
  }

  /** Request number i (from zero) carries the 64-bit value i + 1. */
  predicate Consecutive(requests: seq<Value>) {
    forall i | 0 <= i < |requests| :: requests[i].IsValid() && requests[i].Id() == i + 1
  }

  function LastRequest(log: seq<Entry>): Value {
    var requests := Requests(log);
    if requests == [] then Value(0, 0) else requests[|requests| - 1]
  }

  predicate Inv(s: Sync) {
    && s.value.IsValid()
    && Consecutive(Requests(s.log))
    && s.value == LastRequest(s.log)
    && (s.isPending && s.counter != NONE ==> Requests(s.log) != [])
    && Outstanding(s.log) == (if s.isPending && s.counter != NONE then {s.value} else {})
    && (s.counter == NONE ==> s.alarm == NONE)
    && (s.failsafe.Armed? <==> s.isPending && s.counter != NONE)
    && (s.isPending && s.counter == NONE ==> s.timeout.Armed?)
    && (s.timeout != NoTimer ==> s.resizing)
  }

  lemma LogAppend(log: seq<Entry>, e: Entry)
    ensures Requests(log + [e]) == if e.Sent? then Requests(log) + [e.value] else Requests(log)
    ensures Outstanding(log + [e]) == StillOutstanding(Outstanding(log), e)
  {
    assert (log + [e])[..|log + [e]| - 1] == log;
  }

  lemma NextId(v: Value)
    requires v.IsValid()
    ensures v.Next().IsValid() && v.Next().Id() == v.Id() + 1
  {
    if v.lo + 1 < TWO_TO_32 {
      assert (v.lo + 1) % TWO_TO_32 == v.lo + 1;
    }
  }

  lemma SendKeepsInv(s: Sync)
    requires Inv(s)
    ensures Inv(SendSyncRequest(s))
  {
    if s.counter != NONE && !s.isPending {
      var v := s.value.Next();
      LogAppend(s.log, Sent(v));
      NextId(s.value);
      NextIsConsecutive(Requests(s.log), v);
    }
  }

  lemma NextIsConsecutive(requests: seq<Value>, v: Value)
    requires Consecutive(requests) && v.IsValid() && v.Id() == |requests| + 1
    ensures Consecutive(requests + [v]) && (requests + [v])[|requests|] == v
  {
  }

  lemma SyncEventKeepsInv(s: Sync, alarm: nat, value: Value)
    requires Inv(s) && alarm != NONE
    ensures Inv(SyncEvent(s, alarm, value))
  {
    LogAppend(s.log, Acknowledged(value));
  }

  lemma StepKeepsInv(s: Sync, e: Event)
    requires Inv(s)
    ensures Inv(Step(s, e))
  {
    match e
    case StartResize =>
    case Motion(effect) =>
      if s.resizing && !s.isPending && !effect && s.counter != NONE {
        SendKeepsInv(s.(timeout := Armed(250)));
      }
    case AlarmNotify(alarm, value) =>
      if alarm != NONE {
        SyncEventKeepsInv(s, alarm, value);
      }
    case TimeoutExpires =>
    case FailsafeExpires =>
      LogAppend(s.log, GaveUp);
    case LeaveResize =>
  }

  /** Every reachable state satisfies the invariant. */
  lemma {:induction false} RunKeepsInv(s: Sync, events: seq<Event>)
    requires Init(s)
    ensures Inv(Run(s, events))
    decreases |events|
  {
    if events != [] {
      RunKeepsInv(s, events[..|events| - 1]);
      StepKeepsInv(Run(s, events[..|events| - 1]), events[|events| - 1]);
    }
  }

  // ---------------------------------------------------------------- the main results

  /** In every run at most one request is unacknowledged, and the n-th request carries n. */
  lemma {:induction false} OneRequestAtATime(s: Sync, events: seq<Event>)
    requires Init(s)
    ensures |Outstanding(Run(s, events).log)| <= 1
    ensures Consecutive(Requests(Run(s, events).log))
  {
    RunKeepsInv(s, events);
  }

  /** A pending flag always has an armed timer, and when that timer expires the flag is cleared. */
  lemma {:induction false} PendingIsReleased(s: Sync, events: seq<Event>)
    requires Init(s)
    ensures
      var t := Run(s, events);
      t.isPending ==>
        || (t.counter != NONE && t.failsafe.Armed? && !Step(t, FailsafeExpires).isPending)
        || (t.counter == NONE && t.timeout.Armed? && !Step(t, TimeoutExpires).isPending)
    ensures
      var t := Run(s, events);
      var r := Step(t, FailsafeExpires);
      t.failsafe.Armed? ==> r.counter == NONE && r.alarm == NONE && r.timeout == NoTimer && r.failsafe == NoTimer
  {
    RunKeepsInv(s, events);
  }

  /** An alarm clears the pending flag of a client with a counter exactly when it carries the
      latest request; one for an older request changes nothing at all. */
  lemma {:induction false} OnlyLatestAlarmCounts(s: Sync, events: seq<Event>, alarm: nat, value: Value)
    requires Init(s)
    requires alarm != NONE
    ensures
      var t := Run(s, events);
      var requests := Requests(t.log);
      && (t.isPending && t.counter != NONE ==>
            (!Step(t, AlarmNotify(alarm, value)).isPending
             <==> alarm == t.alarm && value == LastRequest(t.log)))
      && (forall i | 0 <= i < |requests| - 1 :: Step(t, AlarmNotify(alarm, requests[i])) == t)
      && (alarm != t.alarm || value != LastRequest(t.log) ==> Step(t, AlarmNotify(alarm, value)) == t)
      && (t.counter == NONE ==> Step(t, AlarmNotify(alarm, value)) == t)
  {
    RunKeepsInv(s, events);
    var t := Run(s, events);
    var requests := Requests(t.log);
    forall i | 0 <= i < |requests| - 1 ensures requests[i] != t.value {
      assert requests[i].Id() != requests[|requests| - 1].Id();
    }
  }

  /** `r` is `s` after a client with a counter was asked to redraw. */
  predicate Asked(s: Sync, r: Sync) {
    && r.value.IsValid() && r.value.Id() == |Requests(s.log)| + 1
    && r == s.(isPending := true, failsafe := Armed(10000), timeout := Armed(250),
               value := r.value, log := s.log + [Sent(r.value)])
  }

  /** A client without a counter is not asked; the next size waits for a thirtieth of a second. */
  predicate Throttled(s: Sync, r: Sync) {
    r == s.(isPending := true, timeout := Armed(33))
  }

  /** What a motion that changes the size does: exactly one request, unless there is one under way or the
      size is only shown by an effect. */
  predicate MotionOutcome(s: Sync, haveResizeEffect: bool, r: Sync) {
    if !s.resizing || s.isPending || haveResizeEffect then r == s
    else if s.counter != NONE then Asked(s, r)
    else Throttled(s, r)
  }

  lemma MotionsAsk(s: Sync, haveResizeEffect: bool)
    requires Inv(s)
    ensures MotionOutcome(s, haveResizeEffect, Step(s, Motion(haveResizeEffect)))
  {
    if s.resizing && !s.isPending && !haveResizeEffect && s.counter != NONE {
      NextId(s.value);
      assert s.value.Id() == |Requests(s.log)|;
    }
  }

  /** In every run a motion asks the client exactly if it is being resized and no request is under way. */
  lemma {:induction false} EveryMotionAsks(s: Sync, events: seq<Event>, haveResizeEffect: bool)
    requires Init(s)
    ensures MotionOutcome(Run(s, events), haveResizeEffect, Step(Run(s, events), Motion(haveResizeEffect)))
  {
    RunKeepsInv(s, events);
    MotionsAsk(Run(s, events), haveResizeEffect);
  }

  /** A client that answers is asked again by the next motion, and with the next number: over every run
      the pace is set by its answers. */
  lemma {:induction false} AnswersAreFollowed(s: Sync, events: seq<Event>)
    requires Init(s)
    ensures
      var t := Run(s, events);
      var answered := Step(t, AlarmNotify(t.alarm, LastRequest(t.log)));
      t.resizing && t.isPending && t.counter != NONE && t.alarm != NONE ==>
        && answered == t.(isPending := false, failsafe := Stopped, log := t.log + [Acknowledged(t.value)],
                          timeout := if t.timeout == NoTimer then NoTimer else Stopped)
        && Asked(answered, Step(answered, Motion(false)))
        && Requests(answered.log) == Requests(t.log)
  {
    RunKeepsInv(s, events);
    var t := Run(s, events);
    if t.resizing && t.isPending && t.counter != NONE && t.alarm != NONE {
      LogAppend(t.log, Acknowledged(t.value));
      var answered := Step(t, AlarmNotify(t.alarm, t.value));
      StepKeepsInv(t, AlarmNotify(t.alarm, t.value));
      MotionsAsk(answered, false);
    }
  }

  /** The timer of a resize lets a client without a counter take the next size, and changes
      nothing for one that still owes an answer. */
  lemma {:induction false} TimeoutReleases(s: Sync, events: seq<Event>)
    requires Init(s)
    ensures
      var t := Run(s, events);
      var r := Step(t, TimeoutExpires);
      && (t.timeout.Armed? ==> r == t.(timeout := Stopped, isPending := t.isPending && t.counter != NONE))
      && (!t.timeout.Armed? ==> r == t)
  {
  }

  /** The user holds an edge: the last event of either kind was the beginning of a resize. */
  predicate Holding(events: seq<Event>)
    decreases |events|
  {
    events != [] &&
    match events[|events| - 1]
    case StartResize => true
    case LeaveResize => false
    case _ => Holding(events[..|events| - 1])
  }

  /** A resize begins and ends with the user alone, whatever the client does. */
  lemma {:induction false} ResizingFollowsUser(s: Sync, events: seq<Event>)
    requires Init(s)
    ensures Run(s, events).resizing <==> Holding(events)
    decreases |events|
  {
    if events != [] {
      ResizingFollowsUser(s, events[..|events| - 1]);
    }
  }

  /** Once support was dropped nothing goes over the wire any more. */
  lemma {:induction false} NeverAskedAgain(s: Sync, events: seq<Event>)
    requires Inv(s) && s.counter == NONE
    ensures
      var r := Run(s, events);
      Inv(r) && r.counter == NONE && r.log == s.log
    decreases |events|
  {
    if events != [] {
      NeverAskedAgain(s, events[..|events| - 1]);
      StepKeepsInv(Run(s, events[..|events| - 1]), events[|events| - 1]);
    }
  }

  // ---------------------------------------------------------------- the window

  /** The window that keeps the handshake; `log` records the client messages. */
  class Client {
    var counter: nat
    var alarm: nat
    var value: Value
    var isPending: bool
    var timeout: Timer
    var failsafe: Timer
    var resizing: bool
    ghost var log: seq<Entry>

    ghost function State(): Sync
      reads this
    {
      Sync(counter, alarm, value, isPending, timeout, failsafe, resizing, log)
    }

    /** A shown window after `getSyncCounter`. */
    constructor (counter: nat, alarm: nat)
      requires counter == NONE ==> alarm == NONE
      ensures Init(State()) && this.counter == counter && this.alarm == alarm
    {
      this.counter, this.alarm := counter, alarm;
      value, isPending, resizing := Value(0, 0), false, false;
      timeout, failsafe := NoTimer, NoTimer;
      log := [];
    }

    method SendRequest()
      requires value.IsValid()
      modifies this
      ensures State() == SendSyncRequest(old(State()))
      ensures old(counter != NONE && !isPending) ==> value.Id() == old(value).Id() + 1 && log == old(log) + [Sent(value)]
    {
      if counter == NONE || isPending {
        return;
      }
      NextId(value);
      failsafe := Armed(10000);
      var oldLo := value.lo;
      value := value.(lo := (value.lo + 1) % TWO_TO_32);
      if oldLo > value.lo {
        value := value.(hi := value.hi + 1);
      }
      log := log + [Sent(value)];
      isPending := true;
    }

    method StartResizeMode()
      modifies this
      ensures State() == Step(old(State()), StartResize)
    {
      resizing := true;
    }

    /** A pointer motion that changes the size. */
    method HandleMoveResize(haveResizeEffect: bool)
      requires Inv(State())
      modifies this
      ensures State() == Step(old(State()), Motion(haveResizeEffect)) && Inv(State())
      ensures MotionOutcome(old(State()), haveResizeEffect, State())
    {
      StepKeepsInv(State(), Motion(haveResizeEffect));
      MotionsAsk(State(), haveResizeEffect);
      if !resizing || isPending {
        return;
      }
      if haveResizeEffect {
        Perform();
      } else {
        ResizeSync();
      }
    }

    method ResizeSync()
      requires value.IsValid()
      modifies this
      ensures State() == DoResizeSync(old(State()))
    {
      if timeout == NoTimer {
        timeout := Stopped;
      }
      if counter != NONE {
        timeout := Armed(250);
        SendRequest();
      } else {
        isPending := true;
        timeout := Armed(33);
      }
    }

    method Perform()
      modifies this
      ensures State() == PerformMoveResize(old(State()))
    {
      if counter == NONE {
        isPending := false;
      }
    }

    method HandleAlarm(eventAlarm: nat, counterValue: Value)
      requires Inv(State()) && eventAlarm != NONE
      modifies this
      ensures State() == Step(old(State()), AlarmNotify(eventAlarm, counterValue)) && Inv(State())
    {
      StepKeepsInv(State(), AlarmNotify(eventAlarm, counterValue));
      if eventAlarm == alarm && counterValue.hi == value.hi && counterValue.lo == value.lo {
        isPending := false;
        log := log + [Acknowledged(counterValue)];
        if failsafe != NoTimer {
          failsafe := Stopped;
        }
        if resizing {
          if timeout != NoTimer {
            timeout := Stopped;
          }
          Perform();
        }
      }
    }

    method TimeoutTriggered()
      requires Inv(State()) && timeout.Armed?
      modifies this
      ensures State() == Step(old(State()), TimeoutExpires) && Inv(State())
    {
      StepKeepsInv(State(), TimeoutExpires);
      timeout := Stopped;
      Perform();
    }

    method FailsafeTriggered()
      requires Inv(State()) && failsafe.Armed?
      modifies this
      ensures State() == Step(old(State()), FailsafeExpires) && Inv(State())
      ensures !isPending && counter == NONE
    {
      StepKeepsInv(State(), FailsafeExpires);
      isPending := false;
      counter, alarm := NONE, NONE;
      timeout, failsafe := NoTimer, NoTimer;
      log := log + [GaveUp];
    }

    method LeaveMoveResizeMode()
      requires Inv(State()) && resizing
      modifies this
      ensures State() == Step(old(State()), LeaveResize) && Inv(State())
    {
      StepKeepsInv(State(), LeaveResize);
      if counter == NONE {
        isPending := false;
      }
      timeout := NoTimer;
      resizing := false;
    }
  }

}
