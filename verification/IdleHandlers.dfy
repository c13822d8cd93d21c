/**
 The read-idle and write-idle handlers (`handler.go`): a timed state machine. `HandleActive`, the critical
 section of `HandleRead` or `HandleWrite`, `HandleInactive` and the three parts of the timer's callback are
 atomic (they hold the mutex) and interleave freely; any number of callbacks may be running. The two handlers
 differ only in whether a message is forwarded before or after the critical section.
 */
module IdleHandlers {
  import opened Common

  // ---------------------------------------------------------------- the critical sections

  /** A `time.Timer` as its owner sees it: none, not running, or due at a time. */
  datatype TimerState = NoTimer | Stopped | Armed(deadline: nat)

  /** The fields behind the mutex; `attached` says that `handlerCtx` is not nil. */
  datatype Fields = Fields(last: nat, timer: TimerState, attached: bool)

  /** `timer.Reset` where there is a timer. */
  function Reset(t: TimerState, deadline: nat): (r: TimerState)
  {
    if t.NoTimer? then NoTimer else Armed(deadline)
  }

  /** The fields after `HandleActive` at time `now`. */
  function Activated(idle: nat, now: nat): (f: Fields) { Fields(now, Armed(now + idle), true) }

  /** The fields after the critical section of `HandleRead` or `HandleWrite`. */
  function Touched(f: Fields, idle: nat, now: nat): (g: Fields) { f.(last := now, timer := Reset(f.timer, now + idle)) }

  /** The fields after `HandleInactive`. */
  function Detached(f: Fields): (g: Fields) { f.(timer := NoTimer, attached := false) }

  /** What the callback decides when it checks at time `now`. */
  predicate Expired(f: Fields, idle: nat, now: nat) { now >= f.last + idle && f.attached }

  /** The fields after the callback's last part. */
  function Rearmed(f: Fields, idle: nat, now: nat): (g: Fields) { f.(timer := Reset(f.timer, now + idle)) }

  class Timer {
    var due: Option<nat>

    constructor AfterFunc(deadline: nat)
      ensures due == Some(deadline)
    {
      due := Some(deadline);
    }

    method Reset(deadline: nat)
      modifies this
      ensures due == Some(deadline)
    {
      due := Some(deadline);
    }

    method Stop()
      modifies this
      ensures due == None
    {
      due := None;
    }

    /** The runtime starts the callback, and the timer is not due any more. */
    method Expire()
      requires due.Some?
      modifies this
      ensures due == None
    {
      due := None;
    }
  }

  /** `readIdleHandler` and `writeIdleHandler`; every method is one critical section, entered at time `now`. */
  class IdleHandler {
    const idleTime: nat
    var lastTime: nat
    var timer: Timer?
    var attached: bool

    ghost function View(): Fields
      reads this, timer
    {
      Fields(lastTime, if timer == null then NoTimer else if timer.due == None then Stopped else Armed(timer.due.value), attached)
    }

    constructor (idleTime: nat)
      ensures View() == Fields(0, NoTimer, false) && this.idleTime == idleTime
    {
      this.idleTime := idleTime;
      lastTime := 0;
      timer := null;
      attached := false;
    }

    method HandleActive(now: nat)
      modifies this
      ensures View() == Activated(idleTime, now) && fresh(timer)
    {
      attached := true;
      lastTime := now;
      timer := new Timer.AfterFunc(now + idleTime);
    }

    /** The critical section of `HandleRead` (after forwarding) and of `HandleWrite` (before it). */
    method Touch(now: nat)
      modifies this, timer
      ensures timer == old(timer)
      ensures View() == Touched(old(View()), idleTime, now)
    {
      lastTime := now;
      if timer != null {
        timer.Reset(now + idleTime);
      }
    }

    method HandleInactive()
      modifies this, timer
      ensures View() == Detached(old(View()))
      ensures old(timer) != null ==> old(timer).due == None
    {
      attached := false;
      if timer != null {
        timer.Stop();
        timer := null;
      }
    }

    /** The first part of the callback: whether it is going to trigger the event. */
    method CheckExpired(now: nat) returns (fire: bool)
      requires lastTime <= now
      ensures fire <==> Expired(View(), idleTime, now)
    {
      var expired := now - lastTime >= idleTime;
      var ctx := attached;
      fire := expired && ctx;
    }

    /** The last part of the callback. */
    method Rearm(now: nat)
      modifies timer
      ensures timer == old(timer)
      ensures View() == Rearmed(old(View()), idleTime, now)
    {
      if timer != null {
        timer.Reset(now + idleTime);
      }
    }
  }

  // ---------------------------------------------------------------- interleavings

  /** One goroutine running the timer's callback; a decision remembers when it was made and what it had seen. */
  datatype Callback =
    | Checking
    | Decided(fire: bool, at: nat, seen: nat)
    | Rearming
    | Finished

  /** An event that was triggered: when its callback checked, how many touches there had been by then, and which it was. */
  datatype Trigger = Trigger(at: nat, seen: nat, from: nat)

  /**
   `activated` and `closed` record that `HandleActive` and `HandleInactive` have taken the lock. A channel fires
   each of them once, and nothing orders them: it may be closed while its activation is still on its way.
   `touches` (history) are the times of the activation and of every completed read (or started write).
   */
  datatype State = State(
    idleTime: nat,
    now: nat,
    fields: Fields,
    activated: bool,
    closed: bool,
    callbacks: seq<Callback>,
    touches: seq<nat>,
    triggers: seq<Trigger>)

  datatype Event =
    | Tick(d: nat)
    | Activate
    | Touch
    | Inactivate
    | Fire
    | Check(i: nat)
    | TriggerEvent(i: nat)
    | Rearm(i: nat)

  ghost predicate Init(s: State)
  {
    && s.fields == Fields(0, NoTimer, false) && !s.activated && !s.closed
    && s.callbacks == [] && s.touches == [] && s.triggers == []
  }

  ghost predicate Enabled(s: State, e: Event)
  {
    match e
    case Tick(_) => true
    case Activate => !s.activated
    case Touch => true
    case Inactivate => !s.closed
    case Fire => s.fields.timer.Armed? && s.fields.timer.deadline <= s.now
    case Check(i) => i < |s.callbacks| && s.callbacks[i].Checking?
    case TriggerEvent(i) => i < |s.callbacks| && s.callbacks[i].Decided?
    case Rearm(i) => i < |s.callbacks| && s.callbacks[i].Rearming?
  }

  ghost function Step(s: State, e: Event): State
    requires Enabled(s, e)
  {
    var f := s.fields;
    match e
    case Tick(d) => s.(now := s.now + d)
    case Activate =>
      s.(fields := Activated(s.idleTime, s.now), activated := true, touches := s.touches + [s.now])
    case Touch =>
      s.(fields := Touched(f, s.idleTime, s.now), touches := s.touches + [s.now])
    case Inactivate =>
      s.(fields := Detached(f), closed := true)
    case Fire =>
      s.(fields := f.(timer := Stopped), callbacks := s.callbacks + [Checking])
    case Check(i) =>
      s.(callbacks := s.callbacks[i := Decided(Expired(f, s.idleTime, s.now), s.now, |s.touches|)])
    case TriggerEvent(i) =>
      var c := s.callbacks[i];
      s.(callbacks := s.callbacks[i := Rearming],
         triggers := if c.fire then s.triggers + [Trigger(c.at, c.seen, i)] else s.triggers)
    case Rearm(i) =>
      s.(callbacks := s.callbacks[i := Finished], fields := Rearmed(f, s.idleTime, s.now))
  }

  ghost predicate IsRun(s: State, es: seq<Event>)
    decreases |es|
  {
    es == [] || (Enabled(s, es[0]) && IsRun(Step(s, es[0]), es[1..]))
  }

  ghost function After(s: State, es: seq<Event>): State
    requires IsRun(s, es)
    decreases |es|
  {
    if es == [] then s else After(Step(s, es[0]), es[1..])
  }

  // ---------------------------------------------------------------- the handler follows the machine

  /** What the callbacks of a state have decided, as the handler's goroutines remember it. */
  ghost predicate Remembers(cs: seq<Callback>, fires: seq<bool>)
  {
    |fires| == |cs| && forall i :: 0 <= i < |cs| && cs[i].Decided? ==> fires[i] == cs[i].fire
  }

  /** The handler, the clock and the callbacks' decisions are those of the state. */
  ghost predicate Matches(h: IdleHandler, now: nat, fires: seq<bool>, s: State)
    reads h, h.timer
  {
    h.View() == s.fields && h.idleTime == s.idleTime && now == s.now && s.fields.last <= s.now && Remembers(s.callbacks, fires)
  }

  /** One event, on the handler. */
  method Perform(h: IdleHandler, e: Event, now: nat, fires: seq<bool>, ghost s: State)
    returns (later: nat, more: seq<bool>, triggered: bool)
    requires Matches(h, now, fires, s) && Enabled(s, e)
    modifies h, h.timer
    ensures Matches(h, later, more, Step(s, e))
    ensures |Step(s, e).triggers| == |s.triggers| + if triggered then 1 else 0
    ensures h.timer == null || h.timer == old(h.timer) || fresh(h.timer)
  {
    later, more, triggered := now, fires, false;
    match e
    case Tick(d) =>
      later := now + d;
    case Activate =>
      h.HandleActive(now);
    case Touch =>
      h.Touch(now);
    case Inactivate =>
      h.HandleInactive();
    case Fire =>
      h.timer.Expire();
      more := fires + [false];
    case Check(i) =>
      var fire := h.CheckExpired(now);
      more := fires[i := fire];
    case TriggerEvent(i) =>
      triggered := fires[i];
    case Rearm(i) =>
      h.Rearm(now);
  }

  /**
   Along every run of the machine the handler on the heap is in the state's fields, its callbacks decide what the
   machine says, and it triggers as many events.
   */
  method Follow(h: IdleHandler, es: seq<Event>, start: nat, ghost s: State) returns (triggers: nat)
    requires Init(s) && h.View() == s.fields && h.idleTime == s.idleTime && s.now == start && IsRun(s, es)
    modifies h, h.timer
    ensures h.View() == After(s, es).fields && triggers == |After(s, es).triggers|
  {
    hide Init, Step;
    Starts(h, s);
    var now, fires := start, [];
    ghost var t := s;
    triggers := 0;
    for i := 0 to |es|
      invariant IsRun(t, es[i..]) && After(t, es[i..]) == After(s, es)
      invariant Matches(h, now, fires, t) && triggers == |t.triggers|
      invariant h.timer == null || h.timer == old(h.timer) || fresh(h.timer)
    {
      assert es[i..][1..] == es[i + 1..];
      var triggered;
      now, fires, triggered := Perform(h, es[i], now, fires, t);
      t := Step(t, es[i]);
      triggers := triggers + if triggered then 1 else 0;
    }
  }

  lemma Starts(h: IdleHandler, s: State)
    requires Init(s) && h.View() == s.fields && h.idleTime == s.idleTime
    ensures Matches(h, s.now, [], s) && s.triggers == []
  {
  }

  // ---------------------------------------------------------------- the invariant

  /** All of the first `seen` touches are at least `idle` older than `at`. */
  ghost predicate Quiet(touches: seq<nat>, seen: nat, at: nat, idle: nat)
  {
    seen <= |touches| && forall j :: 0 <= j < seen ==> touches[j] + idle <= at
  }

  ghost predicate CallbackOk(s: State, c: Callback)
  {
    c.Decided? && c.fire ==> 0 < c.seen && c.at <= s.now && Quiet(s.touches, c.seen, c.at, s.idleTime)
  }

  ghost predicate Running(s: State)
  {
    exists i :: 0 <= i < |s.callbacks| && !s.callbacks[i].Finished?
  }

  ghost predicate Inv(s: State)
  {
    && (forall j :: 0 <= j < |s.touches| ==> s.touches[j] <= s.fields.last)
    && s.fields.last <= s.now
    && (!s.activated ==> !s.fields.attached && s.callbacks == [])
    && (s.activated && !s.fields.attached ==> s.closed)
    && (!s.fields.attached ==> s.fields.timer == NoTimer)
    && (s.fields.attached ==> s.touches != [] && (s.fields.timer.Armed? || (s.fields.timer.Stopped? && Running(s))))
    && (s.fields.timer.Armed? ==> s.fields.last + s.idleTime <= s.fields.timer.deadline <= s.now + s.idleTime)
    && (forall i :: 0 <= i < |s.callbacks| ==> CallbackOk(s, s.callbacks[i]))
    && (forall j :: 0 <= j < |s.triggers| ==>
          var t := s.triggers[j]; 0 < t.seen && t.at <= s.now && t.from < |s.callbacks| && Quiet(s.touches, t.seen, t.at, s.idleTime))
  }

  lemma StepKeepsInv(s: State, e: Event)
    requires Inv(s) && Enabled(s, e)
    ensures Inv(Step(s, e))
  {
    var t := Step(s, e);
    if t.fields.attached && !t.fields.timer.Armed? {
      if e.Fire? {
        assert !t.callbacks[|s.callbacks|].Finished?;
      } else {
        var i :| 0 <= i < |s.callbacks| && !s.callbacks[i].Finished?;
        assert !t.callbacks[i].Finished?;
      }
    }
  }

  lemma {:induction false} RunKeepsInv(s: State, es: seq<Event>)
    requires Inv(s) && IsRun(s, es)
    ensures Inv(After(s, es))
    decreases |es|
  {
    if es != [] {
      StepKeepsInv(s, es[0]);
      RunKeepsInv(Step(s, es[0]), es[1..]);
    }
  }

  ghost predicate Reachable(s: State)
  {
    exists start: State, es: seq<Event> :: Init(start) && IsRun(start, es) && After(start, es) == s
  }

  lemma ReachableHasInv(s: State)
    requires Reachable(s)
    ensures Inv(s)
  {
    var start: State, es: seq<Event> :| Init(start) && IsRun(start, es) && After(start, es) == s;
    RunKeepsInv(start, es);
  }

  // ---------------------------------------------------------------- theorems

  /**
   No event comes too early: when the callback of a triggered event checked, the activation and every read
   completed by then (all of the first `seen` touches) were at least `idleTime` ago.
   */
  lemma NeverEarly(s: State, k: nat)
    requires Reachable(s) && k < |s.triggers|
    ensures var t := s.triggers[k];
      && 0 < t.seen <= |s.touches| && t.at <= s.now
      && forall j :: 0 <= j < t.seen ==> t.at - s.touches[j] >= s.idleTime
  {
    ReachableHasInv(s);
  }

  /** As long as it is attached the handler never goes to sleep: a timer is armed or a callback is running. */
  lemma NeverAsleep(s: State)
    requires Reachable(s) && s.fields.attached
    ensures s.fields.timer.Armed? || Running(s)
    ensures s.fields.timer.Armed? ==> s.fields.last + s.idleTime <= s.fields.timer.deadline <= s.now + s.idleTime
  {
    ReachableHasInv(s);
  }

  // ---------------------------------------------------------------- after inactive

  /** No timer is armed, or even there, at any point of the run. */
  ghost predicate NeverArmed(s: State, es: seq<Event>)
    requires IsRun(s, es)
    decreases |es|
  {
    s.fields.timer == NoTimer && (es == [] || NeverArmed(Step(s, es[0]), es[1..]))
  }

  /** A detached handler stays without a timer for exactly as long as it is not activated. */
  lemma {:induction false} NeverArmedIff(s: State, es: seq<Event>)
    requires Inv(s) && !s.fields.attached && IsRun(s, es)
    ensures NeverArmed(s, es) <==> forall i :: 0 <= i < |es| ==> !es[i].Activate?
    decreases |es|
  {
    if es != [] {
      var t := Step(s, es[0]);
      StepKeepsInv(s, es[0]);
      if es[0].Activate? {
        assert t.fields.timer.Armed?;
      } else {
        NeverArmedIff(t, es[1..]);
        assert forall i :: 0 < i < |es| ==> es[i] == es[1..][i - 1];
        assert forall i :: 0 <= i < |es| - 1 ==> es[1..][i] == es[i + 1];
      }
    }
  }

  /** Activation does not come twice. */
  lemma {:induction false} ActivatedOnce(s: State, es: seq<Event>)
    requires s.activated && IsRun(s, es)
    ensures forall i :: 0 <= i < |es| ==> !es[i].Activate?
    decreases |es|
  {
    if es != [] {
      ActivatedOnce(Step(s, es[0]), es[1..]);
      assert forall i :: 0 < i < |es| ==> es[i] == es[1..][i - 1];
    }
  }

  /**
   Whether inactive is final shows when it takes the lock: no timer is ever armed again, whatever happens, if
   and only if there is a timer to stop at that moment. Without one the activation is still to come.
   */
  lemma InactiveIsFinalIff(s: State)
    requires Reachable(s) && Enabled(s, Inactivate)
    ensures s.fields.timer != NoTimer <==> forall es: seq<Event> ::
      IsRun(Step(s, Inactivate), es) ==> NeverArmed(Step(s, Inactivate), es)
  {
    ReachableHasInv(s);
    var t := Step(s, Inactivate);
    StepKeepsInv(s, Inactivate);
    if s.fields.timer != NoTimer {
      forall es: seq<Event> | IsRun(t, es) ensures NeverArmed(t, es) {
        ActivatedOnce(t, es);
        NeverArmedIff(t, es);
      }
    } else {
      assert IsRun(t, [Activate]);
      NeverArmedIff(t, [Activate]);
      assert [Activate][0].Activate?;
    }
  }

  /** How many callbacks have already decided to trigger the event. */
  ghost function Pending(cs: seq<Callback>): nat
  {
    if cs == [] then 0 else (if cs[0].Decided? && cs[0].fire then 1 else 0) + Pending(cs[1..])
  }

  lemma {:induction false} PendingUpdate(cs: seq<Callback>, i: nat, c: Callback)
    requires i < |cs|
    ensures Pending(cs[i := c]) + (if cs[i].Decided? && cs[i].fire then 1 else 0)
         == Pending(cs) + (if c.Decided? && c.fire then 1 else 0)
  {
    if i == 0 {
      assert cs[i := c][1..] == cs[1..];
    } else {
      assert cs[i := c][1..] == cs[1..][i - 1 := c];
      PendingUpdate(cs[1..], i - 1, c);
    }
  }

  /** While it is detached only callbacks that had decided before can still trigger the event, each once. */
  lemma {:induction false} LateTriggersAreBounded(s: State, es: seq<Event>)
    requires Inv(s) && !s.fields.attached && IsRun(s, es)
    requires forall i :: 0 <= i < |es| ==> !es[i].Activate?
    ensures |After(s, es).triggers| + Pending(After(s, es).callbacks) == |s.triggers| + Pending(s.callbacks)
    decreases |es|
  {
    if es != [] {
      var t := Step(s, es[0]);
      match es[0] {
        case Check(i) => PendingUpdate(s.callbacks, i, t.callbacks[i]);
        case TriggerEvent(i) => PendingUpdate(s.callbacks, i, Rearming);
        case Rearm(i) => PendingUpdate(s.callbacks, i, Finished);
        case _ =>
      }
      StepKeepsInv(s, es[0]);
      LateTriggersAreBounded(t, es[1..]);
    }
  }

  lemma RunCons(s: State, e: Event, rest: seq<Event>)
    requires Enabled(s, e) && IsRun(Step(s, e), rest)
    ensures IsRun(s, [e] + rest) && After(s, [e] + rest) == After(Step(s, e), rest)
  {
    assert ([e] + rest)[1..] == rest;
  }

  lemma {:induction false} RunAppend(s: State, a: seq<Event>, b: seq<Event>)
    requires IsRun(s, a) && IsRun(After(s, a), b)
    ensures IsRun(s, a + b) && After(s, a + b) == After(After(s, a), b)
    decreases |a|
  {
    hide Enabled, Step;
    if a == [] {
      assert a + b == b;
    } else {
      RunAppend(Step(s, a[0]), a[1..], b);
      RunCons(s, a[0], a[1..] + b);
      assert a + b == [a[0]] + (a[1..] + b);
    }
  }

  lemma ArmedSoon(s: State)
    requires Inv(s) && s.fields.timer.Armed?
    ensures s.fields.attached && s.fields.last <= s.now && s.fields.timer.deadline <= s.now + s.idleTime
  {
  }

  /** An armed timer that is left alone triggers the event once more and is armed again. */
  lemma OneMoreTrigger(s: State) returns (es: seq<Event>)
    requires Inv(s) && s.fields.timer.Armed?
    ensures IsRun(s, es)
    ensures var t := After(s, es);
      Inv(t) && t.fields.timer.Armed? && |t.triggers| == |s.triggers| + 1 && t.closed == s.closed
  {
    hide Inv;
    ArmedSoon(s);
    var k := |s.callbacks|;
    var a := Step(s, Tick(s.idleTime));
    StepKeepsInv(s, Tick(s.idleTime));
    var b := Step(a, Fire);
    StepKeepsInv(a, Fire);
    var c := Step(b, Check(k));
    assert c.callbacks[k] == Decided(true, s.now + s.idleTime, |s.touches|);
    StepKeepsInv(b, Check(k));
    var d := Step(c, TriggerEvent(k));
    StepKeepsInv(c, TriggerEvent(k));
    assert d.callbacks[k] == Rearming;
    StepKeepsInv(d, Rearm(k));
    es := [Tick(s.idleTime), Fire, Check(k), TriggerEvent(k), Rearm(k)];
    FollowedBy(s, es, [a, b, c, d, Step(d, Rearm(k))]);
  }

  lemma {:induction false} ManyTriggers(s: State, n: nat) returns (es: seq<Event>)
    requires Inv(s) && s.fields.timer.Armed?
    ensures IsRun(s, es)
    ensures var t := After(s, es); t.fields.timer.Armed? && |t.triggers| == |s.triggers| + n && t.closed == s.closed
    decreases n
  {
    hide Enabled, Step, Inv;
    if n == 0 {
      es := [];
    } else {
      var one := OneMoreTrigger(s);
      var rest := ManyTriggers(After(s, one), n - 1);
      RunAppend(s, one, rest);
      es := one + rest;
    }
  }

  /** After the last inactive a bounded number of events comes, if and only if there was a timer to stop. */
  lemma LateTriggersIff(s: State)
    requires Reachable(s) && Enabled(s, Inactivate)
    ensures s.fields.timer != NoTimer <==> exists n: nat :: BoundedBy(Step(s, Inactivate), n)
  {
    ReachableHasInv(s);
    var t := Step(s, Inactivate);
    StepKeepsInv(s, Inactivate);
    if s.fields.timer != NoTimer {
      var n := |t.triggers| + Pending(t.callbacks);
      forall es: seq<Event> | IsRun(t, es) ensures |After(t, es).triggers| <= n {
        ActivatedOnce(t, es);
        LateTriggersAreBounded(t, es);
      }
      assert BoundedBy(t, n);
    } else {
      forall n: nat ensures !BoundedBy(t, n) {
        var u := Step(t, Activate);
        StepKeepsInv(t, Activate);
        var es := ManyTriggers(u, n + 1);
        RunCons(t, Activate, es);
        assert |After(t, [Activate] + es).triggers| > n;
      }
    }
  }

  /** Whatever happens from `s` on, the event is triggered at most `n` times in all. */
  ghost predicate BoundedBy(s: State, n: nat)
  {
    forall es: seq<Event> :: IsRun(s, es) ==> |After(s, es).triggers| <= n
  }

  /** A channel that is closed before its activation arrives: afterwards the timer is armed and goes on triggering. */
  lemma ActiveAfterInactive(n: nat) returns (start: State, es: seq<Event>)
    ensures Init(start) && IsRun(start, [Inactivate, Activate] + es)
    ensures var t := After(start, [Inactivate, Activate] + es); t.closed && t.fields.timer.Armed? && |t.triggers| == n
  {
    start := State(1, 0, Fields(0, NoTimer, false), false, false, [], [], []);
    StepKeepsInv(start, Inactivate);
    var a := Step(start, Inactivate);
    StepKeepsInv(a, Activate);
    var b := Step(a, Activate);
    es := ManyTriggers(b, n);
    RunCons(a, Activate, es);
    RunCons(start, Inactivate, [Activate] + es);
    assert [Inactivate] + ([Activate] + es) == [Inactivate, Activate] + es;
  }

  // ---------------------------------------------------------------- how often

  /** A timer that is armed is not due before `d`. */
  ghost predicate NotDueBefore(s: State, d: nat)
  {
    d <= s.now + s.idleTime && (s.fields.timer.Armed? ==> d <= s.fields.timer.deadline)
  }

  /** Every event that arms the timer arms it for the whole idle time. */
  lemma StepNotDue(s: State, e: Event, d: nat)
    requires NotDueBefore(s, d) && Enabled(s, e)
    ensures NotDueBefore(Step(s, e), d) && Step(s, e).idleTime == s.idleTime
  {
  }

  lemma {:induction false} RunNotDue(s: State, es: seq<Event>, d: nat)
    requires NotDueBefore(s, d) && IsRun(s, es)
    ensures NotDueBefore(After(s, es), d) && After(s, es).idleTime == s.idleTime
    decreases |es|
  {
    hide NotDueBefore, Enabled, Step;
    if es != [] {
      StepNotDue(s, es[0], d);
      RunNotDue(Step(s, es[0]), es[1..], d);
    }
  }

  /**
   After an activation, a read or write, or the end of a callback, no callback starts before the whole idle time
   has passed, whatever happens meanwhile.
   */
  lemma NoCallbackBefore(s: State, e: Event, es: seq<Event>)
    requires Enabled(s, e) && (e.Activate? || e.Touch? || e.Rearm?) && IsRun(Step(s, e), es)
    requires Enabled(After(Step(s, e), es), Fire)
    ensures After(Step(s, e), es).now >= s.now + s.idleTime
  {
    RunNotDue(Step(s, e), es, s.now + s.idleTime);
  }

  /** What the callbacks from number `k` on have decided was decided at `d` or later. */
  ghost predicate DecidedFrom(s: State, k: nat, d: nat)
  {
    && k <= |s.callbacks| && (k < |s.callbacks| ==> d <= s.now)
    && (forall i :: k <= i < |s.callbacks| && s.callbacks[i].Decided? ==> d <= s.callbacks[i].at)
    && (forall j :: 0 <= j < |s.triggers| && k <= s.triggers[j].from ==> d <= s.triggers[j].at)
  }

  /** Callback `i` is over, and all it triggered is among the first `m` events, decided before `n`. */
  ghost predicate Over(s: State, i: nat, m: nat, n: nat)
  {
    && i < |s.callbacks| && s.callbacks[i].Finished?
    && (forall j :: m <= j < |s.triggers| ==> s.triggers[j].from != i)
    && (forall j :: 0 <= j < |s.triggers| && j < m ==> s.triggers[j].at <= n)
  }

  lemma StepKeepsApart(s: State, e: Event, i: nat, k: nat, m: nat, n: nat)
    requires Enabled(s, e) && NotDueBefore(s, n + s.idleTime) && m <= |s.triggers|
    requires DecidedFrom(s, k, n + s.idleTime) && Over(s, i, m, n)
    ensures var t := Step(s, e);
      NotDueBefore(t, n + s.idleTime) && m <= |t.triggers| && DecidedFrom(t, k, n + s.idleTime) && Over(t, i, m, n)
  {
    var t := Step(s, e);
    StepNotDue(s, e, n + s.idleTime);
    assert forall j :: 0 <= j < |s.triggers| ==> t.triggers[j] == s.triggers[j];
  }

  lemma {:induction false} RunKeepsApart(s: State, es: seq<Event>, i: nat, k: nat, m: nat, n: nat)
    requires IsRun(s, es) && NotDueBefore(s, n + s.idleTime) && m <= |s.triggers|
    requires DecidedFrom(s, k, n + s.idleTime) && Over(s, i, m, n)
    ensures var t := After(s, es);
      m <= |t.triggers| && DecidedFrom(t, k, n + s.idleTime) && Over(t, i, m, n) && t.idleTime == s.idleTime
    decreases |es|
  {
    hide Enabled, Step, DecidedFrom, Over, NotDueBefore;
    if es != [] {
      StepNotDue(s, es[0], n + s.idleTime);
      StepKeepsApart(s, es[0], i, k, m, n);
      RunKeepsApart(Step(s, es[0]), es[1..], i, k, m, n);
    }
  }

  /**
   What a callback triggers and what a callback triggers that starts after the end of the first are at least the
   idle time apart.
   */
  lemma EventsApart(s: State, i: nat, es: seq<Event>)
    requires Reachable(s) && Enabled(s, Rearm(i)) && IsRun(Step(s, Rearm(i)), es)
    ensures var t := After(Step(s, Rearm(i)), es);
      forall j, k :: 0 <= j < |t.triggers| && 0 <= k < |t.triggers| && t.triggers[j].from == i && t.triggers[k].from >= |s.callbacks| ==>
        t.triggers[j].at + s.idleTime <= t.triggers[k].at
  {
    ReachableHasInv(s);
    var u := Step(s, Rearm(i));
    RunKeepsApart(u, es, i, |s.callbacks|, |s.triggers|, s.now);
  }

  /** All events so far were decided at least the idle time before `x`. */
  ghost predicate Ahead(s: State, x: nat)
  {
    forall j :: 0 <= j < |s.triggers| ==> s.triggers[j].at + s.idleTime <= x
  }

  /** Any two events are at least the idle time apart. */
  ghost predicate Spaced(s: State)
  {
    forall i, j :: 0 <= i < j < |s.triggers| ==> s.triggers[i].at + s.idleTime <= s.triggers[j].at
  }

  /** At most one callback is running, and what it may trigger is far enough from what was triggered. */
  ghost predicate OneAtATime(s: State)
  {
    && Spaced(s)
    && (forall i, j :: 0 <= i < j < |s.callbacks| ==> s.callbacks[i].Finished? || s.callbacks[j].Finished?)
    && (forall i :: 0 <= i < |s.callbacks| && s.callbacks[i].Checking? ==> Ahead(s, s.now))
    && (forall i :: 0 <= i < |s.callbacks| && s.callbacks[i].Decided? ==> Ahead(s, s.callbacks[i].at))
    && (!Running(s) && s.fields.timer.Armed? ==> Ahead(s, s.fields.timer.deadline))
  }

  /** A callback starts only when no other one is running. */
  ghost predicate Alone(s: State, e: Event)
  {
    e.Fire? ==> !Running(s)
  }

  ghost predicate IsAloneRun(s: State, es: seq<Event>)
    decreases |es|
  {
    es == [] || (Enabled(s, es[0]) && Alone(s, es[0]) && IsAloneRun(Step(s, es[0]), es[1..]))
  }

  lemma StepKeepsSpaced(s: State, e: Event)
    requires Inv(s) && OneAtATime(s) && Enabled(s, e) && Alone(s, e)
    ensures OneAtATime(Step(s, e))
  {
    hide Enabled, Step, Alone, OneAtATime, Inv;
    match e
    case Fire => FireKeepsSpaced(s);
    case Rearm(i) => RearmKeepsSpaced(s, i);
    case TriggerEvent(i) => TriggerKeepsSpaced(s, i);
    case _ => OtherKeepsSpaced(s, e);
  }

  lemma FireKeepsSpaced(s: State)
    requires Inv(s) && OneAtATime(s) && Enabled(s, Fire) && Alone(s, Fire)
    ensures OneAtATime(Step(s, Fire))
  {
    assert forall i :: 0 <= i < |s.callbacks| ==> s.callbacks[i].Finished?;
    assert !Step(s, Fire).callbacks[|s.callbacks|].Finished?;
  }

  lemma RearmKeepsSpaced(s: State, i: nat)
    requires Inv(s) && OneAtATime(s) && Enabled(s, Rearm(i))
    ensures OneAtATime(Step(s, Rearm(i)))
  {
    assert Ahead(s, s.now + s.idleTime);
  }

  lemma TriggerKeepsSpaced(s: State, i: nat)
    requires Inv(s) && OneAtATime(s) && Enabled(s, TriggerEvent(i))
    ensures OneAtATime(Step(s, TriggerEvent(i)))
  {
    assert !Step(s, TriggerEvent(i)).callbacks[i].Finished?;
  }

  lemma OtherKeepsSpaced(s: State, e: Event)
    requires Inv(s) && OneAtATime(s) && Enabled(s, e) && !e.Fire? && !e.Rearm? && !e.TriggerEvent?
    ensures OneAtATime(Step(s, e))
  {
    var t := Step(s, e);
    assert Ahead(s, s.now + s.idleTime);
    if Running(s) {
      var i :| 0 <= i < |s.callbacks| && !s.callbacks[i].Finished?;
      assert !t.callbacks[i].Finished?;
    }
  }

  lemma {:induction false} RunKeepsSpaced(s: State, es: seq<Event>)
    requires Inv(s) && OneAtATime(s) && IsAloneRun(s, es)
    ensures IsRun(s, es) && OneAtATime(After(s, es))
    decreases |es|
  {
    hide Inv, OneAtATime, Enabled, Step;
    if es != [] {
      StepKeepsInv(s, es[0]);
      StepKeepsSpaced(s, es[0]);
      RunKeepsSpaced(Step(s, es[0]), es[1..]);
    }
  }

  /** As long as callbacks do not overlap, any two events are at least the idle time apart. */
  lemma NeverTooOften(start: State, es: seq<Event>)
    requires Init(start) && IsAloneRun(start, es)
    ensures IsRun(start, es)
    ensures var s := After(start, es);
      forall i, j :: 0 <= i < j < |s.triggers| ==> s.triggers[i].at + s.idleTime <= s.triggers[j].at
  {
    RunKeepsSpaced(start, es);
  }

  /** Callbacks that overlap can trigger two events at one time: the first checks late, after a read and its idle time. */
  lemma OverlappingCallbacks() returns (start: State, es: seq<Event>)
    ensures Init(start) && IsRun(start, es)
    ensures var s := After(start, es);
      |s.triggers| == 2 && s.triggers[0].at == s.triggers[1].at && s.idleTime == 5
  {
    start := State(5, 0, Fields(0, NoTimer, false), false, false, [], [], []);
    var first := StartsTwo(start);
    var second := BothTrigger();
    es := first + second;
    RunAppend(start, first, second);
  }

  /** Two callbacks that have started: the second because of a read after the first had. */
  ghost function TwoStarted(): State
  {
    State(5, 10, Fields(5, Stopped, true), true, false, [Checking, Checking], [0, 5], [])
  }

  lemma StartsTwo(start: State) returns (es: seq<Event>)
    requires start == State(5, 0, Fields(0, NoTimer, false), false, false, [], [], [])
    ensures IsRun(start, es) && After(start, es) == TwoStarted()
  {
    es := [Activate, Tick(5), Fire, Touch, Tick(5), Fire];
    var a := Step(start, Activate);
    var b := Step(a, Tick(5));
    var c := Step(b, Fire);
    var d := Step(c, Touch);
    var f := Step(d, Tick(5));
    assert c == State(5, 5, Fields(0, Stopped, true), true, false, [Checking], [0], []);
    assert f == State(5, 10, Fields(5, Armed(10), true), true, false, [Checking], [0, 5], []);
    FollowedBy(start, es, [a, b, c, d, f, TwoStarted()]);
  }

  lemma BothTrigger() returns (es: seq<Event>)
    ensures IsRun(TwoStarted(), es)
    ensures var s := After(TwoStarted(), es); |s.triggers| == 2 && s.triggers[0].at == s.triggers[1].at && s.idleTime == 5
  {
    es := [Check(0), Check(1), TriggerEvent(0), TriggerEvent(1)];
    var a := Step(TwoStarted(), Check(0));
    var b := Step(a, Check(1));
    assert b.callbacks == [Decided(true, 10, 2), Decided(true, 10, 2)];
    var c := Step(b, TriggerEvent(0));
    FollowedBy(TwoStarted(), es, [a, b, c, Step(c, TriggerEvent(1))]);
  }

  /** A run is known by the states it passes. */
  lemma {:induction false} FollowedBy(s: State, es: seq<Event>, states: seq<State>)
    requires |es| == |states|
    requires forall i :: 0 <= i < |es| ==> Enabled(Before(s, states, i), es[i]) && Step(Before(s, states, i), es[i]) == states[i]
    ensures IsRun(s, es) && After(s, es) == if es == [] then s else states[|states| - 1]
    decreases |es|
  {
    hide Enabled, Step;
    if es != [] {
      assert Before(s, states, 0) == s;
      forall i | 0 <= i < |es| - 1
        ensures Enabled(Before(states[0], states[1..], i), es[1..][i]) && Step(Before(states[0], states[1..], i), es[1..][i]) == states[1..][i]
      {
        assert Before(states[0], states[1..], i) == Before(s, states, i + 1);
      }
      FollowedBy(states[0], es[1..], states[1..]);
    }
  }

  ghost function Before(s: State, states: seq<State>, i: nat): State
    requires i <= |states|
  {
    if i == 0 then s else states[i - 1]
  }

  // ---------------------------------------------------------------- punctuality

  /** Time does not pass a due timer or a running callback. */
  ghost predicate Prompt(s: State, e: Event)
  {
    e.Tick? && e.d > 0 ==> !Running(s) && (s.fields.timer.Armed? ==> s.now + e.d <= s.fields.timer.deadline)
  }

  ghost predicate IsPromptRun(s: State, es: seq<Event>)
    decreases |es|
  {
    es == [] || (Enabled(s, es[0]) && Prompt(s, es[0]) && IsPromptRun(Step(s, es[0]), es[1..]))
  }

  ghost predicate TriggeredSinceTouch(s: State)
  {
    exists j :: 0 <= j < |s.triggers| && s.triggers[j].seen == |s.touches|
  }

  /** Some running callback has not checked yet, or has decided for the event after the last touch. */
  ghost predicate OnItsWay(s: State)
  {
    exists i :: 0 <= i < |s.callbacks| &&
      (s.callbacks[i].Checking? || (s.callbacks[i].Decided? && s.callbacks[i].fire && s.callbacks[i].seen == |s.touches|))
  }

  /** Since the last touch the event was triggered, or the timer is still due, or a callback is about to. */
  ghost predicate Punctual(s: State)
  {
    s.fields.attached ==>
      || TriggeredSinceTouch(s)
      || (s.fields.timer == Armed(s.fields.last + s.idleTime) && s.now <= s.fields.last + s.idleTime
          && (Running(s) ==> s.now == s.fields.last))
      || (s.now == s.fields.last + s.idleTime && OnItsWay(s))
  }

  lemma CheckOnItsWay(s: State, i: nat)
    requires Inv(s) && s.fields.attached && Enabled(s, Check(i)) && s.now == s.fields.last + s.idleTime && OnItsWay(s)
    ensures OnItsWay(Step(s, Check(i)))
  {
    assert Step(s, Check(i)).callbacks[i] == Decided(true, s.now, |s.touches|);
  }

  lemma StillOnItsWay(s: State, t: State, k: int)
    requires OnItsWay(s) && |t.touches| == |s.touches| && |t.callbacks| >= |s.callbacks|
    requires forall i :: 0 <= i < |s.callbacks| && i != k ==> t.callbacks[i] == s.callbacks[i]
    requires 0 <= k < |s.callbacks| ==> !s.callbacks[k].Checking? && !(s.callbacks[k].Decided? && s.callbacks[k].fire && s.callbacks[k].seen == |s.touches|)
    ensures OnItsWay(t)
  {
  }

  lemma StillTriggered(s: State, t: State)
    requires TriggeredSinceTouch(s) && |t.touches| == |s.touches| && s.triggers <= t.triggers
    ensures TriggeredSinceTouch(t)
  {
  }

  lemma CallbackKeepsPunctual(s: State, e: Event)
    requires Inv(s) && Punctual(s) && Enabled(s, e) && s.fields.attached && !TriggeredSinceTouch(s)
    requires e.Fire? || e.Check? || e.TriggerEvent? || e.Rearm?
    ensures Punctual(Step(s, e))
  {
    var t := Step(s, e);
    match e
    case Fire =>
      assert t.callbacks[|s.callbacks|].Checking?;
    case Check(i) =>
      assert !s.callbacks[i].Finished?;
      if OnItsWay(s) && s.now == s.fields.last + s.idleTime { CheckOnItsWay(s, i); }
    case TriggerEvent(i) =>
      var c := s.callbacks[i];
      assert !c.Finished?;
      if c.fire && c.seen == |s.touches| {
        assert t.triggers[|s.triggers|].seen == |t.touches|;
      } else if OnItsWay(s) {
        StillOnItsWay(s, t, i);
      }
    case Rearm(i) =>
      assert !s.callbacks[i].Finished?;
      if OnItsWay(s) { StillOnItsWay(s, t, i); }
  }

  lemma StepKeepsPunctual(s: State, e: Event)
    requires Inv(s) && Punctual(s) && Enabled(s, e) && Prompt(s, e)
    ensures Punctual(Step(s, e))
  {
    var t := Step(s, e);
    if s.fields.attached && TriggeredSinceTouch(s) && !e.Touch? {
      StillTriggered(s, t);
    } else if s.fields.attached && (e.Fire? || e.Check? || e.TriggerEvent? || e.Rearm?) {
      CallbackKeepsPunctual(s, e);
    } else if e.Tick? {
      if OnItsWay(s) {
        var i :| 0 <= i < |s.callbacks| && !s.callbacks[i].Finished?;
        if s.now == s.fields.last + s.idleTime { StillOnItsWay(s, t, -1); }
      }
    }
  }

  lemma {:induction false} RunKeepsPunctual(start: State, es: seq<Event>)
    requires Inv(start) && Punctual(start) && IsPromptRun(start, es)
    ensures IsRun(start, es) && Inv(After(start, es)) && Punctual(After(start, es))
    decreases |es|
  {
    if es != [] {
      StepKeepsInv(start, es[0]);
      StepKeepsPunctual(start, es[0]);
      RunKeepsPunctual(Step(start, es[0]), es[1..]);
    }
  }

  /**
   No event is late either: as long as time passes neither a due timer nor a running callback, an attached
   handler whose last touch is more than `idleTime` ago has triggered the event since.
   */
  lemma NeverLate(start: State, es: seq<Event>)
    requires Init(start) && IsPromptRun(start, es)
    ensures IsRun(start, es)
    ensures var s := After(start, es);
      s.fields.attached && s.now > s.fields.last + s.idleTime ==> TriggeredSinceTouch(s)
  {
    RunKeepsPunctual(start, es);
  }
}
