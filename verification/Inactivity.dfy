/** The inactivity timer of the attendance board: a click listener that lets one click
    through per second, a timer that every click let through restarts, and the automatic
    check-out that runs when the timer expires. Times are in milliseconds. */
module Inactivity {
  import opened Options

  const THROTTLE_MS: int := 1000

  /** A pending `setTimeout` of the browser. */
  datatype Timer = Idle(deadline: int, employee: string) | Throttle(deadline: int)

  /** An automatic check-out in flight and the request it waits for. */
  datatype Stage = CheckingOut | Reloading | LoggingOut
  datatype Handler = Handler(employee: string, stage: Stage)

  /** `idleTimer` is `inactivityTimerRef`, `throttle` the variable of the listening effect,
      `handling` is `handlingInactivityRef`. `lastActivity`, the time of the latest click heard
      or effect set-up, `lastRestart`, the time the timer was last started, and `expired`,
      whether it ran out since, only serve to state the bounds. */
  datatype State = State(
    now: int,
    employee: Option<string>, checkedIn: bool, listening: bool,
    timers: map<nat, Timer>, nextId: nat,
    idleTimer: Option<nat>, throttle: Option<nat>,
    handling: bool, handlers: seq<Handler>,
    lastActivity: int, lastRestart: int, expired: bool)

  datatype Event =
    | Wait(ms: int)
    | Click
    | Fire(id: nat)
    | Render(employee: Option<string>, checkedIn: bool, refreshed: bool)
    | Answer(handler: nat)

  predicate Watching(s: State) {
    s.checkedIn && s.employee.Some?
  }

  const INITIAL := State(0, None, false, false, map[], 0, None, None, false, [], 0, 0, false)

  // ----- the handlers and effects as functions of the state

  function ClearIdle(s: State): State {
    if s.idleTimer.None? then s
    else s.(timers := s.timers - {s.idleTimer.value}, idleTimer := None)
  }

  function ResetIdle(s: State, idleTimeout: nat): State {
    if !Watching(s) then s
    else
      var c := ClearIdle(s);
      c.(timers := c.timers[c.nextId := Idle(c.now + idleTimeout, c.employee.value)],
         nextId := c.nextId + 1, idleTimer := Some(c.nextId), lastRestart := c.now, expired := false)
  }

  function OnClick(s: State, idleTimeout: nat): State {
    if !s.listening then s
    else
      var heard := s.(lastActivity := s.now);
      if s.throttle.Some? then heard
      else
        ResetIdle(heard.(timers := s.timers[s.nextId := Throttle(s.now + THROTTLE_MS)],
                         nextId := s.nextId + 1, throttle := Some(s.nextId)), idleTimeout)
  }

  /** The effect's cleanup. */
  function TearDown(s: State): State {
    var c := ClearIdle(s.(listening := false));
    if c.throttle.None? then c
    else c.(timers := c.timers - {c.throttle.value}, throttle := None)
  }

  /** The effect's body for the values just rendered. */
  function SetUp(s: State, idleTimeout: nat): State {
    if !Watching(s) then ClearIdle(s)
    else ResetIdle(s.(throttle := None, listening := true, lastActivity := s.now), idleTimeout)
  }

  /** A render; React re-runs the effect when a value or a callback it depends on changed. */
  function OnRender(s: State, employee: Option<string>, checkedIn: bool, refreshed: bool, idleTimeout: nat): State {
    if employee == s.employee && checkedIn == s.checkedIn && !refreshed then s
    else
      var c := if s.listening then TearDown(s) else s;
      SetUp(c.(employee := employee, checkedIn := checkedIn), idleTimeout)
  }

  function OnTimeout(s: State, employee: string): State {
    if s.handling then s
    else s.(handling := true, handlers := s.handlers + [Handler(employee, CheckingOut)])
  }

  function OnFire(s: State, id: nat): State
    requires id in s.timers
  {
    var rest := s.(timers := s.timers - {id});
    match s.timers[id]
    case Throttle(_) => rest.(throttle := None)
    case Idle(_, employee) => OnTimeout(rest.(expired := true), employee)
  }

  function OnAnswer(s: State, k: nat): State
    requires k < |s.handlers|
  {
    match s.handlers[k].stage
    case CheckingOut => s.(handlers := s.handlers[k := s.handlers[k].(stage := Reloading)])
    case Reloading => s.(handlers := s.handlers[k := s.handlers[k].(stage := LoggingOut)])
    case LoggingOut => s.(handling := false, handlers := s.handlers[..k] + s.handlers[k + 1..])
  }

  /** Timers fire on time: a wait ends at the first deadline at the latest. */
  predicate Possible(s: State, e: Event) {
    match e
    case Wait(ms) => ms >= 0 && forall id :: id in s.timers ==> s.now + ms <= s.timers[id].deadline
    case Fire(id) => id in s.timers && s.timers[id].deadline <= s.now
    case Answer(k) => k < |s.handlers|
    case Click => true
    case Render(_, _, _) => true
  }

  function Step(s: State, e: Event, idleTimeout: nat): State
    requires Possible(s, e)
  {
    match e
    case Wait(ms) => s.(now := s.now + ms)
    case Click => OnClick(s, idleTimeout)
    case Fire(id) => OnFire(s, id)
    case Render(employee, checkedIn, refreshed) => OnRender(s, employee, checkedIn, refreshed, idleTimeout)
    case Answer(k) => OnAnswer(s, k)
  }

  // ----- the component

  class Board {
    const idleTimeout: nat
    var now: int
    var employee: Option<string>
    var checkedIn: bool
    var listening: bool
    var timers: map<nat, Timer>
    var nextId: nat
    var inactivityTimerRef: Option<nat>
    var throttleTimeout: Option<nat>
    var handlingInactivityRef: bool
    var handlers: seq<Handler>
    ghost var lastActivity: int
    ghost var lastRestart: int
    ghost var expired: bool

    ghost function Now(): State
      reads this
    {
      State(now, employee, checkedIn, listening, timers, nextId, inactivityTimerRef, throttleTimeout,
            handlingInactivityRef, handlers, lastActivity, lastRestart, expired)
    }

    constructor (idleTimeout: nat)
      ensures Now() == INITIAL && this.idleTimeout == idleTimeout
    {
      this.idleTimeout := idleTimeout;
      now, employee, checkedIn, listening := 0, None, false, false;
      timers, nextId, inactivityTimerRef, throttleTimeout := map[], 0, None, None;
      handlingInactivityRef, handlers, lastActivity, lastRestart, expired := false, [], 0, 0, false;
    }

    /** `window.setTimeout` */
    method SetTimeout(t: Timer) returns (id: nat)
      modifies `timers, `nextId
      ensures id == old(nextId) && nextId == old(nextId) + 1 && timers == old(timers)[id := t]
    {
      id := nextId;
      timers := timers[id := t];
      nextId := nextId + 1;
    }

    method ClearInactivityTimer()
      modifies `timers, `inactivityTimerRef
      ensures Now() == ClearIdle(old(Now()))
    {
      if inactivityTimerRef.Some? {
        timers := timers - {inactivityTimerRef.value};
        inactivityTimerRef := None;
      }
    }

    method ResetInactivityTimer()
      modifies `timers, `nextId, `inactivityTimerRef, `lastRestart, `expired
      ensures Now() == ResetIdle(old(Now()), idleTimeout)
    {
      if !checkedIn || employee.None? {
        return;
      }
      ClearInactivityTimer();
      var id := SetTimeout(Idle(now + idleTimeout, employee.value));
      inactivityTimerRef := Some(id);
      lastRestart := now;
      expired := false;
    }

    method HandleClick()
      modifies this
      ensures Now() == OnClick(old(Now()), idleTimeout)
    {
      if !listening {
        return;
      }
      lastActivity := now;
      if throttleTimeout.Some? {
        return;
      }
      var id := SetTimeout(Throttle(now + THROTTLE_MS));
      throttleTimeout := Some(id);
      ResetInactivityTimer();
    }

    method CleanUp()
      modifies this
      ensures Now() == TearDown(old(Now()))
    {
      listening := false;
      ClearInactivityTimer();
      if throttleTimeout.Some? {
        timers := timers - {throttleTimeout.value};
        throttleTimeout := None;
      }
    }

    method Listen()
      modifies this
      ensures Now() == SetUp(old(Now()), idleTimeout)
    {
      if !checkedIn || employee.None? {
        ClearInactivityTimer();
        return;
      }
      throttleTimeout := None;
      listening := true;
      lastActivity := now;
      ResetInactivityTimer();
    }

    method RunEffect(newEmployee: Option<string>, newCheckedIn: bool, refreshed: bool)
      modifies this
      ensures Now() == OnRender(old(Now()), newEmployee, newCheckedIn, refreshed, idleTimeout)
    {
      hide TearDown, SetUp;
      if newEmployee == employee && newCheckedIn == checkedIn && !refreshed {
        return;
      }
      if listening {
        CleanUp();
      }
      employee, checkedIn := newEmployee, newCheckedIn;
      Listen();
    }

    method HandleInactivityTimeout(who: string)
      modifies `handlingInactivityRef, `handlers
      ensures Now() == OnTimeout(old(Now()), who)
    {
      if handlingInactivityRef {
        return;
      }
      handlingInactivityRef := true;
      handlers := handlers + [Handler(who, CheckingOut)];
    }

    method RunTimer(id: nat)
      requires id in timers
      modifies this
      ensures Now() == OnFire(old(Now()), id)
    {
      var t := timers[id];
      timers := timers - {id};
      match t {
        case Throttle(_) =>
          throttleTimeout := None;
        case Idle(_, who) =>
          expired := true;
          HandleInactivityTimeout(who);
      }
    }

    method ResumeHandler(k: nat)
      requires k < |handlers|
      modifies `handlingInactivityRef, `handlers
      ensures Now() == OnAnswer(old(Now()), k)
    {
      match handlers[k].stage {
        case CheckingOut => handlers := handlers[k := handlers[k].(stage := Reloading)];
        case Reloading => handlers := handlers[k := handlers[k].(stage := LoggingOut)];
        case LoggingOut =>
          handlingInactivityRef := false;
          handlers := handlers[..k] + handlers[k + 1..];
      }
    }

    method Dispatch(e: Event)
      requires Possible(Now(), e)
      modifies this
      ensures Now() == Step(old(Now()), e, idleTimeout)
    {
      match e {
        case Wait(ms) => now := now + ms;
        case Click => HandleClick();
        case Fire(id) => RunTimer(id);
        case Render(who, isIn, refreshed) => RunEffect(who, isIn, refreshed);
        case Answer(k) => ResumeHandler(k);
      }
    }
  }

  // ----- what every trace keeps

  /** Bookkeeping: no timer is forgotten and none is still pending for a listener that is gone. */
  ghost predicate Tidy(s: State) {
    && (s.listening <==> Watching(s))
    && (forall id :: id in s.timers ==> id < s.nextId)
    && (forall id :: id in s.timers && s.timers[id].Idle? ==> s.idleTimer == Some(id))
    && (forall id :: id in s.timers && s.timers[id].Throttle? ==> s.throttle == Some(id))
    && (s.throttle.Some? ==> s.throttle.value in s.timers && s.timers[s.throttle.value].Throttle?)
    && (s.idleTimer.Some? ==> s.idleTimer.value < s.nextId)
    && (s.idleTimer.Some? && s.idleTimer.value in s.timers ==> s.timers[s.idleTimer.value].Idle?)
    && (!Watching(s) ==> s.timers == map[])
  }

  /** The timer runs from the last restart, which is at most a second before the latest activity. */
  ghost predicate Bounded(s: State, idleTimeout: nat) {
    && s.lastActivity <= s.now
    && (Watching(s) ==> s.lastRestart <= s.lastActivity <= s.lastRestart + THROTTLE_MS)
    && (s.throttle.Some? && s.throttle.value in s.timers ==>
          s.timers[s.throttle.value].deadline == s.lastRestart + THROTTLE_MS)
    && (forall id :: id in s.timers ==> s.now <= s.timers[id].deadline)
    && (Watching(s) && !s.expired ==>
          && s.idleTimer.Some? && s.idleTimer.value in s.timers
          && var t := s.timers[s.idleTimer.value];
          t.Idle? && t.employee == s.employee.value && t.deadline == s.lastRestart + idleTimeout)
    && (Watching(s) && s.expired ==> forall id :: id in s.timers ==> !s.timers[id].Idle?)
  }

  ghost predicate OneHandler(s: State) {
    |s.handlers| == if s.handling then 1 else 0
  }

  ghost predicate Inv(s: State, idleTimeout: nat) {
    Tidy(s) && Bounded(s, idleTimeout) && OneHandler(s)
  }

  /** The cleanup leaves no timer behind. */
  lemma TearDownClears(s: State)
    requires Tidy(s)
    ensures var c := TearDown(s);
            c.timers == map[] && c.idleTimer == None && c.throttle == None && !c.listening
            && c == s.(listening := false, timers := map[], idleTimer := None, throttle := None)
  {
  }

  lemma SetUpStarts(s: State, idleTimeout: nat)
    requires !s.listening && s.timers == map[] && s.throttle == None && s.lastActivity <= s.now && OneHandler(s)
    requires s.idleTimer.Some? ==> s.idleTimer.value < s.nextId
    ensures Inv(SetUp(s, idleTimeout), idleTimeout)
  {
  }

  lemma RenderKeepsInv(s: State, employee: Option<string>, checkedIn: bool, refreshed: bool, idleTimeout: nat)
    requires Inv(s, idleTimeout)
    ensures Inv(OnRender(s, employee, checkedIn, refreshed, idleTimeout), idleTimeout)
  {
    hide TearDown, SetUp;
    TearDownClears(s);
    if !(employee == s.employee && checkedIn == s.checkedIn && !refreshed) {
      var c := if s.listening then TearDown(s) else s;
      SetUpStarts(c.(employee := employee, checkedIn := checkedIn), idleTimeout);
    }
  }

  /** A click let through starts the throttle and restarts the inactivity timer. */
  lemma ThrottleStarts(s: State, idleTimeout: nat)
    requires Inv(s, idleTimeout) && s.listening && s.throttle.None?
    ensures Inv(OnClick(s, idleTimeout), idleTimeout)
  {
  }

  lemma ClickKeepsInv(s: State, idleTimeout: nat)
    requires Inv(s, idleTimeout)
    ensures Inv(OnClick(s, idleTimeout), idleTimeout)
  {
    hide ResetIdle;
    if s.listening && s.throttle.None? {
      ThrottleStarts(s, idleTimeout);
    }
  }

  lemma FireKeepsInv(s: State, id: nat, idleTimeout: nat)
    requires Inv(s, idleTimeout) && Possible(s, Fire(id))
    ensures Inv(OnFire(s, id), idleTimeout)
  {
  }

  lemma WaitKeepsInv(s: State, ms: int, idleTimeout: nat)
    requires Inv(s, idleTimeout) && Possible(s, Wait(ms))
    ensures Inv(s.(now := s.now + ms), idleTimeout)
  {
  }

  lemma AnswerKeepsInv(s: State, k: nat, idleTimeout: nat)
    requires Inv(s, idleTimeout) && k < |s.handlers|
    ensures Inv(OnAnswer(s, k), idleTimeout)
  {
    hide Tidy, Bounded;
    var t := OnAnswer(s, k);
    HandlersDoNotMatter(s, t.handling, t.handlers, idleTimeout);
    assert t == s.(handling := t.handling, handlers := t.handlers);
  }

  lemma HandlersDoNotMatter(s: State, handling: bool, handlers: seq<Handler>, idleTimeout: nat)
    requires Tidy(s) && Bounded(s, idleTimeout)
    ensures var t := s.(handling := handling, handlers := handlers);
            Tidy(t) && Bounded(t, idleTimeout)
  {
  }

  lemma StepKeepsInv(s: State, e: Event, idleTimeout: nat)
    requires Inv(s, idleTimeout) && Possible(s, e)
    ensures Inv(Step(s, e, idleTimeout), idleTimeout)
  {
    hide Inv, OnRender, OnClick, OnFire, OnAnswer;
    match e
    case Wait(ms) => WaitKeepsInv(s, ms, idleTimeout);
    case Click => ClickKeepsInv(s, idleTimeout);
    case Fire(id) => FireKeepsInv(s, id, idleTimeout);
    case Render(employee, checkedIn, refreshed) => RenderKeepsInv(s, employee, checkedIn, refreshed, idleTimeout);
    case Answer(k) => AnswerKeepsInv(s, k, idleTimeout);
  }

  // ----- traces

  /** The state a trace leads to; `None` if some event in it was not possible. */
  ghost function After(idleTimeout: nat, trace: seq<Event>): Option<State>
    decreases |trace|
  {
    if trace == [] then Some(INITIAL)
    else
      var n := |trace| - 1;
      var before := After(idleTimeout, trace[..n]);
      if before.None? || !Possible(before.value, trace[n]) then None
      else Some(Step(before.value, trace[n], idleTimeout))
  }

  lemma {:induction false} TraceInv(idleTimeout: nat, trace: seq<Event>)
    requires After(idleTimeout, trace).Some?
    ensures Inv(After(idleTimeout, trace).value, idleTimeout)
    decreases |trace|
  {
    if trace == [] {
    } else {
      hide Step;
      var n := |trace| - 1;
      TraceInv(idleTimeout, trace[..n]);
      StepKeepsInv(After(idleTimeout, trace[..n]).value, trace[n], idleTimeout);
    }
  }

  ghost function IdleTimers(s: State): set<nat> {
    set id | id in s.timers && s.timers[id].Idle?
  }

  /** In every trace, while checked in: exactly one inactivity timer is pending until it
      expires, it is the one the board can clear, it is for the employee shown, and its
      deadline is the latest activity plus the timeout, less at most the throttle's second. */
  lemma IdleBound(idleTimeout: nat, trace: seq<Event>)
    requires After(idleTimeout, trace).Some?
    ensures var s := After(idleTimeout, trace).value;
            && (Watching(s) && !s.expired ==>
                  && s.idleTimer.Some? && IdleTimers(s) == {s.idleTimer.value}
                  && s.timers[s.idleTimer.value].employee == s.employee.value
                  && s.lastActivity + idleTimeout - THROTTLE_MS
                     <= s.timers[s.idleTimer.value].deadline
                     <= s.lastActivity + idleTimeout)
            && (!Watching(s) || s.expired ==> IdleTimers(s) == {})
  {
    TraceInv(idleTimeout, trace);
  }

  /** At most one automatic check-out is ever in flight. */
  lemma AtMostOneHandler(idleTimeout: nat, trace: seq<Event>)
    requires After(idleTimeout, trace).Some?
    ensures var s := After(idleTimeout, trace).value;
            |s.handlers| <= 1 && (s.handling <==> s.handlers != [])
  {
    TraceInv(idleTimeout, trace);
  }

  /** An inactivity timer runs out between the timeout less a second and the timeout after the
      latest activity. Then the employee shown is being checked out, unless an earlier automatic
      check-out is still under way. */
  lemma CheckOutWindow(idleTimeout: nat, trace: seq<Event>, id: nat)
    requires After(idleTimeout, trace + [Fire(id)]).Some?
    requires After(idleTimeout, trace).Some? && id in After(idleTimeout, trace).value.timers
    requires After(idleTimeout, trace).value.timers[id].Idle?
    ensures var s := After(idleTimeout, trace).value;
            var t := After(idleTimeout, trace + [Fire(id)]).value;
            && s.lastActivity + idleTimeout - THROTTLE_MS <= s.now <= s.lastActivity + idleTimeout
            && s.now == s.lastRestart + idleTimeout
            && Watching(s) && t.handling
            && t.handlers == if s.handling then s.handlers else [Handler(s.employee.value, CheckingOut)]
  {
    TraceInv(idleTimeout, trace);
    assert (trace + [Fire(id)])[..|trace|] == trace;
  }

  // ----- which activity decides when the timer runs out

  /** What the board takes for activity: a click it hears, or a render that sets the effect up. */
  predicate Activity(s: State, e: Event) {
    match e
    case Click => s.listening
    case Render(employee, checkedIn, refreshed) =>
      (employee != s.employee || checkedIn != s.checkedIn || refreshed) && checkedIn && employee.Some?
    case _ => false
  }

  ghost predicate ActivityAt(idleTimeout: nat, trace: seq<Event>, k: nat)
    requires k < |trace|
  {
    var before := After(idleTimeout, trace[..k]);
    before.Some? && Activity(before.value, trace[k])
  }

  ghost predicate LatestActivity(idleTimeout: nat, trace: seq<Event>, k: nat) {
    && k < |trace| && ActivityAt(idleTimeout, trace, k)
    && forall j :: k < j < |trace| ==> !ActivityAt(idleTimeout, trace, j)
  }

  lemma {:induction false} PrefixPossible(idleTimeout: nat, trace: seq<Event>, k: nat)
    requires After(idleTimeout, trace).Some? && k <= |trace|
    ensures After(idleTimeout, trace[..k]).Some?
    decreases |trace|
  {
    if k == |trace| {
      assert trace[..k] == trace;
    } else {
      hide Step, Possible;
      var n := |trace| - 1;
      PrefixPossible(idleTimeout, trace[..n], k);
      assert trace[..n][..k] == trace[..k];
    }
  }

  lemma NextEvent(idleTimeout: nat, trace: seq<Event>, k: nat)
    requires After(idleTimeout, trace).Some? && k < |trace|
    ensures After(idleTimeout, trace[..k]).Some?
    ensures var s := After(idleTimeout, trace[..k]).value;
            && Possible(s, trace[k])
            && After(idleTimeout, trace[..k + 1]) == Some(Step(s, trace[k], idleTimeout))
  {
    hide Step, Possible;
    PrefixPossible(idleTimeout, trace, k + 1);
    var next := trace[..k + 1];
    assert next[..k] == trace[..k] && next[k] == trace[k];
    assert |next| - 1 == k;
  }

  /** Anything else neither restarts the timer nor makes the board watch. */
  lemma PassiveStep(s: State, e: Event, idleTimeout: nat)
    requires Possible(s, e) && !Activity(s, e)
    ensures var t := Step(s, e, idleTimeout);
            t.lastRestart == s.lastRestart && t.lastActivity == s.lastActivity && (Watching(t) ==> Watching(s))
  {
    hide OnRender, OnFire, OnAnswer;
    match e
    case Wait(_) =>
    case Click =>
    case Fire(id) => PassiveFire(s, id);
    case Render(employee, checkedIn, refreshed) => PassiveRender(s, employee, checkedIn, refreshed, idleTimeout);
    case Answer(k) => PassiveAnswer(s, k);
  }

  lemma PassiveFire(s: State, id: nat)
    requires id in s.timers
    ensures var t := OnFire(s, id);
            t.lastRestart == s.lastRestart && t.lastActivity == s.lastActivity && (Watching(t) <==> Watching(s))
  {
  }

  lemma PassiveAnswer(s: State, k: nat)
    requires k < |s.handlers|
    ensures var t := OnAnswer(s, k);
            t.lastRestart == s.lastRestart && t.lastActivity == s.lastActivity && (Watching(t) <==> Watching(s))
  {
  }

  lemma PassiveRender(s: State, employee: Option<string>, checkedIn: bool, refreshed: bool, idleTimeout: nat)
    requires !Activity(s, Render(employee, checkedIn, refreshed))
    ensures var t := OnRender(s, employee, checkedIn, refreshed, idleTimeout);
            t.lastRestart == s.lastRestart && t.lastActivity == s.lastActivity && (Watching(t) ==> Watching(s))
  {
    hide ResetIdle, TearDown, ClearIdle;
    ClearKeeps(s);
    ClearKeeps(s.(employee := employee, checkedIn := checkedIn));
    ClearKeeps(TearDown(s).(employee := employee, checkedIn := checkedIn));
  }

  /** Clearing timers changes neither the times remembered nor who is watched. */
  lemma ClearKeeps(s: State)
    ensures var c := ClearIdle(s);
            && c.lastRestart == s.lastRestart && c.lastActivity == s.lastActivity
            && c.employee == s.employee && c.checkedIn == s.checkedIn
    ensures TearDown(s).lastRestart == s.lastRestart && TearDown(s).lastActivity == s.lastActivity
  {
  }

  lemma {:induction false} PassiveKeepsRestart(idleTimeout: nat, trace: seq<Event>, k: nat, n: nat)
    requires After(idleTimeout, trace).Some? && LatestActivity(idleTimeout, trace, k) && k < n <= |trace|
    ensures After(idleTimeout, trace[..k + 1]).Some? && After(idleTimeout, trace[..n]).Some?
    ensures var s, t := After(idleTimeout, trace[..k + 1]).value, After(idleTimeout, trace[..n]).value;
            t.lastRestart == s.lastRestart && t.lastActivity == s.lastActivity
    decreases n
  {
    hide Step, Possible, After, Activity;
    NextEvent(idleTimeout, trace, k);
    if n == k + 1 {
    } else {
      PassiveKeepsRestart(idleTimeout, trace, k, n - 1);
      NextEvent(idleTimeout, trace, n - 1);
      assert !ActivityAt(idleTimeout, trace, n - 1);
      PassiveStep(After(idleTimeout, trace[..n - 1]).value, trace[n - 1], idleTimeout);
    }
  }

  /** A board that watches has a latest activity. */
  lemma {:induction false} FindActivity(idleTimeout: nat, trace: seq<Event>) returns (k: nat)
    requires After(idleTimeout, trace).Some? && Watching(After(idleTimeout, trace).value)
    ensures LatestActivity(idleTimeout, trace, k)
    decreases |trace|
  {
    var n := |trace| - 1;
    if ActivityAt(idleTimeout, trace, n) {
      return n;
    }
    hide Step, Possible, Activity;
    PassiveStep(After(idleTimeout, trace[..n]).value, trace[n], idleTimeout);
    k := FindActivity(idleTimeout, trace[..n]);
    forall j | k <= j < n ensures ActivityAt(idleTimeout, trace, j) <==> ActivityAt(idleTimeout, trace[..n], j) {
      assert trace[..n][..j] == trace[..j];
    }
  }

  /** A click counts in full: no throttle is running, or it was started in the same millisecond. */
  predicate FullyCounted(s: State) {
    s.throttle.None? ||
    (s.throttle.value in s.timers && s.timers[s.throttle.value].deadline == s.now + THROTTLE_MS)
  }

  lemma ClickRestarts(idleTimeout: nat, s: State)
    requires Inv(s, idleTimeout) && s.listening
    ensures var t := OnClick(s, idleTimeout);
            && t.lastActivity == s.now
            && (s.throttle.None? ==> t.lastRestart == s.now)
            && (s.throttle.Some? ==> s.throttle.value in s.timers
                                     && t.lastRestart == s.timers[s.throttle.value].deadline - THROTTLE_MS)
  {
  }

  lemma SetUpRestarts(idleTimeout: nat, s: State, e: Event)
    requires e.Render? && Activity(s, e)
    ensures Step(s, e, idleTimeout).lastRestart == Step(s, e, idleTimeout).lastActivity == s.now
  {
  }

  /** Whenever an inactivity timer runs out there was an activity before, and it runs out the full
      timeout after the latest one exactly if that was a set-up of the effect, or a click which met
      no running throttle or one started in the same millisecond. After any other click it runs out
      the timeout after the throttle was started. */
  lemma CheckOutTiming(idleTimeout: nat, trace: seq<Event>, id: nat) returns (k: nat)
    requires After(idleTimeout, trace).Some?
    requires var t := After(idleTimeout, trace).value;
             Possible(t, Fire(id)) && t.timers[id].Idle?
    ensures LatestActivity(idleTimeout, trace, k)
    ensures forall l :: LatestActivity(idleTimeout, trace, l) ==> l == k
    ensures var s, t := After(idleTimeout, trace[..k]).value, After(idleTimeout, trace).value;
            && (trace[k].Click? || trace[k].Render?)
            && (t.now == s.now + idleTimeout <==> trace[k].Render? || FullyCounted(s))
            && (trace[k].Click? && s.throttle.Some? ==>
                  s.throttle.value in s.timers
                  && t.now == s.timers[s.throttle.value].deadline - THROTTLE_MS + idleTimeout)
  {
    hide After, OnClick, Bounded, OneHandler;
    TraceInv(idleTimeout, trace);
    FiresOnTime(After(idleTimeout, trace).value, id, idleTimeout);
    k := FindActivity(idleTimeout, trace);
    forall l | LatestActivity(idleTimeout, trace, l) ensures l == k {
    }
    assert trace[..|trace|] == trace;
    PassiveKeepsRestart(idleTimeout, trace, k, |trace|);
    NextEvent(idleTimeout, trace, k);
    var s := After(idleTimeout, trace[..k]).value;
    TraceInv(idleTimeout, trace[..k]);
    if trace[k].Click? {
      ClickRestarts(idleTimeout, s);
    } else {
      SetUpRestarts(idleTimeout, s, trace[k]);
    }
  }

  lemma FiresOnTime(s: State, id: nat, idleTimeout: nat)
    requires Inv(s, idleTimeout) && Possible(s, Fire(id)) && s.timers[id].Idle?
    ensures s.now == s.lastRestart + idleTimeout
  {
  }

  /** Activity can not be overlooked for longer than the timeout. */
  lemma NeverLate(idleTimeout: nat, trace: seq<Event>)
    requires After(idleTimeout, trace).Some?
    ensures var s := After(idleTimeout, trace).value;
            Watching(s) && s.now > s.lastActivity + idleTimeout ==> s.expired
  {
    TraceInv(idleTimeout, trace);
  }

  /** Someone who clicks often enough is never checked out. */
  lemma ActiveStays(idleTimeout: nat, trace: seq<Event>, id: nat)
    requires After(idleTimeout, trace).Some?
    requires var s := After(idleTimeout, trace).value;
             Watching(s) && s.now < s.lastActivity + idleTimeout - THROTTLE_MS && id in IdleTimers(s)
    ensures After(idleTimeout, trace + [Fire(id)]).None?
  {
    TraceInv(idleTimeout, trace);
    assert (trace + [Fire(id)])[..|trace|] == trace;
  }

  /** The second is really lost: for every timeout of a second or more there is a trace in
      which the timer runs out only `idleTimeout - 999` after the latest click. */
  lemma EarlyCheckOut(idleTimeout: nat, who: string) returns (trace: seq<Event>)
    requires idleTimeout >= THROTTLE_MS
    ensures After(idleTimeout, trace).Some?
    ensures var s := After(idleTimeout, trace).value;
            && s.handlers == [Handler(who, CheckingOut)]
            && s.now - s.lastActivity == idleTimeout - 999
  {
    hide After;
    trace := FirstClick(idleTimeout, who);
    var s := After(idleTimeout, trace).value;
    trace := Then(idleTimeout, trace, Wait(999));
    trace := Then(idleTimeout, trace, Click);
    trace := Then(idleTimeout, trace, Wait(1));
    trace := Then(idleTimeout, trace, Fire(1));
    s := After(idleTimeout, trace).value;
    assert s.timers == map[2 := Idle(idleTimeout, who)] && s.now == 1000 && s.lastActivity == 999;
    trace := Then(idleTimeout, trace, Wait(idleTimeout - THROTTLE_MS));
    trace := Then(idleTimeout, trace, Fire(2));
  }

  /** Checked in, and a click let through at once. */
  lemma FirstClick(idleTimeout: nat, who: string) returns (trace: seq<Event>)
    requires idleTimeout >= THROTTLE_MS
    ensures After(idleTimeout, trace) == Some(State(
              0, Some(who), true, true, map[1 := Throttle(1000), 2 := Idle(idleTimeout, who)], 3,
              Some(2), Some(1), false, [], 0, 0, false))
  {
    hide After;
    assert After(idleTimeout, []) == Some(INITIAL) by { NoTrace(idleTimeout); }
    trace := Then(idleTimeout, [], Render(Some(who), true, false));
    var s := After(idleTimeout, trace).value;
    assert s.timers == map[0 := Idle(idleTimeout, who)];
    trace := Then(idleTimeout, trace, Click);
    s := After(idleTimeout, trace).value;
    assert s.timers == map[1 := Throttle(1000), 2 := Idle(idleTimeout, who)];
  }

  lemma NoTrace(idleTimeout: nat)
    ensures After(idleTimeout, []) == Some(INITIAL)
  {
  }

  lemma Then(idleTimeout: nat, trace: seq<Event>, e: Event) returns (longer: seq<Event>)
    requires After(idleTimeout, trace).Some? && Possible(After(idleTimeout, trace).value, e)
    ensures After(idleTimeout, longer) == Some(Step(After(idleTimeout, trace).value, e, idleTimeout))
  {
    longer := trace + [e];
    assert longer[..|trace|] == trace;
  }

  /** The board, driven through a trace, gets where the trace leads. */
  method Drive(idleTimeout: nat, trace: seq<Event>) returns (board: Board)
    requires After(idleTimeout, trace).Some?
    ensures fresh(board) && board.Now() == After(idleTimeout, trace).value
  {
    board := new Board(idleTimeout);
    assert trace[..0] == [];
    NoTrace(idleTimeout);
    hide After, Step, Possible, INITIAL;
    for k := 0 to |trace|
      invariant fresh(board) && board.idleTimeout == idleTimeout
      invariant After(idleTimeout, trace[..k]).Some?
      invariant board.Now() == After(idleTimeout, trace[..k]).value
    {
      NextEvent(idleTimeout, trace, k);
      board.Dispatch(trace[k]);
    }
    assert trace[..|trace|] == trace;
  }

  // ----- what the automatic check-out does

  /** How many answers a trace contains. */
  function Answers(trace: seq<Event>): nat {
    if trace == [] then 0
    else Answers(trace[..|trace| - 1]) + if trace[|trace| - 1].Answer? then 1 else 0
  }

  /** The handler is at its stage number `k`: it waits for the check-out, the reload or the log-out. */
  ghost predicate AtStage(s: State, who: string, k: nat) {
    && s.handling && |s.handlers| == 1 && s.handlers[0].employee == who && k < 3
    && (k == 0 <==> s.handlers[0].stage.CheckingOut?)
    && (k == 1 <==> s.handlers[0].stage.Reloading?)
    && (k == 2 <==> s.handlers[0].stage.LoggingOut?)
  }

  /** While a handler is under way only an answer moves it on, and the third ends it. */
  lemma StageStep(s: State, e: Event, who: string, k: nat, idleTimeout: nat)
    requires AtStage(s, who, k) && Possible(s, e)
    ensures var t := Step(s, e, idleTimeout);
            if !e.Answer? then AtStage(t, who, k)
            else if k < 2 then AtStage(t, who, k + 1)
            else !t.handling && t.handlers == []
  {
    hide OnClick, OnRender, OnFire, OnAnswer;
    match e
    case Wait(_) =>
    case Click => ClickStays(s, idleTimeout);
    case Fire(id) => FireStays(s, id);
    case Render(employee, checkedIn, refreshed) => RenderStays(s, employee, checkedIn, refreshed, idleTimeout);
    case Answer(j) => NextStage(s, who, k, j);
  }

  lemma NextStage(s: State, who: string, k: nat, j: nat)
    requires AtStage(s, who, k) && j < |s.handlers|
    ensures var t := OnAnswer(s, j);
            if k < 2 then AtStage(t, who, k + 1) else !t.handling && t.handlers == []
  {
  }

  lemma FireStays(s: State, id: nat)
    requires id in s.timers && s.handling
    ensures OnFire(s, id).handling && OnFire(s, id).handlers == s.handlers
  {
  }

  lemma ClickStays(s: State, idleTimeout: nat)
    ensures OnClick(s, idleTimeout).handling == s.handling && OnClick(s, idleTimeout).handlers == s.handlers
  {
    hide ResetIdle;
    HandlersStay(s.(lastActivity := s.now), idleTimeout);
    HandlersStay(s.(lastActivity := s.now, timers := s.timers[s.nextId := Throttle(s.now + THROTTLE_MS)],
                    nextId := s.nextId + 1, throttle := Some(s.nextId)), idleTimeout);
  }

  lemma RenderStays(s: State, employee: Option<string>, checkedIn: bool, refreshed: bool, idleTimeout: nat)
    ensures var t := OnRender(s, employee, checkedIn, refreshed, idleTimeout);
            t.handling == s.handling && t.handlers == s.handlers
  {
    hide TearDown, SetUp;
    HandlersStay(s, idleTimeout);
    HandlersStay(s.(employee := employee, checkedIn := checkedIn), idleTimeout);
    HandlersStay(TearDown(s).(employee := employee, checkedIn := checkedIn), idleTimeout);
  }

  /** Neither the timers nor the effect touch a handler. */
  lemma HandlersStay(s: State, idleTimeout: nat)
    ensures ResetIdle(s, idleTimeout).handling == s.handling && ResetIdle(s, idleTimeout).handlers == s.handlers
    ensures TearDown(s).handling == s.handling && TearDown(s).handlers == s.handlers
    ensures SetUp(s, idleTimeout).handling == s.handling && SetUp(s, idleTimeout).handlers == s.handlers
  {
  }

  lemma {:induction false} HandlerStages(idleTimeout: nat, trace: seq<Event>, who: string, rest: seq<Event>)
    requires After(idleTimeout, trace).Some? && AtStage(After(idleTimeout, trace).value, who, 0)
    requires After(idleTimeout, trace + rest).Some? && Answers(rest) < 3
    ensures AtStage(After(idleTimeout, trace + rest).value, who, Answers(rest))
    decreases |rest|
  {
    if rest == [] {
      assert trace + rest == trace;
    } else {
      hide Step, Possible, AtStage;
      var n := |rest| - 1;
      var all := trace + rest;
      assert |all| - 1 == |trace| + n;
      assert all[..|trace| + n] == trace + rest[..n] && all[|trace| + n] == rest[n];
      HandlerStages(idleTimeout, trace, who, rest[..n]);
      StageStep(After(idleTimeout, trace + rest[..n]).value, rest[n], who, Answers(rest[..n]), idleTimeout);
    }
  }

  /** An automatic check-out that a timer started, followed through everything that happens: it
      waits for the check-out, then for the reload and then for the log-out, and for nothing else;
      no other one starts meanwhile, and the third answer ends it. */
  lemma CheckOutStages(idleTimeout: nat, trace: seq<Event>, id: nat, rest: seq<Event>)
    requires After(idleTimeout, trace).Some? && After(idleTimeout, trace + [Fire(id)] + rest).Some?
    requires var s := After(idleTimeout, trace).value;
             Possible(s, Fire(id)) && s.timers[id].Idle? && !s.handling
    requires Answers(rest) < 3 || (rest != [] && Answers(rest) == 3 && rest[|rest| - 1].Answer?)
    ensures var s := After(idleTimeout, trace).value;
            var t := After(idleTimeout, trace + [Fire(id)] + rest).value;
            if Answers(rest) == 3 then !t.handling && t.handlers == []
            else
              t.handling && t.handlers == [Handler(s.timers[id].employee, [CheckingOut, Reloading, LoggingOut][Answers(rest)])]
  {
    hide Inv;
    var fired := trace + [Fire(id)];
    var s := After(idleTimeout, trace).value;
    var who := s.timers[id].employee;
    assert fired[..|trace|] == trace;
    AtMostOneHandler(idleTimeout, trace);
    assert AtStage(After(idleTimeout, fired).value, who, 0);
    if Answers(rest) < 3 {
      HandlerStages(idleTimeout, fired, who, rest);
    } else {
      hide Step, Possible, AtStage;
      var n := |rest| - 1;
      var all := fired + rest;
      assert |all| - 1 == |fired| + n;
      assert all[..|fired| + n] == fired + rest[..n] && all[|fired| + n] == rest[n];
      HandlerStages(idleTimeout, fired, who, rest[..n]);
      StageStep(After(idleTimeout, fired + rest[..n]).value, rest[n], who, 2, idleTimeout);
    }
  }
}
