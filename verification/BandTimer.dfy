/** The band's minute in plugin/hooks/pane.tsx: async handlers that share one timer and
    interleave at every await. Between two awaits a handler runs alone, so each step below is
    what one handler does from one await to the next. */
module BandTimer {
  import opened Common

  /** What an answered layout call goes on to: `startBand`, `stopBand`, or `stopBand` and then
      the pane with a list read of its own. */
  datatype Layout = ToBand | ToRows | ToPane

  /** Where a handler waits. What an await has already answered, it holds: it may be stale when
      the handler goes on. */
  datatype Task =
    | Saves(to: Layout)                        // a layout call: /sc layout, its button, session start
    | Asks                                     // run: its read of the list, up to what it stores
    | TickAsked                                // tick: reading the band
    | TickKnows(on: bool)
    | TickReadsPane
    | TickCalls                                // the minute's list read, in flight
    | TickStamps
    | TickStores
    | ListAsked(inTick: bool)                  // afterList: reading the band
    | ListKnows(inTick: bool, on: bool)
    | ListReadsPane(inTick: bool)
    | ListStores(inTick: bool, running: bool)
    | StartStores                              // startBand: switching the band on
    | StopAsked(opens: bool)                   // stopBand, its minute already stopped
    | StopKnows(opens: bool, on: bool)

  /** A handler that is a tick, from its guard to its `finally`. */
  predicate IsTick(t: Task) {
    t.TickAsked? || t.TickKnows? || t.TickReadsPane? || t.TickCalls? || t.TickStamps? || t.TickStores?
    || (t.ListAsked? && t.inTick) || (t.ListKnows? && t.inTick) || (t.ListReadsPane? && t.inTick)
    || (t.ListStores? && t.inTick)
  }

  /** `minute` is the handle kept, `live` the timers the engine runs. */
  datatype State = State(on: bool, minute: Option<nat>, live: set<nat>, next: nat, reading: bool, tasks: map<nat, Task>)

  datatype Step =
    | Fire(timer: nat, id: nat)                       // a live timer starts a tick
    | Press(id: nat)                                  // a press, or /sc-pane, that reads the list
    | Switch(id: nat, to: Layout)                     // a layout is asked for
    | SessionEnd
    | Go(id: nat, answered: bool, running: bool)      // an await answers; the handler runs on
    | Throw(id: nat)                                  // an await rejects

  // ----- the handlers' pieces -----------------------------------------------------------

  /** `startMinute`. */
  function StartMinute(s: State): State {
    if s.minute.Some? then s
    else s.(minute := Some(s.next), live := s.live + {s.next}, next := s.next + 1)
  }

  /** `stopMinute`. */
  function StopMinute(s: State): State {
    if s.minute.None? then s else s.(minute := None, live := s.live - {s.minute.value})
  }

  /** The handler ends; a tick's `finally` lets the next one read. */
  function End(s: State, id: nat): State
    requires id in s.tasks
  {
    s.(tasks := s.tasks - {id}, reading := if IsTick(s.tasks[id]) then false else s.reading)
  }

  function Wait(s: State, id: nat, t: Task): State {
    s.(tasks := s.tasks[id := t])
  }

  function Advance(s: State, id: nat, answered: bool, running: bool): State
    requires id in s.tasks
  {
    match s.tasks[id]
    case TickAsked => Wait(s, id, TickKnows(s.on))
    case TickKnows(on) => if on then Wait(s, id, TickReadsPane) else End(StopMinute(s), id)
    case TickReadsPane => Wait(s, id, TickCalls)
    case TickCalls => if answered then Wait(s, id, TickStamps) else End(s, id)
    case TickStamps => Wait(s, id, TickStores)
    case TickStores => Wait(s, id, ListAsked(true))
    case ListAsked(t) => Wait(s, id, ListKnows(t, s.on))
    case ListKnows(t, on) => if on then Wait(s, id, ListReadsPane(t)) else End(s, id)
    case ListReadsPane(t) => Wait(s, id, ListStores(t, running))
    case ListStores(_, run) => End(if run then StartMinute(s) else StopMinute(s), id)
    case Saves(to) =>
      if !answered then End(s, id)
      else if to.ToBand? then Wait(s, id, StartStores)
      else Wait(StopMinute(s), id, StopAsked(to.ToPane?))
    case Asks => if answered then Wait(s, id, ListAsked(false)) else End(s, id)
    case StartStores => Wait(s.(on := true), id, Asks)
    case StopAsked(opens) => Wait(s, id, StopKnows(opens, s.on))
    case StopKnows(opens, on) =>
      var off := if on then s.(on := false) else s;
      if opens then Wait(off, id, Asks) else End(off, id)
  }

  function Apply(s: State, step: Step): State {
    match step
    case Fire(timer, id) =>
      if timer !in s.live || id in s.tasks || s.reading then s
      else Wait(s.(reading := true), id, TickAsked)
    case Press(id) => if id in s.tasks then s else Wait(s, id, Asks)
    case Switch(id, to) => if id in s.tasks then s else Wait(s, id, Saves(to))
    case SessionEnd => StopMinute(s)
    case Go(id, answered, running) => if id in s.tasks then Advance(s, id, answered, running) else s
    case Throw(id) => if id in s.tasks then End(s, id) else s
  }

  function Run(s: State, steps: seq<Step>, n: nat): State
    requires n <= |steps|
  {
    if n == 0 then s else Apply(Run(s, steps, n - 1), steps[n - 1])
  }

  const START := State(false, None, {}, 0, false, map[])

  // ----- one timer, one read ------------------------------------------------------------

  /** The kept handle is the one live timer. */
  predicate OneTimer(s: State) {
    s.live == (if s.minute.Some? then {s.minute.value} else {})
    && (s.minute.Some? ==> s.minute.value < s.next)
  }

  predicate Ticks(s: State, id: nat) {
    id in s.tasks && IsTick(s.tasks[id])
  }

  /** `reading` says whether a tick runs, and there is never a second one. */
  ghost predicate OneTick(s: State) {
    (s.reading <==> exists id :: Ticks(s, id))
    && forall a, b :: Ticks(s, a) && Ticks(s, b) ==> a == b
  }

  ghost predicate Inv(s: State) {
    OneTimer(s) && OneTick(s)
  }

  lemma {:induction false} MinuteKeepsTimer(s: State)
    requires OneTimer(s)
    ensures OneTimer(StartMinute(s)) && OneTimer(StopMinute(s)) && StopMinute(s).live == {}
  {
  }

  /** A handler that waits on as what it is keeps the ticks as they are. */
  lemma {:induction false} WaitKeepsTick(s: State, id: nat, t: Task)
    requires OneTick(s) && id in s.tasks && (IsTick(t) <==> IsTick(s.tasks[id]))
    ensures OneTick(Wait(s, id, t))
  {
    var w := Wait(s, id, t);
    forall k
      ensures Ticks(w, k) <==> Ticks(s, k)
    {
    }
    if s.reading {
      var k :| Ticks(s, k);
      assert Ticks(w, k);
    }
  }

  lemma {:induction false} EndKeepsTick(s: State, id: nat)
    requires OneTick(s) && id in s.tasks
    ensures OneTick(End(s, id))
  {
    var e := End(s, id);
    forall k
      ensures Ticks(e, k) <==> Ticks(s, k) && k != id
    {
    }
    if Ticks(s, id) {
      assert forall k :: Ticks(s, k) ==> k == id;
    } else if s.reading {
      var k :| Ticks(s, k);
      assert Ticks(e, k);
    }
  }

  lemma {:induction false} NewKeepsTick(s: State, id: nat, t: Task)
    requires OneTick(s) && id !in s.tasks && (IsTick(t) ==> !s.reading)
    ensures OneTick(Wait(s.(reading := s.reading || IsTick(t)), id, t))
  {
    var w := Wait(s.(reading := s.reading || IsTick(t)), id, t);
    forall k
      ensures Ticks(w, k) <==> Ticks(s, k) || (k == id && IsTick(t))
    {
    }
    assert IsTick(t) ==> Ticks(w, id);
    if s.reading {
      var k :| Ticks(s, k);
      assert Ticks(w, k);
    }
  }

  lemma {:induction false} SameTasksSameTick(s: State, t: State)
    requires OneTick(s) && t.tasks == s.tasks && t.reading == s.reading
    ensures OneTick(t)
  {
    assert forall id :: Ticks(t, id) <==> Ticks(s, id);
    if s.reading {
      var id :| Ticks(s, id);
      assert Ticks(t, id);
    }
  }

  /** A handler that ends, or waits on as what it is, after changing the timer or the switch. */
  lemma {:induction false} EndAfterKeeps(s: State, t: State, id: nat)
    requires Inv(s) && id in s.tasks && t.tasks == s.tasks && t.reading == s.reading && OneTimer(t)
    ensures Inv(End(t, id))
  {
    SameTasksSameTick(s, t);
    EndKeepsTick(t, id);
  }

  lemma {:induction false} WaitAfterKeeps(s: State, t: State, id: nat, k: Task)
    requires Inv(s) && id in s.tasks && t.tasks == s.tasks && t.reading == s.reading && OneTimer(t)
    requires IsTick(k) <==> IsTick(s.tasks[id])
    ensures Inv(Wait(t, id, k))
  {
    SameTasksSameTick(s, t);
    WaitKeepsTick(t, id, k);
  }

  lemma {:induction false} TickAdvances(s: State, id: nat, answered: bool, running: bool)
    requires Inv(s) && id in s.tasks
    requires var t := s.tasks[id];
             t.TickAsked? || t.TickKnows? || t.TickReadsPane? || t.TickCalls? || t.TickStamps? || t.TickStores?
    ensures Inv(Advance(s, id, answered, running))
  {
    MinuteKeepsTimer(s);
    match s.tasks[id]
    case TickAsked => WaitAfterKeeps(s, s, id, TickKnows(s.on));
    case TickKnows(on) => if on { WaitAfterKeeps(s, s, id, TickReadsPane); } else { EndAfterKeeps(s, StopMinute(s), id); }
    case TickReadsPane => WaitAfterKeeps(s, s, id, TickCalls);
    case TickCalls => if answered { WaitAfterKeeps(s, s, id, TickStamps); } else { EndAfterKeeps(s, s, id); }
    case TickStamps => WaitAfterKeeps(s, s, id, TickStores);
    case TickStores => WaitAfterKeeps(s, s, id, ListAsked(true));
  }

  lemma {:induction false} ListAdvances(s: State, id: nat, answered: bool, running: bool)
    requires Inv(s) && id in s.tasks
    requires var t := s.tasks[id]; t.ListAsked? || t.ListKnows? || t.ListReadsPane? || t.ListStores? || t.Asks?
    ensures Inv(Advance(s, id, answered, running))
  {
    MinuteKeepsTimer(s);
    match s.tasks[id]
    case Asks => if answered { WaitAfterKeeps(s, s, id, ListAsked(false)); } else { EndAfterKeeps(s, s, id); }
    case ListAsked(t) => WaitAfterKeeps(s, s, id, ListKnows(t, s.on));
    case ListKnows(t, on) => if on { WaitAfterKeeps(s, s, id, ListReadsPane(t)); } else { EndAfterKeeps(s, s, id); }
    case ListReadsPane(t) => WaitAfterKeeps(s, s, id, ListStores(t, running));
    case ListStores(_, run) => EndAfterKeeps(s, if run then StartMinute(s) else StopMinute(s), id);
  }

  lemma {:induction false} SwitchAdvances(s: State, id: nat, answered: bool, running: bool)
    requires Inv(s) && id in s.tasks
    requires var t := s.tasks[id]; t.Saves? || t.StartStores? || t.StopAsked? || t.StopKnows?
    ensures Inv(Advance(s, id, answered, running))
  {
    MinuteKeepsTimer(s);
    match s.tasks[id]
    case Saves(to) =>
      if !answered {
        EndAfterKeeps(s, s, id);
      } else if to.ToBand? {
        WaitAfterKeeps(s, s, id, StartStores);
      } else {
        WaitAfterKeeps(s, StopMinute(s), id, StopAsked(to.ToPane?));
      }
    case StartStores => WaitAfterKeeps(s, s.(on := true), id, Asks);
    case StopAsked(opens) => WaitAfterKeeps(s, s, id, StopKnows(opens, s.on));
    case StopKnows(opens, on) =>
      var off := if on then s.(on := false) else s;
      if opens { WaitAfterKeeps(s, off, id, Asks); } else { EndAfterKeeps(s, off, id); }
  }

  lemma {:induction false} AdvanceKeepsInv(s: State, id: nat, answered: bool, running: bool)
    requires Inv(s) && id in s.tasks
    ensures Inv(Advance(s, id, answered, running))
  {
    var t := s.tasks[id];
    if t.Saves? || t.StartStores? || t.StopAsked? || t.StopKnows? {
      SwitchAdvances(s, id, answered, running);
    } else if t.ListAsked? || t.ListKnows? || t.ListReadsPane? || t.ListStores? || t.Asks? {
      ListAdvances(s, id, answered, running);
    } else {
      TickAdvances(s, id, answered, running);
    }
  }

  /** A tick that finds another in flight ends at once and reads nothing. */
  lemma {:induction false} SecondTickEnds(s: State, timer: nat, id: nat)
    requires s.reading
    ensures Apply(s, Fire(timer, id)) == s
  {
  }

  lemma {:induction false} StepKeepsInv(s: State, step: Step)
    requires Inv(s)
    ensures Inv(Apply(s, step))
  {
    MinuteKeepsTimer(s);
    SameTasksSameTick(s, StopMinute(s));
    match step
    case Fire(timer, id) =>
      if s.reading {
        SecondTickEnds(s, timer, id);
      } else if id !in s.tasks {
        NewKeepsTick(s, id, TickAsked);
      }
    case Press(id) => if id !in s.tasks { NewKeepsTick(s, id, Asks); }
    case Switch(id, to) => if id !in s.tasks { NewKeepsTick(s, id, Saves(to)); }
    case SessionEnd =>
    case Go(id, answered, running) => if id in s.tasks { AdvanceKeepsInv(s, id, answered, running); }
    case Throw(id) => if id in s.tasks { EndKeepsTick(s, id); }
  }

  /** For every interleaving at the awaits: at most one timer is live, the one whose handle is
      kept, and at most one tick -- so one minute's read -- is in flight. */
  lemma {:induction false} OneTimerOneRead(steps: seq<Step>, n: nat)
    requires n <= |steps|
    ensures Inv(Run(START, steps, n)) && |Run(START, steps, n).live| <= 1
    ensures var s := Run(START, steps, n);
            forall a, b :: a in s.tasks && b in s.tasks && s.tasks[a].TickCalls? && s.tasks[b].TickCalls? ==> a == b
  {
    if n > 0 {
      OneTimerOneRead(steps, n - 1);
      StepKeepsInv(Run(START, steps, n - 1), steps[n - 1]);
    }
    var s := Run(START, steps, n);
    assert forall id :: id in s.tasks && s.tasks[id].TickCalls? ==> Ticks(s, id);
  }

  // ----- what a handler left to itself does ---------------------------------------------

  /** The handler's next awaits, each answered; a list read finds something running or not. */
  function Alone(s: State, id: nat, running: bool, n: nat): State {
    if n == 0 then s else Apply(Alone(s, id, running, n - 1), Go(id, true, running))
  }

  /** The minute is kept exactly while anything runs: a list read of a band that is on starts it
      or stops it. */
  lemma {:induction false} ListSettles(s: State, id: nat, inTick: bool, running: bool)
    requires OneTimer(s) && id in s.tasks && s.tasks[id] == ListAsked(inTick) && s.on
    ensures var t := Alone(s, id, running, 4);
            id !in t.tasks && t.on && (t.minute.Some? <==> running) && (t.live == {} <==> !running)
  {
    var read := s.(tasks := s.tasks[id := ListStores(inTick, running)]);
    assert Alone(s, id, running, 1) == s.(tasks := s.tasks[id := ListKnows(inTick, true)]);
    assert Alone(s, id, running, 2) == s.(tasks := s.tasks[id := ListReadsPane(inTick)]);
    assert Alone(s, id, running, 3) == read;
    Settles(read, id, running);
  }

  lemma {:induction false} Settles(s: State, id: nat, running: bool)
    requires OneTimer(s) && id in s.tasks && s.tasks[id].ListStores? && s.tasks[id].running == running
    ensures var t := Apply(s, Go(id, true, running));
            id !in t.tasks && t.on == s.on && (t.minute.Some? <==> running) && (t.live == {} <==> !running)
  {
    MinuteKeepsTimer(s);
  }

  /** One of a band that is off leaves the minute alone. */
  lemma {:induction false} ListWhileOff(s: State, id: nat, inTick: bool, running: bool)
    requires id in s.tasks && s.tasks[id] == ListAsked(inTick) && !s.on
    ensures var t := Alone(s, id, running, 2);
            id !in t.tasks && !t.on && t.minute == s.minute && t.live == s.live
  {
    assert Alone(s, id, running, 1) == s.(tasks := s.tasks[id := ListKnows(inTick, false)]);
  }

  /** A switch to rows or to the pane ends with the band off and no timer, the pane then reading
      the list. */
  lemma {:induction false} SwitchedOff(s: State, id: nat, to: Layout, running: bool)
    requires OneTimer(s) && id in s.tasks && s.tasks[id] == Saves(to) && !to.ToBand?
    ensures var t := Alone(s, id, running, 3);
            !t.on && t.live == {} && t.minute.None?
            && if to.ToPane? then id in t.tasks && t.tasks[id] == Asks else id !in t.tasks
  {
    MinuteKeepsTimer(s);
    var stopped := StopMinute(s);
    var known := stopped.(tasks := s.tasks[id := StopKnows(to.ToPane?, s.on)]);
    assert Alone(s, id, running, 1) == stopped.(tasks := s.tasks[id := StopAsked(to.ToPane?)]);
    assert Alone(s, id, running, 2) == known;
    TurnsOff(known, id, running);
  }

  lemma {:induction false} TurnsOff(s: State, id: nat, running: bool)
    requires id in s.tasks && s.tasks[id].StopKnows? && s.tasks[id].on == s.on
    ensures var t := Apply(s, Go(id, true, running));
            !t.on && t.live == s.live && t.minute == s.minute
            && if s.tasks[id].opens then id in t.tasks && t.tasks[id] == Asks else id !in t.tasks
  {
  }

  /** A switch to the band ends with it on, reading the list. */
  lemma {:induction false} SwitchedOn(s: State, id: nat, running: bool)
    requires id in s.tasks && s.tasks[id] == Saves(ToBand)
    ensures var t := Alone(s, id, running, 2);
            t.on && t.live == s.live && t.minute == s.minute && id in t.tasks && t.tasks[id] == Asks
  {
    assert Alone(s, id, running, 1) == s.(tasks := s.tasks[id := StartStores]);
  }

  /** A refused switch changes nothing. */
  lemma {:induction false} SwitchRefused(s: State, id: nat, to: Layout, running: bool)
    requires id in s.tasks && s.tasks[id] == Saves(to)
    ensures var t := Apply(s, Go(id, false, running));
            id !in t.tasks && t.on == s.on && t.minute == s.minute && t.live == s.live
  {
  }

  /** A press reads the list or, unanswered, ends; a minute whose read fails waits for the next. */
  lemma {:induction false} FailedReadsWait(s: State, id: nat, running: bool)
    requires id in s.tasks && (s.tasks[id] == Asks || s.tasks[id] == TickCalls)
    ensures var t := Apply(s, Go(id, false, running));
            id !in t.tasks && t.on == s.on && t.minute == s.minute && t.live == s.live
            && (s.tasks[id] == TickCalls ==> !t.reading)
    ensures s.tasks[id] == Asks ==> Apply(s, Go(id, true, running)) == s.(tasks := s.tasks[id := ListAsked(false)])
  {
  }

  /** A tick of a live timer, with none in flight and the band on, comes to its list read. */
  lemma {:induction false} TickReads(s: State, timer: nat, id: nat, running: bool)
    requires timer in s.live && id !in s.tasks && !s.reading && s.on
    ensures var began := Apply(s, Fire(timer, id));
            began.reading && Alone(began, id, running, 3).tasks == s.tasks[id := TickCalls]
            && Alone(began, id, running, 6).tasks == s.tasks[id := ListAsked(true)]
  {
    var began := Apply(s, Fire(timer, id));
    assert began == s.(reading := true, tasks := s.tasks[id := TickAsked]);
    assert Alone(began, id, running, 1) == began.(tasks := s.tasks[id := TickKnows(true)]);
    assert Alone(began, id, running, 2) == began.(tasks := s.tasks[id := TickReadsPane]);
    assert Alone(began, id, running, 3) == began.(tasks := s.tasks[id := TickCalls]);
    assert Alone(began, id, running, 4) == began.(tasks := s.tasks[id := TickStamps]);
    assert Alone(began, id, running, 5) == began.(tasks := s.tasks[id := TickStores]);
  }

  // ----- a tick while the band is off ---------------------------------------------------

  /** The tick has not gone past what it learnt of a band that is off. */
  predicate NoReadYet(s: State, id: nat) {
    id in s.tasks && (s.tasks[id] == TickAsked || s.tasks[id] == TickKnows(false))
  }

  /** The step begins a handler under this id. */
  predicate Begins(step: Step, id: nat) {
    (step.Fire? || step.Press? || step.Switch?) && step.id == id
  }

  /** A tick started while the band is off makes no list read as long as the band stays off:
      whatever the other handlers do, it waits for the band or has ended; and the step that
      ends it, unless an await rejects, leaves no timer live, so one that outlived the band is
      cancelled. */
  lemma {:induction false} OffTickReadsNothing(s: State, steps: seq<Step>, n: nat, id: nat)
    requires Inv(s) && n <= |steps| && NoReadYet(s, id)
    requires forall i :: 0 <= i < n ==> !Run(s, steps, i).on
    requires forall i :: 0 <= i < n ==> !Begins(steps[i], id)
    ensures Inv(Run(s, steps, n))
    ensures NoReadYet(Run(s, steps, n), id) || id !in Run(s, steps, n).tasks
    ensures n > 0 && id in Run(s, steps, n - 1).tasks && id !in Run(s, steps, n).tasks ==>
              steps[n - 1] == Throw(id) || Run(s, steps, n).live == {}
  {
    if n > 0 {
      OffTickReadsNothing(s, steps, n - 1, id);
      var before := Run(s, steps, n - 1);
      StepKeepsInv(before, steps[n - 1]);
      assert !before.on && !Begins(steps[n - 1], id);
      if NoReadYet(before, id) {
        OffTickStep(before, steps[n - 1], id);
      } else {
        EndedStaysEnded(before, steps[n - 1], id);
      }
    }
  }

  lemma {:induction false} EndedStaysEnded(s: State, step: Step, id: nat)
    requires id !in s.tasks && !Begins(step, id)
    ensures id !in Apply(s, step).tasks
  {
    match step
    case Go(k, answered, running) => if k in s.tasks { OthersUntouched(s, k, answered, running, id); }
    case _ =>
  }

  /** A handler running on begins and ends no other. */
  lemma {:induction false} OthersUntouched(s: State, k: nat, answered: bool, running: bool, id: nat)
    requires k in s.tasks && id != k
    ensures var t := Advance(s, k, answered, running);
            (id in t.tasks <==> id in s.tasks) && (id in s.tasks ==> t.tasks[id] == s.tasks[id])
  {
    match s.tasks[k]
    case TickKnows(on) =>
    case _ =>
  }

  lemma {:induction false} OffTickStep(s: State, step: Step, id: nat)
    requires Inv(s) && !s.on && NoReadYet(s, id)
    ensures var t := Apply(s, step);
            NoReadYet(t, id)
            || (id !in t.tasks && !t.reading && (step == Throw(id) || (t.live == {} && t.minute == None)))
  {
    assert Ticks(s, id);
    match step
    case Go(k, answered, running) =>
      if k == id {
        assert s.tasks[id].TickKnows? ==> StopMinute(s).live == {};
      }
    case _ =>
  }

  // ----- what can start the minute ------------------------------------------------------

  /** Only a list read that found the band on and something running starts a timer. */
  lemma {:induction false} OnlyListsStart(s: State, step: Step)
    requires s.minute.None? && Apply(s, step).minute.Some?
    ensures step.Go? && step.id in s.tasks && s.tasks[step.id].ListStores? && s.tasks[step.id].running
  {
  }

  /** A list read that found the band on and may still find something running. */
  predicate WillRead(t: Task) {
    (t.ListStores? && t.running) || t.ListReadsPane? || (t.ListKnows? && t.on)
  }

  /** A handler that goes on to such a read if it finds the band on, and does not switch it off
      before. */
  predicate MayRead(t: Task) {
    t.Asks? || (t.StopKnows? && t.opens && !t.on) || t.ListAsked? || t.TickAsked? || (t.TickKnows? && t.on) || t.TickReadsPane? || t.TickCalls? || t.TickStamps?
    || t.TickStores?
  }

  ghost predicate SomeTask(s: State, what: Task -> bool) {
    exists id :: id in s.tasks && what(s.tasks[id])
  }

  /** A handler that switches the band on and then reads the list. */
  predicate Starting(t: Task) {
    t.StartStores? || (t.Saves? && t.to.ToBand?)
  }

  /** Some handler in flight can yet start the minute. */
  ghost predicate CanStart(s: State) {
    SomeTask(s, WillRead) || SomeTask(s, Starting) || (s.on && SomeTask(s, MayRead))
  }

  /** After the session has ended nothing is pressed: awaits answer or reject, timers fire. */
  ghost predicate Closed(steps: seq<Step>) {
    forall i :: 0 <= i < |steps| ==> steps[i].Go? || steps[i].Throw? || steps[i].Fire?
  }

  lemma {:induction false} StepStaysStopped(s: State, step: Step)
    requires OneTimer(s) && s.minute.None? && !CanStart(s)
    requires step.Go? || step.Throw? || step.Fire?
    ensures var t := Apply(s, step); OneTimer(t) && t.minute.None? && !CanStart(t)
  {
    var t := Apply(s, step);
    if t.minute.Some? {
      OnlyListsStart(s, step);
    }
    if step.Go? && step.id in s.tasks {
      var id := step.id;
      assert !WillRead(s.tasks[id]) && !Starting(s.tasks[id]) && (s.on ==> !MayRead(s.tasks[id]));
      forall k | k in t.tasks
        ensures !WillRead(t.tasks[k]) && !Starting(t.tasks[k]) && (t.on ==> !MayRead(t.tasks[k]))
      {
        if k != id {
          OthersUntouched(s, id, step.answered, step.running, k);
          assert k in s.tasks && t.tasks[k] == s.tasks[k];
        }
      }
    }
  }

  /** With no such handler in flight nothing starts the minute again. */
  lemma {:induction false} StaysStopped(s: State, steps: seq<Step>, n: nat)
    requires n <= |steps| && Closed(steps)
    requires OneTimer(s) && s.minute.None? && !CanStart(s)
    ensures var t := Run(s, steps, n); OneTimer(t) && t.minute.None? && !CanStart(t)
  {
    if n > 0 {
      StaysStopped(s, steps, n - 1);
      StepStaysStopped(Run(s, steps, n - 1), steps[n - 1]);
    }
  }

  lemma {:induction false} RunFrom(s: State, first: Step, rest: seq<Step>, n: nat)
    requires n <= |rest|
    ensures Run(s, [first] + rest, n + 1) == Run(Apply(s, first), rest, n)
  {
    if n > 0 {
      RunFrom(s, first, rest, n - 1);
    }
  }

  /** The awaits a handler still has before it settles a list read. */
  function AwaitsLeft(t: Task): nat {
    match t
    case Saves(_) => 9
    case StartStores => 8
    case StopKnows(_, _) => 5
    case Asks => 4
    case TickAsked => 9
    case TickKnows(_) => 8
    case TickReadsPane => 7
    case TickCalls => 6
    case TickStamps => 5
    case TickStores => 4
    case ListAsked(_) => 3
    case ListKnows(_, _) => 2
    case ListReadsPane(_) => 1
    case _ => 0
  }

  /** Left to run on alone, with every answer given and something running, it starts the minute. */
  lemma {:induction false} RunsToStart(s: State, id: nat) returns (steps: seq<Step>)
    requires s.minute.None? && id in s.tasks
    requires WillRead(s.tasks[id]) || Starting(s.tasks[id]) || (s.on && MayRead(s.tasks[id]))
    ensures Closed(steps) && Run(s, steps, |steps|).minute.Some?
    decreases AwaitsLeft(s.tasks[id])
  {
    var step := Go(id, true, true);
    var rest: seq<Step> := [];
    if AwaitsLeft(s.tasks[id]) > 0 {
      rest := RunsToStart(Apply(s, step), id);
    }
    steps := [step] + rest;
    RunFrom(s, step, rest, |rest|);
  }

  /** The exact condition under which a session that ends with handlers in flight gets a timer
      again although nothing is pressed any more. */
  lemma {:induction false} SessionEndIsOutlivedExactly(s: State)
    requires OneTimer(s)
    ensures (exists steps :: Closed(steps) && Run(Apply(s, SessionEnd), steps, |steps|).live != {}) <==> CanStart(s)
  {
    var e := Apply(s, SessionEnd);
    MinuteKeepsTimer(s);
    assert e.tasks == s.tasks && e.on == s.on && e.minute.None?;
    if CanStart(s) {
      var steps := ReachesStart(e);
      RunKeepsTimer(e, steps, |steps|);
    } else {
      forall steps | Closed(steps)
        ensures Run(e, steps, |steps|).live == {}
      {
        StaysStopped(e, steps, |steps|);
      }
    }
  }

  lemma {:induction false} ReachesStart(s: State) returns (steps: seq<Step>)
    requires s.minute.None? && CanStart(s)
    ensures Closed(steps) && Run(s, steps, |steps|).minute.Some?
  {
    if SomeTask(s, WillRead) {
      var id :| id in s.tasks && WillRead(s.tasks[id]);
      steps := RunsToStart(s, id);
    } else {
      var id :| id in s.tasks && (Starting(s.tasks[id]) || (s.on && MayRead(s.tasks[id])));
      steps := RunsToStart(s, id);
    }
  }

  lemma {:induction false} RunKeepsTimer(s: State, steps: seq<Step>, n: nat)
    requires n <= |steps| && OneTimer(s)
    ensures OneTimer(Run(s, steps, n))
  {
    if n > 0 {
      RunKeepsTimer(s, steps, n - 1);
      StepKeepsTimer(Run(s, steps, n - 1), steps[n - 1]);
    }
  }

  lemma {:induction false} StepKeepsTimer(s: State, step: Step)
    requires OneTimer(s)
    ensures OneTimer(Apply(s, step))
  {
    MinuteKeepsTimer(s);
    match step
    case Go(id, answered, running) => if id in s.tasks { AdvanceKeepsTimer(s, id, answered, running); }
    case _ =>
  }

  lemma {:induction false} AdvanceKeepsTimer(s: State, id: nat, answered: bool, running: bool)
    requires OneTimer(s) && id in s.tasks
    ensures OneTimer(Advance(s, id, answered, running))
  {
    MinuteKeepsTimer(s);
    match s.tasks[id]
    case TickKnows(_) =>
    case ListStores(_, _) =>
    case Saves(_) =>
    case _ => SameTimer(s, id, answered, running);
  }

  lemma {:induction false} SameTimer(s: State, id: nat, answered: bool, running: bool)
    requires id in s.tasks && !s.tasks[id].TickKnows? && !s.tasks[id].ListStores? && !s.tasks[id].Saves?
    ensures var t := Advance(s, id, answered, running);
            t.minute == s.minute && t.live == s.live && t.next == s.next
  {
  }

  /** Reached from the start: a switch to the band whose store is in flight when the session
      ends goes on to read the list and starts the minute, so stopping on `session.end` does not
      by itself keep a closed session without a timer. */
  lemma {:induction false} SessionEndCanBeOutlived()
    ensures var steps := [Switch(0, ToBand), Go(0, true, true), SessionEnd, Go(0, true, true), Go(0, true, true),
                          Go(0, true, true), Go(0, true, true), Go(0, true, true), Go(0, true, true)];
            Run(START, steps, 3).live == {} && Run(START, steps, 9).live != {}
  {
    var steps := [Switch(0, ToBand), Go(0, true, true), SessionEnd, Go(0, true, true), Go(0, true, true),
                  Go(0, true, true), Go(0, true, true), Go(0, true, true), Go(0, true, true)];
    assert Run(START, steps, 1) == State(false, None, {}, 0, false, map[0 := Saves(ToBand)]);
    assert Run(START, steps, 2) == State(false, None, {}, 0, false, map[0 := StartStores]);
    assert Run(START, steps, 3) == State(false, None, {}, 0, false, map[0 := StartStores]);
    assert Run(START, steps, 4) == State(true, None, {}, 0, false, map[0 := Asks]);
    assert Run(START, steps, 5) == State(true, None, {}, 0, false, map[0 := ListAsked(false)]);
    assert Run(START, steps, 6) == State(true, None, {}, 0, false, map[0 := ListKnows(false, true)]);
    assert Run(START, steps, 7) == State(true, None, {}, 0, false, map[0 := ListReadsPane(false)]);
    assert Run(START, steps, 8) == State(true, None, {}, 0, false, map[0 := ListStores(false, true)]);
    assert 0 in Run(START, steps, 9).live;
  }
}
