/** The provisioning manager: its lock-atomic steps, the class that performs them, and what every
    interleaving keeps (pc/src/provision/manager.py).

    One worker thread, one user-interface thread and readiness polls. A step is what happens while the
    lock is held, or one queue or event operation; taking a command off the queue is one step with the
    locked section that follows, because nobody else takes commands. `stop()` is three steps, with its
    join before the last; the join is taken to succeed, and the user-interface thread makes no other call
    meanwhile. */
module Provision {
  import opened Bytes

  datatype Phase = Stopped | Idle | Startable | InProgress | WaitingSuccess | WaitingFail

  datatype Command = CommandStart | CommandFinish | CommandStop

  /** A finished run that nobody has settled yet. Runs are numbered in the order in which they start. */
  datatype Pending = Pending(run: nat, success: bool)

  /** Where the worker thread is: not alive, created but not yet in its loop, about to look at the stop
      event, waiting for a command, dispatching, or reporting a result. */
  datatype Worker = NoWorker | Beginning | Looping | Polling | Dispatching | Reporting(result: Pending)

  /** How a run ended: finalised by the worker, or dropped by `stop()`. */
  datatype Settled = Finalised(run: nat) | Discarded(run: nat)

  datatype Manager = Manager(
    phase: Phase, ready: bool, pending: Option<Pending>,
    queue: seq<Command>, worker: Worker, stopEvent: bool, stopping: bool,
    started: nat, settled: seq<Settled>)

  function Initial(): Manager {
    Manager(Stopped, false, None, [], NoWorker, false, false, 0, [])
  }

  predicate IsWaiting(p: Phase) {
    p == WaitingSuccess || p == WaitingFail
  }

  datatype Event =
    | EnsureWorker | ActivateUpdate | EnqueueStart | Finish | StopPut | StopSet | StopClear
    | Refresh(isReady: bool)
    | WorkerBegin | WorkerPoll | WorkerTake | WorkerEmpty | WorkerExit | RunEnds(success: bool) | ReportEnds

  /** `_update_idle_state_locked`. */
  function IdlePhase(ready: bool): Phase {
    if ready then Startable else Idle
  }

  predicate Enabled(m: Manager, e: Event) {
    match e
    case StopSet => m.stopping
    case StopClear => m.stopping && m.stopEvent && m.worker == NoWorker
    case Refresh(_) => true
    case WorkerBegin => m.worker == Beginning
    case WorkerPoll => m.worker == Looping && !m.stopEvent
    case WorkerTake => m.worker == Polling && m.queue != []
    case WorkerEmpty => m.worker == Polling && m.queue == []
    case WorkerExit => m.worker == Looping && m.stopEvent
    case RunEnds(_) => m.worker == Dispatching
    case ReportEnds => m.worker.Reporting?
    case _ => !m.stopping
  }

  /** What the worker does with the command it took off the queue. */
  function Take(m: Manager, c: Command): Manager {
    match c
    case CommandStart =>
      if m.phase != Startable then m.(worker := Looping)
      else m.(phase := InProgress, worker := Dispatching, started := m.started + 1)
    case CommandFinish =>
      if m.pending.None? then m.(worker := Looping) else m.(worker := Reporting(m.pending.value))
    case CommandStop => m.(worker := NoWorker)
  }

  function Next(m: Manager, e: Event): Manager {
    match e
    case EnsureWorker =>
      if m.worker != NoWorker then m else m.(stopEvent := false, worker := Beginning)
    case ActivateUpdate =>
      if m.phase in {Idle, Startable, Stopped} then m.(phase := IdlePhase(m.ready)) else m
    case EnqueueStart => m.(queue := m.queue + [CommandStart])
    case Finish =>
      if IsWaiting(m.phase) then m.(queue := m.queue + [CommandFinish]) else m
    case StopPut => m.(queue := m.queue + [CommandStop], stopping := true)
    case StopSet => m.(stopEvent := true)
    case StopClear =>
      m.(pending := None, phase := Stopped, stopping := false,
         settled := if m.pending.Some? then m.settled + [Discarded(m.pending.value.run)] else m.settled)
    case Refresh(isReady) =>
      m.(ready := isReady,
         phase := if isReady != m.ready && m.phase in {Idle, Startable} then IdlePhase(isReady) else m.phase)
    case WorkerBegin => m.(worker := Looping, phase := IdlePhase(m.ready))
    case WorkerPoll => m.(worker := Polling)
    case WorkerEmpty => m.(worker := Looping)
    case WorkerTake => if m.queue == [] then m else Take(m.(queue := m.queue[1..]), m.queue[0])
    case WorkerExit => m.(worker := NoWorker)
    case RunEnds(success) =>
      m.(pending := Some(Pending(if m.started > 0 then m.started - 1 else 0, success)), worker := Looping,
         phase := if success then WaitingSuccess else WaitingFail)
    case ReportEnds =>
      if m.worker.Reporting?
      then m.(pending := None, worker := Looping, phase := IdlePhase(m.ready),
              settled := m.settled + [Finalised(m.worker.result.run)])
      else m
  }

  // ---------------------------------------------------------------------------
  // What holds

  /** Every run started so far was settled, exactly once and in order, except the one that is still in
      progress or waiting to be finished. */
  predicate Conserved(m: Manager) {
    && (forall i :: 0 <= i < |m.settled| ==> m.settled[i].run == i)
    && m.started == |m.settled| + if m.phase == InProgress || IsWaiting(m.phase) then 1 else 0
  }

  /** A result is pending exactly while waiting, it is the latest run's, and the phase shows its
      outcome; idle and startable agree with the readiness; a run is in progress exactly while the
      worker dispatches. */
  predicate Coherent(m: Manager) {
    && (m.pending.Some? <==> IsWaiting(m.phase))
    && (m.pending.Some? ==>
          m.pending.value.run + 1 == m.started && m.pending.value.success == (m.phase == WaitingSuccess))
    && (m.phase == Startable ==> m.ready) && (m.phase == Idle ==> !m.ready)
    && (m.phase == InProgress <==> m.worker == Dispatching)
    && (m.worker.Reporting? ==> m.pending == Some(m.worker.result))
  }

  predicate Good(m: Manager) {
    Conserved(m) && Coherent(m)
  }

  /** The new worker's first act is to set the phase without looking at it. */
  predicate Overwrites(m: Manager, e: Event) {
    e == WorkerBegin && IsWaiting(m.phase)
  }

  /** A step keeps conservation and coherence if and only if it is not a worker that begins while a
      result waits. */
  lemma StepExact(m: Manager, e: Event)
    requires Good(m) && Enabled(m, e)
    ensures Good(Next(m, e)) <==> !Overwrites(m, e)
  {
  }

  predicate Run(m: Manager, events: seq<Event>)
    decreases events
  {
    events == [] || (Enabled(m, events[0]) && Run(Next(m, events[0]), events[1..]))
  }

  function After(m: Manager, events: seq<Event>): Manager
    decreases events
  {
    if events == [] then m else After(Next(m, events[0]), events[1..])
  }

  /** Every state of the run, from first to last. */
  predicate AlwaysGood(m: Manager, events: seq<Event>)
    decreases events
  {
    Good(m) && (events == [] || AlwaysGood(Next(m, events[0]), events[1..]))
  }

  predicate NeverOverwrites(m: Manager, events: seq<Event>)
    decreases events
  {
    events == [] || (!Overwrites(m, events[0]) && NeverOverwrites(Next(m, events[0]), events[1..]))
  }

  /** Over every interleaving: conservation and coherence hold all along if and only if no worker in it
      begins while a result waits. */
  lemma {:induction false} RunExact(m: Manager, events: seq<Event>)
    requires Good(m) && Run(m, events)
    ensures AlwaysGood(m, events) <==> NeverOverwrites(m, events)
    decreases events
  {
    hide Good, Next, Enabled, Overwrites;
    if events != [] {
      StepExact(m, events[0]);
      if Good(Next(m, events[0])) {
        RunExact(Next(m, events[0]), events[1..]);
      }
    }
  }

  // ---------------------------------------------------------------------------
  // Which call is to blame

  /** The unguarded call: the worker is gone while a result waits, and a new one is created. */
  predicate Unguarded(m: Manager, e: Event) {
    e == EnsureWorker && m.worker == NoWorker && IsWaiting(m.phase)
  }

  /** A created worker has not begun yet, and a result waits. */
  predicate Doomed(m: Manager) {
    m.worker == Beginning && IsWaiting(m.phase)
  }

  /** A step leads into such a state if and only if it is the unguarded call; and out of it only the
      worker's beginning leads. */
  lemma DoomedExact(m: Manager, e: Event)
    requires Good(m) && Enabled(m, e)
    ensures !Doomed(m) ==> (Doomed(Next(m, e)) <==> Unguarded(m, e))
    ensures Doomed(m) ==> (Doomed(Next(m, e)) <==> e != WorkerBegin)
    ensures Overwrites(m, e) <==> Doomed(m) && e == WorkerBegin
  {
  }

  /** After every unguarded call, whatever else happens: conservation and coherence hold on exactly until
      the new worker begins. */
  lemma {:induction false} UnguardedIsFatal(m: Manager, events: seq<Event>)
    requires Good(m) && Unguarded(m, EnsureWorker) && Run(m, [EnsureWorker] + events)
    ensures AlwaysGood(m, [EnsureWorker] + events) <==> WorkerBegin !in events
  {
    hide Good, Next, Enabled, Overwrites, Doomed, Unguarded;
    var all := [EnsureWorker] + events;
    assert all[0] == EnsureWorker && all[1..] == events;
    DoomedExact(m, EnsureWorker);
    StepExact(m, EnsureWorker);
    NotDoomedYet(m);
    DoomedRun(Next(m, EnsureWorker), events);
  }

  lemma NotDoomedYet(m: Manager)
    ensures Unguarded(m, EnsureWorker) ==> !Doomed(m)
    ensures Enabled(m, EnsureWorker) ==> !Overwrites(m, EnsureWorker)
  {
  }

  lemma {:induction false} DoomedRun(m: Manager, events: seq<Event>)
    requires Good(m) && Doomed(m) && Run(m, events)
    ensures AlwaysGood(m, events) <==> WorkerBegin !in events
    decreases events
  {
    hide Good, Next, Enabled, Overwrites, Doomed;
    if events != [] {
      assert events == [events[0]] + events[1..];
      StepExact(m, events[0]);
      DoomedExact(m, events[0]);
      if events[0] != WorkerBegin {
        DoomedRun(Next(m, events[0]), events[1..]);
      }
    }
  }

  /** What the invariant is for: readiness never disturbs a run or a waiting result, and no run starts
      before the previous one has been settled. */
  lemma ReadinessHarmless(m: Manager, isReady: bool)
    requires Good(m) && (m.phase == InProgress || IsWaiting(m.phase))
    ensures Next(m, Refresh(isReady)) == m.(ready := isReady)
  {
  }

  lemma NoOverlap(m: Manager, e: Event)
    requires Good(m) && Enabled(m, e) && Next(m, e).started != m.started
    ensures m.pending.None? && |m.settled| == m.started && Next(m, e).started == m.started + 1
  {
  }

  // ---------------------------------------------------------------------------
  // When the unguarded call cannot happen

  /** A worker is only ever created when no stop command is left over in the queue. */
  predicate CleanStart(m: Manager, e: Event) {
    e == EnsureWorker && m.worker == NoWorker ==> CommandStop !in m.queue
  }

  predicate CleanRun(m: Manager, events: seq<Event>)
    decreases events
  {
    events == [] || (CleanStart(m, events[0]) && CleanRun(Next(m, events[0]), events[1..]))
  }

  /** With clean starts, the worker leaves only when it is being stopped. */
  predicate Attended(m: Manager) {
    && (m.worker != NoWorker && !m.stopping ==> CommandStop !in m.queue && !m.stopEvent)
    && (m.worker == NoWorker && !m.stopping ==> m.phase in {Stopped, Idle, Startable})
    && !Doomed(m)
  }

  lemma CleanStep(m: Manager, e: Event)
    requires Good(m) && Attended(m) && Enabled(m, e) && CleanStart(m, e)
    ensures !Unguarded(m, e) && !Overwrites(m, e) && Attended(Next(m, e))
  {
    if e == WorkerTake {
      assert forall c :: c in m.queue[1..] ==> c in m.queue;
    }
  }

  /** So a manager whose workers start on a queue without leftovers keeps conservation and coherence over
      every interleaving. */
  lemma {:induction false} CleanRunSafe(m: Manager, events: seq<Event>)
    requires Good(m) && Attended(m) && Run(m, events) && CleanRun(m, events)
    ensures AlwaysGood(m, events)
    decreases events
  {
    hide Good, Next, Enabled, Overwrites, Attended, CleanStart;
    if events != [] {
      CleanStep(m, events[0]);
      StepExact(m, events[0]);
      CleanRunSafe(Next(m, events[0]), events[1..]);
    }
  }

  lemma InitialGood()
    ensures Good(Initial()) && Attended(Initial())
  {
  }

  /** From the start of the program: every interleaving keeps conservation and coherence all along if and
      only if no worker begins while a result waits; and none does if workers start on clean queues. */
  lemma FromTheStart(events: seq<Event>)
    requires Run(Initial(), events)
    ensures AlwaysGood(Initial(), events) <==> NeverOverwrites(Initial(), events)
    ensures CleanRun(Initial(), events) ==> AlwaysGood(Initial(), events)
  {
    hide Good, Run, NeverOverwrites, CleanRun, AlwaysGood, Attended;
    InitialGood();
    RunExact(Initial(), events);
    if CleanRun(Initial(), events) {
      CleanRunSafe(Initial(), events);
    }
  }

  // ---------------------------------------------------------------------------
  // When it does

  /** activate(), start() and stop() in quick succession: the worker sees the stop event before it looks
      at the queue, and both commands stay there. */
  const START_AND_STOP: seq<Event> :=
    [EnsureWorker, Refresh(true), ActivateUpdate, WorkerBegin, EnsureWorker, Refresh(true), EnqueueStart,
     StopPut, StopSet, WorkerExit, StopClear]

  /** activate() again: the next worker runs the first leftover and dies of the second, with its result
      waiting. */
  const NEXT_WORKER: seq<Event> :=
    [EnsureWorker, Refresh(true), ActivateUpdate, WorkerBegin, WorkerPoll, WorkerTake, RunEnds(true), WorkerPoll,
     WorkerTake]

  predicate Leads(m: Manager, events: seq<Event>, t: Manager) {
    Run(m, events) && AlwaysGood(m, events) && After(m, events) == t
  }

  lemma {:induction false} LeadsOn(m: Manager, events: seq<Event>, t: Manager, e: Event, u: Manager)
    requires Leads(m, events, t) && Enabled(t, e) && Next(t, e) == u && Good(u)
    ensures Leads(m, events + [e], u)
    decreases events
  {
    hide Next, Enabled, Good;
    if events == [] {
      assert [] + [e] == [e] && [e][1..] == [];
      assert Run(u, []) && AlwaysGood(u, []) && After(u, []) == u;
    } else {
      assert (events + [e])[0] == events[0] && (events + [e])[1..] == events[1..] + [e];
      LeadsOn(Next(m, events[0]), events[1..], t, e, u);
    }
  }

  lemma UnguardedIsReachable()
    ensures var m := After(Initial(), START_AND_STOP + NEXT_WORKER);
      && Run(Initial(), START_AND_STOP + NEXT_WORKER) && AlwaysGood(Initial(), START_AND_STOP + NEXT_WORKER)
      && Enabled(m, EnsureWorker) && Unguarded(m, EnsureWorker)
      && m.ready && m.queue == [] && !m.stopping
  {
    FirstWorker();
    hide Leads;
    var a := START_AND_STOP;
    var m10 := Manager(Stopped, true, None, [CommandStart, CommandStop], NoWorker, true, false, 0, []);
    var m11 := m10.(worker := Beginning, stopEvent := false);
    var m13 := m11.(phase := Startable);
    var m14 := m13.(worker := Looping);
    var m15 := Manager(InProgress, true, None, [CommandStop], Dispatching, false, false, 1, []);
    var m16 := Manager(WaitingSuccess, true, Some(Pending(0, true)), [CommandStop], Looping, false, false, 1, []);
    var m17 := m16.(queue := [], worker := NoWorker);
    LeadsOn(Initial(), a, m10, EnsureWorker, m11);
    LeadsOn(Initial(), a + [EnsureWorker], m11, Refresh(true), m11);
    LeadsOn(Initial(), a + [EnsureWorker] + [Refresh(true)], m11, ActivateUpdate, m13);
    LeadsOn(Initial(), a + [EnsureWorker] + [Refresh(true)] + [ActivateUpdate], m13, WorkerBegin, m14);
    var b := a + [EnsureWorker] + [Refresh(true)] + [ActivateUpdate] + [WorkerBegin];
    LeadsOn(Initial(), b, m14, WorkerPoll, m14.(worker := Polling));
    LeadsOn(Initial(), b + [WorkerPoll], m14.(worker := Polling), WorkerTake, m15);
    LeadsOn(Initial(), b + [WorkerPoll] + [WorkerTake], m15, RunEnds(true), m16);
    var d := b + [WorkerPoll] + [WorkerTake] + [RunEnds(true)];
    LeadsOn(Initial(), d, m16, WorkerPoll, m16.(worker := Polling));
    LeadsOn(Initial(), d + [WorkerPoll], m16.(worker := Polling), WorkerTake, m17);
    assert d + [WorkerPoll] + [WorkerTake] == START_AND_STOP + NEXT_WORKER;
    UseLeads(Initial(), START_AND_STOP + NEXT_WORKER, m17);
  }

  lemma LeadsNowhere(m: Manager)
    requires Good(m)
    ensures Leads(m, [], m)
  {
  }

  lemma UseLeads(m: Manager, events: seq<Event>, t: Manager)
    requires Leads(m, events, t)
    ensures Run(m, events) && AlwaysGood(m, events) && After(m, events) == t
  {
  }

  const START: seq<Event> :=
    [EnsureWorker, Refresh(true), ActivateUpdate, WorkerBegin, EnsureWorker, Refresh(true), EnqueueStart]

  lemma FirstStart()
    ensures Leads(Initial(), START, Manager(Startable, true, None, [CommandStart], Looping, false, false, 0, []))
  {
    hide Leads;
    var m0 := Initial();
    var m1 := m0.(worker := Beginning);
    var m2 := m1.(ready := true);
    var m3 := m2.(phase := Startable);
    var m4 := m3.(worker := Looping);
    LeadsNowhere(m0);
    LeadsOn(m0, [], m0, EnsureWorker, m1);
    LeadsOn(m0, [] + [EnsureWorker], m1, Refresh(true), m2);
    LeadsOn(m0, [] + [EnsureWorker] + [Refresh(true)], m2, ActivateUpdate, m3);
    LeadsOn(m0, [] + [EnsureWorker] + [Refresh(true)] + [ActivateUpdate], m3, WorkerBegin, m4);
    var a := [] + [EnsureWorker] + [Refresh(true)] + [ActivateUpdate] + [WorkerBegin];
    LeadsOn(m0, a, m4, EnsureWorker, m4);
    LeadsOn(m0, a + [EnsureWorker], m4, Refresh(true), m4);
    LeadsOn(m0, a + [EnsureWorker] + [Refresh(true)], m4, EnqueueStart, m4.(queue := [CommandStart]));
    assert a + [EnsureWorker] + [Refresh(true)] + [EnqueueStart] == START;
  }

  lemma FirstWorker()
    ensures Leads(Initial(), START_AND_STOP,
                  Manager(Stopped, true, None, [CommandStart, CommandStop], NoWorker, true, false, 0, []))
  {
    hide Leads;
    FirstStart();
    var m7 := Manager(Startable, true, None, [CommandStart], Looping, false, false, 0, []);
    var m8 := m7.(queue := [CommandStart, CommandStop], stopping := true);
    var m9 := m8.(stopEvent := true);
    var m10 := m9.(worker := NoWorker);
    LeadsOn(Initial(), START, m7, StopPut, m8);
    LeadsOn(Initial(), START + [StopPut], m8, StopSet, m9);
    LeadsOn(Initial(), START + [StopPut] + [StopSet], m9, WorkerExit, m10);
    LeadsOn(Initial(), START + [StopPut] + [StopSet] + [WorkerExit], m10, StopClear,
            m10.(phase := Stopped, stopping := false));
    assert START + [StopPut] + [StopSet] + [WorkerExit] + [StopClear] == START_AND_STOP;
  }

  /** From there, for every state in which the unguarded call happens with the station ready and nothing
      queued: the new worker shows the station as startable with the old result still pending, and the
      next run overwrites that result. Two runs are then unsettled and one of them is in nobody's
      hands. */
  lemma ResultLost(m: Manager, success: bool)
    requires Good(m) && Unguarded(m, EnsureWorker) && m.ready && m.queue == [] && !m.stopping
    ensures var events := [EnsureWorker, WorkerBegin, EnqueueStart, WorkerPoll, WorkerTake, RunEnds(success)];
      && Run(m, events)
      && var t := After(m, events);
      && t.started == |t.settled| + 2 && t.pending == Some(Pending(m.started, success))
      && t.settled == m.settled && Lost(t, m.pending.value.run)
    ensures var u := Next(Next(m, EnsureWorker), WorkerBegin);
      !Coherent(u) && u.phase == Startable && u.pending == m.pending
  {
    hide Run, After;
    var m1 := Next(m, EnsureWorker);
    var m2 := Next(m1, WorkerBegin);
    var m3 := Next(m2, EnqueueStart);
    var m4 := Next(m3, WorkerPoll);
    var m5 := Next(m4, WorkerTake);
    ReachesNowhere(m);
    ReachesOn(m, [], m, EnsureWorker);
    ReachesOn(m, [] + [EnsureWorker], m1, WorkerBegin);
    ReachesOn(m, [] + [EnsureWorker] + [WorkerBegin], m2, EnqueueStart);
    var a := [] + [EnsureWorker] + [WorkerBegin] + [EnqueueStart];
    ReachesOn(m, a, m3, WorkerPoll);
    ReachesOn(m, a + [WorkerPoll], m4, WorkerTake);
    ReachesOn(m, a + [WorkerPoll] + [WorkerTake], m5, RunEnds(success));
    assert a + [WorkerPoll] + [WorkerTake] + [RunEnds(success)]
        == [EnsureWorker, WorkerBegin, EnqueueStart, WorkerPoll, WorkerTake, RunEnds(success)];
  }

  /** The run is over, nobody holds its result, and it is not settled. */
  predicate Lost(m: Manager, run: nat) {
    && run + 1 < m.started
    && (m.pending.Some? ==> m.pending.value.run != run)
    && (m.worker.Reporting? ==> m.worker.result.run != run)
    && (forall i :: 0 <= i < |m.settled| ==> m.settled[i].run != run)
  }

  lemma LostStep(m: Manager, e: Event, run: nat)
    requires Lost(m, run) && Enabled(m, e)
    ensures Lost(Next(m, e), run)
  {
  }

  /** A lost result stays lost: no continuation, whatever is called, reports or discards that run. */
  lemma {:induction false} LostForever(m: Manager, events: seq<Event>, run: nat)
    requires Lost(m, run) && Run(m, events)
    ensures Lost(After(m, events), run)
    decreases events
  {
    hide Lost, Next, Enabled;
    if events != [] {
      LostStep(m, events[0], run);
      LostForever(Next(m, events[0]), events[1..], run);
    }
  }

  lemma ReachesNowhere(m: Manager)
    ensures Run(m, []) && After(m, []) == m
  {
  }

  lemma {:induction false} ReachesOn(m: Manager, events: seq<Event>, t: Manager, e: Event)
    requires Run(m, events) && After(m, events) == t && Enabled(t, e)
    ensures Run(m, events + [e]) && After(m, events + [e]) == Next(t, e)
    decreases events
  {
    hide Next, Enabled;
    if events == [] {
      assert [] + [e] == [e] && [e][1..] == [];
      ReachesNowhere(Next(t, e));
    } else {
      assert (events + [e])[0] == events[0] && (events + [e])[1..] == events[1..] + [e];
      ReachesOn(Next(m, events[0]), events[1..], t, e);
    }
  }

  // ---------------------------------------------------------------------------
  // What the calls get done

  lemma {:induction false} RunOn(m: Manager, a: seq<Event>, b: seq<Event>)
    requires Run(m, a) && Run(After(m, a), b)
    ensures Run(m, a + b) && After(m, a + b) == After(After(m, a), b)
    decreases a
  {
    hide Next, Enabled;
    if a == [] {
      assert a + b == b;
    } else {
      assert (a + b)[0] == a[0] && (a + b)[1..] == a[1..] + b;
      RunOn(Next(m, a[0]), a[1..], b);
    }
  }

  lemma OneStep(m: Manager, e: Event)
    requires Enabled(m, e)
    ensures Run(m, [e]) && After(m, [e]) == Next(m, e)
  {
    hide Next, Enabled;
    ReachesNowhere(Next(m, e));
    assert [e][1..] == [];
  }

  /** The worker is in its loop and nobody stops it. */
  predicate AtWork(m: Manager) {
    m.worker == Looping && !m.stopEvent && !m.stopping && CommandStop !in m.queue
  }

  /** A command on which the worker does nothing. */
  predicate Ignored(m: Manager, c: Command) {
    (c == CommandStart && m.phase != Startable) || (c == CommandFinish && m.pending.None?)
  }

  /** So many turns of the loop with a command each. */
  function Turns(n: nat): seq<Event> {
    if n == 0 then [] else [WorkerPoll, WorkerTake] + Turns(n - 1)
  }

  lemma OneTurn(m: Manager)
    requires m.worker == Looping && !m.stopEvent && m.queue != []
    ensures Run(m, [WorkerPoll, WorkerTake])
    ensures After(m, [WorkerPoll, WorkerTake]) == Take(m.(worker := Polling, queue := m.queue[1..]), m.queue[0])
  {
    hide Take;
    OneStep(m, WorkerPoll);
    OneStep(Next(m, WorkerPoll), WorkerTake);
    RunOn(m, [WorkerPoll], [WorkerTake]);
    assert [WorkerPoll] + [WorkerTake] == [WorkerPoll, WorkerTake];
  }

  /** The worker gets past the commands it ignores. */
  lemma {:induction false} TurnsSkip(m: Manager, n: nat)
    requires m.worker == Looping && !m.stopEvent && n <= |m.queue|
    requires forall i :: 0 <= i < n ==> Ignored(m, m.queue[i])
    ensures Run(m, Turns(n)) && After(m, Turns(n)) == m.(queue := m.queue[n..])
    decreases n
  {
    hide Run, After;
    if n == 0 {
      ReachesNowhere(m);
    } else {
      OneTurn(m);
      var t := m.(queue := m.queue[1..]);
      assert m.(worker := Polling, queue := m.queue[1..]).(worker := Looping) == t;
      assert forall i :: 0 <= i < n - 1 ==> t.queue[i] == m.queue[i + 1];
      TurnsSkip(t, n - 1);
      assert m.queue[1..][n - 1..] == m.queue[n..];
      RunOn(m, [WorkerPoll, WorkerTake], Turns(n - 1));
    }
  }

  predicate FirstAt(q: seq<Command>, c: Command, k: nat) {
    k < |q| && q[k] == c && forall i :: 0 <= i < k ==> q[i] != c
  }

  /** `finish()` while a result waits: the worker at work gets to the first finish command, reports this run,
      and settles it; then the station is idle or startable again. The commands in front are start commands,
      which do nothing, and those behind stay queued. */
  lemma FinishWorks(m: Manager, k: nat)
    requires Good(m) && IsWaiting(m.phase) && AtWork(m) && FirstAt(m.queue + [CommandFinish], CommandFinish, k)
    ensures var events := [Finish] + Turns(k) + [WorkerPoll, WorkerTake] + [ReportEnds];
      Run(m, events) && After(m, events) ==
        m.(pending := None, phase := IdlePhase(m.ready), settled := m.settled + [Finalised(m.pending.value.run)],
           queue := (m.queue + [CommandFinish])[k + 1..])
  {
    hide Run, After;
    var q := m.queue + [CommandFinish];
    var m1 := m.(queue := q);
    OneStep(m, Finish);
    forall i | 0 <= i < k ensures Ignored(m1, q[i]) {
      assert q[i] == m.queue[i] && m.queue[i] in m.queue;
    }
    TurnsSkip(m1, k);
    RunOn(m, [Finish], Turns(k));
    var m2 := m.(queue := q[k..]);
    OneTurn(m2);
    RunOn(m, [Finish] + Turns(k), [WorkerPoll, WorkerTake]);
    var m3 := m.(queue := q[k + 1..], worker := Reporting(m.pending.value));
    assert q[k..][1..] == q[k + 1..];
    OneStep(m3, ReportEnds);
    RunOn(m, [Finish] + Turns(k) + [WorkerPoll, WorkerTake], [ReportEnds]);
  }

  /** `start()` on a startable station: the worker at work gets to the first start command and begins a run,
      past finish commands, which do nothing. */
  lemma StartWorks(m: Manager, k: nat)
    requires Good(m) && m.phase == Startable && AtWork(m) && FirstAt(m.queue + [CommandStart], CommandStart, k)
    ensures var events := [EnqueueStart] + Turns(k) + [WorkerPoll, WorkerTake];
      Run(m, events) && After(m, events) ==
        m.(phase := InProgress, worker := Dispatching, started := m.started + 1,
           queue := (m.queue + [CommandStart])[k + 1..])
  {
    hide Run, After;
    var q := m.queue + [CommandStart];
    var m1 := m.(queue := q);
    OneStep(m, EnqueueStart);
    forall i | 0 <= i < k ensures Ignored(m1, q[i]) {
      assert q[i] == m.queue[i] && m.queue[i] in m.queue;
    }
    TurnsSkip(m1, k);
    RunOn(m, [EnqueueStart], Turns(k));
    OneTurn(m.(queue := q[k..]));
    RunOn(m, [EnqueueStart] + Turns(k), [WorkerPoll, WorkerTake]);
    assert q[k..][1..] == q[k + 1..];
  }

  /** The end of a run: its result, with its outcome, waits. */
  lemma RunWaits(m: Manager, success: bool)
    requires Good(m) && m.phase == InProgress
    ensures Enabled(m, RunEnds(success))
    ensures Next(m, RunEnds(success)) ==
      m.(phase := if success then WaitingSuccess else WaitingFail, worker := Looping,
         pending := Some(Pending(m.started - 1, success)))
  {
  }

  /** `activate()`: a worker is there, the readiness is known, and the phase follows it unless a run is in
      progress or a result waits. */
  lemma ActivateWorks(m: Manager, isReady: bool)
    requires Good(m) && !m.stopping
    ensures var events := [EnsureWorker, Refresh(isReady), ActivateUpdate];
      Run(m, events) && After(m, events) ==
        m.(worker := if m.worker == NoWorker then Beginning else m.worker,
           stopEvent := m.worker != NoWorker && m.stopEvent, ready := isReady,
           phase := if m.phase == InProgress || IsWaiting(m.phase) then m.phase else IdlePhase(isReady))
  {
    hide Run, After;
    var m1 := Next(m, EnsureWorker);
    var m2 := Next(m1, Refresh(isReady));
    OneStep(m, EnsureWorker);
    OneStep(m1, Refresh(isReady));
    RunOn(m, [EnsureWorker], [Refresh(isReady)]);
    OneStep(m2, ActivateUpdate);
    RunOn(m, [EnsureWorker] + [Refresh(isReady)], [ActivateUpdate]);
    assert [EnsureWorker] + [Refresh(isReady)] + [ActivateUpdate] == [EnsureWorker, Refresh(isReady), ActivateUpdate];
  }

  /** What a readiness poll changes. */
  lemma RefreshExact(m: Manager, isReady: bool)
    requires Good(m)
    ensures Enabled(m, Refresh(isReady))
    ensures Next(m, Refresh(isReady)) ==
      m.(ready := isReady, phase := if m.phase == Idle || m.phase == Startable then IdlePhase(isReady) else m.phase)
  {
  }

  /** A turn of the worker's loop that finds no command: it looks at the readiness and is where it was. */
  lemma EmptyTurn(m: Manager, isReady: bool)
    requires Good(m) && AtWork(m) && m.queue == []
    ensures var events := [WorkerPoll, WorkerEmpty] + [Refresh(isReady)];
      Run(m, events) && After(m, events) ==
        m.(ready := isReady, phase := if m.phase == Idle || m.phase == Startable then IdlePhase(isReady) else m.phase)
  {
    hide Run, After;
    OneStep(m, WorkerPoll);
    OneStep(m.(worker := Polling), WorkerEmpty);
    RunOn(m, [WorkerPoll], [WorkerEmpty]);
    assert [WorkerPoll] + [WorkerEmpty] == [WorkerPoll, WorkerEmpty];
    RefreshExact(m, isReady);
    OneStep(m, Refresh(isReady));
    RunOn(m, [WorkerPoll, WorkerEmpty], [Refresh(isReady)]);
  }

  /** Without a look at the readiness a fresh station is idle. */
  lemma FreshIsIdle()
    ensures var events := [EnsureWorker] + [WorkerBegin];
      Run(Initial(), events) && After(Initial(), events).phase == Idle
  {
    hide Run, After;
    OneStep(Initial(), EnsureWorker);
    OneStep(Initial().(worker := Beginning), WorkerBegin);
    RunOn(Initial(), [EnsureWorker], [WorkerBegin]);
  }

  /** How the worker leaves once the stop event is set, wherever it is. */
  function Quit(m: Manager): seq<Event> {
    match m.worker
    case NoWorker => []
    case Beginning => [WorkerBegin, WorkerExit]
    case Looping => [WorkerExit]
    case Dispatching => [RunEnds(true), WorkerExit]
    case Reporting(_) => [ReportEnds, WorkerExit]
    case Polling => if m.queue == [] then [] else [WorkerTake] + AfterTake(m, m.queue[0])
  }

  function AfterTake(m: Manager, c: Command): seq<Event> {
    match c
    case CommandStart => if m.phase == Startable then [RunEnds(true), WorkerExit] else [WorkerExit]
    case CommandFinish => if m.pending.Some? then [ReportEnds, WorkerExit] else [WorkerExit]
    case CommandStop => []
  }

  /** `stop()` gets through from everywhere but the doomed state: the worker can always leave, and then the
      station is stopped with every run settled, a waiting result by being discarded. */
  lemma StopWorks(m: Manager)
    requires Good(m) && !m.stopping && !Doomed(m)
    ensures var m2 := m.(queue := m.queue + [CommandStop], stopping := true, stopEvent := true);
      var events := [StopPut] + [StopSet] + Quit(m2) + [StopClear];
      && Run(m, events)
      && var t := After(m, events);
      && Good(t) && t.phase == Stopped && t.worker == NoWorker && t.pending.None? && !t.stopping
      && t.ready == m.ready && m.settled <= t.settled && |t.settled| == t.started
  {
    hide Run, After, Quit;
    var m1 := Next(m, StopPut);
    var m2 := Next(m1, StopSet);
    OneStep(m, StopPut);
    OneStep(m1, StopSet);
    RunOn(m, [StopPut], [StopSet]);
    StepExact(m, StopPut);
    StepExact(m1, StopSet);
    QuitWorks(m2);
    RunOn(m, [StopPut] + [StopSet], Quit(m2));
    var m3 := After(m2, Quit(m2));
    OneStep(m3, StopClear);
    StepExact(m3, StopClear);
    RunOn(m, [StopPut] + [StopSet] + Quit(m2), [StopClear]);
  }

  predicate Quits(m: Manager, events: seq<Event>) {
    && Run(m, events)
    && var t := After(m, events);
    && Good(t) && t.worker == NoWorker && t.stopping && t.stopEvent && t.ready == m.ready && m.settled <= t.settled
  }

  lemma QuitWorks(m: Manager)
    requires Good(m) && !Doomed(m) && m.stopping && m.stopEvent && m.queue != []
    ensures Quits(m, Quit(m))
  {
    hide Run, After, Quits;
    match m.worker {
      case NoWorker => QuitsNow(m);
      case Beginning => QuitsAfter(m, WorkerBegin);
      case Looping => QuitsLoop(m);
      case Dispatching => QuitsAfter(m, RunEnds(true));
      case Reporting(_) => QuitsAfter(m, ReportEnds);
      case Polling =>
        var t := Next(m, WorkerTake);
        StepExact(m, WorkerTake);
        match m.queue[0] {
          case CommandStart => if m.phase == Startable { QuitsAfter(t, RunEnds(true)); } else { QuitsLoop(t); }
          case CommandFinish => if m.pending.Some? { QuitsAfter(t, ReportEnds); } else { QuitsLoop(t); }
          case CommandStop => QuitsNow(t);
        }
        QuitsBefore(m, WorkerTake, AfterTake(m, m.queue[0]));
    }
  }

  /** If the worker is in its loop, `stop()` discards what waits and changes nothing else that is settled. */
  lemma StopDiscards(m: Manager)
    requires Good(m) && m.worker == Looping && !m.stopping
    ensures var events := [StopPut] + [StopSet] + [WorkerExit] + [StopClear];
      Run(m, events) && After(m, events) ==
        m.(phase := Stopped, worker := NoWorker, pending := None, queue := m.queue + [CommandStop], stopEvent := true,
           settled := m.settled + if m.pending.Some? then [Discarded(m.pending.value.run)] else [])
  {
    hide Run, After;
    var m1 := m.(queue := m.queue + [CommandStop], stopping := true);
    var m2 := m1.(stopEvent := true);
    var m3 := m2.(worker := NoWorker);
    OneStep(m, StopPut);
    OneStep(m1, StopSet);
    RunOn(m, [StopPut], [StopSet]);
    OneStep(m2, WorkerExit);
    RunOn(m, [StopPut] + [StopSet], [WorkerExit]);
    OneStep(m3, StopClear);
    RunOn(m, [StopPut] + [StopSet] + [WorkerExit], [StopClear]);
  }

  lemma QuitsNow(m: Manager)
    requires Good(m) && m.worker == NoWorker && m.stopping && m.stopEvent
    ensures Quits(m, [])
  {
    ReachesNowhere(m);
  }

  lemma QuitsLoop(m: Manager)
    requires Good(m) && m.worker == Looping && m.stopping && m.stopEvent
    ensures Quits(m, [WorkerExit])
  {
    hide Run, After;
    OneStep(m, WorkerExit);
    StepExact(m, WorkerExit);
  }

  lemma QuitsBefore(m: Manager, e: Event, events: seq<Event>)
    requires Enabled(m, e) && Quits(Next(m, e), events)
    requires Next(m, e).ready == m.ready && m.settled <= Next(m, e).settled
    ensures Quits(m, [e] + events)
  {
    hide Enabled, Next, Good;
    assert ([e] + events)[0] == e && ([e] + events)[1..] == events;
  }

  lemma QuitsAfter(m: Manager, e: Event)
    requires Good(m) && m.stopping && m.stopEvent && !Doomed(m) && Enabled(m, e)
    requires e in {WorkerBegin, RunEnds(true), ReportEnds}
    ensures Quits(m, [e, WorkerExit])
  {
    hide Quits;
    StepExact(m, e);
    QuitsLoop(Next(m, e));
    QuitsBefore(m, e, [WorkerExit]);
    assert [e] + [WorkerExit] == [e, WorkerExit];
  }

  /** One run from the start command to its settlement. */
  function Cycle(success: bool): seq<Event> {
    [EnqueueStart] + Turns(0) + [WorkerPoll, WorkerTake] + [RunEnds(success)]
    + ([Finish] + Turns(0) + [WorkerPoll, WorkerTake] + [ReportEnds])
  }

  function Cycles(outcomes: seq<bool>): seq<Event> {
    if outcomes == [] then [] else Cycle(outcomes[0]) + Cycles(outcomes[1..])
  }

  /** The runs of these numbers, finalised in order. */
  function FinalisedFrom(first: nat, n: nat): (r: seq<Settled>)
    ensures |r| == n && forall i :: 0 <= i < n ==> r[i] == Finalised(first + i)
  {
    seq(n, i requires 0 <= i < n => Finalised(first + i))
  }

  lemma OneCycle(m: Manager, success: bool)
    requires Good(m) && m.phase == Startable && AtWork(m) && m.queue == []
    ensures Run(m, Cycle(success))
    ensures After(m, Cycle(success)) == m.(started := m.started + 1, settled := m.settled + [Finalised(m.started)])
  {
    hide Run, After, Turns;
    StartWorks(m, 0);
    var begin, end := [EnqueueStart] + Turns(0) + [WorkerPoll, WorkerTake],
                      [Finish] + Turns(0) + [WorkerPoll, WorkerTake] + [ReportEnds];
    var m1 := m.(phase := InProgress, worker := Dispatching, started := m.started + 1);
    assert ([] + [CommandStart])[1..] == [] && After(m, begin) == m1;
    RunWaits(m1, success);
    OneStep(m1, RunEnds(success));
    RunOn(m, begin, [RunEnds(success)]);
    var m2 := Next(m1, RunEnds(success));
    FinishWorks(m2, 0);
    assert ([] + [CommandFinish])[1..] == [];
    RunOn(m, begin + [RunEnds(success)], end);
  }

  /** Any number of runs, whatever their outcomes, can be made one after the other, and each is settled by being
      finalised, in order. */
  lemma {:induction false} CyclesWork(m: Manager, outcomes: seq<bool>)
    requires Good(m) && m.phase == Startable && AtWork(m) && m.queue == []
    ensures Run(m, Cycles(outcomes))
    ensures After(m, Cycles(outcomes)) ==
      m.(started := m.started + |outcomes|, settled := m.settled + FinalisedFrom(m.started, |outcomes|))
    decreases outcomes
  {
    hide Run, After, Cycle;
    if outcomes == [] {
      ReachesNowhere(m);
      assert m.settled + FinalisedFrom(m.started, 0) == m.settled;
    } else {
      OneCycle(m, outcomes[0]);
      var t := m.(started := m.started + 1, settled := m.settled + [Finalised(m.started)]);
      CyclesWork(t, outcomes[1..]);
      RunOn(m, Cycle(outcomes[0]), Cycles(outcomes[1..]));
      assert m.settled + [Finalised(m.started)] + FinalisedFrom(m.started + 1, |outcomes| - 1)
          == m.settled + FinalisedFrom(m.started, |outcomes|);
    }
  }

  /** From a fresh manager: once a ready station is activated, any number of runs. */
  lemma WholeLife(outcomes: seq<bool>)
    ensures var events := [EnsureWorker, Refresh(true), ActivateUpdate] + [WorkerBegin] + Cycles(outcomes);
      && Run(Initial(), events)
      && var t := After(Initial(), events);
      && t.started == |outcomes| && t.settled == FinalisedFrom(0, |outcomes|) && t.phase == Startable && t.pending.None?
  {
    hide Run, After, Cycles;
    InitialGood();
    ActivateWorks(Initial(), true);
    var begin := [EnsureWorker, Refresh(true), ActivateUpdate];
    var m := After(Initial(), begin);
    OneStep(m, WorkerBegin);
    RunOn(Initial(), begin, [WorkerBegin]);
    var t := m.(worker := Looping, phase := Startable);
    CyclesWork(t, outcomes);
    RunOn(Initial(), begin + [WorkerBegin], Cycles(outcomes));
    assert [] + FinalisedFrom(0, |outcomes|) == FinalisedFrom(0, |outcomes|);
  }

  // ---------------------------------------------------------------------------
  // The class

  class ProvisionManager {
    var phase: Phase
    var dispatcherReady: bool
    var pending: Option<Pending>
    var commandQueue: seq<Command>
    var worker: Worker
    var stopEvent: bool
    var stopping: bool
    var started: nat
    var settled: seq<Settled>

    ghost function View(): Manager
      reads this
    {
      Manager(phase, dispatcherReady, pending, commandQueue, worker, stopEvent, stopping, started, settled)
    }

    constructor ()
      ensures View() == Initial()
    {
      phase, dispatcherReady, pending, commandQueue := Stopped, false, None, [];
      worker, stopEvent, stopping, started, settled := NoWorker, false, false, 0, [];
    }

    /** `_ensure_worker_started`. */
    method EnsureWorkerStarted()
      modifies this
      ensures View() == Next(old(View()), EnsureWorker)
    {
      if worker != NoWorker {
        return;
      }
      stopEvent := false;
      worker := Beginning;
    }

    method UpdateIdleState()
      modifies this
      ensures View() == old(View()).(phase := IdlePhase(old(dispatcherReady)))
    {
      phase := if dispatcherReady then Startable else Idle;
    }

    /** `_refresh_dispatcher_ready`; the readiness was determined outside the lock. */
    method RefreshDispatcherReady(isReady: bool) returns (changed: bool)
      modifies this
      ensures View() == Next(old(View()), Refresh(isReady)) && changed == (isReady != old(dispatcherReady))
    {
      changed := isReady != dispatcherReady;
      dispatcherReady := isReady;
      if changed && phase in {Idle, Startable} {
        UpdateIdleState();
      }
    }

    /** `activate`, run to its end without interference. */
    method Activate(isReady: bool)
      modifies this
      ensures View() == After(old(View()), [EnsureWorker, Refresh(isReady), ActivateUpdate])
    {
      ghost var m := View();
      EnsureWorkerStarted();
      var changed := RefreshDispatcherReady(isReady);
      if phase in {Idle, Startable, Stopped} {
        UpdateIdleState();
      }
      AfterThree(m, EnsureWorker, Refresh(isReady), ActivateUpdate);
    }

    /** `start`, run to its end without interference. */
    method Start(isReady: bool)
      modifies this
      ensures var m := After(old(View()), [EnsureWorker, Refresh(isReady)]);
        View() == if isReady != old(dispatcherReady) || m.phase == Startable then Next(m, EnqueueStart) else m
    {
      ghost var m := View();
      EnsureWorkerStarted();
      var changed := RefreshDispatcherReady(isReady);
      AfterTwo(m, EnsureWorker, Refresh(isReady));
      if changed || phase == Startable {
        commandQueue := commandQueue + [CommandStart];
      }
    }

    method FinishRun()
      modifies this
      ensures View() == Next(old(View()), Finish)
    {
      if phase in {WaitingSuccess, WaitingFail} {
        commandQueue := commandQueue + [CommandFinish];
      }
    }

    /** The part of `stop` before its join, run without interference. */
    method SignalStop()
      modifies this
      ensures View() == After(old(View()), [StopPut, StopSet])
    {
      ghost var m := View();
      commandQueue := commandQueue + [CommandStop];
      stopping := true;
      stopEvent := true;
      AfterTwo(m, StopPut, StopSet);
    }

    /** The part of `stop` after its join. */
    method ClearAfterStop()
      requires Enabled(View(), StopClear)
      modifies this
      ensures View() == Next(old(View()), StopClear)
    {
      if pending.Some? {
        settled := settled + [Discarded(pending.value.run)];
      }
      pending, phase, stopping := None, Stopped, false;
    }

    /** The head of `_worker_main`. */
    method BeginWorker()
      requires Enabled(View(), WorkerBegin)
      modifies this
      ensures View() == Next(old(View()), WorkerBegin)
    {
      UpdateIdleState();
      worker := Looping;
    }

    /** The condition of the worker's loop. */
    method WorkerCheck() returns (ghost e: Event)
      requires worker == Looping
      modifies this
      ensures e == if old(stopEvent) then WorkerExit else WorkerPoll
      ensures Enabled(old(View()), e) && View() == Next(old(View()), e)
    {
      if stopEvent {
        worker := NoWorker;
        return WorkerExit;
      }
      worker := Polling;
      e := WorkerPoll;
    }

    /** The body of the worker's loop, up to where it lets go of the lock: the next command, or, if there
        is none, a look at the readiness. */
    method WorkerTurn(isReady: bool)
      requires worker == Polling
      modifies this
      ensures old(commandQueue) == [] ==>
        Enabled(old(View()), WorkerEmpty) && View() == After(old(View()), [WorkerEmpty, Refresh(isReady)])
      ensures old(commandQueue) != [] ==>
        Enabled(old(View()), WorkerTake) && View() == Next(old(View()), WorkerTake)
    {
      ghost var m := View();
      if commandQueue == [] {
        worker := Looping;
        var changed := RefreshDispatcherReady(isReady);
        AfterTwo(m, WorkerEmpty, Refresh(isReady));
        return;
      }
      var command := commandQueue[0];
      commandQueue := commandQueue[1..];
      worker := Looping;
      match command {
        case CommandStart =>
          if phase == Startable {
            phase, worker, started := InProgress, Dispatching, started + 1;
          }
        case CommandFinish =>
          if pending.Some? {
            worker := Reporting(pending.value);
          }
        case CommandStop =>
          worker := NoWorker;
      }
    }

    /** `_store_result`. */
    method StoreResult(success: bool)
      requires Enabled(View(), RunEnds(success)) && started > 0
      modifies this
      ensures View() == Next(old(View()), RunEnds(success))
    {
      pending := Some(Pending(started - 1, success));
      phase := if success then WaitingSuccess else WaitingFail;
      worker := Looping;
    }

    /** The end of `_run_finalization`. */
    method FinishReport()
      requires Enabled(View(), ReportEnds)
      modifies this
      ensures View() == Next(old(View()), ReportEnds)
    {
      settled := settled + [Finalised(worker.result.run)];
      pending := None;
      UpdateIdleState();
      worker := Looping;
    }
  }

  lemma AfterTwo(m: Manager, a: Event, b: Event)
    ensures After(m, [a, b]) == Next(Next(m, a), b)
  {
    assert [a, b][1..] == [b] && [b][1..] == [];
    assert After(Next(m, a), [b]) == After(Next(Next(m, a), b), []);
  }

  lemma AfterThree(m: Manager, a: Event, b: Event, c: Event)
    ensures After(m, [a, b, c]) == Next(Next(Next(m, a), b), c)
  {
    assert [a, b, c][1..] == [b, c];
    AfterTwo(Next(m, a), b, c);
  }
}
