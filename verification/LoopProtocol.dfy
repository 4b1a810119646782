/** The task queue and wakeup protocol of an event loop (Reactor/EventLoop.cpp): any number of threads
    push tasks, one thread polls and runs them. Pushing a task and writing to the eventfd are separate
    steps, and any thread's step may come between any two steps of another. */
module LoopProtocol {

  type Task = nat
  type Thread = nat
  const LOOP: Thread := 0  // the thread that created the loop

  /** The largest count an eventfd holds; writing to a full one fails and leaves it full. */
  const COUNTER_MAX := 0xFFFF_FFFF_FFFF_FFFE

  /** Where the loop thread is: outside `loop()`, testing `quit_`, inside `poll`, in the event handlers
      (with the wakeup channel's still to come, or not), or calling functors, `next` being the first not
      yet called. */
  datatype Phase = Outside | AtTop | AtPoll | Handling(wakeup: bool) | Calling(next: nat)

  /** `waking` holds the threads that have pushed, or asked to quit, and not yet written to the eventfd;
      `submitted` and `executed` record the tasks pushed and called. */
  datatype Loop = Loop(
    phase: Phase, iteration: nat, quit: bool, pending: seq<Task>, batch: seq<Task>,
    counter: nat, waking: set<Thread>, submitted: seq<Task>, executed: seq<Task>)

  datatype Event =
    | Push(thread: Thread, task: Task)  // the locked part of queueInLoop, and its test
    | Wake(thread: Thread)              // wakeup
    | Quit(thread: Thread)              // quit, up to its wakeup
    | Enter                             // loop, up to its first test
    | TestQuit
    | PollReturns(wakeup: bool)
    | HandleWakeup                      // handleRead
    | SwapFunctors                      // doPendingFunctors, its locked part
    | CallNext
    | EndCalls

  predicate InIteration(s: Loop) {
    s.phase.Handling? || s.phase.Calling?
  }

  predicate RunsUserCode(s: Loop) {
    InIteration(s) || s.phase.Outside?
  }

  predicate Enabled(s: Loop, ev: Event) {
    match ev
    case Push(thread, _) => thread !in s.waking && (thread == LOOP ==> RunsUserCode(s))
    case Wake(thread) => thread in s.waking
    case Quit(thread) => thread !in s.waking && (thread == LOOP ==> RunsUserCode(s))
    case Enter => s.phase.Outside? && LOOP !in s.waking
    case TestQuit => s.phase.AtTop? && LOOP !in s.waking
    case PollReturns(wakeup) => s.phase.AtPoll? && LOOP !in s.waking && (wakeup ==> s.counter > 0)
    case HandleWakeup => s.phase == Handling(true) && LOOP !in s.waking
    case SwapFunctors => s.phase == Handling(false) && LOOP !in s.waking
    case CallNext => s.phase.Calling? && s.phase.next < |s.batch| && LOOP !in s.waking
    case EndCalls => s.phase.Calling? && s.phase.next == |s.batch| && LOOP !in s.waking
  }

  function Step(s: Loop, ev: Event): Loop {
    match ev
    case Push(thread, task) =>
      s.(pending := s.pending + [task], submitted := s.submitted + [task],
         waking := if thread != LOOP || s.phase.Calling? then s.waking + {thread} else s.waking)
    case Wake(thread) =>
      s.(counter := if s.counter < COUNTER_MAX then s.counter + 1 else s.counter,
         waking := s.waking - {thread})
    case Quit(thread) =>
      s.(quit := true, waking := if thread != LOOP then s.waking + {thread} else s.waking)
    case Enter => s.(phase := AtTop, quit := false)
    case TestQuit => s.(phase := if s.quit then Outside else AtPoll)
    case PollReturns(wakeup) => s.(phase := Handling(wakeup), iteration := s.iteration + 1)
    case HandleWakeup => s.(phase := Handling(false), counter := 0)
    case SwapFunctors => s.(phase := Calling(0), batch := s.pending, pending := [])
    case CallNext =>
      if s.phase.Calling? && s.phase.next < |s.batch| then
        s.(phase := Calling(s.phase.next + 1), executed := s.executed + [s.batch[s.phase.next]])
      else s
    case EndCalls => s.(phase := AtTop, batch := [])
  }

  predicate Legal(s: Loop, evs: seq<Event>)
    decreases |evs|
  {
    evs == [] || (Enabled(s, evs[0]) && Legal(Step(s, evs[0]), evs[1..]))
  }

  function Run(s: Loop, evs: seq<Event>): Loop
    decreases |evs|
  {
    if evs == [] then s else Run(Step(s, evs[0]), evs[1..])
  }

  const CREATED := Loop(Outside, 0, false, [], [], 0, {}, [], [])

  // ------------------------------------------------------------------ invariants

  /** The functors of the current batch that are still to be called. */
  function Uncalled(s: Loop): seq<Task> {
    if s.phase.Calling? && s.phase.next <= |s.batch| then s.batch[s.phase.next..] else []
  }

  predicate QueueIsFifo(s: Loop) {
    && s.submitted == s.executed + Uncalled(s) + s.pending
    && (s.phase.Calling? ==> s.phase.next <= |s.batch|)
    && (!s.phase.Calling? ==> s.batch == [])
  }

  /** Someone has written to the eventfd since it was read, or is about to. */
  predicate WakeupComing(s: Loop) {
    s.counter > 0 || s.waking != {}
  }

  predicate NoLostWakeup(s: Loop) {
    && (!s.phase.Handling? && !s.phase.Outside? && s.pending != [] ==> WakeupComing(s))
    && (s.phase.AtPoll? && s.quit ==> WakeupComing(s))
    && (LOOP in s.waking ==> s.phase.Calling?)
  }

  /** What the first `poll` relies on: nothing is queued, or it will be woken. */
  predicate Announced(s: Loop) {
    s.pending == [] || WakeupComing(s)
  }

  /** `loop()` is only entered in such a state. */
  predicate CleanEntries(s: Loop, evs: seq<Event>)
    decreases |evs|
  {
    evs == [] || ((evs[0].Enter? ==> Announced(s)) && CleanEntries(Step(s, evs[0]), evs[1..]))
  }

  predicate Inv(s: Loop) {
    QueueIsFifo(s) && NoLostWakeup(s)
  }

  lemma StepKeepsFifo(s: Loop, ev: Event)
    requires QueueIsFifo(s) && Enabled(s, ev)
    ensures QueueIsFifo(Step(s, ev))
  {
  }

  lemma StepKeepsWakeup(s: Loop, ev: Event)
    requires NoLostWakeup(s) && Enabled(s, ev) && (ev.Enter? ==> Announced(s))
    ensures NoLostWakeup(Step(s, ev))
  {
    var t := Step(s, ev);
    match ev
    case Push(thread, _) => assert t.phase.Handling? || t.phase.Outside? || thread in t.waking;
    case Quit(thread) => assert t.phase.AtPoll? ==> thread in t.waking;
    case Wake(_) => assert t.counter > 0;
    case _ =>
  }

  lemma {:induction false} RunKeepsFifo(s: Loop, evs: seq<Event>)
    requires QueueIsFifo(s) && Legal(s, evs)
    ensures QueueIsFifo(Run(s, evs))
    decreases |evs|
  {
    if evs != [] {
      StepKeepsFifo(s, evs[0]);
      RunKeepsFifo(Step(s, evs[0]), evs[1..]);
    }
  }

  lemma {:induction false} RunKeepsInv(s: Loop, evs: seq<Event>)
    requires Inv(s) && Legal(s, evs) && CleanEntries(s, evs)
    ensures Inv(Run(s, evs))
    decreases |evs|
  {
    if evs != [] {
      StepKeepsFifo(s, evs[0]);
      StepKeepsWakeup(s, evs[0]);
      RunKeepsInv(Step(s, evs[0]), evs[1..]);
    }
  }

  // ---------------------------------------------------------------- main results

  /** The loop sleeps in `poll` although there is work, and nobody will wake it. */
  predicate Asleep(s: Loop) {
    s.phase.AtPoll? && (s.pending != [] || s.quit) && s.counter == 0 && s.waking <= {LOOP}
  }

  /** The loop's own thread queues nothing while it is outside `loop()`. */
  predicate PushesInside(s: Loop, evs: seq<Event>)
    decreases |evs|
  {
    evs == [] || ((evs[0].Push? && evs[0].thread == LOOP ==> !s.phase.Outside?)
                  && PushesInside(Step(s, evs[0]), evs[1..]))
  }

  /** Then everything queued is always announced: other threads announce what they queue. */
  lemma {:induction false} OthersAnnounce(s: Loop, evs: seq<Event>)
    requires NoLostWakeup(s) && (s.phase.Outside? ==> Announced(s)) && Legal(s, evs) && PushesInside(s, evs)
    ensures CleanEntries(s, evs)
    ensures Run(s, evs).phase.Outside? ==> Announced(Run(s, evs))
    decreases |evs|
  {
    if evs != [] {
      StepKeepsWakeup(s, evs[0]);
      StepKeepsAnnounced(s, evs[0]);
      OthersAnnounce(Step(s, evs[0]), evs[1..]);
    }
  }

  lemma StepKeepsAnnounced(s: Loop, ev: Event)
    requires NoLostWakeup(s) && (s.phase.Outside? ==> Announced(s)) && Enabled(s, ev)
    requires ev.Push? && ev.thread == LOOP ==> !s.phase.Outside?
    ensures var t := Step(s, ev); t.phase.Outside? ==> Announced(t)
  {
    var t := Step(s, ev);
    match ev
    case Push(thread, _) => assert t.phase.Outside? ==> thread in t.waking;
    case Quit(thread) => assert s.waking <= t.waking;
    case Wake(_) => assert t.counter > 0;
    case _ =>
  }

  /** In every interleaving, `loop()` being entered any number of times, tasks are called exactly once and
      in the order they were pushed. The loop never sleeps on work if its own thread queues nothing while
      outside `loop()`, or if at least what was queued at each entry had been announced. */
  lemma EveryInterleaving(evs: seq<Event>)
    requires Legal(CREATED, evs)
    ensures var s := Run(CREATED, evs);
            && s.submitted == s.executed + Uncalled(s) + s.pending
            && (PushesInside(CREATED, evs) || CleanEntries(CREATED, evs) ==> !Asleep(s))
  {
    RunKeepsFifo(CREATED, evs);
    if PushesInside(CREATED, evs) {
      OthersAnnounce(CREATED, evs);
    }
    if CleanEntries(CREATED, evs) {
      RunKeepsInv(CREATED, evs);
    }
  }

  lemma {:induction false} NoEntryIsClean(s: Loop, evs: seq<Event>)
    requires Enter !in evs
    ensures CleanEntries(s, evs)
    decreases |evs|
  {
    if evs != [] {
      assert evs[0] in evs;
      NoEntryIsClean(Step(s, evs[0]), evs[1..]);
    }
  }

  /** The proviso is exact: entered from any state, the loop never sleeps on work until it is left if and
      only if what is queued has been announced. */
  lemma StartCondition(s: Loop)
    requires s.phase.Outside? && QueueIsFifo(s) && LOOP !in s.waking
    ensures var t := Step(s, Enter);
            (forall evs | Legal(t, evs) && Enter !in evs :: !Asleep(Run(t, evs)))
            <==> Announced(s)
  {
    var t := Step(s, Enter);
    if Announced(s) {
      forall evs | Legal(t, evs) && Enter !in evs
        ensures !Asleep(Run(t, evs))
      {
        NoEntryIsClean(t, evs);
        RunKeepsInv(t, evs);
      }
    } else {
      var evs := [TestQuit];
      assert evs[1..] == [];
      assert Run(t, evs) == Step(t, TestQuit);
      assert Legal(t, evs) && Enter !in evs && Asleep(Run(t, evs));
    }
  }

  lemma {:induction false} NoQuitMeansNoQuit(s: Loop, evs: seq<Event>)
    requires !s.quit && forall ev | ev in evs :: !ev.Quit?
    ensures !Run(s, evs).quit
    decreases |evs|
  {
    if evs != [] {
      assert evs[0] in evs;
      NoQuitMeansNoQuit(Step(s, evs[0]), evs[1..]);
    }
  }

  /** A request to quit lasts exactly until `loop()` is entered: one made before is lost. */
  lemma {:induction false} QuitLasts(s: Loop, evs: seq<Event>)
    requires s.quit && forall ev | ev in evs :: !ev.Quit?
    ensures Run(s, evs).quit <==> Enter !in evs
    decreases |evs|
  {
    if evs != [] {
      assert evs[0] in evs && evs == [evs[0]] + evs[1..];
      if evs[0].Enter? {
        NoQuitMeansNoQuit(Step(s, evs[0]), evs[1..]);
      } else {
        QuitLasts(Step(s, evs[0]), evs[1..]);
      }
    }
  }

  /** A request to quit makes the loop's next test its last, exactly unless `loop()` is entered again
      in between. */
  lemma QuitLeaves(s: Loop, thread: Thread, evs: seq<Event>)
    requires forall ev | ev in evs :: !ev.Quit?
    ensures var t := Run(Step(s, Quit(thread)), evs);
            && (t.quit <==> Enter !in evs)
            && (t.phase.AtTop? ==> (Step(t, TestQuit).phase.Outside? <==> Enter !in evs))
  {
    QuitLasts(Step(s, Quit(thread)), evs);
  }

  /** And without one the loop is never left. */
  lemma {:induction false} LoopGoesOn(s: Loop, evs: seq<Event>)
    requires !s.quit && !s.phase.Outside? && Legal(s, evs) && forall ev | ev in evs :: !ev.Quit?
    ensures !Run(s, evs).quit && !Run(s, evs).phase.Outside?
    decreases |evs|
  {
    if evs != [] {
      assert evs[0] in evs;
      LoopGoesOn(Step(s, evs[0]), evs[1..]);
    }
  }

  // ------------------------------------------------------------- the eventfd's count

  function Wakes(evs: seq<Event>): nat {
    if evs == [] then 0 else (if evs[0].Wake? then 1 else 0) + Wakes(evs[1..])
  }

  function Capped(n: nat): nat {
    if n < COUNTER_MAX then n else COUNTER_MAX
  }

  lemma {:induction false} CountIsWakes(s: Loop, evs: seq<Event>)
    requires s.counter <= COUNTER_MAX && HandleWakeup !in evs
    ensures Run(s, evs).counter == Capped(s.counter + Wakes(evs))
    decreases |evs|
  {
    if evs != [] {
      assert evs[0] in evs;
      CountIsWakes(Step(s, evs[0]), evs[1..]);
    }
  }

  /** Reading the eventfd uses its count up: from then on it is the number of wakeups since, and without
      one `poll` does not report it again. */
  lemma ReadResets(s: Loop, evs: seq<Event>)
    requires HandleWakeup !in evs
    ensures var t := Run(Step(s, HandleWakeup), evs);
            t.counter == Capped(Wakes(evs)) && (Wakes(evs) == 0 ==> !Enabled(t, PollReturns(true)))
  {
    CountIsWakes(Step(s, HandleWakeup), evs);
  }

  /** When `poll` reports the eventfd it is read before any task is taken; otherwise it is not read. */
  lemma ReportedIsRead(s: Loop, wakeup: bool)
    requires Enabled(s, PollReturns(wakeup))
    ensures var t := Step(s, PollReturns(wakeup));
            && t.counter == s.counter && t.pending == s.pending && t.iteration == s.iteration + 1
            && (Enabled(t, HandleWakeup) <==> wakeup) && (Enabled(t, SwapFunctors) <==> !wakeup)
            && (wakeup ==> Enabled(Step(t, HandleWakeup), SwapFunctors))
  {
  }

  /** A push by another thread and the wakeup it owes: the task is queued, the loop will be woken, and the
      thread is free to push again. */
  lemma PushThenWake(s: Loop, thread: Thread, task: Task)
    requires thread != LOOP && Enabled(s, Push(thread, task))
    ensures Enabled(Step(s, Push(thread, task)), Wake(thread))
    ensures var t := Step(Step(s, Push(thread, task)), Wake(thread));
            && t.pending == s.pending + [task] && t.waking == s.waking && t.counter > 0
            && t.phase == s.phase && t.batch == s.batch
  {
  }

  /** While the loop is in its next iteration, the first `n` tasks pushed are executed, or in the batch
      being called, or about to be taken. */
  predicate Progress(s: Loop, n: nat, iteration: nat) {
    || n <= |s.executed|
    || s.iteration == iteration
    || (s.iteration == iteration + 1 && s.phase.Handling?)
    || (s.phase.Calling? && s.phase.next <= |s.batch| && n <= |s.executed| + |s.batch| - s.phase.next)
  }

  lemma StepKeepsProgress(s: Loop, ev: Event, n: nat, iteration: nat)
    requires QueueIsFifo(s) && Enabled(s, ev) && n <= |s.submitted|
    requires Progress(s, n, iteration)
    requires s.iteration == iteration ==> !InIteration(s)
    requires s.iteration >= iteration
    ensures var t := Step(s, ev);
            && Progress(t, n, iteration) && n <= |t.submitted| && t.iteration >= iteration
            && (t.iteration == iteration ==> !InIteration(t))
  {
  }

  lemma {:induction false} RunKeepsProgress(s: Loop, evs: seq<Event>, n: nat, iteration: nat)
    requires QueueIsFifo(s) && Legal(s, evs) && n <= |s.submitted|
    requires Progress(s, n, iteration)
    requires s.iteration == iteration ==> !InIteration(s)
    requires s.iteration >= iteration
    ensures Progress(Run(s, evs), n, iteration) && QueueIsFifo(Run(s, evs))
    decreases |evs|
  {
    if evs != [] {
      StepKeepsFifo(s, evs[0]);
      StepKeepsProgress(s, evs[0], n, iteration);
      RunKeepsProgress(Step(s, evs[0]), evs[1..], n, iteration);
    }
  }

  /** One iteration is enough: whatever was pushed before it began has been called when it ends, in every
      interleaving. */
  lemma OneIterationCallsEverything(s: Loop, evs: seq<Event>)
    requires QueueIsFifo(s) && Legal(s, evs) && !InIteration(s)
    ensures var t := Run(s, evs);
            t.iteration > s.iteration && !InIteration(t) ==> |s.submitted| <= |t.executed|
  {
    RunKeepsProgress(s, evs, |s.submitted|, s.iteration);
  }
}
