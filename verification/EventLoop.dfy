/** The loop object of Reactor/EventLoop.cpp and .h: its queue and flags, and its members as the steps
    of `LoopProtocol`. */
module EventLoop {
  import opened LoopProtocol

  class EventLoop {
    var phase: Phase  // where the loop thread is in `loop()`
    var iteration: nat
    var quit: bool
    var callingPendingFunctors: bool
    var pendingFunctors: seq<Task>
    var functors: seq<Task>   // the local vector of doPendingFunctors
    var wakeupCount: nat      // the kernel's count behind the eventfd
    ghost var waking: set<Thread>
    ghost var submitted: seq<Task>
    ghost var executed: seq<Task>

    ghost predicate Valid()
      reads this
    {
      callingPendingFunctors == phase.Calling?
    }

    ghost function State(): Loop
      reads this
    {
      Loop(phase, iteration, quit, pendingFunctors, functors, wakeupCount, waking, submitted, executed)
    }

    constructor ()
      ensures Valid() && State() == CREATED
    {
      phase, iteration, quit, callingPendingFunctors := Outside, 0, false, false;
      pendingFunctors, functors, wakeupCount := [], [], 0;
      waking, submitted, executed := {}, [], [];
    }

    /** The first half of `queueInLoop`: `mustWake` is the outcome of its test. */
    method PushFunctor(thread: Thread, task: Task) returns (mustWake: bool)
      requires Valid() && Enabled(State(), Push(thread, task))
      modifies this
      ensures Valid() && State() == Step(old(State()), Push(thread, task))
      ensures mustWake == (thread in waking)
    {
      pendingFunctors := pendingFunctors + [task];
      submitted := submitted + [task];
      mustWake := thread != LOOP || callingPendingFunctors;
      if mustWake {
        waking := waking + {thread};
      }
    }

    method Wakeup(thread: Thread)
      requires Valid() && Enabled(State(), Wake(thread))
      modifies this
      ensures Valid() && State() == Step(old(State()), Wake(thread))
    {
      if wakeupCount < COUNTER_MAX {
        wakeupCount := wakeupCount + 1;
      }
      waking := waking - {thread};
    }

    /** `queueInLoop` when no other thread comes between its halves. */
    method QueueInLoop(thread: Thread, task: Task)
      requires Valid() && Enabled(State(), Push(thread, task))
      modifies this
      ensures Valid()
      ensures var s := Step(old(State()), Push(thread, task));
              State() == if thread in s.waking then Step(s, Wake(thread)) else s
    {
      var mustWake := PushFunctor(thread, task);
      if mustWake {
        Wakeup(thread);
      }
    }

    method RequestQuit(thread: Thread) returns (mustWake: bool)
      requires Valid() && Enabled(State(), Quit(thread))
      modifies this
      ensures Valid() && State() == Step(old(State()), Quit(thread))
      ensures mustWake == (thread in waking)
    {
      quit := true;
      mustWake := thread != LOOP;
      if mustWake {
        waking := waking + {thread};
      }
    }

    method HandleRead()
      requires Valid() && Enabled(State(), HandleWakeup)
      modifies this
      ensures Valid() && State() == Step(old(State()), HandleWakeup)
    {
      wakeupCount := 0;
      phase := Handling(false);
    }

    /** `loop()`, up to its first test. */
    method EnterLoop()
      requires Valid() && Enabled(State(), Enter)
      modifies this
      ensures Valid() && State() == Step(old(State()), Enter)
    {
      quit := false;
      phase := AtTop;
    }

    /** The `while` test of `loop()`. */
    method Test() returns (again: bool)
      requires Valid() && Enabled(State(), TestQuit)
      modifies this`phase
      ensures Valid() && State() == Step(old(State()), TestQuit)
      ensures again <==> phase.AtPoll?
    {
      again := !quit;
      phase := if quit then Outside else AtPoll;
    }

    /** `poll` returns, reporting the eventfd or not; the other channels' handlers are steps of their own. */
    method ReturnFromPoll(wakeup: bool)
      requires Valid() && Enabled(State(), PollReturns(wakeup))
      modifies this`phase, this`iteration
      ensures Valid() && State() == Step(old(State()), PollReturns(wakeup))
    {
      iteration := iteration + 1;
      phase := Handling(wakeup);
    }

    /** What other threads, and the functor being called itself, do meanwhile. */
    method Interfere(evs: seq<Event>)
      requires Valid() && Legal(State(), evs) && OnlyCalls(evs)
      modifies this
      ensures Valid() && State() == Run(old(State()), evs)
      ensures phase == old(phase) && functors == old(functors)
    {
      ghost var before := State();
      for i := 0 to |evs|
        invariant Valid() && Legal(State(), evs[i..]) && Run(State(), evs[i..]) == Run(before, evs)
        invariant phase == old(phase) && functors == old(functors)
      {
        assert evs[i..][1..] == evs[i + 1..];
        match evs[i]
        case Push(thread, task) => var _ := PushFunctor(thread, task);
        case Wake(thread) => Wakeup(thread);
        case Quit(thread) => var _ := RequestQuit(thread);
      }
    }

    /** Calls functor `i`, during which `evs` happens. */
    method CallFunctor(i: nat, evs: seq<Event>)
      requires Valid() && phase == Calling(i) && Enabled(State(), CallNext)
      requires Legal(Step(State(), CallNext), evs) && OnlyCalls(evs)
      modifies this
      ensures Valid() && State() == Run(Step(old(State()), CallNext), evs)
      ensures phase == Calling(i + 1) && functors == old(functors)
    {
      executed := executed + [functors[i]];
      phase := Calling(i + 1);
      Interfere(evs);
    }

    /** `doPendingFunctors`; `during[i]` is what happens from the call of functor `i` to the next. */
    method DoPendingFunctors(during: seq<seq<Event>>)
      requires Valid() && Enabled(State(), SwapFunctors)
      requires |during| == |pendingFunctors|
      requires LegalCalls(Step(State(), SwapFunctors), during)
      modifies this
      ensures Valid()
      ensures State() == RunCalls(Step(old(State()), SwapFunctors), during)
    {
      callingPendingFunctors := true;
      functors, pendingFunctors := pendingFunctors, [];
      phase := Calling(0);
      assert State() == Step(old(State()), SwapFunctors);
      CallFunctors(during);
      callingPendingFunctors := false;
      phase, functors := AtTop, [];
    }

    /** The loop over the swapped-out functors. */
    method CallFunctors(during: seq<seq<Event>>)
      requires Valid() && phase == Calling(0) && |during| == |functors|
      requires LegalCalls(State(), during)
      modifies this
      ensures Valid() && phase == Calling(|functors|) && functors == old(functors)
      ensures Step(State(), EndCalls) == RunCalls(old(State()), during)
    {
      ghost var before := State();
      for i := 0 to |functors|
        invariant Valid() && phase == Calling(i) && functors == before.batch
        invariant LegalCalls(State(), during[i..])
        invariant RunCalls(State(), during[i..]) == RunCalls(before, during)
      {
        assert during[i..][0] == during[i] && during[i..][1..] == during[i + 1..];
        CallFunctor(i, during[i]);
      }
    }
  }

  predicate OnlyCalls(evs: seq<Event>) {
    forall ev | ev in evs :: ev.Push? || ev.Wake? || ev.Quit?
  }

  /** The functors are called in turn, with other steps in between, and the calls end. */
  function RunCalls(s: Loop, during: seq<seq<Event>>): Loop
    decreases |during|
  {
    if during == [] then Step(s, EndCalls)
    else RunCalls(Run(Step(s, CallNext), during[0]), during[1..])
  }

  predicate LegalCalls(s: Loop, during: seq<seq<Event>>)
    decreases |during|
  {
    if during == [] then Enabled(s, EndCalls)
    else
      && Enabled(s, CallNext)
      && Legal(Step(s, CallNext), during[0]) && OnlyCalls(during[0])
      && LegalCalls(Run(Step(s, CallNext), during[0]), during[1..])
  }

  function Flattened(during: seq<seq<Event>>): seq<Event> {
    if during == [] then [EndCalls] else [CallNext] + during[0] + Flattened(during[1..])
  }

  lemma {:induction false} LegalAppend(s: Loop, a: seq<Event>, b: seq<Event>)
    requires Legal(s, a) && Legal(Run(s, a), b)
    ensures Legal(s, a + b) && Run(s, a + b) == Run(Run(s, a), b)
    decreases |a|
  {
    if a == [] {
      assert a + b == b;
    } else {
      assert (a + b)[1..] == a[1..] + b;
      LegalAppend(Step(s, a[0]), a[1..], b);
    }
  }

  /** The method's run is one of the protocol's: what holds of every interleaving holds of it. */
  lemma {:induction false} CallsAreARun(s: Loop, during: seq<seq<Event>>)
    requires LegalCalls(s, during)
    ensures Legal(s, Flattened(during)) && Run(s, Flattened(during)) == RunCalls(s, during)
    decreases |during|
  {
    if during == [] {
      assert [EndCalls][1..] == [];
    } else {
      var t, rest := Step(s, CallNext), Flattened(during[1..]);
      CallsAreARun(Run(t, during[0]), during[1..]);
      LegalAppend(t, during[0], rest);
      var all := Flattened(during);
      assert all[0] == CallNext && all[1..] == during[0] + rest;
      assert Run(s, all) == Run(t, all[1..]);
    }
  }
}
