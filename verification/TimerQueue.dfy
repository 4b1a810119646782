/** The timer queue object of Timer/TimerQueue.cpp and .h: its members as the steps of `TimerProtocol`.
    The heap is a map from addresses, so that reading or freeing a timer twice would not verify. */
module TimerQueue {
  import opened TimerProtocol

  class TimerQueue {
    var heap: map<Addr, Timer>
    var numCreated: nat
    var queued: set<Addr>  // timers whose addTimerInLoop is still in the loop's queue
    var timers: set<Entry>
    var activeTimers: set<TimerId>
    var callingExpiredTimers: bool
    var cancelingTimers: set<TimerId>
    var armed: Arming
    ghost var phase: Phase
    ghost var issued: map<nat, Issue>
    ghost var freed: multiset<nat>
    ghost var runs: multiset<nat>

    ghost function State(): Queue
      reads this
    {
      Queue(heap, numCreated, queued, timers, activeTimers, cancelingTimers, phase, armed, issued, freed, runs)
    }

    ghost predicate Valid()
      reads this
    {
      Inv(State()) && callingExpiredTimers == phase.Calling?
    }

    constructor ()
      ensures Valid() && State() == EMPTY
    {
      heap, numCreated, queued := map[], 0, {};
      timers, activeTimers, callingExpiredTimers, cancelingTimers := {}, {}, false, {};
      armed, phase := Disarmed, Idle;
      issued, freed, runs := map[], multiset{}, multiset{};
    }

    /** `new Timer` at an address the allocator chose, and `runInLoop` from another thread. */
    method NewTimer(addr: Addr, when: int, interval: int) returns (id: TimerId)
      requires Valid() && Enabled(State(), CreateTimer(addr, when, interval))
      modifies this
      ensures Valid() && State() == Step(old(State()), CreateTimer(addr, when, interval))
      ensures id == TimerId(addr, numCreated)
    {
      CreateKeepsInv(State(), addr, when, interval);
      Allocate(addr, when, interval);
      id := TimerId(addr, numCreated);
    }

    method Allocate(addr: Addr, when: int, interval: int)
      requires addr !in heap
      modifies this`numCreated, this`heap, this`queued, this`issued
      ensures State() == Create(old(State()), addr, when, interval)
    {
      numCreated := numCreated + 1;
      heap := heap[addr := Timer(when, interval, numCreated)];
      queued := queued + {addr};
      issued := issued[numCreated := Issue(addr, when, interval)];
    }

    /** `addTimer` in the loop thread: inserted at once. */
    method AddTimer(addr: Addr, when: int, interval: int, clock: int) returns (id: TimerId)
      requires Valid() && Enabled(State(), CreateTimer(addr, when, interval))
      modifies this
      ensures Valid() && id == TimerId(addr, numCreated)
      ensures State() == Step(Step(old(State()), CreateTimer(addr, when, interval)), Event.AddTimer(id, clock))
    {
      id := NewTimer(addr, when, interval);
      AddTimerInLoop(id, clock);
    }

    method AddTimerInLoop(id: TimerId, clock: int)
      requires Valid() && Enabled(State(), Event.AddTimer(id, clock))
      modifies this
      ensures Valid() && State() == Step(old(State()), Event.AddTimer(id, clock))
    {
      StepKeepsInv(State(), Event.AddTimer(id, clock));
      queued := queued - {id.addr};
      var earliestChanged := InsertEntry(id.addr);
      if earliestChanged {
        armed := ResetTimerfd(heap[id.addr].expiration, clock);
      }
    }

    /** `insert`: neither set may hold the timer yet. */
    method InsertEntry(addr: Addr) returns (earliestChanged: bool)
      requires addr in heap
      requires EntryOf(State(), addr) !in timers && IdOf(State(), addr) !in activeTimers
      modifies this`timers, this`activeTimers
      ensures State() == Insert(old(State()), addr)
      ensures earliestChanged == EarliestChanged(old(State()), heap[addr].expiration)
    {
      var timer := heap[addr];
      earliestChanged := timers == {} || timer.expiration < First(timers).when;
      timers := timers + {Entry(timer.expiration, addr)};
      activeTimers := activeTimers + {TimerId(addr, timer.sequence)};
    }

    method DeleteTimer(addr: Addr)
      requires addr in heap
      modifies this`heap, this`freed
      ensures State() == Delete(old(State()), addr)
    {
      freed := freed + multiset{heap[addr].sequence};
      heap := heap - {addr};
    }

    method CancelInLoop(id: TimerId)
      requires Valid()
      modifies this
      ensures Valid() && State() == Step(old(State()), Cancel(id))
    {
      StepKeepsInv(State(), Cancel(id));
      if id in activeTimers {
        var entry := Entry(heap[id.addr].expiration, id.addr);
        assert entry in timers;
        timers := timers - {entry};
        activeTimers := activeTimers - {id};
        DeleteTimer(id.addr);
      } else if callingExpiredTimers {
        cancelingTimers := cancelingTimers + {id};
      }
    }

    /** Collects the entries before the sentry from the beginning of the set, then erases them from
        both sets. */
    method GetExpired(now: int) returns (expired: seq<Entry>)
      requires SetsAgree(State())
      modifies this`timers, this`activeTimers
      ensures expired == InOrder(Due(old(timers), now))
      ensures timers == old(timers) - Due(old(timers), now)
      ensures activeTimers == old(activeTimers) - IdsOf(old(State()), Due(old(timers), now))
    {
      ghost var s, due := State(), Due(timers, now);
      expired := CollectDue(now);
      InOrderMembers(due);
      var erased := set e | e in expired;
      assert erased == due;
      timers := timers - erased;
      EraseActive(expired, s);
    }

    method EraseActive(expired: seq<Entry>, ghost s: Queue)
      requires heap == s.heap && activeTimers == s.active
      requires forall e | e in expired :: e.addr in heap
      modifies this`activeTimers
      ensures activeTimers == old(activeTimers) - IdsOf(s, set e | e in expired)
    {
      for i := 0 to |expired|
        invariant activeTimers == s.active - IdsOf(s, set e | e in expired[..i])
      {
        var addr := expired[i].addr;
        assert expired[i] in expired;
        activeTimers := activeTimers - {TimerId(addr, heap[addr].sequence)};
        assert expired[..i + 1] == expired[..i] + [expired[i]];
      }
      assert expired[..|expired|] == expired;
    }

    method CollectDue(now: int) returns (expired: seq<Entry>)
      ensures expired == InOrder(Due(timers, now))
    {
      expired := [];
      var rest := timers;
      while rest != {} && Less(First(rest), Entry(now, SENTRY))
        invariant expired + InOrder(Due(rest, now)) == InOrder(Due(timers, now))
        decreases rest
      {
        FirstDue(rest, now);
        var e := First(rest);
        expired := expired + [e];
        rest := rest - {e};
      }
      NoneDue(rest, now);
    }

    /** Restarts or frees every expired timer, then sets the timerfd for the first waiting one. */
    method Reset(expired: seq<Entry>, now: int, clock: int)
      requires Inv(State()) && phase.Calling? && phase.expired == expired && phase.now == now
      modifies this
      ensures Inv(State()) && State() == EndExpiry(old(State()), clock)
      ensures callingExpiredTimers == old(callingExpiredTimers) && phase.Idle?
    {
      ResetAllKeepsInv(State());
      ResetExpired(expired, now);
      SetForNext(clock);
    }

    method ResetExpired(expired: seq<Entry>, now: int)
      requires Inv(State()) && phase.Calling? && phase.expired == expired && phase.now == now
      modifies this`heap, this`timers, this`activeTimers, this`freed, this`phase
      ensures State() == ResetAll(old(State()))
    {
      ghost var before := State();
      for i := 0 to |expired|
        invariant Inv(State()) && phase.Calling? && phase.expired == expired[i..] && phase.now == now
        invariant ResetAll(State()) == ResetAll(before)
      {
        DropHead(expired, i);
        ResetFirstKeepsInv(State());
        ResetOne(expired[i], now);
      }
      phase := Idle;
    }

    method SetForNext(clock: int)
      requires Inv(State())
      modifies this`armed
      ensures Inv(State()) && State() == Rearm(old(State()), clock)
    {
      if timers != {} {
        ArmedKeepsInv(State(), ResetTimerfd(First(timers).when, clock));
        var nextExpire := First(timers).when;
        if nextExpire > 0 {
          armed := ResetTimerfd(nextExpire, clock);
        }
      }
    }

    method ResetOne(entry: Entry, now: int)
      requires SetsAgree(State()) && OnePlaceEach(State())
      requires phase.Calling? && phase.now == now && phase.expired != [] && phase.expired[0] == entry
      modifies this`heap, this`timers, this`activeTimers, this`freed, this`phase
      ensures State() == ResetFirst(old(State()))
      ensures phase == old(phase).(expired := old(phase).expired[1..])
    {
      ghost var before := State();
      assert entry in Batch(before);
      var addr := entry.addr;
      var timer := heap[addr];
      phase := phase.(expired := phase.expired[1..]);
      if timer.interval > 0 && TimerId(addr, timer.sequence) !in cancelingTimers {
        NewEntry(before, addr, now);
        heap := heap[addr := timer.(expiration := now + timer.interval)];
        var _ := InsertEntry(addr);
      } else {
        DeleteTimer(addr);
      }
      assert State() == ResetFirst(before);
    }

    /** The callback of the next expired timer: it is entered, and then adds and cancels timers. */
    method RunCallback(during: seq<Event>)
      requires Valid() && Enabled(State(), Call)
      requires Legal(Step(State(), Call), during) && OnlyCalls(during)
      modifies this
      ensures Valid() && State() == Run(Step(old(State()), Call), during)
    {
      ghost var before := State();
      StepKeepsInv(before, Call);
      assert phase.expired[phase.next] in Batch(before);
      var addr := phase.expired[phase.next].addr;
      runs := runs + multiset{heap[addr].sequence};
      phase := phase.(next := phase.next + 1);
      CallbackBody(during);
    }

    /** What the callback does: it adds and cancels timers. */
    method CallbackBody(during: seq<Event>)
      requires Valid() && Legal(State(), during) && OnlyCalls(during)
      modifies this
      ensures Valid() && State() == Run(old(State()), during)
    {
      ghost var entered := State();
      for i := 0 to |during|
        invariant Valid() && Legal(State(), during[i..])
        invariant Run(State(), during[i..]) == Run(entered, during)
      {
        assert during[i..][0] == during[i] && during[i..][1..] == during[i + 1..];
        match during[i]
        case CreateTimer(a, when, interval) => var _ := NewTimer(a, when, interval);
        case AddTimer(id, clock) => AddTimerInLoop(id, clock);
        case Cancel(id) => CancelInLoop(id);
      }
    }

    /** `handleRead` up to the calls. */
    method BeginCalls(now: int, consumed: bool) returns (expired: seq<Entry>)
      requires SetsAgree(State())
      modifies this
      ensures State() == BeginExpiry(old(State()), now, consumed)
      ensures phase == Calling(expired, now, 0) && callingExpiredTimers
    {
      if consumed {
        armed := Disarmed;
      }
      expired := GetExpired(now);
      callingExpiredTimers := true;
      cancelingTimers := {};
      phase := Calling(expired, now, 0);
    }

    /** The calls of `handleRead`; `during[i]` is what the callback of the `i`-th expired timer does. */
    method CallExpired(during: seq<seq<Event>>)
      requires Valid() && LegalCallbacks(State(), during)
      modifies this
      ensures Valid() && State() == RunCallbacks(old(State()), during)
    {
      ghost var before := State();
      for i := 0 to |during|
        invariant Valid() && LegalCallbacks(State(), during[i..])
        invariant RunCallbacks(State(), during[i..]) == RunCallbacks(before, during)
      {
        assert during[i..][0] == during[i] && during[i..][1..] == during[i + 1..];
        RunCallback(during[i]);
      }
    }

    method HandleRead(now: int, consumed: bool, during: seq<seq<Event>>, clock: int)
      requires Valid() && Enabled(State(), Expire(now, consumed))
      requires LegalCallbacks(Step(State(), Expire(now, consumed)), during)
      modifies this
      ensures Valid()
      ensures State() == EndExpiry(RunCallbacks(Step(old(State()), Expire(now, consumed)), during), clock)
    {
      StepKeepsInv(State(), Expire(now, consumed));
      var expired := BeginCalls(now, consumed);
      CallbacksKeepBatch(State(), during);
      CallExpired(during);
      callingExpiredTimers := false;
      Reset(expired, now, clock);
    }
  }

  lemma DropHead(s: seq<Entry>, i: nat)
    requires i < |s|
    ensures s[i..] != [] && s[i..][0] == s[i] && s[i..][1..] == s[i + 1..]
  {
  }

  /** A restarted timer is in neither set. */
  lemma NewEntry(s: Queue, addr: Addr, now: int)
    requires SetsAgree(s) && OnePlaceEach(s) && addr in s.heap && EntryOf(s, addr) in Batch(s)
    ensures forall when :: Entry(when, addr) !in s.timers
    ensures IdOf(s, addr) !in s.active
  {
  }

  lemma FirstDue(s: set<Entry>, now: int)
    requires s != {} && Less(First(s), Entry(now, SENTRY))
    ensures InOrder(Due(s, now)) == [First(s)] + InOrder(Due(s - {First(s)}, now))
  {
    var e, due := First(s), Due(s, now);
    assert e in due && IsLeast(e, due);
    assert First(due) == e;
    assert due - {e} == Due(s - {e}, now);
  }

  lemma NoneDue(s: set<Entry>, now: int)
    requires s == {} || !Less(First(s), Entry(now, SENTRY))
    ensures InOrder(Due(s, now)) == []
  {
    if s != {} {
      assert forall e | e in s :: !Less(e, Entry(now, SENTRY));
    }
    assert Due(s, now) == {};
  }

  predicate OnlyCalls(evs: seq<Event>) {
    forall ev | ev in evs :: ev.CreateTimer? || ev.AddTimer? || ev.Cancel?
  }

  /** Every expired timer is called in turn, with what its callback does. */
  function RunCallbacks(s: Queue, during: seq<seq<Event>>): Queue
    decreases |during|
  {
    if during == [] then s else RunCallbacks(Run(Step(s, Call), during[0]), during[1..])
  }

  predicate LegalCallbacks(s: Queue, during: seq<seq<Event>>)
    decreases |during|
  {
    if during == [] then s.phase.Calling? && s.phase.next == |s.phase.expired|
    else
      && Enabled(s, Call) && Legal(Step(s, Call), during[0]) && OnlyCalls(during[0])
      && LegalCallbacks(Run(Step(s, Call), during[0]), during[1..])
  }

  lemma {:induction false} OnlyCallsKeepBatch(s: Queue, evs: seq<Event>)
    requires OnlyCalls(evs) && Legal(s, evs)
    ensures Run(s, evs).phase == s.phase
    decreases |evs|
  {
    if evs != [] {
      assert evs[0] in evs;
      OnlyCallsKeepBatch(Step(s, evs[0]), evs[1..]);
    }
  }

  lemma {:induction false} CallbacksKeepBatch(s: Queue, during: seq<seq<Event>>)
    requires LegalCallbacks(s, during) && s.phase.Calling?
    ensures var phase := RunCallbacks(s, during).phase;
            phase.Calling? && phase.expired == s.phase.expired && phase.now == s.phase.now
    decreases |during|
  {
    if during != [] {
      OnlyCallsKeepBatch(Step(s, Call), during[0]);
      CallbacksKeepBatch(Run(Step(s, Call), during[0]), during[1..]);
    }
  }

  function Flattened(during: seq<seq<Event>>, clock: int): seq<Event> {
    if during == [] then [Finish(clock)] else [Call] + during[0] + Flattened(during[1..], clock)
  }

  lemma {:induction false} LegalAppend(s: Queue, a: seq<Event>, b: seq<Event>)
    requires Legal(s, a) && Legal(Run(s, a), b)
    ensures Legal(s, a + b) && Run(s, a + b) == Run(Run(s, a), b)
    decreases |a|
  {
    if a == [] {
      assert a + b == b;
    } else {
      assert (a + b)[1..] == a[1..] + b;
      LegalAppend(Step(s, a[0]), a[1..], b);
    }
  }

  /** What `HandleRead` does is a run of the protocol: what holds of every run holds of it. */
  lemma {:induction false} HandleReadIsARun(s: Queue, during: seq<seq<Event>>, clock: int)
    requires LegalCallbacks(s, during)
    ensures Legal(s, Flattened(during, clock))
    ensures Run(s, Flattened(during, clock)) == EndExpiry(RunCallbacks(s, during), clock)
    decreases |during|
  {
    if during == [] {
      assert [Finish(clock)][1..] == [];
    } else {
      var t, rest := Step(s, Call), Flattened(during[1..], clock);
      HandleReadIsARun(Run(t, during[0]), during[1..], clock);
      LegalAppend(t, during[0], rest);
      var all := Flattened(during, clock);
      assert all[0] == Call && all[1..] == during[0] + rest;
      assert Run(s, all) == Run(t, all[1..]);
    }
  }
}
