/** What the timer queue promises its callers, over every run of `TimerProtocol`. */
module TimerPromises {
  import opened TimerProtocol

  // ------------------------------------------------ a plain map from sequence to expiration

  /** The queue without addresses, sets or entries: when each waiting timer expires, which are being
      called, and which of those have been cancelled meanwhile. */
  datatype Plain = Plain(
    issued: map<nat, Issue>, created: nat,
    waiting: map<nat, int>, batch: set<nat>, canceled: set<nat>, calling: bool, now: int)

  function Again(p: Plain): set<nat> {
    set q | q in p.batch && q !in p.canceled && q in p.issued && p.issued[q].interval > 0
  }

  function PlainFinish(p: Plain): Plain {
    p.(waiting := (map q | q in p.waiting.Keys + Again(p) ::
                     if q in Again(p) then p.now + p.issued[q].interval else p.waiting[q]),
       batch := {}, canceled := {}, calling := false, now := 0)
  }

  function PlainCancel(p: Plain, id: TimerId): Plain {
    if id.sequence !in p.issued || p.issued[id.sequence].addr != id.addr then p
    else if id.sequence in p.waiting then p.(waiting := p.waiting - {id.sequence})
    else if id.sequence in p.batch then p.(canceled := p.canceled + {id.sequence})
    else p
  }

  function PlainStep(p: Plain, ev: Event): Plain {
    match ev
    case CreateTimer(addr, when, interval) =>
      p.(created := p.created + 1, issued := p.issued[p.created + 1 := Issue(addr, when, interval)])
    case AddTimer(id, _) =>
      if id.sequence in p.issued then p.(waiting := p.waiting[id.sequence := p.issued[id.sequence].when]) else p
    case Cancel(id) => PlainCancel(p, id)
    case Expire(now, _) =>
      p.(waiting := (map q | q in p.waiting && p.waiting[q] > now :: p.waiting[q]),
         batch := (set q | q in p.waiting && p.waiting[q] <= now),
         canceled := {}, calling := true, now := now)
    case Call => p
    case Finish(_) => PlainFinish(p)
  }

  function PlainRun(p: Plain, evs: seq<Event>): Plain
    decreases |evs|
  {
    if evs == [] then p else PlainRun(PlainStep(p, evs[0]), evs[1..])
  }

  predicate IsWaiting(s: Queue, q: nat) {
    q in s.issued && TimerId(s.issued[q].addr, q) in s.active
  }

  predicate IsExpiring(s: Queue, q: nat) {
    IsLive(s, q) && EntryOf(s, s.issued[q].addr) in Batch(s)
  }

  predicate IsCanceled(s: Queue, q: nat) {
    IsExpiring(s, q) && TimerId(s.issued[q].addr, q) in s.canceling
  }

  function Expiration(s: Queue, q: nat): int {
    if IsLive(s, q) then s.heap[s.issued[q].addr].expiration else 0
  }

  function Abstract(s: Queue): Plain {
    Plain(s.issued, s.created,
          (map q | q in s.issued && IsWaiting(s, q) :: Expiration(s, q)),
          (set q | q in s.issued && IsExpiring(s, q)),
          (set q | q in s.issued && IsCanceled(s, q)),
          s.phase.Calling?, if s.phase.Calling? then s.phase.now else 0)
  }

  lemma WaitingIsLive(s: Queue, q: nat)
    requires Inv(s) && IsWaiting(s, q)
    ensures IsLive(s, q) && EntryOf(s, s.issued[q].addr) in s.timers && !IsExpiring(s, q)
  {
  }

  lemma AbstractIs(t: Queue, p: Plain)
    requires p.issued == t.issued && p.created == t.created
    requires p.calling == t.phase.Calling? && p.now == if t.phase.Calling? then t.phase.now else 0
    requires forall q: nat :: q in p.waiting <==> IsWaiting(t, q)
    requires forall q | q in p.waiting :: p.waiting[q] == Expiration(t, q)
    requires forall q: nat :: q in p.batch <==> IsExpiring(t, q)
    requires forall q: nat :: q in p.canceled <==> IsCanceled(t, q)
    ensures Abstract(t) == p
  {
    var a := Abstract(t);
    assert a.waiting == p.waiting && a.batch == p.batch && a.canceled == p.canceled;
  }

  lemma CreateAt(s: Queue, addr: Addr, when: int, interval: int, q: nat)
    requires Inv(s) && addr !in s.heap && 0 < addr < SENTRY
    ensures var t := Create(s, addr, when, interval);
            && (IsWaiting(t, q) <==> IsWaiting(s, q))
            && (IsExpiring(t, q) <==> IsExpiring(s, q))
            && (IsCanceled(t, q) <==> IsCanceled(s, q))
            && (IsWaiting(s, q) ==> Expiration(t, q) == Expiration(s, q))
  {
    assert Batch(Create(s, addr, when, interval)) == Batch(s);
    if q == s.created + 1 {
      assert TimerId(addr, q) !in s.active && forall e | e in Batch(s) :: e.addr != addr;
    }
  }

  lemma CreateRefines(s: Queue, addr: Addr, when: int, interval: int)
    requires Inv(s) && addr !in s.heap && 0 < addr < SENTRY
    ensures Abstract(Create(s, addr, when, interval))
            == PlainStep(Abstract(s), CreateTimer(addr, when, interval))
  {
    var t := Create(s, addr, when, interval);
    forall q: nat
      ensures IsWaiting(t, q) <==> IsWaiting(s, q)
      ensures IsExpiring(t, q) <==> IsExpiring(s, q)
      ensures IsCanceled(t, q) <==> IsCanceled(s, q)
      ensures IsWaiting(s, q) ==> Expiration(t, q) == Expiration(s, q)
    {
      CreateAt(s, addr, when, interval, q);
    }
    AbstractIs(t, PlainStep(Abstract(s), CreateTimer(addr, when, interval)));
  }

  lemma AddAt(s: Queue, id: TimerId, clock: int, q: nat)
    requires Inv(s) && Enabled(s, AddTimer(id, clock))
    ensures var t := AddTimerInLoop(s, id.addr, clock);
            && (IsWaiting(t, q) <==> IsWaiting(s, q) || q == id.sequence)
            && (IsExpiring(t, q) <==> IsExpiring(s, q))
            && (IsCanceled(t, q) <==> IsCanceled(s, q))
            && Expiration(t, q) == Expiration(s, q)
  {
    assert Batch(AddTimerInLoop(s, id.addr, clock)) == Batch(s);
  }

  lemma AddRefines(s: Queue, id: TimerId, clock: int)
    requires Inv(s) && Enabled(s, AddTimer(id, clock))
    ensures Abstract(AddTimerInLoop(s, id.addr, clock)) == PlainStep(Abstract(s), AddTimer(id, clock))
  {
    var t := AddTimerInLoop(s, id.addr, clock);
    forall q: nat
      ensures IsWaiting(t, q) <==> IsWaiting(s, q) || q == id.sequence
      ensures IsExpiring(t, q) <==> IsExpiring(s, q)
      ensures IsCanceled(t, q) <==> IsCanceled(s, q)
      ensures Expiration(t, q) == Expiration(s, q)
    {
      AddAt(s, id, clock, q);
    }
    assert Expiration(s, id.sequence) == s.issued[id.sequence].when;
    AbstractIs(t, PlainStep(Abstract(s), AddTimer(id, clock)));
  }

  lemma CancelActiveAt(s: Queue, id: TimerId, q: nat)
    requires Inv(s) && id in s.active
    ensures var t := CancelInLoop(s, id);
            && (IsWaiting(t, q) <==> IsWaiting(s, q) && q != id.sequence)
            && (IsExpiring(t, q) <==> IsExpiring(s, q))
            && (IsCanceled(t, q) <==> IsCanceled(s, q))
            && (IsWaiting(t, q) ==> Expiration(t, q) == Expiration(s, q))
  {
    assert Batch(CancelInLoop(s, id)) == Batch(s);
    WaitingIsLive(s, id.sequence);
  }

  lemma CancelActiveRefines(s: Queue, id: TimerId)
    requires Inv(s) && id in s.active
    ensures Abstract(CancelInLoop(s, id)) == PlainCancel(Abstract(s), id)
  {
    var t := CancelInLoop(s, id);
    forall q: nat
      ensures IsWaiting(t, q) <==> IsWaiting(s, q) && q != id.sequence
      ensures IsExpiring(t, q) <==> IsExpiring(s, q)
      ensures IsCanceled(t, q) <==> IsCanceled(s, q)
      ensures IsWaiting(t, q) ==> Expiration(t, q) == Expiration(s, q)
    {
      CancelActiveAt(s, id, q);
    }
    assert IsWaiting(s, id.sequence);
    AbstractIs(t, PlainCancel(Abstract(s), id));
  }

  lemma CancelOtherAt(s: Queue, id: TimerId, q: nat)
    requires Inv(s) && id !in s.active
    ensures var t := CancelInLoop(s, id);
            && (IsWaiting(t, q) <==> IsWaiting(s, q))
            && (IsExpiring(t, q) <==> IsExpiring(s, q))
            && (IsCanceled(t, q)
                <==> IsCanceled(s, q) || (IsExpiring(s, q) && q == id.sequence && s.issued[q].addr == id.addr))
            && Expiration(t, q) == Expiration(s, q)
  {
    assert Batch(CancelInLoop(s, id)) == Batch(s);
  }

  lemma CancelRefines(s: Queue, id: TimerId)
    requires Inv(s)
    ensures Abstract(CancelInLoop(s, id)) == PlainCancel(Abstract(s), id)
  {
    if id in s.active {
      CancelActiveRefines(s, id);
    } else {
      var t := CancelInLoop(s, id);
      forall q: nat
        ensures IsWaiting(t, q) <==> IsWaiting(s, q)
        ensures IsExpiring(t, q) <==> IsExpiring(s, q)
        ensures IsCanceled(t, q)
                <==> IsCanceled(s, q) || (IsExpiring(s, q) && q == id.sequence && s.issued[q].addr == id.addr)
        ensures Expiration(t, q) == Expiration(s, q)
      {
        CancelOtherAt(s, id, q);
      }
      AbstractIs(t, PlainCancel(Abstract(s), id));
    }
  }

  lemma ExpireAt(s: Queue, now: int, consumed: bool, q: nat)
    requires Inv(s) && s.phase.Idle? && now > 0
    ensures var t := BeginExpiry(s, now, consumed);
            && (IsWaiting(t, q) <==> IsWaiting(s, q) && Expiration(s, q) > now)
            && (IsExpiring(t, q) <==> IsWaiting(s, q) && Expiration(s, q) <= now)
            && !IsCanceled(t, q)
            && Expiration(t, q) == Expiration(s, q)
  {
    DueIsUpToNow(s, now);
    InOrderMembers(Due(s.timers, now));
  }

  lemma ExpireRefines(s: Queue, now: int, consumed: bool)
    requires Inv(s) && s.phase.Idle? && now > 0
    ensures Abstract(BeginExpiry(s, now, consumed)) == PlainStep(Abstract(s), Expire(now, consumed))
  {
    var t := BeginExpiry(s, now, consumed);
    forall q: nat
      ensures IsWaiting(t, q) <==> IsWaiting(s, q) && Expiration(s, q) > now
      ensures IsExpiring(t, q) <==> IsWaiting(s, q) && Expiration(s, q) <= now
      ensures !IsCanceled(t, q)
      ensures Expiration(t, q) == Expiration(s, q)
    {
      ExpireAt(s, now, consumed, q);
    }
    AbstractIs(t, PlainStep(Abstract(s), Expire(now, consumed)));
  }

  /** `reset` on one timer, seen from the plain map. */
  function PlainReset(p: Plain, q: nat): Plain {
    p.(waiting := if q in Again(p) then p.waiting[q := p.now + p.issued[q].interval] else p.waiting,
       batch := p.batch - {q}, canceled := p.canceled - {q})
  }

  lemma ResetFirstAt(s: Queue, q: nat)
    requires Inv(s) && s.phase.Calling? && s.phase.expired != []
    ensures var t, e := ResetFirst(s), s.phase.expired[0];
            && e.addr in s.heap
            && var q0 := s.heap[e.addr].sequence;
            && (IsWaiting(t, q) <==> IsWaiting(s, q) || (StartsAgain(s, e.addr) && q == q0))
            && (IsExpiring(t, q) <==> IsExpiring(s, q) && q != q0)
            && (IsCanceled(t, q) <==> IsCanceled(s, q) && q != q0)
            && (IsWaiting(s, q) ==> Expiration(t, q) == Expiration(s, q))
            && (StartsAgain(s, e.addr) && q == q0 ==> Expiration(t, q) == s.phase.now + s.issued[q].interval)
  {
    RestOfBatch(s);
    var e := s.phase.expired[0];
    assert e in Batch(s);
    if IsWaiting(s, q) {
      WaitingIsLive(s, q);
    }
  }

  lemma FirstIsExpiring(s: Queue)
    requires Inv(s) && s.phase.Calling? && s.phase.expired != []
    ensures var e := s.phase.expired[0];
            && e.addr in s.heap
            && var q := s.heap[e.addr].sequence;
            && IsExpiring(s, q) && !IsWaiting(s, q)
            && (q in Again(Abstract(s)) <==> StartsAgain(s, e.addr))
  {
    var e := s.phase.expired[0];
    assert e in Batch(s);
    var q := s.heap[e.addr].sequence;
    assert IsCanceled(s, q) <==> IdOf(s, e.addr) in s.canceling;
  }

  lemma ArmedIsNotAbstract(s: Queue, armed: Arming)
    ensures Abstract(s.(armed := armed)) == Abstract(s)
  {
    var t := s.(armed := armed);
    assert Batch(t) == Batch(s);
    forall q: nat
      ensures IsWaiting(t, q) <==> IsWaiting(s, q)
      ensures IsExpiring(t, q) <==> IsExpiring(s, q)
      ensures IsCanceled(t, q) <==> IsCanceled(s, q)
      ensures Expiration(t, q) == Expiration(s, q)
    {
    }
    AbstractIs(t, Abstract(s));
  }

  lemma ResetFirstRefines(s: Queue)
    requires Inv(s) && s.phase.Calling? && s.phase.expired != []
    ensures s.phase.expired[0].addr in s.heap
    ensures Abstract(ResetFirst(s)) == PlainReset(Abstract(s), s.heap[s.phase.expired[0].addr].sequence)
  {
    FirstIsExpiring(s);
    var t, e := ResetFirst(s), s.phase.expired[0];
    var q0 := s.heap[e.addr].sequence;
    forall q: nat
      ensures IsWaiting(t, q) <==> IsWaiting(s, q) || (StartsAgain(s, e.addr) && q == q0)
      ensures IsExpiring(t, q) <==> IsExpiring(s, q) && q != q0
      ensures IsCanceled(t, q) <==> IsCanceled(s, q) && q != q0
      ensures IsWaiting(s, q) ==> Expiration(t, q) == Expiration(s, q)
      ensures StartsAgain(s, e.addr) && q == q0 ==> Expiration(t, q) == s.phase.now + s.issued[q].interval
    {
      ResetFirstAt(s, q);
    }
    var p := PlainReset(Abstract(s), q0);
    assert t.issued == s.issued && t.created == s.created && t.phase.Calling? && t.phase.now == s.phase.now;
    AbstractIs(t, p);
  }

  lemma FinishAfterReset(p: Plain, q: nat)
    requires q in p.batch && q !in p.waiting
    ensures PlainFinish(PlainReset(p, q)) == PlainFinish(p)
  {
    var r := PlainReset(p, q);
    assert Again(r) == Again(p) - {q};
    assert r.waiting.Keys + Again(r) == p.waiting.Keys + Again(p);
  }

  lemma {:induction false} ResetAllRefines(s: Queue)
    requires Inv(s) && s.phase.Calling?
    ensures Abstract(ResetAll(s)) == PlainFinish(Abstract(s))
    decreases |s.phase.expired|
  {
    if s.phase.expired == [] {
      var t := ResetAll(s);
      assert forall q :: !IsExpiring(s, q) && !IsExpiring(t, q) && (IsWaiting(t, q) <==> IsWaiting(s, q));
      assert Again(Abstract(s)) == {};
      assert Abstract(s).waiting.Keys + {} == Abstract(s).waiting.Keys;
    } else {
      FirstIsExpiring(s);
      ResetFirstRefines(s);
      ResetFirstKeepsInv(s);
      var q := s.heap[s.phase.expired[0].addr].sequence;
      FinishAfterReset(Abstract(s), q);
      ResetAllRefines(ResetFirst(s));
    }
  }

  lemma FinishRefines(s: Queue, clock: int)
    requires Inv(s) && Enabled(s, Finish(clock))
    ensures Abstract(EndExpiry(s, clock)) == PlainStep(Abstract(s), Finish(clock))
  {
    ResetAllRefines(s);
    var t := ResetAll(s);
    if t.timers != {} && First(t.timers).when > 0 {
      ArmedIsNotAbstract(t, ResetTimerfd(First(t.timers).when, clock));
    }
  }

  lemma CallRefines(s: Queue)
    requires Inv(s) && Enabled(s, Call)
    ensures Abstract(RunNext(s)) == Abstract(s)
  {
    var t := RunNext(s);
    assert Batch(t) == Batch(s);
    assert forall q :: (IsWaiting(t, q) <==> IsWaiting(s, q)) && (IsExpiring(t, q) <==> IsExpiring(s, q));
  }

  lemma StepRefines(s: Queue, ev: Event)
    requires Inv(s) && Enabled(s, ev)
    ensures Abstract(Step(s, ev)) == PlainStep(Abstract(s), ev)
  {
    match ev
    case CreateTimer(addr, when, interval) => CreateRefines(s, addr, when, interval);
    case AddTimer(id, clock) => AddRefines(s, id, clock);
    case Cancel(id) => CancelRefines(s, id);
    case Expire(now, consumed) => ExpireRefines(s, now, consumed);
    case Call => CallRefines(s);
    case Finish(clock) => FinishRefines(s, clock);
  }

  /** In every run the two sets, the heap and the cancelling set together behave as the plain map. */
  lemma {:induction false} RunRefines(s: Queue, evs: seq<Event>)
    requires Inv(s) && InTime(s) && Legal(s, evs)
    ensures Abstract(Run(s, evs)) == PlainRun(Abstract(s), evs)
    decreases |evs|
  {
    if evs != [] {
      StepRefines(s, evs[0]);
      StepKeepsInv(s, evs[0]);
      StepKeepsInTime(s, evs[0]);
      RunRefines(Step(s, evs[0]), evs[1..]);
    }
  }

  // ------------------------------------------------------------- cancelling is final

  /** Freed, or expiring and already cancelled. */
  predicate IsDoomed(s: Queue, q: nat) {
    q in s.issued && (!IsLive(s, q) || IsCanceled(s, q))
  }

  /** Cancelling a live timer dooms it, unless the loop has not inserted it yet: then nothing happens. */
  lemma CancelDooms(s: Queue, id: TimerId)
    requires Inv(s) && IsLive(s, id.sequence) && s.issued[id.sequence].addr == id.addr
    ensures IsDoomed(CancelInLoop(s, id), id.sequence) <==> id.addr !in s.queued
  {
    if id in s.active {
      CancelActiveAt(s, id, id.sequence);
    } else {
      CancelOtherAt(s, id, id.sequence);
    }
  }

  /** A run in which a cancellation overtakes the insertion: the timer waits all the same. */
  lemma EarlyCancelIsLost()
    ensures var id := TimerId(1, 1);
            var evs := [CreateTimer(1, 10, 0), Cancel(id), AddTimer(id, 0)];
            Legal(EMPTY, evs) && Entry(10, 1) in Run(EMPTY, evs).timers
  {
    var id := TimerId(1, 1);
    var evs := [CreateTimer(1, 10, 0), Cancel(id), AddTimer(id, 0)];
    var s := Step(EMPTY, evs[0]);
    assert evs[1..] == [Cancel(id), AddTimer(id, 0)] && evs[1..][1..] == [AddTimer(id, 0)];
    assert [AddTimer(id, 0)][1..] == [];
    assert s.queued == {1} && IdOf(s, 1) == id && Step(s, Cancel(id)) == s;
    assert Legal(s, [AddTimer(id, 0)]) && Run(s, [AddTimer(id, 0)]) == Step(s, AddTimer(id, 0));
    assert Legal(s, evs[1..]) && Run(s, evs[1..]) == Step(s, AddTimer(id, 0));
  }

  lemma ResetFirstKeepsDoomed(s: Queue, q: nat)
    requires Inv(s) && s.phase.Calling? && s.phase.expired != [] && IsDoomed(s, q)
    ensures IsDoomed(ResetFirst(s), q)
  {
    RestOfBatch(s);
    FirstIsExpiring(s);
    ResetFirstAt(s, q);
  }

  lemma {:induction false} ResetAllKeepsDoomed(s: Queue, q: nat)
    requires Inv(s) && s.phase.Calling? && IsDoomed(s, q)
    ensures IsDoomed(ResetAll(s), q) && !IsLive(ResetAll(s), q)
    decreases |s.phase.expired|
  {
    if s.phase.expired != [] {
      ResetFirstKeepsDoomed(s, q);
      ResetFirstKeepsInv(s);
      ResetAllKeepsDoomed(ResetFirst(s), q);
    }
  }

  /** A doomed timer stays doomed, and is not called once it is freed. */
  lemma StepKeepsDoomed(s: Queue, ev: Event, q: nat)
    requires Inv(s) && Enabled(s, ev) && IsDoomed(s, q)
    ensures IsDoomed(Step(s, ev), q)
    ensures !IsLive(s, q) ==> !IsLive(Step(s, ev), q) && Step(s, ev).runs[q] == s.runs[q]
    ensures ev.Finish? ==> !IsLive(Step(s, ev), q)
  {
    match ev
    case CreateTimer(addr, when, interval) => CreateAt(s, addr, when, interval, q);
    case AddTimer(id, clock) => AddAt(s, id, clock, q);
    case Cancel(id) => CancelKeepsDoomed(s, id, q);
    case Expire(now, consumed) => ExpireAt(s, now, consumed, q);
    case Call => CallKeepsDoomed(s, q);
    case Finish(clock) =>
      ResetAllKeepsDoomed(s, q);
      ResetAllCallsNothing(s);
  }

  lemma CallKeepsDoomed(s: Queue, q: nat)
    requires Inv(s) && Enabled(s, Call) && IsDoomed(s, q)
    ensures IsDoomed(RunNext(s), q)
    ensures !IsLive(s, q) ==> !IsLive(RunNext(s), q) && RunNext(s).runs[q] == s.runs[q]
  {
    assert Batch(RunNext(s)) == Batch(s);
    assert s.phase.expired[s.phase.next] in Batch(s);
  }

  lemma CancelKeepsDoomed(s: Queue, id: TimerId, q: nat)
    requires Inv(s) && IsDoomed(s, q)
    ensures IsDoomed(CancelInLoop(s, id), q)
    ensures !IsLive(s, q) ==> !IsLive(CancelInLoop(s, id), q)
  {
    if id in s.active {
      CancelActiveAt(s, id, q);
    } else {
      CancelOtherAt(s, id, q);
    }
  }

  lemma {:induction false} ResetAllCallsNothing(s: Queue)
    requires s.phase.Calling?
    ensures ResetAll(s).runs == s.runs
    decreases |s.phase.expired|
  {
    if s.phase.expired != [] {
      ResetAllCallsNothing(ResetFirst(s));
    }
  }

  /** Once a timer is cancelled, in whatever run follows: it is gone when the current batch ends, and it
      is never called after that. */
  lemma {:induction false} CancelIsFinal(s: Queue, evs: seq<Event>, q: nat)
    requires Inv(s) && InTime(s) && Legal(s, evs) && IsDoomed(s, q)
    ensures var t := Run(s, evs);
            && IsDoomed(t, q) && (t.phase.Idle? ==> !IsLive(t, q) && !IsWaiting(t, q))
            && (!IsLive(s, q) ==> !IsLive(t, q) && t.runs[q] == s.runs[q])
    decreases |evs|
  {
    if evs != [] {
      StepKeepsDoomed(s, evs[0], q);
      StepKeepsInv(s, evs[0]);
      StepKeepsInTime(s, evs[0]);
      CancelIsFinal(Step(s, evs[0]), evs[1..], q);
    }
  }

  /** So once a batch has ended after the cancellation, the timer is never called again. */
  lemma CancelledNeverRuns(s: Queue, evs: seq<Event>, more: seq<Event>, q: nat)
    requires Inv(s) && InTime(s) && Legal(s, evs) && IsDoomed(s, q)
    requires Run(s, evs).phase.Idle? && Legal(Run(s, evs), more)
    ensures Run(Run(s, evs), more).runs[q] == Run(s, evs).runs[q]
  {
    RunKeepsInv(s, evs);
    CancelIsFinal(s, evs, q);
    CancelIsFinal(Run(s, evs), more, q);
  }

  // --------------------------------------------------------------- other promises

  /** An id whose timer is gone affects nothing, now or later, though its address may be in use again. */
  lemma StaleCancelIsHarmless(s: Queue, id: TimerId)
    requires Inv(s) && !(IsLive(s, id.sequence) && s.issued[id.sequence].addr == id.addr)
    ensures var t := CancelInLoop(s, id);
            && Abstract(t) == Abstract(s)
            && t.heap == s.heap && t.timers == s.timers && t.active == s.active && t.freed == s.freed
  {
    CancelRefines(s, id);
  }

  /** A callback runs on a timer that is live: not yet freed. */
  lemma CallsOnlyLiveTimers(s: Queue)
    requires Inv(s) && Enabled(s, Call)
    ensures s.phase.expired[s.phase.next].addr in s.heap
    ensures var q := s.heap[s.phase.expired[s.phase.next].addr].sequence;
            && IsLive(s, q) && s.freed[q] == 0
            && RunNext(s).runs == s.runs + multiset{q}
  {
    assert s.phase.expired[s.phase.next] in Batch(s);
  }

  /** The sequence number of entry `i` of the batch. */
  function SequenceAt(s: Queue, i: nat): nat
    requires i < |Batch(s)| && Batch(s)[i].addr in s.heap
  {
    s.heap[Batch(s)[i].addr].sequence
  }

  lemma SequencesAreDistinct(s: Queue, i: nat, j: nat)
    requires Inv(s) && i < |Batch(s)| && j < |Batch(s)|
    ensures Batch(s)[i].addr in s.heap && Batch(s)[j].addr in s.heap
    ensures SequenceAt(s, i) == SequenceAt(s, j) <==> i == j
  {
    assert Batch(s)[i] in Batch(s) && Batch(s)[j] in Batch(s);
  }

  /** No step but the end of the batch touches its timers, and only a call counts. */
  lemma StepKeepsBatch(s: Queue, ev: Event, i: nat)
    requires Inv(s) && s.phase.Calling? && Enabled(s, ev) && !ev.Finish? && i < |s.phase.expired|
    ensures s.phase.expired[i].addr in s.heap
    ensures var t := Step(s, ev);
            && t.phase.Calling? && t.phase.expired == s.phase.expired && s.phase.next <= t.phase.next
            && s.phase.expired[i].addr in t.heap && SequenceAt(t, i) == SequenceAt(s, i)
            && t.runs[SequenceAt(s, i)]
               == s.runs[SequenceAt(s, i)] + (if s.phase.next <= i < t.phase.next then 1 else 0)
  {
    assert s.phase.expired[i] in Batch(s);
    if ev.Call? {
      SequencesAreDistinct(s, i, s.phase.next);
    }
  }

  /** During a batch each of its timers is called once, in order, and never twice, whatever the callbacks
      add and cancel. */
  lemma {:induction false} EachIsCalledOnce(s: Queue, evs: seq<Event>, i: nat)
    requires Inv(s) && s.phase.Calling? && Legal(s, evs) && Finishes(evs) == 0 && i < |s.phase.expired|
    ensures s.phase.expired[i].addr in s.heap
    ensures var t, q := Run(s, evs), SequenceAt(s, i);
            && t.phase.Calling? && t.phase.expired == s.phase.expired && s.phase.next <= t.phase.next
            && t.runs[q] == s.runs[q] + (if s.phase.next <= i < t.phase.next then 1 else 0)
    decreases |evs|
  {
    assert s.phase.expired[i] in Batch(s);
    if evs != [] {
      StepKeepsBatch(s, evs[0], i);
      StepKeepsInv(s, evs[0]);
      EachIsCalledOnce(Step(s, evs[0]), evs[1..], i);
    }
  }

  function Finishes(evs: seq<Event>): nat {
    if evs == [] then 0 else (if evs[0].Finish? then 1 else 0) + Finishes(evs[1..])
  }

  lemma DueIsInBatch(s: Queue, now: int, consumed: bool, e: Entry) returns (i: nat)
    requires Inv(s) && Enabled(s, Expire(now, consumed)) && e in s.timers && e.when <= now
    ensures e.addr in s.heap
    ensures var t := Step(s, Expire(now, consumed));
            && Inv(t) && t.phase.Calling? && t.phase.next == 0 && i < |t.phase.expired|
            && t.heap == s.heap && t.runs == s.runs && t.issued == s.issued && t.phase.now == now
            && t.phase.expired[i] == e && SequenceAt(t, i) == s.heap[e.addr].sequence
  {
    var t := Step(s, Expire(now, consumed));
    ExpiredAreTheDue(s, now, consumed);
    StepKeepsInv(s, Expire(now, consumed));
    assert e in Batch(t);
    i :| 0 <= i < |Batch(t)| && Batch(t)[i] == e;
  }

  /** So from the collection of the due timers to the end of the batch: once each. */
  lemma DueAreCalledOnce(s: Queue, now: int, consumed: bool, evs: seq<Event>, clock: int, e: Entry)
    requires Inv(s) && Enabled(s, Expire(now, consumed)) && e in s.timers && e.when <= now
    requires var t := Step(s, Expire(now, consumed));
             Legal(t, evs) && Finishes(evs) == 0 && Enabled(Run(t, evs), Finish(clock))
    ensures e.addr in s.heap
    ensures var q := s.heap[e.addr].sequence;
            Step(Run(Step(s, Expire(now, consumed)), evs), Finish(clock)).runs[q] == s.runs[q] + 1
  {
    var t := Step(s, Expire(now, consumed));
    var i := DueIsInBatch(s, now, consumed, e);
    EachIsCalledOnce(t, evs, i);
    ResetAllCallsNothing(Run(t, evs));
  }

  lemma {:induction false} BatchGoesOn(s: Queue, evs: seq<Event>, i: nat)
    requires Inv(s) && InTime(s) && s.phase.Calling? && Legal(s, evs) && Finishes(evs) == 0 && i < |s.phase.expired|
    ensures s.phase.expired[i].addr in s.heap && SequenceAt(s, i) in s.issued
    ensures var t, q := Run(s, evs), SequenceAt(s, i);
            && Inv(t) && InTime(t) && t.phase.Calling? && t.phase.now == s.phase.now
            && IsExpiring(t, q) && t.issued[q] == s.issued[q]
            && s.phase.expired[i].addr !in t.queued && t.issued[q].addr == s.phase.expired[i].addr
    decreases |evs|
  {
    assert s.phase.expired[i] in Batch(s);
    if evs != [] {
      StepKeepsBatch(s, evs[0], i);
      StepKeepsNow(s, evs[0]);
      StepKeepsInv(s, evs[0]);
      StepKeepsInTime(s, evs[0]);
      BatchGoesOn(Step(s, evs[0]), evs[1..], i);
    }
  }

  lemma StepKeepsNow(s: Queue, ev: Event)
    requires Inv(s) && s.phase.Calling? && Enabled(s, ev) && !ev.Finish?
    ensures var t := Step(s, ev);
            && t.phase.Calling? && t.phase.now == s.phase.now
            && forall q | q in s.issued :: q in t.issued && t.issued[q] == s.issued[q]
  {
  }

  lemma {:induction false} ResetAllKeepsQueued(s: Queue)
    requires s.phase.Calling?
    ensures ResetAll(s).queued == s.queued && ResetAll(s).issued == s.issued
    decreases |s.phase.expired|
  {
    if s.phase.expired != [] {
      ResetAllKeepsQueued(ResetFirst(s));
    }
  }

  lemma FinishSettles(s: Queue, clock: int, q: nat)
    requires Inv(s) && InTime(s) && Enabled(s, Finish(clock)) && IsExpiring(s, q) && s.issued[q].addr !in s.queued
    ensures var t := Step(s, Finish(clock));
            && (IsWaiting(t, q) <==> s.issued[q].interval > 0 && !IsCanceled(s, q))
            && (IsWaiting(t, q) ==> Expiration(t, q) == s.phase.now + s.issued[q].interval)
            && (!IsWaiting(t, q) ==> !IsLive(t, q))
  {
    var t := Step(s, Finish(clock));
    StepKeepsInv(s, Finish(clock));
    StepRefines(s, Finish(clock));
    ResetAllKeepsQueued(s);
    ResetAllKeepsInv(s);
    assert q in Abstract(s).batch && q !in Abstract(s).waiting by {
      if IsWaiting(s, q) {
        WaitingIsLive(s, q);
      }
    }
    assert q in Again(Abstract(s)) <==> s.issued[q].interval > 0 && !IsCanceled(s, q);
    assert IsWaiting(t, q) <==> q in Abstract(t).waiting;
    if IsLive(t, q) && !IsWaiting(t, q) {
      LiveIsSomewhere(t, q);
    }
  }

  lemma LiveIsSomewhere(s: Queue, q: nat)
    requires Inv(s) && s.phase.Idle? && IsLive(s, q)
    ensures IsWaiting(s, q) || s.issued[q].addr in s.queued
  {
  }

  /** At the end of the batch in which it was due, a repeating timer that was not cancelled waits again, one
      interval after the time the batch was collected for; any other is freed. */
  lemma DueAreSettled(s: Queue, now: int, consumed: bool, evs: seq<Event>, clock: int, e: Entry)
    requires Inv(s) && InTime(s) && Enabled(s, Expire(now, consumed)) && e in s.timers && e.when <= now
    requires var t := Step(s, Expire(now, consumed));
             Legal(t, evs) && Finishes(evs) == 0 && Enabled(Run(t, evs), Finish(clock))
    ensures e.addr in s.heap && s.heap[e.addr].sequence in s.issued
    ensures var q, t := s.heap[e.addr].sequence, Run(Step(s, Expire(now, consumed)), evs);
            var u := Step(t, Finish(clock));
            && (IsWaiting(u, q) <==> s.issued[q].interval > 0 && !IsCanceled(t, q))
            && (IsWaiting(u, q) ==> Expiration(u, q) == now + s.issued[q].interval)
            && (!IsWaiting(u, q) ==> !IsLive(u, q))
  {
    var t := Step(s, Expire(now, consumed));
    StepKeepsInTime(s, Expire(now, consumed));
    var i := DueIsInBatch(s, now, consumed, e);
    BatchGoesOn(t, evs, i);
    FinishSettles(Run(t, evs), clock, s.heap[e.addr].sequence);
  }

  // ---------------------------------------------------------------- the timerfd's time

  lemma FirstIs(s: set<Entry>, e: Entry)
    requires IsLeast(e, s)
    ensures First(s) == e
  {
  }

  /** A timer that expires before all waiting ones has the timerfd set for it, exactly then. */
  lemma AddArms(s: Queue, id: TimerId, clock: int)
    requires Inv(s) && Enabled(s, AddTimer(id, clock))
    ensures var t, when := Step(s, AddTimer(id, clock)), s.heap[id.addr].expiration;
            if forall e | e in s.timers :: when < e.when then
              t.armed == ResetTimerfd(when, clock) && First(t.timers).when == when
            else t.armed == s.armed
  {
    var t, e := Step(s, AddTimer(id, clock)), EntryOf(s, id.addr);
    if forall f | f in s.timers :: e.when < f.when {
      assert IsLeast(e, t.timers);
      FirstIs(t.timers, e);
    } else {
      var f :| f in s.timers && f.when <= e.when;
      assert First(s.timers) == f || Less(First(s.timers), f);
    }
  }

  /** At the end of a batch the timerfd is set for the earliest waiting timer, no sooner and no later, if
      that lies after the epoch; otherwise it stays as it is. */
  lemma FinishArms(s: Queue, clock: int)
    requires Inv(s) && Enabled(s, Finish(clock))
    ensures var t := Step(s, Finish(clock));
            if t.timers != {} && First(t.timers).when > 0 then t.armed == ResetTimerfd(First(t.timers).when, clock)
            else t.armed == s.armed
  {
    ResetAllKeepsArmed(s);
  }

  lemma {:induction false} ResetAllKeepsArmed(s: Queue)
    requires s.phase.Calling?
    ensures ResetAll(s).armed == s.armed
    decreases |s.phase.expired|
  {
    if s.phase.expired != [] {
      ResetAllKeepsArmed(ResetFirst(s));
    }
  }

  /** So the timerfd is only ever set for what is then the earliest waiting timer, and reading it when
      it has fired, and nothing else, disarms it. */
  lemma ArmedForEarliest(s: Queue, ev: Event)
    requires Inv(s) && Enabled(s, ev)
    ensures var t := Step(s, ev);
            || t.armed == s.armed
            || (ev.Expire? && ev.consumed && t.armed == Disarmed)
            || (t.timers != {} && t.armed.Armed? && t.armed.target == First(t.timers).when)
    ensures ev.Expire? && ev.consumed ==> Step(s, ev).armed == Disarmed
  {
    match ev
    case AddTimer(id, clock) => AddArms(s, id, clock);
    case Finish(clock) => FinishArms(s, clock);
    case _ =>
  }

  /** `getExpired` returns exactly the timers due, in order, and leaves exactly the others. */
  lemma ExpiredAreTheDue(s: Queue, now: int, consumed: bool)
    requires Inv(s) && s.phase.Idle?
    ensures var t := BeginExpiry(s, now, consumed);
            && (forall e :: e in Batch(t) <==> e in s.timers && e.when <= now)
            && (forall i, j | 0 <= i < j < |Batch(t)| :: Less(Batch(t)[i], Batch(t)[j]))
            && (forall e :: e in t.timers <==> e in s.timers && e.when > now)
  {
    DueIsUpToNow(s, now);
    InOrderMembers(Due(s.timers, now));
  }

  /** The program's size assertions: both sets have the same number of elements. */
  lemma SizesAgree(s: Queue)
    requires SetsAgree(s)
    ensures |s.timers| == |s.active|
  {
    CountEntries(s, s.timers, s.active);
  }

  lemma {:induction false} CountEntries(s: Queue, timers: set<Entry>, active: set<TimerId>)
    requires forall e | e in timers :: e.addr in s.heap && e == EntryOf(s, e.addr) && IdOf(s, e.addr) in active
    requires forall id | id in active :: id.addr in s.heap && id == IdOf(s, id.addr) && EntryOf(s, id.addr) in timers
    ensures |timers| == |active|
  {
    if timers == {} {
      assert active == {};
    } else {
      var e :| e in timers;
      CountEntries(s, timers - {e}, active - {IdOf(s, e.addr)});
    }
  }

  /** In every run: the sets agree, every timer created is live or has been freed once, and between
      expiries a non-empty queue has its timerfd set for its earliest expiration or sooner, whatever was
      cancelled. */
  lemma EveryRun(evs: seq<Event>)
    requires Legal(EMPTY, evs)
    ensures var s := Run(EMPTY, evs);
            && SetsAgree(s) && |s.timers| == |s.active|
            && (forall q :: s.freed[q] == if q in s.issued && !IsLive(s, q) then 1 else 0)
            && (s.phase.Idle? && s.timers != {} ==> SetFor(s.armed, First(s.timers).when))
            && Abstract(s) == PlainRun(Abstract(EMPTY), evs)
  {
    assert Inv(EMPTY) && InTime(EMPTY);
    RunKeepsInv(EMPTY, evs);
    RunRefines(EMPTY, evs);
    SizesAgree(Run(EMPTY, evs));
  }

  // ----------------------------------------------------------------- the timespec

  /** `howMuchTimeFromNow`: whole seconds and the rest in nanoseconds. */
  function Seconds(when: int, clock: int): int {
    Delay(when, clock) / 1000000
  }

  function Nanoseconds(when: int, clock: int): int {
    Delay(when, clock) % 1000000 * 1000
  }

  /** The time set is in normal form, never zero (which would disarm the timer), and makes the timerfd
      fire at the expiration, or 100 microseconds from now when that is too close. */
  lemma TimespecIsExact(when: int, clock: int)
    ensures 0 <= Nanoseconds(when, clock) < 1000000000 && 0 <= Seconds(when, clock)
    ensures Seconds(when, clock) > 0 || Nanoseconds(when, clock) > 0
    ensures clock * 1000 + Seconds(when, clock) * 1000000000 + Nanoseconds(when, clock)
            == ResetTimerfd(when, clock).fires * 1000
    ensures ResetTimerfd(when, clock).fires == if when < clock + 100 then clock + 100 else when
  {
  }
}
