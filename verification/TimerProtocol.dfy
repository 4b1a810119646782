/** The timer queue of an event loop (Timer/TimerQueue.cpp) as a state machine. Timers live at addresses
    that are reused once freed; only sequence numbers are never repeated. A callback is whatever happens
    between one `RunNext` and the next step of the expiry: it may add and cancel any timers. */
module TimerProtocol {

  type Addr = nat
  const SENTRY: Addr := 0xFFFF_FFFF_FFFF_FFFF  // UINTPTR_MAX, no object's address

  /** Times are microseconds since the epoch; only positive ones are `valid`. */
  datatype Timer = Timer(expiration: int, interval: int, sequence: nat)
  datatype TimerId = TimerId(addr: Addr, sequence: nat)
  datatype Entry = Entry(when: int, addr: Addr)

  /** How a timer was created: where, for when, repeating every how many microseconds (0: not at all). */
  datatype Issue = Issue(addr: Addr, when: int, interval: int)

  /** Inside `handleRead`: the expired timers, the time they were collected for, the next to run. */
  datatype Phase = Idle | Calling(expired: seq<Entry>, now: int, next: nat)

  /** The timerfd: set for which expiration, firing when. */
  datatype Arming = Disarmed | Armed(target: int, fires: int)

  /** `queued`: created, and not yet inserted by the loop thread. `issued`, `freed` and `runs` record
      every timer created, every `delete` and every call. */
  datatype Queue = Queue(
    heap: map<Addr, Timer>, created: nat, queued: set<Addr>,
    timers: set<Entry>, active: set<TimerId>, canceling: set<TimerId>, phase: Phase, armed: Arming,
    issued: map<nat, Issue>, freed: multiset<nat>, runs: multiset<nat>)

  const EMPTY := Queue(map[], 0, {}, {}, {}, {}, Idle, Disarmed, map[], multiset{}, multiset{})

  // ------------------------------------------------------------- the ordered set

  predicate Less(e: Entry, f: Entry) {
    e.when < f.when || (e.when == f.when && e.addr < f.addr)
  }

  predicate IsLeast(e: Entry, s: set<Entry>) {
    e in s && forall f | f in s :: e == f || Less(e, f)
  }

  lemma LeastExists(s: set<Entry>)
    requires s != {}
    ensures exists e :: IsLeast(e, s)
  {
    var e :| e in s;
    if s == {e} {
      assert IsLeast(e, s);
    } else {
      var rest := s - {e};
      LeastExists(rest);
      var f :| IsLeast(f, rest);
      assert s == rest + {e};
      assert IsLeast(if Less(e, f) then e else f, s);
    }
  }

  /** `*timers_.begin()` */
  function First(s: set<Entry>): (e: Entry)
    requires s != {}
    ensures IsLeast(e, s)
  {
    LeastExists(s);
    var e :| IsLeast(e, s);
    e
  }

  function InOrder(s: set<Entry>): seq<Entry> {
    if s == {} then [] else [First(s)] + InOrder(s - {First(s)})
  }

  /** The entries before the sentry, which `lower_bound` finds. */
  function Due(s: set<Entry>, now: int): set<Entry> {
    set e | e in s && Less(e, Entry(now, SENTRY))
  }

  // ------------------------------------------------------------------------ steps

  function IdOf(s: Queue, addr: Addr): TimerId
    requires addr in s.heap
  {
    TimerId(addr, s.heap[addr].sequence)
  }

  function EntryOf(s: Queue, addr: Addr): Entry
    requires addr in s.heap
  {
    Entry(s.heap[addr].expiration, addr)
  }

  /** `howMuchTimeFromNow`, in microseconds. */
  function Delay(when: int, clock: int): int {
    if when - clock < 100 then 100 else when - clock
  }

  function ResetTimerfd(when: int, clock: int): Arming {
    Armed(when, clock + Delay(when, clock))
  }

  function Create(s: Queue, addr: Addr, when: int, interval: int): Queue {
    var q := s.created + 1;
    s.(heap := s.heap[addr := Timer(when, interval, q)], created := q, queued := s.queued + {addr},
       issued := s.issued[q := Issue(addr, when, interval)])
  }

  function Insert(s: Queue, addr: Addr): Queue
    requires addr in s.heap
  {
    s.(timers := s.timers + {EntryOf(s, addr)}, active := s.active + {IdOf(s, addr)})
  }

  predicate EarliestChanged(s: Queue, when: int) {
    s.timers == {} || when < First(s.timers).when
  }

  function AddTimerInLoop(s: Queue, addr: Addr, clock: int): Queue {
    if addr !in s.heap then s
    else
      var when := s.heap[addr].expiration;
      var t := Insert(s, addr).(queued := s.queued - {addr});
      if EarliestChanged(s, when) then t.(armed := ResetTimerfd(when, clock)) else t
  }

  function Delete(s: Queue, addr: Addr): Queue
    requires addr in s.heap
  {
    s.(heap := s.heap - {addr}, freed := s.freed + multiset{s.heap[addr].sequence})
  }

  function CancelInLoop(s: Queue, id: TimerId): Queue {
    if id in s.active && id.addr in s.heap then
      Delete(s.(timers := s.timers - {EntryOf(s, id.addr)}, active := s.active - {id}), id.addr)
    else if s.phase.Calling? then s.(canceling := s.canceling + {id})
    else s
  }

  function IdsOf(s: Queue, entries: set<Entry>): set<TimerId> {
    set e | e in entries && e.addr in s.heap :: IdOf(s, e.addr)
  }

  /** `getExpired`, and the start of the calls; `consumed`: reading the timerfd found it fired. */
  function BeginExpiry(s: Queue, now: int, consumed: bool): Queue {
    var due := Due(s.timers, now);
    s.(timers := s.timers - due,
       active := s.active - IdsOf(s, due),
       canceling := {}, phase := Calling(InOrder(due), now, 0),
       armed := if consumed then Disarmed else s.armed)
  }

  function RunNext(s: Queue): Queue {
    if s.phase.Calling? && s.phase.next < |s.phase.expired| && s.phase.expired[s.phase.next].addr in s.heap then
      s.(phase := s.phase.(next := s.phase.next + 1),
         runs := s.runs + multiset{s.heap[s.phase.expired[s.phase.next].addr].sequence})
    else s
  }

  /** Repeating, and not cancelled during the calls. */
  predicate StartsAgain(s: Queue, addr: Addr) {
    addr in s.heap && s.heap[addr].interval > 0 && IdOf(s, addr) !in s.canceling
  }

  /** `reset` on the first expired timer: it starts again, or it is freed. */
  function ResetFirst(s: Queue): Queue
    requires s.phase.Calling? && s.phase.expired != []
  {
    var addr, now := s.phase.expired[0].addr, s.phase.now;
    var s := s.(phase := s.phase.(expired := s.phase.expired[1..]));
    if addr !in s.heap then s
    else if StartsAgain(s, addr) then
      Insert(s.(heap := s.heap[addr := s.heap[addr].(expiration := now + s.heap[addr].interval)]), addr)
    else Delete(s, addr)
  }

  function ResetAll(s: Queue): Queue
    requires s.phase.Calling?
    decreases |s.phase.expired|
  {
    if s.phase.expired == [] then s.(phase := Idle) else ResetAll(ResetFirst(s))
  }

  function Rearm(s: Queue, clock: int): Queue {
    if s.timers != {} && First(s.timers).when > 0 then
      s.(armed := ResetTimerfd(First(s.timers).when, clock))
    else s
  }

  function EndExpiry(s: Queue, clock: int): Queue {
    if s.phase.Calling? then Rearm(ResetAll(s), clock) else s
  }

  datatype Event =
    | CreateTimer(addr: Addr, when: int, interval: int)     // addTimer, any thread
    | AddTimer(id: TimerId, clock: int)                     // addTimerInLoop
    | Cancel(id: TimerId)                                   // cancelInLoop
    | Expire(now: int, consumed: bool)                      // handleRead, up to the calls
    | Call                                                  // the next expired timer
    | Finish(clock: int)                                    // handleRead, after the calls

  predicate Enabled(s: Queue, ev: Event) {
    match ev
    case CreateTimer(addr, _, _) => addr !in s.heap && 0 < addr < SENTRY
    case AddTimer(id, _) => id.addr in s.queued && id.addr in s.heap && id == IdOf(s, id.addr)
    case Cancel(_) => true
    case Expire(now, _) => s.phase.Idle? && now > 0
    case Call => s.phase.Calling? && s.phase.next < |s.phase.expired|
    case Finish(_) => s.phase.Calling? && s.phase.next == |s.phase.expired|
  }

  function Step(s: Queue, ev: Event): Queue {
    match ev
    case CreateTimer(addr, when, interval) => Create(s, addr, when, interval)
    case AddTimer(id, clock) => AddTimerInLoop(s, id.addr, clock)
    case Cancel(id) => CancelInLoop(s, id)
    case Expire(now, consumed) => BeginExpiry(s, now, consumed)
    case Call => RunNext(s)
    case Finish(clock) => EndExpiry(s, clock)
  }

  predicate Legal(s: Queue, evs: seq<Event>)
    decreases |evs|
  {
    evs == [] || (Enabled(s, evs[0]) && Legal(Step(s, evs[0]), evs[1..]))
  }

  function Run(s: Queue, evs: seq<Event>): Queue
    decreases |evs|
  {
    if evs == [] then s else Run(Step(s, evs[0]), evs[1..])
  }

  // ------------------------------------------------------------------ invariants

  function Batch(s: Queue): seq<Entry> {
    if s.phase.Calling? then s.phase.expired else []
  }

  /** Both sets index the same timers, each under its current expiration. */
  predicate SetsAgree(s: Queue) {
    && (forall e | e in s.timers :: e.addr in s.heap && e == EntryOf(s, e.addr) && IdOf(s, e.addr) in s.active)
    && (forall id | id in s.active :: id.addr in s.heap && id == IdOf(s, id.addr) && EntryOf(s, id.addr) in s.timers)
  }

  /** Every live timer is in exactly one place: waiting for insertion, in the sets, or expired. */
  predicate OnePlaceEach(s: Queue) {
    && s.queued <= s.heap.Keys
    && (forall a | a in s.heap :: a in s.queued || EntryOf(s, a) in s.timers || EntryOf(s, a) in Batch(s))
    && (forall e | e in s.timers :: e.addr !in s.queued)
    && (forall e | e in Batch(s) ::
          e.addr in s.heap && e == EntryOf(s, e.addr) && e.addr !in s.queued && e !in s.timers)
    && (forall i, j | 0 <= i < j < |Batch(s)| :: Batch(s)[i] != Batch(s)[j])
  }

  predicate IsLive(s: Queue, q: nat) {
    q in s.issued && s.issued[q].addr in s.heap && s.heap[s.issued[q].addr].sequence == q
  }

  /** Sequence numbers identify timers, and each timer is freed once: when it stops being live. */
  ghost predicate FreedOnce(s: Queue) {
    && (forall q | q in s.issued :: 1 <= q <= s.created)
    && (forall a | a in s.heap :: IsLive(s, s.heap[a].sequence) && s.issued[s.heap[a].sequence].addr == a)
    && (forall a | a in s.heap :: 0 < a < SENTRY && s.heap[a].interval == s.issued[s.heap[a].sequence].interval)
    && (forall a | a in s.queued && a in s.heap :: s.heap[a].expiration == s.issued[s.heap[a].sequence].when)
    && (forall q :: s.freed[q] == if q in s.issued && !IsLive(s, q) then 1 else 0)
  }

  predicate SetFor(armed: Arming, when: int) {
    armed.Armed? && armed.target <= when
  }

  /** Idle: the timerfd is set for every timer. During the calls it need only be set for those that
      `reset` will not set it for. */
  predicate InTime(s: Queue) {
    forall e | e in s.timers :: s.phase.Idle? || e.when <= 0 ==> SetFor(s.armed, e.when)
  }

  ghost predicate Inv(s: Queue) {
    SetsAgree(s) && OnePlaceEach(s) && FreedOnce(s) && (s.phase.Calling? ==> s.phase.now > 0)
  }

  // ------------------------------------------------------------------------ proofs

  lemma {:induction false} InOrderMembers(s: set<Entry>)
    ensures forall e :: e in InOrder(s) <==> e in s
    ensures forall i, j | 0 <= i < j < |InOrder(s)| :: Less(InOrder(s)[i], InOrder(s)[j])
  {
    if s != {} {
      var e := First(s);
      InOrderMembers(s - {e});
      assert s == {e} + (s - {e});
    }
  }

  lemma DueIsUpToNow(s: Queue, now: int)
    requires SetsAgree(s) && FreedOnce(s)
    ensures forall e :: e in Due(s.timers, now) <==> e in s.timers && e.when <= now
  {
  }

  lemma CreateKeepsSets(s: Queue, addr: Addr, when: int, interval: int)
    requires SetsAgree(s) && OnePlaceEach(s) && addr !in s.heap
    ensures SetsAgree(Create(s, addr, when, interval)) && OnePlaceEach(Create(s, addr, when, interval))
  {
    var t := Create(s, addr, when, interval);
    assert Batch(t) == Batch(s);
  }

  lemma CreateKeepsFreed(s: Queue, addr: Addr, when: int, interval: int)
    requires FreedOnce(s) && addr !in s.heap && 0 < addr < SENTRY
    ensures FreedOnce(Create(s, addr, when, interval))
  {
    var t := Create(s, addr, when, interval);
    assert forall q :: IsLive(t, q) <==> IsLive(s, q) || q == t.created;
  }

  lemma CreateKeepsInv(s: Queue, addr: Addr, when: int, interval: int)
    requires Inv(s) && addr !in s.heap && 0 < addr < SENTRY
    ensures Inv(Create(s, addr, when, interval))
  {
    CreateKeepsSets(s, addr, when, interval);
    CreateKeepsFreed(s, addr, when, interval);
  }

  lemma InsertQueuedKeepsInv(s: Queue, addr: Addr)
    requires Inv(s) && addr in s.queued
    ensures Inv(Insert(s, addr).(queued := s.queued - {addr}))
  {
    var t := Insert(s, addr).(queued := s.queued - {addr});
    assert SetsAgree(t);
    assert OnePlaceEach(t);
    assert FreedOnce(t) by {
      assert forall q :: IsLive(t, q) <==> IsLive(s, q);
    }
  }

  lemma ArmedKeepsInv(s: Queue, armed: Arming)
    requires Inv(s)
    ensures Inv(s.(armed := armed))
  {
    var t := s.(armed := armed);
    assert Batch(t) == Batch(s);
    assert forall q :: IsLive(t, q) <==> IsLive(s, q);
  }

  lemma AddKeepsInv(s: Queue, id: TimerId, clock: int)
    requires Inv(s) && Enabled(s, AddTimer(id, clock))
    ensures Inv(AddTimerInLoop(s, id.addr, clock))
  {
    InsertQueuedKeepsInv(s, id.addr);
    ArmedKeepsInv(Insert(s, id.addr).(queued := s.queued - {id.addr}),
                  ResetTimerfd(s.heap[id.addr].expiration, clock));
  }

  lemma CancelActiveKeepsInv(s: Queue, id: TimerId)
    requires Inv(s) && id in s.active
    ensures Inv(CancelInLoop(s, id))
  {
    var t := CancelInLoop(s, id);
    assert SetsAgree(t);
    assert OnePlaceEach(t);
    assert FreedOnce(t) by {
      assert forall q :: IsLive(t, q) <==> IsLive(s, q) && q != id.sequence;
    }
  }

  lemma CancelOtherKeepsInv(s: Queue, canceling: set<TimerId>)
    requires Inv(s)
    ensures Inv(s.(canceling := canceling))
  {
    var t := s.(canceling := canceling);
    assert Batch(t) == Batch(s);
    assert forall q :: IsLive(t, q) <==> IsLive(s, q);
  }

  lemma CancelKeepsInv(s: Queue, id: TimerId)
    requires Inv(s)
    ensures Inv(CancelInLoop(s, id))
  {
    if id in s.active {
      CancelActiveKeepsInv(s, id);
    } else {
      CancelOtherKeepsInv(s, s.canceling + {id});
    }
  }

  lemma BeginKeepsInv(s: Queue, now: int, consumed: bool)
    requires Inv(s) && s.phase.Idle? && now > 0
    ensures Inv(BeginExpiry(s, now, consumed))
  {
    DueIsUpToNow(s, now);
    InOrderMembers(Due(s.timers, now));
  }

  /** The first expired timer and what remains of the batch without it. */
  lemma RestOfBatch(s: Queue)
    requires OnePlaceEach(s) && s.phase.Calling? && s.phase.expired != []
    ensures var e, rest := s.phase.expired[0], s.phase.expired[1..];
            && e.addr in s.heap && e !in rest && (forall f | f in Batch(s) :: f == e || f in rest)
            && (forall f | f in rest :: f in Batch(s) && f.addr != e.addr)
            && (forall i, j | 0 <= i < j < |rest| :: rest[i] != rest[j])
  {
    var e, rest := s.phase.expired[0], s.phase.expired[1..];
    forall i | 0 <= i < |rest|
      ensures rest[i] != e && rest[i].addr != e.addr
    {
      assert rest[i] == Batch(s)[i + 1] && rest[i] in Batch(s) && e in Batch(s);
    }
  }

  lemma RestartKeepsSets(s: Queue)
    requires SetsAgree(s) && OnePlaceEach(s) && s.phase.Calling? && s.phase.expired != []
    requires StartsAgain(s, s.phase.expired[0].addr)
    ensures SetsAgree(ResetFirst(s))
  {
    RestOfBatch(s);
    assert s.phase.expired[0] in Batch(s);
  }

  lemma RestartKeepsPlaces(s: Queue)
    requires SetsAgree(s) && OnePlaceEach(s) && s.phase.Calling? && s.phase.expired != []
    requires StartsAgain(s, s.phase.expired[0].addr)
    ensures OnePlaceEach(ResetFirst(s))
  {
    RestOfBatch(s);
    assert s.phase.expired[0] in Batch(s);
  }

  lemma RestartKeepsFreed(s: Queue)
    requires FreedOnce(s) && OnePlaceEach(s) && s.phase.Calling? && s.phase.expired != []
    requires StartsAgain(s, s.phase.expired[0].addr)
    ensures FreedOnce(ResetFirst(s))
  {
    assert s.phase.expired[0] in Batch(s);
    assert forall q :: IsLive(ResetFirst(s), q) <==> IsLive(s, q);
  }

  lemma FreeKeepsSets(s: Queue)
    requires SetsAgree(s) && OnePlaceEach(s) && s.phase.Calling? && s.phase.expired != []
    requires !StartsAgain(s, s.phase.expired[0].addr)
    ensures SetsAgree(ResetFirst(s)) && OnePlaceEach(ResetFirst(s))
  {
    RestOfBatch(s);
    assert s.phase.expired[0] in Batch(s);
  }

  lemma FreeKeepsFreed(s: Queue)
    requires FreedOnce(s) && OnePlaceEach(s) && s.phase.Calling? && s.phase.expired != []
    requires !StartsAgain(s, s.phase.expired[0].addr)
    ensures FreedOnce(ResetFirst(s))
  {
    assert s.phase.expired[0] in Batch(s);
    var q0 := s.heap[s.phase.expired[0].addr].sequence;
    assert forall q :: IsLive(ResetFirst(s), q) <==> IsLive(s, q) && q != q0;
  }

  lemma ResetFirstKeepsInv(s: Queue)
    requires Inv(s) && s.phase.Calling? && s.phase.expired != []
    ensures Inv(ResetFirst(s))
  {
    if StartsAgain(s, s.phase.expired[0].addr) {
      RestartKeepsSets(s);
      RestartKeepsPlaces(s);
      RestartKeepsFreed(s);
    } else {
      FreeKeepsSets(s);
      FreeKeepsFreed(s);
    }
  }

  lemma {:induction false} ResetAllKeepsInv(s: Queue)
    requires Inv(s) && s.phase.Calling?
    ensures Inv(ResetAll(s)) && ResetAll(s).phase.Idle?
    decreases |s.phase.expired|
  {
    if s.phase.expired != [] {
      ResetFirstKeepsInv(s);
      ResetAllKeepsInv(ResetFirst(s));
    } else {
      var t := s.(phase := Idle);
      assert forall q :: IsLive(t, q) <==> IsLive(s, q);
    }
  }

  lemma CallKeepsInv(s: Queue)
    requires Inv(s) && s.phase.Calling?
    ensures Inv(RunNext(s))
  {
    var t := RunNext(s);
    assert Batch(t) == Batch(s);
    assert forall q :: IsLive(t, q) <==> IsLive(s, q);
  }

  lemma StepKeepsInv(s: Queue, ev: Event)
    requires Inv(s) && Enabled(s, ev)
    ensures Inv(Step(s, ev))
  {
    match ev
    case CreateTimer(addr, when, interval) => CreateKeepsInv(s, addr, when, interval);
    case AddTimer(id, clock) => AddKeepsInv(s, id, clock);
    case Cancel(id) => CancelKeepsInv(s, id);
    case Expire(now, consumed) => BeginKeepsInv(s, now, consumed);
    case Call => CallKeepsInv(s);
    case Finish(clock) =>
      ResetAllKeepsInv(s);
      var t := ResetAll(s);
      if t.timers != {} {
        ArmedKeepsInv(t, ResetTimerfd(First(t.timers).when, clock));
      }
  }

  // The timerfd.

  lemma StepKeepsInTime(s: Queue, ev: Event)
    requires Inv(s) && InTime(s) && Enabled(s, ev)
    ensures InTime(Step(s, ev))
  {
    match ev
    case AddTimer(id, clock) => AddKeepsInTime(s, id, clock);
    case Expire(now, consumed) => DueIsUpToNow(s, now);
    case Finish(clock) =>
      ResetAllKeepsInv(s);
      ResetAllIsLate(s);
      RearmIsInTime(ResetAll(s), clock);
    case _ =>
  }

  lemma AddKeepsInTime(s: Queue, id: TimerId, clock: int)
    requires SetsAgree(s) && InTime(s) && Enabled(s, AddTimer(id, clock))
    ensures InTime(AddTimerInLoop(s, id.addr, clock))
  {
  }

  /** What `reset` inserts lies in the future, so nothing non-positive is new. */
  lemma {:induction false} ResetAllIsLate(s: Queue)
    requires Inv(s) && InTime(s) && s.phase.Calling?
    ensures forall e | e in ResetAll(s).timers && e.when <= 0 :: SetFor(ResetAll(s).armed, e.when)
    decreases |s.phase.expired|
  {
    if s.phase.expired != [] {
      RestOfBatch(s);
      ResetFirstKeepsInv(s);
      assert InTime(ResetFirst(s));
      ResetAllIsLate(ResetFirst(s));
    }
  }

  lemma RearmIsInTime(s: Queue, clock: int)
    requires s.phase.Idle?
    requires forall e | e in s.timers && e.when <= 0 :: SetFor(s.armed, e.when)
    ensures InTime(Rearm(s, clock))
  {
  }

  lemma {:induction false} RunKeepsInv(s: Queue, evs: seq<Event>)
    requires Inv(s) && InTime(s) && Legal(s, evs)
    ensures Inv(Run(s, evs)) && InTime(Run(s, evs))
    decreases |evs|
  {
    if evs != [] {
      StepKeepsInv(s, evs[0]);
      StepKeepsInTime(s, evs[0]);
      RunKeepsInv(Step(s, evs[0]), evs[1..]);
    }
  }
}
