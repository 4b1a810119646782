/** The logger object of Log/AsyncLogging.cpp and .h. Each member is one step of `LogProtocol`; the
    program's assertions are proved where it makes them. */
module AsyncLogging {
  import opened FixedBuffer
  import opened LogProtocol

  class AsyncLogging {
    const size: nat
    var running: bool
    var currentBuffer: BufferPtr
    var nextBuffer: BufferPtr
    var buffers: seq<Buf>
    // the locals of threadFunc
    var phase: Phase
    var newBuffer1: BufferPtr
    var newBuffer2: BufferPtr
    var buffersToWrite: seq<Buf>
    // the file, and the history
    var file: seq<Item>
    ghost var appended: seq<Line>
    ghost var batches: seq<seq<Buf>>

    ghost function State(): Log
      reads this
    {
      Log(size, running, currentBuffer, nextBuffer, buffers, phase, newBuffer1, newBuffer2,
          buffersToWrite, file, appended, batches)
    }

    /** What the program's assertions rest on; the other invariants of `LogProtocol` follow, since every
        state is reached by its steps. */
    ghost predicate Valid()
      reads this
    {
      CanRecycle(State())
    }

    /** A started logger: `running_` is set and the writer has made its spare buffers. */
    constructor (size: nat)
      requires size > 0
      ensures Valid() && State() == Initial(size)
    {
      this.size, running := size, true;
      currentBuffer, nextBuffer, buffers := Some(EMPTY), Some(EMPTY), [];
      phase, newBuffer1, newBuffer2, buffersToWrite := AtTop, Some(EMPTY), Some(EMPTY), [];
      file, appended, batches := [], [], [];
    }

    method AppendLine(line: Line)
      requires Valid()
      modifies this
      ensures Valid() && State() == Step(old(State()), Append(line))
    {
      StepKeepsRecycling(State(), Append(line));
      if |line| < size {
        appended := appended + [line];
      }
      var current := currentBuffer.buf;
      if size - |current.text| > |line| {
        currentBuffer := Some(Put(size, current, line));
      } else {
        buffers := buffers + [current];
        if nextBuffer.Some? {
          currentBuffer, nextBuffer := nextBuffer, None;
        } else {
          currentBuffer := Some(EMPTY);
        }
        currentBuffer := Some(Put(size, currentBuffer.buf, line));
      }
    }

    method RequestStop()
      requires Valid()
      modifies this`running
      ensures Valid() && State() == Step(old(State()), Stop)
    {
      running := false;
    }

    /** The loop's test and the assertions behind it. */
    method Test()
      requires Valid() && phase.AtTop?
      modifies this`phase
      ensures Valid() && State() == Step(old(State()), TestRunning)
    {
      if running {
        assert newBuffer1.Some? && newBuffer1.buf.text == "";
        assert newBuffer2.Some? && newBuffer2.buf.text == "";
        assert buffersToWrite == [];
        phase := Waiting;
      } else {
        phase := Stopped;
      }
    }

    /** The locked section, after the wait. */
    method Take()
      requires Valid() && phase.Waiting?
      modifies this
      ensures Valid() && State() == Step(old(State()), TakeBuffers)
      ensures buffersToWrite != []
    {
      StepKeepsRecycling(State(), TakeBuffers);
      buffers := buffers + [currentBuffer.buf];
      currentBuffer, newBuffer1 := newBuffer1, None;
      buffersToWrite, buffers := buffers, buffersToWrite;
      if nextBuffer.None? {
        nextBuffer, newBuffer2 := newBuffer2, None;
      }
      batches := batches + [buffersToWrite];
      phase := Swapped;
    }

    method DropOverload()
      requires Valid() && phase.Swapped?
      modifies this
      ensures Valid() && State() == Step(old(State()), TestOverload)
    {
      StepKeepsRecycling(State(), TestOverload);
      if |buffersToWrite| > OVERLOAD {
        file := file + [Notice(|buffersToWrite| - 2)];
        buffersToWrite := buffersToWrite[..2];
      }
      phase := Writing(0);
    }

    /** The loop over `buffersToWrite`; `during[i]` is what other threads do after buffer `i` is written. */
    method WriteAll(during: seq<seq<Event>>)
      requires Valid() && phase == Writing(0) && LegalTail(State(), during)
      modifies this
      ensures Valid() && Enabled(State(), RecycleBuffers)
      ensures Step(State(), RecycleBuffers) == Run(old(State()), Tail(during))
    {
      ghost var before := State();
      TailLength(State(), during);
      for i := 0 to |buffersToWrite|
        invariant Valid() && phase == Writing(i)
        invariant buffersToWrite == before.buffersToWrite
        invariant LegalTail(State(), during[i..])
        invariant Run(State(), Tail(during[i..])) == Run(before, Tail(during))
      {
        DropFirst(during, i);
        NextEvents(State(), WriteNext, during[i], Tail(during[i + 1..]));
        WriteOne();
        OthersKeepPhase(State(), during[i]);
        Interfere(during[i]);
      }
      assert during[|during|..] == [];
      LastEvent(State(), RecycleBuffers);
    }

    method WriteOne()
      requires Valid() && Enabled(State(), WriteNext)
      modifies this`file, this`phase
      ensures Valid() && State() == Step(old(State()), WriteNext)
    {
      StepKeepsRecycling(State(), WriteNext);
      file := file + [Chunk(buffersToWrite[phase.n])];
      phase := Writing(phase.n + 1);
    }

    /** Keeps two buffers and turns them into the missing spares. */
    method MakeSpares()
      requires Valid() && Enabled(State(), RecycleBuffers)
      modifies this
      ensures Valid() && State() == Step(old(State()), RecycleBuffers)
    {
      StepKeepsRecycling(State(), RecycleBuffers);
      if |buffersToWrite| > 2 {
        buffersToWrite := buffersToWrite[..2];
      }
      if newBuffer1.None? {
        assert buffersToWrite != [];
        newBuffer1 := Some(EMPTY);
        buffersToWrite := buffersToWrite[..|buffersToWrite| - 1];
      }
      if newBuffer2.None? {
        assert buffersToWrite != [];
        newBuffer2 := Some(EMPTY);
        buffersToWrite := buffersToWrite[..|buffersToWrite| - 1];
      }
      buffersToWrite := [];
      phase := AtTop;
    }

    /** What other threads do meanwhile. */
    method Interfere(evs: seq<Event>)
      requires Valid() && Legal(State(), evs) && OnlyOthers(evs)
      modifies this
      ensures Valid() && State() == Run(old(State()), evs)
    {
      ghost var before := State();
      for i := 0 to |evs|
        invariant Valid() && Legal(State(), evs[i..]) && Run(State(), evs[i..]) == Run(before, evs)
      {
        assert evs[i..][0] == evs[i] && evs[i..][1..] == evs[i + 1..];
        match evs[i]
        case Append(line) => AppendLine(line);
        case Stop => RequestStop();
      }
    }

    /** One turn of the loop of `threadFunc`, other threads taking steps after every step of it. */
    method Turn(during: seq<seq<Event>>)
      requires Valid() && |during| >= 3 && AllOthers(during) && Legal(State(), TurnEvents(during))
      modifies this
      ensures Valid() && State() == Run(old(State()), TurnEvents(during))
    {
      NextEvents(State(), TestRunning, during[0], FromTake(during));
      Test();
      OthersKeepPhase(State(), during[0]);
      Interfere(during[0]);
      TakeAndWrite(during);
    }

    /** The rest of the turn, from the locked section on. */
    method TakeAndWrite(during: seq<seq<Event>>)
      requires Valid() && |during| >= 3 && AllOthers(during) && Legal(State(), FromTake(during))
      modifies this
      ensures Valid() && State() == Run(old(State()), FromTake(during))
    {
      NextEvents(State(), TakeBuffers, during[1], FromOverload(during));
      Take();
      OthersKeepPhase(State(), during[1]);
      Interfere(during[1]);
      NextEvents(State(), TestOverload, during[2], Tail(during[3..]));
      DropOverload();
      OthersKeepPhase(State(), during[2]);
      Interfere(during[2]);
      WriteAll(during[3..]);
      MakeSpares();
    }
  }

  predicate OnlyOthers(evs: seq<Event>) {
    forall ev | ev in evs :: ev.Append? || ev.Stop?
  }

  lemma {:induction false} OthersKeepPhase(s: Log, evs: seq<Event>)
    requires CanRecycle(s) && Legal(s, evs) && OnlyOthers(evs)
    ensures var t := Run(s, evs);
            && CanRecycle(t) && t.phase == s.phase && t.buffersToWrite == s.buffersToWrite
            && t.file == s.file && t.batches == s.batches
    decreases |evs|
  {
    if evs != [] {
      assert evs[0] in evs;
      StepKeepsRecycling(s, evs[0]);
      OthersKeepPhase(Step(s, evs[0]), evs[1..]);
    }
  }

  predicate AllOthers(during: seq<seq<Event>>) {
    forall i | 0 <= i < |during| :: OnlyOthers(during[i])
  }

  /** The writes that remain, each followed by steps of other threads, and the refill. */
  function Tail(during: seq<seq<Event>>): seq<Event> {
    if during == [] then [RecycleBuffers] else [WriteNext] + (during[0] + Tail(during[1..]))
  }

  predicate LegalTail(s: Log, during: seq<seq<Event>>) {
    AllOthers(during) && Legal(s, Tail(during))
  }

  /** The steps of one turn; `during[i]` follows the thread's own step `i`. */
  function TurnEvents(during: seq<seq<Event>>): seq<Event>
    requires |during| >= 3
  {
    [TestRunning] + (during[0] + FromTake(during))
  }

  function FromTake(during: seq<seq<Event>>): seq<Event>
    requires |during| >= 3
  {
    [TakeBuffers] + (during[1] + FromOverload(during))
  }

  function FromOverload(during: seq<seq<Event>>): seq<Event>
    requires |during| >= 3
  {
    [TestOverload] + (during[2] + Tail(during[3..]))
  }

  lemma DropFirst(during: seq<seq<Event>>, i: nat)
    requires i < |during|
    ensures during[i..][0] == during[i] && during[i..][1..] == during[i + 1..]
    ensures Tail(during[i..]) == [WriteNext] + (during[i] + Tail(during[i + 1..]))
    ensures AllOthers(during[i..]) ==> OnlyOthers(during[i]) && AllOthers(during[i + 1..])
  {
    assert during[i..][1..] == during[i + 1..];
    if AllOthers(during[i..]) {
      var here, rest := during[i..], during[i + 1..];
      assert OnlyOthers(here[0]);
      forall j | 0 <= j < |rest|
        ensures OnlyOthers(rest[j])
      {
        assert rest[j] == here[j + 1];
      }
    }
  }

  lemma {:induction false} LegalSplit(s: Log, a: seq<Event>, b: seq<Event>)
    requires Legal(s, a + b)
    ensures Legal(s, a) && Legal(Run(s, a), b) && Run(s, a + b) == Run(Run(s, a), b)
    decreases |a|
  {
    if a == [] {
      assert a + b == b;
    } else {
      assert (a + b)[0] == a[0] && (a + b)[1..] == a[1..] + b;
      LegalSplit(Step(s, a[0]), a[1..], b);
    }
  }

  lemma NextEvents(s: Log, ev: Event, evs: seq<Event>, rest: seq<Event>)
    requires Legal(s, [ev] + (evs + rest))
    ensures var t := Step(s, ev);
            && Enabled(s, ev) && Legal(t, evs) && Legal(Run(t, evs), rest)
            && Run(s, [ev] + (evs + rest)) == Run(Run(t, evs), rest)
  {
    var all := [ev] + (evs + rest);
    assert all[0] == ev && all[1..] == evs + rest;
    assert Run(s, all) == Run(Step(s, ev), evs + rest);
    LegalSplit(Step(s, ev), evs, rest);
  }

  lemma LastEvent(s: Log, ev: Event)
    requires Legal(s, [ev])
    ensures Enabled(s, ev) && Run(s, [ev]) == Step(s, ev)
  {
    assert [ev][1..] == [];
  }

  /** One write, and what other threads do behind it. */
  lemma NextWrite(s: Log, during: seq<seq<Event>>)
    requires CanRecycle(s) && LegalTail(s, during) && during != []
    ensures Enabled(s, WriteNext) && Legal(Step(s, WriteNext), during[0])
    ensures var t := Run(Step(s, WriteNext), during[0]);
            && CanRecycle(t) && LegalTail(t, during[1..]) && Run(s, Tail(during)) == Run(t, Tail(during[1..]))
            && t.phase == Writing(s.phase.n + 1) && t.buffersToWrite == s.buffersToWrite
            && t.file == s.file + [Chunk(s.buffersToWrite[s.phase.n])] && t.batches == s.batches
  {
    assert during[0..] == during;
    DropFirst(during, 0);
    NextEvents(s, WriteNext, during[0], Tail(during[1..]));
    StepKeepsRecycling(s, WriteNext);
    OthersKeepPhase(Step(s, WriteNext), during[0]);
  }

  lemma {:induction false} TailLength(s: Log, during: seq<seq<Event>>)
    requires CanRecycle(s) && s.phase.Writing? && LegalTail(s, during)
    ensures |during| == |s.buffersToWrite| - s.phase.n
    decreases |during|
  {
    if during == [] {
      LastEvent(s, RecycleBuffers);
    } else {
      NextWrite(s, during);
      TailLength(Run(Step(s, WriteNext), during[0]), during[1..]);
    }
  }

  /** Whatever comes in between, the file gains exactly the buffers in hand, in order. */
  lemma {:induction false} TailWritesAll(s: Log, during: seq<seq<Event>>)
    requires CanRecycle(s) && s.phase.Writing? && LegalTail(s, during)
    ensures s.phase.n <= |s.buffersToWrite|
    ensures var t := Run(s, Tail(during));
            && t.file == s.file + ChunksOf(s.buffersToWrite[s.phase.n..])
            && t.batches == s.batches && t.phase.AtTop?
    decreases |during|
  {
    var n, bufs := s.phase.n, s.buffersToWrite;
    if during == [] {
      LastEvent(s, RecycleBuffers);
      assert bufs[n..] == [];
    } else {
      NextWrite(s, during);
      TailWritesAll(Run(Step(s, WriteNext), during[0]), during[1..]);
      ChunksOfRest(s.file, bufs, n);
    }
  }

  lemma ChunksOfRest(file: seq<Item>, bufs: seq<Buf>, n: nat)
    requires n < |bufs|
    ensures (file + [Chunk(bufs[n])]) + ChunksOf(bufs[n + 1..]) == file + ChunksOf(bufs[n..])
  {
    ChunksOfCons(bufs[n], bufs[n + 1..]);
    assert bufs[n..] == [bufs[n]] + bufs[n + 1..];
  }

  lemma {:induction false} ChunksOfCons(b: Buf, bufs: seq<Buf>)
    ensures ChunksOf([b] + bufs) == [Chunk(b)] + ChunksOf(bufs)
  {
    if bufs == [] {
      assert [b] + bufs == [b] && [b][..0] == [];
    } else {
      var init := bufs[..|bufs| - 1];
      assert ([b] + bufs)[..|bufs|] == [b] + init;
      ChunksOfCons(b, init);
    }
  }

  /** A turn from the locked section on takes one batch and adds what that batch amounts to. */
  lemma TakeWritesABatch(s: Log, during: seq<seq<Event>>)
    requires CanRecycle(s) && |during| >= 3 && AllOthers(during) && Legal(s, FromTake(during))
    ensures s.phase.Waiting? && s.currentBuffer.Some?
    ensures var t, batch := Run(s, FromTake(during)), s.buffers + [s.currentBuffer.buf];
            t.batches == s.batches + [batch] && t.file == s.file + FileOf(batch) && t.phase.AtTop?
  {
    NextEvents(s, TakeBuffers, during[1], FromOverload(during));
    StepKeepsRecycling(s, TakeBuffers);
    OthersKeepPhase(Step(s, TakeBuffers), during[1]);
    OverloadWritesABatch(Run(Step(s, TakeBuffers), during[1]), during);
  }

  lemma OverloadWritesABatch(s: Log, during: seq<seq<Event>>)
    requires CanRecycle(s) && |during| >= 3 && AllOthers(during) && Legal(s, FromOverload(during))
    ensures var t := Run(s, FromOverload(during));
            t.batches == s.batches && t.file == s.file + FileOf(s.buffersToWrite) && t.phase.AtTop?
  {
    NextEvents(s, TestOverload, during[2], Tail(during[3..]));
    var u := Step(s, TestOverload);
    StepKeepsRecycling(s, TestOverload);
    OthersKeepPhase(u, during[2]);
    var v := Run(u, during[2]);
    assert LegalTail(v, during[3..]);
    TailWritesAll(v, during[3..]);
    OverloadWrites(s);
  }

  lemma OverloadWrites(s: Log)
    requires s.phase.Swapped?
    ensures var u := Step(s, TestOverload);
            u.phase == Writing(0) && u.batches == s.batches
            && u.file + ChunksOf(u.buffersToWrite[0..]) == s.file + FileOf(s.buffersToWrite)
  {
    var u := Step(s, TestOverload);
    assert u.buffersToWrite == Kept(s.buffersToWrite) && u.buffersToWrite[0..] == u.buffersToWrite;
    assert u.file == s.file + Report(s.buffersToWrite);
  }

  /** A turn, whatever other threads do between its steps, writes out one batch. */
  lemma TurnWritesABatch(s: Log, during: seq<seq<Event>>)
    requires CanRecycle(s) && |during| >= 3 && AllOthers(during) && Legal(s, TurnEvents(during))
    ensures var t := Run(s, TurnEvents(during));
            && |t.batches| == |s.batches| + 1 && s.batches <= t.batches && t.phase.AtTop?
            && t.file == s.file + FileOf(t.batches[|s.batches|])
  {
    NextEvents(s, TestRunning, during[0], FromTake(during));
    StepKeepsRecycling(s, TestRunning);
    OthersKeepPhase(Step(s, TestRunning), during[0]);
    TakeWritesABatch(Run(Step(s, TestRunning), during[0]), during);
  }
}
