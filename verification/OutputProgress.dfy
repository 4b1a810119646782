/** What the members of a connection bring about, over the runs of `Connection`: bytes reach the wire,
    messages reach the loop thread, requests to close and to read take effect. */
module OutputProgress {
  import opened BigEndian
  import opened Streams
  import opened Connection

  // ---------------------------------------------------------------- draining the output

  function Writes(ns: seq<nat>): seq<Event> {
    if ns == [] then [] else [Writable(Wrote(ns[0]))] + Writes(ns[1..])
  }

  function Sum(ns: seq<nat>): nat {
    if ns == [] then 0 else ns[0] + Sum(ns[1..])
  }

  predicate CanWrite(c: Conn) {
    IsOpen(c) && !c.broken && c.fin.NoFin?
  }

  /** One writable event: exactly what the kernel takes moves from the front of the buffer to the wire,
      and when nothing is left a closing connection sends its FIN. */
  lemma OneWrite(c: Conn, n: nat)
    requires Inv(c) && CanWrite(c) && n <= |c.output|
    ensures var t := Step(c, Writable(Wrote(n)));
            && t.wire == c.wire + c.output[..n] && t.output == c.output[n..]
            && t.state == c.state && t.broken == c.broken && t.accepted == c.accepted
            && (if c.output != [] && n == |c.output| && c.state == Disconnecting then t.fin == Fin(|t.wire|, true)
                else t.fin == c.fin)
  {
    if n == |c.output| {
      assert c.output[..n] == c.output && c.output[n..] == [];
    }
    if n == 0 {
      assert c.wire + c.output[..0] == c.wire && c.output[0..] == c.output;
    }
  }

  /** In any run of writable events the wire grows by exactly the bytes the kernel takes, in order. Once
      they are all of the buffer, nothing is watched for writing any more, and a closing connection has
      sent its FIN. */
  lemma {:induction false} OutputDrains(c: Conn, ns: seq<nat>)
    requires Inv(c) && CanWrite(c) && Legal(c, Writes(ns))
    ensures var t := Run(c, Writes(ns));
            && Sum(ns) <= |c.output|
            && t.wire == c.wire + c.output[..Sum(ns)] && t.output == c.output[Sum(ns)..]
            && t.state == c.state && (t.writeEvent <==> Sum(ns) < |c.output|)
            && (c.output != [] && Sum(ns) == |c.output| && c.state == Disconnecting ==>
                  t.fin == Fin(|t.wire|, true))
    decreases |ns|
  {
    if ns == [] {
      assert c.wire + c.output[..0] == c.wire && c.output[0..] == c.output;
    } else {
      var n, rest := ns[0], ns[1..];
      assert Writes(ns)[0] == Writable(Wrote(n)) && Writes(ns)[1..] == Writes(rest);
      var t := Step(c, Writable(Wrote(n)));
      OneWrite(c, n);
      StepKeepsCore(c, Writable(Wrote(n)));
      StepKeepsClosing(c, Writable(Wrote(n)));
      if CanWrite(t) {
        OutputDrains(t, rest);
        TwoCuts(c.wire, c.output, n, Sum(rest));
      } else {
        NoWriteAfterFin(t, rest);
      }
    }
  }

  /** A writable event with nothing to write, or that the kernel does not serve, changes nothing but what
      is known of a broken connection. */
  lemma FailedWrite(c: Conn, wr: WriteResult)
    requires Inv(c) && Enabled(c, Writable(wr)) && (c.output == [] || !wr.Wrote? || wr.n == 0)
    ensures Step(c, Writable(wr)) == c.(broken := c.broken || (wr.Broken? && c.writeEvent))
  {
  }

  lemma TwoCuts(wire: seq<byte>, output: seq<byte>, m: nat, n: nat)
    requires m <= |output| && n <= |output[m..]|
    ensures (wire + output[..m]) + output[m..][..n] == wire + output[..m + n]
    ensures output[m..][n..] == output[m + n..]
  {
  }

  lemma NoWriteAfterFin(c: Conn, ns: seq<nat>)
    requires c.fin.Fin?
    ensures ns != [] ==> !Legal(c, Writes(ns))
  {
    if ns != [] {
      assert Writes(ns)[0] == Writable(Wrote(ns[0]));
    }
  }

  // ------------------------------------------------------------------------- sending

  /** A send by the loop's own thread: with nothing buffered the kernel gets the data, and what it does
      not take is buffered; otherwise all of it is. Only a broken connection drops it. */
  lemma SendOutcome(c: Conn, data: seq<byte>, wr: WriteResult)
    requires Inv(c) && c.state == Connected && KernelAllows(c, |data|, wr)
    ensures var t := Step(c, CallSend(data, true, wr));
            && t.submitted == c.submitted + [data] && t.state == Connected
            && (c.output != [] ==> t.wire == c.wire && t.output == c.output + data && t.broken == c.broken)
            && (c.output == [] && wr.Wrote? ==>
                  t.wire == c.wire + data[..wr.n] && t.output == data[wr.n..] && t.broken == c.broken)
            && (c.output == [] && (wr.WouldBlock? || wr.OtherError?) ==>
                  t.wire == c.wire && t.output == data && t.broken == c.broken)
            && (c.output == [] && wr.Broken? ==> t.wire == c.wire && t.output == [] && t.broken)
            && t.accepted == if c.output == [] && wr.Broken? then c.accepted else c.accepted + [data]
  {
    if wr.Wrote? {
      assert wr.n == |data| ==> data[..wr.n] == data;
    }
    assert [] + data == data;
    assert data == [] ==> c.output + data == c.output;
  }

  /** The messages handed to `send` while the connection was connected. */
  function Called(c: Conn, evs: seq<Event>): seq<seq<byte>>
    decreases |evs|
  {
    if evs == [] then []
    else Added(c, evs[0]) + Called(Step(c, evs[0]), evs[1..])
  }

  function QueuedSends(tasks: seq<Task>): seq<seq<byte>> {
    if tasks == [] then []
    else (if tasks[0].SendTask? then [tasks[0].data] else []) + QueuedSends(tasks[1..])
  }

  lemma {:induction false} QueuedSnoc(tasks: seq<Task>, task: Task)
    ensures QueuedSends(tasks + [task]) == QueuedSends(tasks) + (if task.SendTask? then [task.data] else [])
  {
    if tasks == [] {
      assert tasks + [task] == [task] && [task][1..] == [];
    } else {
      var head := if tasks[0].SendTask? then [tasks[0].data] else [];
      var added := if task.SendTask? then [task.data] else [];
      assert (tasks + [task])[0] == tasks[0] && (tasks + [task])[1..] == tasks[1..] + [task];
      QueuedSnoc(tasks[1..], task);
      assert head + (QueuedSends(tasks[1..]) + added) == (head + QueuedSends(tasks[1..])) + added;
    }
  }

  lemma RunTaskSubmits(c: Conn, task: Task, wr: WriteResult)
    ensures var t := RunTask(c, task, wr);
            t.tasks == c.tasks && t.submitted == c.submitted + (if task.SendTask? then [task.data] else [])
  {
  }

  function Added(c: Conn, ev: Event): seq<seq<byte>> {
    if ev.CallSend? && c.state == Connected then [ev.data] else []
  }

  /** What one step adds to the messages that have reached the loop thread, and to those on their way. */
  predicate Submits(c: Conn, t: Conn, direct: bool, added: seq<seq<byte>>) {
    if direct then t.submitted == c.submitted + added && QueuedSends(t.tasks) == QueuedSends(c.tasks)
    else t.submitted + QueuedSends(t.tasks) == c.submitted + QueuedSends(c.tasks) + added
  }

  lemma QueueSubmits(c: Conn, t: Conn, task: Task)
    requires t.submitted == c.submitted && t.tasks == c.tasks + [task]
    ensures Submits(c, t, false, if task.SendTask? then [task.data] else [])
    ensures !task.SendTask? ==> QueuedSends(t.tasks) == QueuedSends(c.tasks)
  {
    QueuedSnoc(c.tasks, task);
    var added := if task.SendTask? then [task.data] else [];
    assert c.submitted + (QueuedSends(c.tasks) + added) == c.submitted + QueuedSends(c.tasks) + added;
  }

  lemma SameSubmits(c: Conn, t: Conn, direct: bool)
    requires t.submitted == c.submitted && t.tasks == c.tasks
    ensures Submits(c, t, direct, [])
  {
    assert c.submitted + [] == c.submitted;
    assert c.submitted + QueuedSends(c.tasks) + [] == c.submitted + QueuedSends(c.tasks);
  }

  lemma TaskSubmits(c: Conn, wr: WriteResult)
    requires c.tasks != []
    ensures Submits(c, Step(c, RunNextTask(wr)), false, [])
  {
    var t, first := Step(c, RunNextTask(wr)), c.tasks[0];
    RunTaskSubmits(c.(tasks := c.tasks[1..]), first, wr);
    var head := if first.SendTask? then [first.data] else [];
    assert t.tasks == c.tasks[1..] && QueuedSends(c.tasks) == head + QueuedSends(t.tasks);
    assert (c.submitted + head) + QueuedSends(t.tasks) == c.submitted + (head + QueuedSends(t.tasks)) + [];
  }

  lemma CallSubmits(c: Conn, task: Task, inLoop: bool, wr: WriteResult)
    requires !task.SendTask?
    ensures Submits(c, RunInLoop(c, task, inLoop, wr), false, [])
  {
    if inLoop {
      RunTaskSubmits(c, task, wr);
      SameSubmits(c, RunTask(c, task, wr), false);
    } else {
      QueueSubmits(c, RunInLoop(c, task, inLoop, wr), task);
    }
  }

  lemma SendSubmits(c: Conn, data: seq<byte>, inLoop: bool, wr: WriteResult)
    ensures Submits(c, Send(c, data, inLoop, wr), inLoop, if c.state == Connected then [data] else [])
  {
    if c.state != Connected {
      SameSubmits(c, c, inLoop);
    } else if inLoop {
      RunTaskSubmits(c, SendTask(data), wr);
    } else {
      QueueSubmits(c, Send(c, data, inLoop, wr), SendTask(data));
    }
  }

  lemma OtherSubmits(c: Conn, ev: Event)
    requires ev.Establish? || ev.CallForceCloseWithDelay? || ev.DelayExpires? || ev.Writable?
             || ev.PeerCloses? || ev.PeerResets? || ev.Destroy?
    ensures Step(c, ev).submitted == c.submitted && Step(c, ev).tasks == c.tasks
  {
  }

  lemma StepSubmits(c: Conn, ev: Event)
    requires Enabled(c, ev)
    ensures Submits(c, Step(c, ev), ev.CallSend? && ev.inLoop, Added(c, ev))
  {
    match ev
    case CallSend(data, inLoop, wr) => SendSubmits(c, data, inLoop, wr);
    case CallShutdown(inLoop) => CallSubmits(c.(state := Disconnecting), ShutdownTask, inLoop, WouldBlock);
    case CallForceClose => QueueSubmits(c, c.(tasks := c.tasks + [ForceCloseTask]), ForceCloseTask);
    case CallStartRead(inLoop) => CallSubmits(c, StartReadTask, inLoop, WouldBlock);
    case CallStopRead(inLoop) => CallSubmits(c, StopReadTask, inLoop, WouldBlock);
    case RunNextTask(wr) => TaskSubmits(c, wr);
    case _ => OtherSubmits(c, ev);
  }

  /** Every message handed to `send` while connected reaches the loop thread, or is on its way: none is
      lost, made up or doubled, whichever threads send. */
  lemma {:induction false} CallsAreSubmitted(c: Conn, evs: seq<Event>)
    requires Legal(c, evs)
    ensures var t := Run(c, evs);
            multiset(t.submitted + QueuedSends(t.tasks))
            == multiset(c.submitted + QueuedSends(c.tasks)) + multiset(Called(c, evs))
    decreases |evs|
  {
    if evs != [] {
      var t := Step(c, evs[0]);
      StepSubmits(c, evs[0]);
      CallsAreSubmitted(t, evs[1..]);
      StepKeepsMultiset(c, t, evs[0].CallSend? && evs[0].inLoop, Added(c, evs[0]));
    }
  }

  lemma StepKeepsMultiset(c: Conn, t: Conn, direct: bool, added: seq<seq<byte>>)
    requires Submits(c, t, direct, added)
    ensures multiset(t.submitted + QueuedSends(t.tasks))
            == multiset(c.submitted + QueuedSends(c.tasks)) + multiset(added)
  {
    if !direct {
      assert multiset(c.submitted + QueuedSends(c.tasks) + added)
          == multiset(c.submitted + QueuedSends(c.tasks)) + multiset(added);
    }
  }

  /** All sends come from the loop's own thread, or all from others. */
  predicate OneSide(evs: seq<Event>, inLoop: bool) {
    forall ev | ev in evs :: ev.CallSend? ==> ev.inLoop == inLoop
  }

  /** The messages that have reached the loop thread, and those on their way. */
  function Reaching(c: Conn): seq<seq<byte>> {
    c.submitted + QueuedSends(c.tasks)
  }

  lemma StepInOrder(c: Conn, ev: Event, inLoop: bool)
    requires Enabled(c, ev) && (ev.CallSend? ==> ev.inLoop == inLoop) && (inLoop ==> QueuedSends(c.tasks) == [])
    ensures var t := Step(c, ev);
            Reaching(t) == Reaching(c) + Added(c, ev) && (inLoop ==> QueuedSends(t.tasks) == [])
  {
    var t := Step(c, ev);
    StepSubmits(c, ev);
    if inLoop {
      assert c.submitted + [] == c.submitted;
      NoNewQueued(c, ev);
      assert t.submitted + [] == t.submitted;
    }
  }

  /** Then they also reach it in the order of the calls. */
  lemma {:induction false} CallsAreInOrder(c: Conn, evs: seq<Event>, inLoop: bool)
    requires Legal(c, evs) && OneSide(evs, inLoop) && (inLoop ==> QueuedSends(c.tasks) == [])
    ensures Reaching(Run(c, evs)) == Reaching(c) + Called(c, evs)
    ensures inLoop ==> QueuedSends(Run(c, evs).tasks) == []
    decreases |evs|
  {
    if evs == [] {
      assert Reaching(c) + [] == Reaching(c);
    } else {
      var t := Step(c, evs[0]);
      assert evs[0] in evs;
      StepInOrder(c, evs[0], inLoop);
      CallsAreInOrder(t, evs[1..], inLoop);
      Regroup(Reaching(c), Added(c, evs[0]), Called(t, evs[1..]));
    }
  }

  lemma Regroup(a: seq<seq<byte>>, b: seq<seq<byte>>, c: seq<seq<byte>>)
    ensures (a + b) + c == a + (b + c)
  {
  }

  lemma NoNewQueued(c: Conn, ev: Event)
    requires Enabled(c, ev) && QueuedSends(c.tasks) == [] && (ev.CallSend? ==> ev.inLoop)
    ensures QueuedSends(Step(c, ev).tasks) == []
  {
    match ev
    case CallSend(data, inLoop, wr) => RunTaskSubmits(c, SendTask(data), wr);
    case CallShutdown(inLoop) => NoSendQueued(c.(state := Disconnecting), ShutdownTask, inLoop, WouldBlock);
    case CallForceClose => QueuedSnoc(c.tasks, ForceCloseTask);
    case CallStartRead(inLoop) => NoSendQueued(c, StartReadTask, inLoop, WouldBlock);
    case CallStopRead(inLoop) => NoSendQueued(c, StopReadTask, inLoop, WouldBlock);
    case RunNextTask(wr) => RunTaskSubmits(c.(tasks := c.tasks[1..]), c.tasks[0], wr);
    case _ => OtherSubmits(c, ev);
  }

  lemma NoSendQueued(c: Conn, task: Task, inLoop: bool, wr: WriteResult)
    requires QueuedSends(c.tasks) == [] && !task.SendTask?
    ensures QueuedSends(RunInLoop(c, task, inLoop, wr).tasks) == []
  {
    RunTaskSubmits(c, task, wr);
    QueuedSnoc(c.tasks, task);
  }

  // ------------------------------------------------------------------------- closing

  predicate FinRecorded(c: Conn, t: Conn) {
    t.fin == c.fin || t.fin == Fin(|t.wire|, IsOpen(c))
  }

  lemma TaskRecordsFin(c: Conn, task: Task, inLoop: bool, wr: WriteResult)
    ensures FinRecorded(c, RunTask(c, task, wr)) && FinRecorded(c, RunInLoop(c, task, inLoop, wr))
  {
  }

  /** A FIN is recorded where the wire ends, and as open or not as the connection was. */
  lemma FinIsRecorded(c: Conn, ev: Event)
    requires Inv(c) && Enabled(c, ev)
    ensures FinRecorded(c, Step(c, ev))
  {
    match ev
    case CallSend(data, inLoop, wr) => TaskRecordsFin(c, SendTask(data), inLoop, wr);
    case CallShutdown(inLoop) => TaskRecordsFin(c.(state := Disconnecting), ShutdownTask, inLoop, WouldBlock);
    case CallStartRead(inLoop) => TaskRecordsFin(c, StartReadTask, inLoop, WouldBlock);
    case CallStopRead(inLoop) => TaskRecordsFin(c, StopReadTask, inLoop, WouldBlock);
    case RunNextTask(wr) => TaskRecordsFin(c.(tasks := c.tasks[1..]), c.tasks[0], true, wr);
    case Writable(wr) => assert FinRecorded(c, HandleWrite(c, wr));
    case _ => OtherKeepsWire(c, ev);
  }

  predicate IsClosing(c: Conn) {
    c.state == Disconnecting || c.state == Disconnected
  }

  /** From a closing state there is no way back. */
  predicate StillClosing(c: Conn, t: Conn) {
    IsClosing(t) && (c.state == Disconnected ==> t.state == Disconnected)
  }

  lemma TaskKeepsClosing(c: Conn, task: Task, inLoop: bool, wr: WriteResult)
    requires IsClosing(c)
    ensures StillClosing(c, RunTask(c, task, wr)) && StillClosing(c, RunInLoop(c, task, inLoop, wr))
  {
  }

  lemma ClosingStep(c: Conn, ev: Event)
    requires IsClosing(c) && Enabled(c, ev)
    ensures StillClosing(c, Step(c, ev))
  {
    match ev
    case CallStartRead(inLoop) => TaskKeepsClosing(c, StartReadTask, inLoop, WouldBlock);
    case CallStopRead(inLoop) => TaskKeepsClosing(c, StopReadTask, inLoop, WouldBlock);
    case RunNextTask(wr) => TaskKeepsClosing(c.(tasks := c.tasks[1..]), c.tasks[0], true, wr);
    case _ =>
  }

  lemma {:induction false} ClosingLasts(c: Conn, evs: seq<Event>)
    requires Legal(c, evs) && IsClosing(c)
    ensures StillClosing(c, Run(c, evs))
    decreases |evs|
  {
    if evs != [] {
      ClosingStep(c, evs[0]);
      ClosingLasts(Step(c, evs[0]), evs[1..]);
    }
  }

  /** After a shutdown the connection is never connected again; and once its tasks have run and its output
      has drained, it has sent its FIN, behind everything accepted. */
  lemma ShutdownFinishes(c: Conn, inLoop: bool, evs: seq<Event>)
    requires Inv(c) && c.state == Connected && Legal(Step(c, CallShutdown(inLoop)), evs)
    ensures var t := Run(Step(c, CallShutdown(inLoop)), evs);
            && IsClosing(t)
            && (t.state == Disconnecting && t.tasks == [] && t.delayedCloses == 0 && t.output == [] ==>
                  t.fin.Fin? && t.wire == Concat(t.accepted))
  {
    var s := Step(c, CallShutdown(inLoop));
    StepKeepsCore(c, CallShutdown(inLoop));
    StepKeepsClosing(c, CallShutdown(inLoop));
    ClosingLasts(s, evs);
    RunKeepsInv(s, evs);
    assert Run(s, evs).wire + [] == Run(s, evs).wire;
  }

  /** Steps that close a connection leave nothing watched. */
  predicate IsClosed(c: Conn) {
    c.state == Disconnected && !c.readEvent && !c.writeEvent
  }

  /** The peer closing, a delayed close coming due and a queued one being carried out close an open
      connection. */
  lemma ClosingSteps(c: Conn, wr: WriteResult)
    requires c.state == Connected || c.state == Disconnecting
    ensures IsClosed(Step(c, PeerCloses))
    ensures c.delayedCloses > 0 ==> IsClosed(Step(c, DelayExpires))
    ensures c.tasks != [] && c.tasks[0].ForceCloseTask? ==> IsClosed(Step(c, RunNextTask(wr)))
  {
    OpenIsClosed(c);
    DelayCloses(c);
    TaskCloses(c, wr);
  }

  lemma DelayCloses(c: Conn)
    requires c.state == Connected || c.state == Disconnecting
    ensures c.delayedCloses > 0 ==> IsClosed(Step(c, DelayExpires))
  {
    if c.delayedCloses > 0 {
      OpenIsClosed(c.(delayedCloses := c.delayedCloses - 1));
    }
  }

  lemma TaskCloses(c: Conn, wr: WriteResult)
    requires c.state == Connected || c.state == Disconnecting
    ensures c.tasks != [] && c.tasks[0].ForceCloseTask? ==> IsClosed(Step(c, RunNextTask(wr)))
  {
    if c.tasks != [] {
      OpenIsClosed(c.(tasks := c.tasks[1..]));
    }
  }

  lemma OpenIsClosed(c: Conn)
    requires c.state == Connected || c.state == Disconnecting
    ensures IsClosed(HandleClose(c)) && IsClosed(ForceCloseInLoop(c))
  {
  }

  /** After `forceClose`, once the connection's tasks have run it is closed. */
  lemma ForceCloseCloses(c: Conn, evs: seq<Event>)
    requires (c.state == Connected || c.state == Disconnecting) && Legal(Step(c, CallForceClose), evs)
    ensures var t := Run(Step(c, CallForceClose), evs); t.tasks == [] ==> t.state == Disconnected
  {
    var s := Step(c, CallForceClose);
    assert ForceCloseTask in c.tasks + [ForceCloseTask];
    CloseTaskStays(s, evs);
  }

  lemma TasksAreKept(c: Conn, ev: Event)
    requires Enabled(c, ev)
    ensures ev.RunNextTask? ==> c.tasks == [c.tasks[0]] + Step(c, ev).tasks
    ensures !ev.RunNextTask? ==> c.tasks <= Step(c, ev).tasks
  {
    match ev
    case CallSend(data, inLoop, wr) => RunTaskSubmits(c, SendTask(data), wr);
    case CallShutdown(inLoop) => RunTaskSubmits(c.(state := Disconnecting), ShutdownTask, WouldBlock);
    case CallStartRead(inLoop) => RunTaskSubmits(c, StartReadTask, WouldBlock);
    case CallStopRead(inLoop) => RunTaskSubmits(c, StopReadTask, WouldBlock);
    case RunNextTask(wr) => RunTaskSubmits(c.(tasks := c.tasks[1..]), c.tasks[0], wr);
    case CallForceClose =>
    case _ => OtherSubmits(c, ev);
  }

  lemma CloseTaskStep(c: Conn, ev: Event)
    requires Enabled(c, ev) && IsClosing(c) && (ForceCloseTask in c.tasks || c.state == Disconnected)
    ensures ForceCloseTask in Step(c, ev).tasks || Step(c, ev).state == Disconnected
  {
    TasksAreKept(c, ev);
    ClosingStep(c, ev);
    if ev.RunNextTask? && c.tasks[0].ForceCloseTask? && c.state == Disconnecting {
      OpenIsClosed(c.(tasks := c.tasks[1..]));
    }
  }

  lemma {:induction false} CloseTaskStays(c: Conn, evs: seq<Event>)
    requires Legal(c, evs) && IsClosing(c) && (ForceCloseTask in c.tasks || c.state == Disconnected)
    ensures ForceCloseTask in Run(c, evs).tasks || Run(c, evs).state == Disconnected
    decreases |evs|
  {
    if evs != [] {
      ClosingStep(c, evs[0]);
      CloseTaskStep(c, evs[0]);
      CloseTaskStays(Step(c, evs[0]), evs[1..]);
    }
  }

  /** After `forceCloseWithDelay`, once no delay is running the connection is closed. */
  lemma DelayedCloseCloses(c: Conn, evs: seq<Event>)
    requires (c.state == Connected || c.state == Disconnecting) && Legal(Step(c, CallForceCloseWithDelay), evs)
    ensures var t := Run(Step(c, CallForceCloseWithDelay), evs);
            t.delayedCloses == 0 ==> t.state == Disconnected
  {
    DelayStays(Step(c, CallForceCloseWithDelay), evs);
  }

  lemma TaskKeepsDelays(c: Conn, task: Task, inLoop: bool, wr: WriteResult)
    ensures RunTask(c, task, wr).delayedCloses == c.delayedCloses
    ensures RunInLoop(c, task, inLoop, wr).delayedCloses == c.delayedCloses
  {
  }

  lemma DelayStep(c: Conn, ev: Event)
    requires Enabled(c, ev) && IsClosing(c) && (c.delayedCloses > 0 || c.state == Disconnected)
    ensures Step(c, ev).delayedCloses > 0 || Step(c, ev).state == Disconnected
  {
    ClosingStep(c, ev);
    match ev
    case CallStartRead(inLoop) => TaskKeepsDelays(c, StartReadTask, inLoop, WouldBlock);
    case CallStopRead(inLoop) => TaskKeepsDelays(c, StopReadTask, inLoop, WouldBlock);
    case RunNextTask(wr) => TaskKeepsDelays(c.(tasks := c.tasks[1..]), c.tasks[0], true, wr);
    case _ =>
  }

  lemma {:induction false} DelayStays(c: Conn, evs: seq<Event>)
    requires Legal(c, evs) && IsClosing(c) && (c.delayedCloses > 0 || c.state == Disconnected)
    ensures Run(c, evs).delayedCloses > 0 || Run(c, evs).state == Disconnected
    decreases |evs|
  {
    if evs != [] {
      ClosingStep(c, evs[0]);
      DelayStep(c, evs[0]);
      DelayStays(Step(c, evs[0]), evs[1..]);
    }
  }

  predicate NoStartRead(c: Conn) {
    StartReadTask !in c.tasks
  }

  /** A closed connection writes nothing, and watches nothing unless reading is started again. */
  lemma {:induction false} ClosedIsFinal(c: Conn, evs: seq<Event>)
    requires Inv(c) && Legal(c, evs) && c.state == Disconnected
    ensures var t := Run(c, evs);
            && t.state == Disconnected && t.wire == c.wire && t.output == c.output && t.accepted == c.accepted
            && !t.writeEvent
            && (!c.readEvent && NoStartRead(c) && (forall ev | ev in evs :: !ev.CallStartRead?) ==> !t.readEvent)
    decreases |evs|
  {
    if evs != [] {
      var t := Step(c, evs[0]);
      assert evs[0] in evs && (c.tasks != [] ==> c.tasks == [c.tasks[0]] + c.tasks[1..]);
      StepKeepsCore(c, evs[0]);
      StepKeepsClosing(c, evs[0]);
      ClosedStep(c, evs[0]);
      ClosedIsFinal(t, evs[1..]);
    }
  }

  lemma ClosedStep(c: Conn, ev: Event)
    requires Inv(c) && Enabled(c, ev) && c.state == Disconnected
    ensures var t := Step(c, ev);
            && t.state == Disconnected && t.wire == c.wire && t.output == c.output && t.accepted == c.accepted
            && (!c.readEvent && NoStartRead(c) && !ev.CallStartRead? ==> !t.readEvent && NoStartRead(t))
  {
    if ev.RunNextTask? {
      assert c.tasks[0] in c.tasks;
      RunTaskSubmits(c.(tasks := c.tasks[1..]), c.tasks[0], ev.wr);
    }
  }

  // ------------------------------------------------------------------------- reading

  /** Requests to read or not to read take effect when the loop thread carries them out, and those of
      other threads are queued behind what is queued already. */
  lemma ReadRequests(c: Conn)
    ensures var t := Step(c, CallStartRead(true)); t.reading && t.readEvent && t.state == c.state
    ensures var t := Step(c, CallStopRead(true)); !t.reading && !t.readEvent && t.state == c.state
    ensures Step(c, CallStartRead(false)) == c.(tasks := c.tasks + [StartReadTask])
    ensures Step(c, CallStopRead(false)) == c.(tasks := c.tasks + [StopReadTask])
  {
  }

  lemma QueuedReadRequests(c: Conn, wr: WriteResult)
    requires c.tasks != []
    ensures var t := Step(c, RunNextTask(wr));
            && (c.tasks[0].StartReadTask? ==> t.reading && t.readEvent)
            && (c.tasks[0].StopReadTask? ==> !t.reading && !t.readEvent)
            && (!c.tasks[0].StartReadTask? && !c.tasks[0].StopReadTask? && t.state == c.state ==>
                  t.reading == c.reading && t.readEvent == c.readEvent)
  {
  }

  /** Establishing opens the connection for reading; destroying leaves it closed. */
  lemma LifeBeginsAndEnds(c: Conn)
    requires Inv(c)
    ensures c.state == Connecting ==>
              var t := Step(c, Establish);
              t.state == Connected && t.readEvent && t.output == c.output && t.tasks == c.tasks
    ensures Enabled(c, Destroy) ==> Step(c, Destroy).state == Disconnected && !Step(c, Destroy).writeEvent
  {
  }
}
