/** The output path of a connection as a state machine (WebServer/TcpConnection.cpp): every call, task
    and channel event as one step, with the kernel's answer to `write` as an input of the step. Checking
    and setting the state is one step. Half-close is that of section 3.5 of RFC 793. */
module Connection {
  import opened BigEndian
  import opened Streams

  datatype ConnState = Disconnected | Connecting | Connected | Disconnecting

  /** What `write` answers; `Broken` is EPIPE or ECONNRESET. */
  datatype WriteResult = Wrote(n: nat) | WouldBlock | Broken | OtherError

  /** The connection's entries in its loop's task queue. */
  datatype Task = SendTask(data: seq<byte>) | ShutdownTask | ForceCloseTask | StartReadTask | StopReadTask

  /** The stream position of a FIN, and whether the connection was open when it was issued. */
  datatype Fin = NoFin | Fin(at: nat, whileOpen: bool)

  /** `state` to `delayedCloses` are the program's; `wire`, `fin` and `broken` the kernel's; `submitted`
      and `accepted` record the messages that reached the loop thread and those not dropped. */
  datatype Conn = Conn(
    state: ConnState, reading: bool, readEvent: bool, writeEvent: bool, output: seq<byte>,
    tasks: seq<Task>, delayedCloses: nat,
    wire: seq<byte>, fin: Fin, broken: bool,
    submitted: seq<seq<byte>>, accepted: seq<seq<byte>>)

  const NEW_CONNECTION :=
    Conn(Connecting, true, false, false, [], [], 0, [], NoFin, false, [], [])

  // ------------------------------------------------------- the loop thread's members

  function SendInLoop(c: Conn, data: seq<byte>, wr: WriteResult): Conn {
    var c := c.(submitted := c.submitted + [data]);
    if c.state == Disconnected then c
    else if !c.writeEvent && c.output == [] then WriteDirectly(c, data, wr)
    else Buffered(c, data)
  }

  function WriteDirectly(c: Conn, data: seq<byte>, wr: WriteResult): Conn {
    match wr
    case Wrote(n) =>
      if n >= |data| then c.(wire := c.wire + data, accepted := c.accepted + [data])
      else c.(wire := c.wire + data[..n], output := data[n..], writeEvent := true,
              accepted := c.accepted + [data])
    case Broken => c.(broken := true)
    case _ => Buffered(c, data)
  }

  function Buffered(c: Conn, data: seq<byte>): Conn {
    if data == [] then c.(accepted := c.accepted + [data])
    else c.(output := c.output + data, writeEvent := true, accepted := c.accepted + [data])
  }

  function ShutdownInLoop(c: Conn): Conn {
    if c.writeEvent || c.fin.Fin? then c
    else c.(fin := Fin(|c.wire|, c.state != Disconnected))
  }

  function HandleClose(c: Conn): Conn {
    c.(state := Disconnected, readEvent := false, writeEvent := false)
  }

  function ForceCloseInLoop(c: Conn): Conn {
    if c.state == Connected || c.state == Disconnecting then HandleClose(c) else c
  }

  function HandleWrite(c: Conn, wr: WriteResult): Conn {
    if !c.writeEvent then c
    else
      match wr
      case Wrote(n) =>
        if n == 0 then c
        else if n < |c.output| then c.(wire := c.wire + c.output[..n], output := c.output[n..])
        else
          var c := c.(wire := c.wire + c.output, output := [], writeEvent := false);
          if c.state == Disconnecting then ShutdownInLoop(c) else c
      case Broken => c.(broken := true)
      case _ => c
  }

  function StartReadInLoop(c: Conn): Conn {
    if !c.reading || !c.readEvent then c.(readEvent := true, reading := true) else c
  }

  function StopReadInLoop(c: Conn): Conn {
    if c.reading || c.readEvent then c.(readEvent := false, reading := false) else c
  }

  function ConnectEstablished(c: Conn): Conn {
    c.(state := Connected, readEvent := true)
  }

  function ConnectDestroyed(c: Conn): Conn {
    if c.state == Connected then c.(state := Disconnected, readEvent := false, writeEvent := false) else c
  }

  function RunTask(c: Conn, task: Task, wr: WriteResult): Conn {
    match task
    case SendTask(data) => SendInLoop(c, data, wr)
    case ShutdownTask => ShutdownInLoop(c)
    case ForceCloseTask => ForceCloseInLoop(c)
    case StartReadTask => StartReadInLoop(c)
    case StopReadTask => StopReadInLoop(c)
  }

  // --------------------------------------------------------------- public members

  /** `EventLoop::runInLoop`: at once in the loop thread, queued from any other. */
  function RunInLoop(c: Conn, task: Task, inLoop: bool, wr: WriteResult): Conn {
    if inLoop then RunTask(c, task, wr) else c.(tasks := c.tasks + [task])
  }

  function Send(c: Conn, data: seq<byte>, inLoop: bool, wr: WriteResult): Conn {
    if c.state == Connected then RunInLoop(c, SendTask(data), inLoop, wr) else c
  }

  function Shutdown(c: Conn, inLoop: bool): Conn {
    if c.state == Connected then RunInLoop(c.(state := Disconnecting), ShutdownTask, inLoop, WouldBlock)
    else c
  }

  function ForceClose(c: Conn): Conn {
    if c.state == Connected || c.state == Disconnecting then
      c.(state := Disconnecting, tasks := c.tasks + [ForceCloseTask])
    else c
  }

  function ForceCloseWithDelay(c: Conn): Conn {
    if c.state == Connected || c.state == Disconnecting then
      c.(state := Disconnecting, delayedCloses := c.delayedCloses + 1)
    else c
  }

  // ------------------------------------------------------------------------ runs

  datatype Event =
    | Establish
    | CallSend(data: seq<byte>, inLoop: bool, wr: WriteResult)
    | CallShutdown(inLoop: bool)
    | CallForceClose
    | CallForceCloseWithDelay
    | CallStartRead(inLoop: bool)
    | CallStopRead(inLoop: bool)
    | RunNextTask(wr: WriteResult)
    | DelayExpires
    | Writable(wr: WriteResult)
    | PeerCloses   // end of file on read, or a hang-up
    | PeerResets   // the kernel learns of it; nothing runs
    | Destroy

  /** A `write` of `len` bytes takes at most `len`; after a FIN or a reset it fails with EPIPE. */
  predicate KernelAllows(c: Conn, len: nat, wr: WriteResult) {
    && (wr.Wrote? ==> wr.n <= len)
    && (c.broken || c.fin.Fin? ==> wr == Broken)
  }

  predicate Enabled(c: Conn, ev: Event) {
    match ev
    case Establish => c.state == Connecting
    case CallSend(data, _, wr) => KernelAllows(c, |data|, wr)
    case RunNextTask(wr) =>
      c.tasks != [] && (c.tasks[0].SendTask? ==> KernelAllows(c, |c.tasks[0].data|, wr))
    case DelayExpires => c.delayedCloses > 0
    case Writable(wr) => KernelAllows(c, |c.output|, wr)
    case PeerCloses => c.state == Connected || c.state == Disconnecting
    case Destroy => c.state == Connected || c.state == Disconnected
    case _ => true
  }

  function Step(c: Conn, ev: Event): Conn {
    match ev
    case Establish => ConnectEstablished(c)
    case CallSend(data, inLoop, wr) => Send(c, data, inLoop, wr)
    case CallShutdown(inLoop) => Shutdown(c, inLoop)
    case CallForceClose => ForceClose(c)
    case CallForceCloseWithDelay => ForceCloseWithDelay(c)
    case CallStartRead(inLoop) => RunInLoop(c, StartReadTask, inLoop, WouldBlock)
    case CallStopRead(inLoop) => RunInLoop(c, StopReadTask, inLoop, WouldBlock)
    case RunNextTask(wr) =>
      if c.tasks == [] then c else RunTask(c.(tasks := c.tasks[1..]), c.tasks[0], wr)
    case DelayExpires =>
      if c.delayedCloses == 0 then c else ForceCloseInLoop(c.(delayedCloses := c.delayedCloses - 1))
    case Writable(wr) => HandleWrite(c, wr)
    case PeerCloses => HandleClose(c)
    case PeerResets => c.(broken := true)
    case Destroy => ConnectDestroyed(c)
  }

  predicate Legal(c: Conn, evs: seq<Event>)
    decreases |evs|
  {
    evs == [] || (Enabled(c, evs[0]) && Legal(Step(c, evs[0]), evs[1..]))
  }

  function Run(c: Conn, evs: seq<Event>): Conn
    decreases |evs|
  {
    if evs == [] then c else Run(Step(c, evs[0]), evs[1..])
  }

  // ------------------------------------------------------------------ invariants

  predicate IsOpen(c: Conn) {
    c.state != Disconnected
  }

  /** Every accepted byte is on the wire or, in order behind it, in the output buffer. */
  predicate NothingLost(c: Conn) {
    Concat(c.accepted) == c.wire + c.output
  }

  /** Writability is watched exactly while there is something to write. */
  predicate WatchesOutput(c: Conn) {
    if IsOpen(c) then c.writeEvent <==> c.output != [] else !c.writeEvent
  }

  /** Nothing follows a FIN, and a FIN of an open connection follows everything accepted. */
  predicate FinIsLast(c: Conn) {
    c.fin.Fin? ==> c.fin.at == |c.wire| && (c.fin.whileOpen || IsOpen(c) ==> c.output == [])
  }

  /** A connection on its way down gets there. */
  predicate Closing(c: Conn) {
    c.state == Disconnecting ==>
      c.fin.Fin? || c.output != [] || ShutdownTask in c.tasks || ForceCloseTask in c.tasks
      || c.delayedCloses > 0
  }

  /** Once a message is dropped, every later one is. */
  predicate DropsAreFinal(c: Conn) {
    && c.accepted <= c.submitted
    && (c.accepted != c.submitted ==> !IsOpen(c) || ((c.broken || c.fin.Fin?) && c.output == []))
  }

  /** What every member keeps, whatever is queued. */
  predicate Core(c: Conn) {
    NothingLost(c) && WatchesOutput(c) && FinIsLast(c) && DropsAreFinal(c)
  }

  predicate Inv(c: Conn) {
    Core(c) && Closing(c)
  }

  lemma SameStreamsKeepCore(c: Conn, d: Conn)
    requires Core(c) && WatchesOutput(d) && (IsOpen(d) ==> IsOpen(c))
    requires d.output == c.output && d.wire == c.wire && d.fin == c.fin && (c.broken ==> d.broken)
    requires d.accepted == c.accepted && d.submitted == c.submitted
    ensures Core(d)
  {
  }

  lemma AcceptKeepsCore(c: Conn, d: Conn, data: seq<byte>)
    requires Core(c) && IsOpen(c) && c.accepted == c.submitted && c.fin.NoFin?
    requires IsOpen(d) && d.fin == c.fin && WatchesOutput(d)
    requires d.accepted == c.accepted + [data] && d.submitted == c.submitted + [data]
    requires d.wire + d.output == c.wire + c.output + data
    ensures Core(d)
  {
    ConcatSnoc(c.accepted, data);
  }

  lemma DropKeepsCore(c: Conn, d: Conn, data: seq<byte>)
    requires Core(c) && (IsOpen(c) ==> c.output == [])
    requires IsOpen(d) == IsOpen(c) && WatchesOutput(d) && d.fin == c.fin && (IsOpen(d) ==> d.broken)
    requires d.output == c.output && d.wire == c.wire
    requires d.accepted == c.accepted && d.submitted == c.submitted + [data]
    ensures Core(d)
  {
  }

  lemma WriteDirectlyKeepsCore(c: Conn, data: seq<byte>, wr: WriteResult)
    requires Core(c) && IsOpen(c) && c.output == [] && KernelAllows(c, |data|, wr)
    ensures Core(WriteDirectly(c.(submitted := c.submitted + [data]), data, wr))
  {
    var d := WriteDirectly(c.(submitted := c.submitted + [data]), data, wr);
    if wr.Broken? {
      DropKeepsCore(c, d, data);
    } else {
      assert wr.Wrote? ==> data == data[..wr.n] + data[wr.n..];
      AcceptKeepsCore(c, d, data);
    }
  }

  lemma BufferedKeepsCore(c: Conn, data: seq<byte>)
    requires Core(c) && IsOpen(c) && c.output != []
    ensures Core(Buffered(c.(submitted := c.submitted + [data]), data))
  {
    var d := Buffered(c.(submitted := c.submitted + [data]), data);
    assert d.output == c.output + data;
    AcceptKeepsCore(c, d, data);
  }

  lemma SendInLoopKeepsCore(c: Conn, data: seq<byte>, wr: WriteResult)
    requires Core(c) && KernelAllows(c, |data|, wr)
    ensures Core(SendInLoop(c, data, wr))
  {
    if !IsOpen(c) {
      DropKeepsCore(c, SendInLoop(c, data, wr), data);
    } else if c.output == [] {
      WriteDirectlyKeepsCore(c, data, wr);
    } else {
      BufferedKeepsCore(c, data);
    }
  }

  lemma HandleWriteKeepsCore(c: Conn, wr: WriteResult)
    requires Core(c) && KernelAllows(c, |c.output|, wr)
    ensures Core(HandleWrite(c, wr))
  {
    var d := HandleWrite(c, wr);
    if c.writeEvent && wr.Wrote? {
      assert c.output == c.output[..wr.n] + c.output[wr.n..];
      assert d.wire + d.output == c.wire + c.output;
    } else {
      SameStreamsKeepCore(c, d);
    }
  }

  lemma ShutdownInLoopKeepsCore(c: Conn)
    requires Core(c)
    ensures Core(ShutdownInLoop(c))
  {
  }

  lemma RunTaskKeepsCore(c: Conn, task: Task, wr: WriteResult)
    requires Core(c) && (task.SendTask? ==> KernelAllows(c, |task.data|, wr))
    ensures Core(RunTask(c, task, wr))
  {
    match task
    case SendTask(data) => SendInLoopKeepsCore(c, data, wr);
    case ShutdownTask => ShutdownInLoopKeepsCore(c);
    case _ => SameStreamsKeepCore(c, RunTask(c, task, wr));
  }

  lemma RunInLoopKeepsCore(c: Conn, task: Task, inLoop: bool, wr: WriteResult)
    requires Core(c) && (task.SendTask? ==> KernelAllows(c, |task.data|, wr))
    ensures Core(RunInLoop(c, task, inLoop, wr))
  {
    if inLoop {
      RunTaskKeepsCore(c, task, wr);
    } else {
      SameStreamsKeepCore(c, RunInLoop(c, task, inLoop, wr));
    }
  }

  lemma StepKeepsCore(c: Conn, ev: Event)
    requires Core(c) && Enabled(c, ev)
    ensures Core(Step(c, ev))
  {
    match ev
    case CallSend(data, inLoop, wr) => RunInLoopKeepsCore(c, SendTask(data), inLoop, wr);
    case CallShutdown(inLoop) => CallShutdownKeepsCore(c, inLoop);
    case CallStartRead(inLoop) => RunInLoopKeepsCore(c, StartReadTask, inLoop, WouldBlock);
    case CallStopRead(inLoop) => RunInLoopKeepsCore(c, StopReadTask, inLoop, WouldBlock);
    case RunNextTask(wr) => RunNextTaskKeepsCore(c, wr);
    case Writable(wr) => HandleWriteKeepsCore(c, wr);
    case PeerCloses => CloseKeepsCore(c);
    case Destroy => CloseKeepsCore(c);
    case DelayExpires => DelayKeepsCore(c);
    case _ => SameStreamsKeepCore(c, Step(c, ev));
  }

  lemma CallShutdownKeepsCore(c: Conn, inLoop: bool)
    requires Core(c)
    ensures Core(Shutdown(c, inLoop))
  {
    if c.state == Connected {
      SameStreamsKeepCore(c, c.(state := Disconnecting));
      RunInLoopKeepsCore(c.(state := Disconnecting), ShutdownTask, inLoop, WouldBlock);
    }
  }

  lemma RunNextTaskKeepsCore(c: Conn, wr: WriteResult)
    requires Core(c) && Enabled(c, RunNextTask(wr))
    ensures Core(Step(c, RunNextTask(wr)))
  {
    SameStreamsKeepCore(c, c.(tasks := c.tasks[1..]));
    RunTaskKeepsCore(c.(tasks := c.tasks[1..]), c.tasks[0], wr);
  }

  lemma CloseKeepsCore(c: Conn)
    requires Core(c)
    ensures Core(HandleClose(c)) && Core(ConnectDestroyed(c)) && Core(ForceCloseInLoop(c))
  {
    SameStreamsKeepCore(c, HandleClose(c));
    SameStreamsKeepCore(c, ConnectDestroyed(c));
  }

  lemma DelayKeepsCore(c: Conn)
    requires Core(c) && c.delayedCloses > 0
    ensures Core(Step(c, DelayExpires))
  {
    var d := c.(delayedCloses := c.delayedCloses - 1);
    SameStreamsKeepCore(c, d);
    CloseKeepsCore(d);
  }

  // The closing task may leave the queue only by running, and then it closes or the output drains.
  lemma RunTaskKeepsClosing(c: Conn, task: Task, wr: WriteResult)
    requires Core(c) && (Closing(c) || task.ShutdownTask? || task.ForceCloseTask?)
    ensures Closing(RunTask(c, task, wr))
  {
  }

  lemma DequeueKeepsClosing(c: Conn)
    requires Closing(c) && c.tasks != []
    ensures Closing(c.(tasks := c.tasks[1..])) || c.tasks[0].ShutdownTask? || c.tasks[0].ForceCloseTask?
  {
    assert c.tasks == [c.tasks[0]] + c.tasks[1..];
  }

  lemma RunInLoopKeepsClosing(c: Conn, task: Task, inLoop: bool, wr: WriteResult)
    requires Core(c) && (Closing(c) || task.ShutdownTask?)
    ensures Closing(RunInLoop(c, task, inLoop, wr))
  {
    if inLoop {
      RunTaskKeepsClosing(c, task, wr);
    } else {
      assert task in c.tasks + [task];
    }
  }

  lemma CallShutdownKeepsClosing(c: Conn, inLoop: bool)
    requires Inv(c)
    ensures Closing(Shutdown(c, inLoop))
  {
    if c.state == Connected {
      SameStreamsKeepCore(c, c.(state := Disconnecting));
      RunInLoopKeepsClosing(c.(state := Disconnecting), ShutdownTask, inLoop, WouldBlock);
    }
  }

  lemma StepKeepsClosing(c: Conn, ev: Event)
    requires Inv(c) && Enabled(c, ev)
    ensures Closing(Step(c, ev))
  {
    match ev
    case RunNextTask(wr) =>
      DequeueKeepsClosing(c);
      RunTaskKeepsClosing(c.(tasks := c.tasks[1..]), c.tasks[0], wr);
    case CallSend(data, inLoop, wr) => RunInLoopKeepsClosing(c, SendTask(data), inLoop, wr);
    case CallForceClose => assert ForceCloseTask in c.tasks + [ForceCloseTask];
    case CallShutdown(inLoop) => CallShutdownKeepsClosing(c, inLoop);
    case CallStartRead(inLoop) => RunInLoopKeepsClosing(c, StartReadTask, inLoop, WouldBlock);
    case CallStopRead(inLoop) => RunInLoopKeepsClosing(c, StopReadTask, inLoop, WouldBlock);
    case _ =>
  }

  /** In every run from a new connection, every invariant holds at every point. */
  lemma {:induction false} RunKeepsInv(c: Conn, evs: seq<Event>)
    requires Inv(c) && Legal(c, evs)
    ensures Inv(Run(c, evs))
    decreases |evs|
  {
    if evs != [] {
      StepKeepsCore(c, evs[0]);
      StepKeepsClosing(c, evs[0]);
      RunKeepsInv(Step(c, evs[0]), evs[1..]);
    }
  }

  ghost predicate ExtendsWire(c: Conn, d: Conn) {
    c.wire <= d.wire && (c.fin.Fin? ==> d.fin == c.fin && d.wire == c.wire)
  }

  lemma HandleWriteExtendsWire(c: Conn, wr: WriteResult)
    requires FinIsLast(c) && WatchesOutput(c) && KernelAllows(c, |c.output|, wr)
    ensures ExtendsWire(c, HandleWrite(c, wr))
  {
  }

  lemma RunTaskExtendsWire(c: Conn, task: Task, wr: WriteResult)
    requires task.SendTask? ==> KernelAllows(c, |task.data|, wr)
    ensures ExtendsWire(c, RunTask(c, task, wr))
  {
  }

  lemma RunInLoopExtendsWire(c: Conn, task: Task, inLoop: bool, wr: WriteResult)
    requires task.SendTask? ==> KernelAllows(c, |task.data|, wr)
    ensures ExtendsWire(c, RunInLoop(c, task, inLoop, wr))
  {
    RunTaskExtendsWire(c, task, wr);
  }

  lemma OtherKeepsWire(c: Conn, ev: Event)
    requires ev.Establish? || ev.CallForceClose? || ev.CallForceCloseWithDelay? || ev.DelayExpires?
             || ev.PeerCloses? || ev.PeerResets? || ev.Destroy?
    ensures Step(c, ev).wire == c.wire && Step(c, ev).fin == c.fin
  {
  }

  lemma StepExtendsWire(c: Conn, ev: Event)
    requires FinIsLast(c) && WatchesOutput(c) && Enabled(c, ev)
    ensures ExtendsWire(c, Step(c, ev))
  {
    match ev
    case CallSend(data, inLoop, wr) => RunInLoopExtendsWire(c, SendTask(data), inLoop, wr);
    case CallShutdown(inLoop) =>
      RunInLoopExtendsWire(c.(state := Disconnecting), ShutdownTask, inLoop, WouldBlock);
    case CallStartRead(inLoop) => RunInLoopExtendsWire(c, StartReadTask, inLoop, WouldBlock);
    case CallStopRead(inLoop) => RunInLoopExtendsWire(c, StopReadTask, inLoop, WouldBlock);
    case RunNextTask(wr) => RunTaskExtendsWire(c.(tasks := c.tasks[1..]), c.tasks[0], wr);
    case Writable(wr) => HandleWriteExtendsWire(c, wr);
    case _ => OtherKeepsWire(c, ev);
  }

  /** The wire only ever grows, a FIN is never taken back, and after it the wire stays as it is. */
  lemma {:induction false} WireGrows(c: Conn, evs: seq<Event>)
    requires Core(c) && Legal(c, evs)
    ensures ExtendsWire(c, Run(c, evs))
    decreases |evs|
  {
    if evs != [] {
      StepKeepsCore(c, evs[0]);
      StepExtendsWire(c, evs[0]);
      WireGrows(Step(c, evs[0]), evs[1..]);
    }
  }

  /** The promises of the output path, over every run. */
  lemma OutputPath(evs: seq<Event>)
    requires Legal(NEW_CONNECTION, evs)
    ensures var c := Run(NEW_CONNECTION, evs);
            && Concat(c.accepted) == c.wire + c.output
            && (c.state == Connected || c.state == Disconnecting ==> (c.writeEvent <==> c.output != []))
            && (c.fin.Fin? ==> c.fin.at == |c.wire|)
            && (c.fin.Fin? && c.fin.whileOpen ==> c.wire == Concat(c.accepted))
            && c.accepted <= c.submitted
            && Closing(c)
  {
    RunKeepsInv(NEW_CONNECTION, evs);
  }

  // ------------------------------------------------------- connectDestroyed's assertion

  /** `Channel::remove` asserts that no event is watched. In an open state other than Connected the
      destruction leaves events watched unless reading was stopped and nothing is buffered. */
  lemma RemoveAssertion(c: Conn)
    requires Inv(c)
    ensures var d := ConnectDestroyed(c);
            !d.readEvent && !d.writeEvent
            <==> c.state == Connected || (!c.readEvent && (!IsOpen(c) || c.output == []))
  {
  }

  /** From Disconnected it holds unless `startRead` came between the close and the destruction. */
  lemma StartReadAfterCloseBreaksRemoval()
    ensures var evs := [Establish, PeerCloses, CallStartRead(true)];
            var c := Run(NEW_CONNECTION, evs);
            Legal(NEW_CONNECTION, evs) && Enabled(c, Destroy) && Step(c, Destroy).readEvent
  {
    var c1 := Step(NEW_CONNECTION, Establish);
    var c2 := Step(c1, PeerCloses);
    var c3 := Step(c2, CallStartRead(true));
    assert [Establish, PeerCloses, CallStartRead(true)][1..] == [PeerCloses, CallStartRead(true)];
    assert [PeerCloses, CallStartRead(true)][1..] == [CallStartRead(true)];
    assert [CallStartRead(true)][1..] == [];
    assert Run(c2, [CallStartRead(true)]) == c3;
    assert Run(c1, [PeerCloses, CallStartRead(true)]) == c3;
  }
}
