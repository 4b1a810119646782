/** The double-buffered asynchronous log (Log/AsyncLogging.cpp) as a state machine: any number of threads
    append lines, one writer thread takes the full buffers and writes them to a file. A step is what a
    thread does under one lock, or what the writer does alone between two. */
module LogProtocol {
  import opened Streams
  import opened FixedBuffer

  type Line = string

  /** A buffer's text; `lines` records the appends it is made of. */
  datatype Buf = Buf(text: string, lines: seq<Line>)

  /** A `unique_ptr`: moving out of it leaves `None`. */
  datatype BufferPtr = None | Some(buf: Buf)

  /** What the file receives: a whole buffer, or the report of how many buffers were discarded. */
  datatype Item = Chunk(buf: Buf) | Notice(discarded: nat)

  /** Where the writer thread is; `Writing(n)` has written the first `n` buffers. */
  datatype Phase = AtTop | Waiting | Swapped | Writing(n: nat) | Stopped

  /** `appended` records the lines that went into a buffer, `batches` the buffers of every swap. */
  datatype Log = Log(
    size: nat, running: bool, currentBuffer: BufferPtr, nextBuffer: BufferPtr, buffers: seq<Buf>,
    phase: Phase, newBuffer1: BufferPtr, newBuffer2: BufferPtr, buffersToWrite: seq<Buf>,
    file: seq<Item>,
    appended: seq<Line>, batches: seq<seq<Buf>>)

  const EMPTY := Buf("", [])
  const OVERLOAD := 25

  function Initial(size: nat): Log {
    Log(size, true, Some(EMPTY), Some(EMPTY), [], AtTop, Some(EMPTY), Some(EMPTY), [], [], [], [])
  }

  // ------------------------------------------------------------------------ steps

  /** `FixedBuffer::append`: nothing happens when the line does not fit. */
  function Put(size: nat, buf: Buf, line: Line): Buf {
    Buf(Appended(size, buf.text, line),
        if size - |buf.text| > |line| then buf.lines + [line] else buf.lines)
  }

  function AppendLine(s: Log, line: Line): Log {
    var s := s.(appended := if |line| < s.size then s.appended + [line] else s.appended);
    match s.currentBuffer
    case None => s
    case Some(current) =>
      if s.size - |current.text| > |line| then s.(currentBuffer := Some(Put(s.size, current, line)))
      else
        var spare := if s.nextBuffer.Some? then s.nextBuffer.buf else EMPTY;
        s.(buffers := s.buffers + [current], nextBuffer := None,
           currentBuffer := Some(Put(s.size, spare, line)))
  }

  function Swap(s: Log): Log {
    match s.currentBuffer
    case None => s
    case Some(current) =>
      s.(phase := Swapped, buffersToWrite := s.buffers + [current], buffers := [],
         currentBuffer := s.newBuffer1, newBuffer1 := None,
         nextBuffer := if s.nextBuffer.None? then s.newBuffer2 else s.nextBuffer,
         newBuffer2 := if s.nextBuffer.None? then None else s.newBuffer2,
         batches := s.batches + [s.buffers + [current]])
  }

  function CheckOverload(s: Log): Log {
    if |s.buffersToWrite| > OVERLOAD then
      s.(phase := Writing(0), file := s.file + [Notice(|s.buffersToWrite| - 2)],
         buffersToWrite := s.buffersToWrite[..2])
    else s.(phase := Writing(0))
  }

  function WriteBuffer(s: Log): Log {
    if s.phase.Writing? && s.phase.n < |s.buffersToWrite| then
      var buf := s.buffersToWrite[s.phase.n];
      s.(phase := Writing(s.phase.n + 1), file := s.file + [Chunk(buf)])
    else s
  }

  /** One refill: a missing spare is replaced by the last written buffer, emptied. */
  function Refill(spare: BufferPtr, written: seq<Buf>): (BufferPtr, seq<Buf>) {
    if spare.Some? || written == [] then (spare, written)
    else (Some(EMPTY), written[..|written| - 1])
  }

  function Recycle(s: Log): Log {
    var written := if |s.buffersToWrite| > 2 then s.buffersToWrite[..2] else s.buffersToWrite;
    var (spare1, rest) := Refill(s.newBuffer1, written);
    var (spare2, _) := Refill(s.newBuffer2, rest);
    s.(phase := AtTop, newBuffer1 := spare1, newBuffer2 := spare2, buffersToWrite := [])
  }

  datatype Event = Append(line: Line) | Stop | TestRunning | TakeBuffers | TestOverload | WriteNext | RecycleBuffers

  predicate Enabled(s: Log, ev: Event) {
    match ev
    case Append(_) => true
    case Stop => true
    case TestRunning => s.phase.AtTop?
    case TakeBuffers => s.phase.Waiting?
    case TestOverload => s.phase.Swapped?
    case WriteNext => s.phase.Writing? && s.phase.n < |s.buffersToWrite|
    case RecycleBuffers => s.phase.Writing? && s.phase.n == |s.buffersToWrite|
  }

  function Step(s: Log, ev: Event): Log {
    match ev
    case Append(line) => AppendLine(s, line)
    case Stop => s.(running := false)
    case TestRunning => s.(phase := if s.running then Waiting else Stopped)
    case TakeBuffers => Swap(s)
    case TestOverload => CheckOverload(s)
    case WriteNext => WriteBuffer(s)
    case RecycleBuffers => Recycle(s)
  }

  predicate Legal(s: Log, evs: seq<Event>)
    decreases |evs|
  {
    evs == [] || (Enabled(s, evs[0]) && Legal(Step(s, evs[0]), evs[1..]))
  }

  function Run(s: Log, evs: seq<Event>): Log
    decreases |evs|
  {
    if evs == [] then s else Run(Step(s, evs[0]), evs[1..])
  }

  // -------------------------------------------------------- where the lines are

  function LinesOf(bufs: seq<Buf>): seq<Line> {
    if bufs == [] then [] else LinesOf(bufs[..|bufs| - 1]) + bufs[|bufs| - 1].lines
  }

  function LinesOfBatches(batches: seq<seq<Buf>>): seq<Line> {
    if batches == [] then []
    else LinesOfBatches(batches[..|batches| - 1]) + LinesOf(batches[|batches| - 1])
  }

  function Front(s: Log): seq<Line> {
    LinesOf(s.buffers) + (if s.currentBuffer.Some? then s.currentBuffer.buf.lines else [])
  }

  /** Every line shorter than a buffer has, in order, been taken by the writer, or is in front: in a full
      buffer or in the current one. */
  predicate NothingLost(s: Log) {
    s.appended == LinesOfBatches(s.batches) + Front(s)
  }

  // ---------------------------------------------------- what the file should hold

  function ChunksOf(bufs: seq<Buf>): seq<Item> {
    if bufs == [] then [] else ChunksOf(bufs[..|bufs| - 1]) + [Chunk(bufs[|bufs| - 1])]
  }

  /** A batch is written whole; of an overload only the first two buffers are. */
  function Kept(batch: seq<Buf>): seq<Buf> {
    if |batch| > OVERLOAD then batch[..2] else batch
  }

  function Report(batch: seq<Buf>): seq<Item> {
    if |batch| > OVERLOAD then [Notice(|batch| - 2)] else []
  }

  function FileOf(batch: seq<Buf>): seq<Item> {
    Report(batch) + ChunksOf(Kept(batch))
  }

  function FilesOf(batches: seq<seq<Buf>>): seq<Item> {
    if batches == [] then [] else FilesOf(batches[..|batches| - 1]) + FileOf(batches[|batches| - 1])
  }

  /** The file, whole batches first, `n` buffers into the last one. */
  function FileUpTo(batches: seq<seq<Buf>>, n: nat): seq<Item>
    requires batches != [] && n <= |Kept(batches[|batches| - 1])|
  {
    var last := batches[|batches| - 1];
    FilesOf(batches[..|batches| - 1]) + (Report(last) + ChunksOf(Kept(last)[..n]))
  }

  /** The file is determined by the batches: nothing is discarded but the rest of an overload, and its
      report stands right before the two buffers that were kept. */
  predicate FileIsFaithful(s: Log) {
    if s.phase.Swapped? then
      && s.batches != [] && s.buffersToWrite == s.batches[|s.batches| - 1]
      && s.file == FilesOf(s.batches[..|s.batches| - 1])
    else if s.phase.Writing? then
      && s.batches != [] && s.buffersToWrite == Kept(s.batches[|s.batches| - 1])
      && s.phase.n <= |s.buffersToWrite| && s.file == FileUpTo(s.batches, s.phase.n)
    else s.file == FilesOf(s.batches)
  }

  predicate IsWhole(size: nat, buf: Buf) {
    buf.text == Concat(buf.lines) && |buf.text| < size
  }

  /** Every buffer anywhere holds whole lines and stays below its size. */
  predicate LinesAreWhole(s: Log) {
    && (s.currentBuffer.Some? ==> IsWhole(s.size, s.currentBuffer.buf))
    && (forall b | b in s.buffers :: IsWhole(s.size, b))
    && (forall b | b in s.buffersToWrite :: IsWhole(s.size, b))
    && (forall i | 0 <= i < |s.file| :: s.file[i].Chunk? ==> IsWhole(s.size, s.file[i].buf))
  }

  /** A missing spare can always be replaced: the next buffer is missing exactly when a full one is queued,
      and the writer has at least as many buffers as it is short of. */
  predicate CanRecycle(s: Log) {
    && s.size > 0
    && s.currentBuffer.Some?
    && (s.nextBuffer.Some? ==> s.nextBuffer.buf == EMPTY)
    && (s.nextBuffer.None? <==> s.buffers != [])
    && (s.newBuffer1.Some? ==> s.newBuffer1.buf == EMPTY)
    && (s.newBuffer2.Some? ==> s.newBuffer2.buf == EMPTY)
    && (if s.phase.Swapped? || s.phase.Writing? then
          && s.newBuffer1.None? && s.buffersToWrite != []
          && (s.newBuffer2.None? <==> |s.buffersToWrite| >= 2)
          && (s.phase.Writing? ==> s.phase.n <= |s.buffersToWrite|)
        else
          s.newBuffer1.Some? && s.newBuffer2.Some? && s.buffersToWrite == [])
  }

  predicate Inv(s: Log) {
    CanRecycle(s) && NothingLost(s) && FileIsFaithful(s) && LinesAreWhole(s)
  }

  // ------------------------------------------------------------------------ proofs

  lemma StepKeepsRecycling(s: Log, ev: Event)
    requires CanRecycle(s) && Enabled(s, ev)
    ensures CanRecycle(Step(s, ev))
  {
  }

  lemma LinesOfSnoc(bufs: seq<Buf>, b: Buf)
    ensures LinesOf(bufs + [b]) == LinesOf(bufs) + b.lines
  {
    assert (bufs + [b])[..|bufs|] == bufs;
  }

  lemma {:induction false} LinesOfAppend(a: seq<Buf>, b: seq<Buf>)
    ensures LinesOf(a + b) == LinesOf(a) + LinesOf(b)
  {
    if b == [] {
      assert a + b == a;
    } else {
      var init := b[..|b| - 1];
      assert (a + b)[..|a + b| - 1] == a + init;
      LinesOfAppend(a, init);
    }
  }

  // Whole lines.

  lemma PutKeepsWhole(size: nat, buf: Buf, line: Line)
    requires IsWhole(size, buf)
    ensures IsWhole(size, Put(size, buf, line))
  {
    ConcatSnoc(buf.lines, line);
  }

  lemma AppendKeepsWhole(s: Log, line: Line)
    requires CanRecycle(s) && LinesAreWhole(s)
    ensures LinesAreWhole(AppendLine(s, line))
  {
    assert IsWhole(s.size, EMPTY);
    PutKeepsWhole(s.size, s.currentBuffer.buf, line);
    PutKeepsWhole(s.size, EMPTY, line);
  }

  lemma SwapKeepsWhole(s: Log)
    requires CanRecycle(s) && LinesAreWhole(s) && s.phase.Waiting?
    ensures LinesAreWhole(Swap(s))
  {
    assert IsWhole(s.size, EMPTY);
  }

  lemma StepKeepsWhole(s: Log, ev: Event)
    requires CanRecycle(s) && LinesAreWhole(s) && Enabled(s, ev)
    ensures LinesAreWhole(Step(s, ev))
  {
    match ev
    case Append(line) => AppendKeepsWhole(s, line);
    case TakeBuffers => SwapKeepsWhole(s);
    case WriteNext => assert s.buffersToWrite[s.phase.n] in s.buffersToWrite;
    case _ =>
  }

  // The file.

  lemma ChunksOfSnoc(bufs: seq<Buf>, n: nat)
    requires n < |bufs|
    ensures ChunksOf(bufs[..n + 1]) == ChunksOf(bufs[..n]) + [Chunk(bufs[n])]
  {
    assert bufs[..n + 1][..n] == bufs[..n];
  }

  lemma SwapKeepsFile(s: Log)
    requires CanRecycle(s) && FileIsFaithful(s) && s.phase.Waiting?
    ensures FileIsFaithful(Swap(s))
  {
    var t := Swap(s);
    assert t.batches[..|t.batches| - 1] == s.batches;
  }

  lemma OverloadKeepsFile(s: Log)
    requires FileIsFaithful(s) && s.phase.Swapped?
    ensures FileIsFaithful(CheckOverload(s))
  {
    var t := CheckOverload(s);
    assert t.file == FileUpTo(t.batches, 0);
  }

  lemma WriteKeepsFile(s: Log)
    requires FileIsFaithful(s) && Enabled(s, WriteNext)
    ensures FileIsFaithful(WriteBuffer(s))
  {
    ChunksOfSnoc(s.buffersToWrite, s.phase.n);
    var t := WriteBuffer(s);
    assert t.file == FileUpTo(t.batches, t.phase.n);
  }

  lemma RecycleKeepsFile(s: Log)
    requires FileIsFaithful(s) && Enabled(s, RecycleBuffers)
    ensures FileIsFaithful(Recycle(s))
  {
    var bufs := s.buffersToWrite;
    assert bufs[..|bufs|] == bufs;
    assert FileUpTo(s.batches, |bufs|) == FilesOf(s.batches);
  }

  lemma OtherKeepsFile(s: Log, ev: Event)
    requires FileIsFaithful(s) && (ev.Append? || ev.Stop? || (ev.TestRunning? && s.phase.AtTop?))
    ensures FileIsFaithful(Step(s, ev))
  {
    var t := Step(s, ev);
    assert t.file == s.file && t.batches == s.batches && t.buffersToWrite == s.buffersToWrite;
  }

  lemma StepKeepsFile(s: Log, ev: Event)
    requires CanRecycle(s) && FileIsFaithful(s) && Enabled(s, ev)
    ensures FileIsFaithful(Step(s, ev))
  {
    match ev
    case TakeBuffers => SwapKeepsFile(s);
    case TestOverload => OverloadKeepsFile(s);
    case WriteNext => WriteKeepsFile(s);
    case RecycleBuffers => RecycleKeepsFile(s);
    case _ => OtherKeepsFile(s, ev);
  }

  // The lines.

  lemma AppendFront(s: Log, line: Line)
    requires CanRecycle(s)
    ensures Front(AppendLine(s, line)) == Front(s) + (if |line| < s.size then [line] else [])
  {
    var current, t := s.currentBuffer.buf, AppendLine(s, line);
    if s.size - |current.text| > |line| {
      assert t.buffers == s.buffers && t.currentBuffer.buf.lines == current.lines + [line];
    } else {
      LinesOfSnoc(s.buffers, current);
      assert t.buffers == s.buffers + [current];
      assert t.currentBuffer.buf.lines == if |line| < s.size then [line] else [];
    }
  }

  lemma AppendKeepsLines(s: Log, line: Line)
    requires CanRecycle(s) && NothingLost(s)
    ensures NothingLost(AppendLine(s, line))
  {
    var added := if |line| < s.size then [line] else [];
    AppendFront(s, line);
    var t := AppendLine(s, line);
    assert t.appended == s.appended + added && t.batches == s.batches;
    Regroup(LinesOfBatches(s.batches), Front(s), added);
  }

  lemma Regroup(a: seq<Line>, b: seq<Line>, c: seq<Line>)
    ensures (a + b) + c == a + (b + c)
  {
  }

  lemma SwapKeepsLines(s: Log)
    requires CanRecycle(s) && NothingLost(s) && s.phase.Waiting?
    ensures NothingLost(Swap(s)) && Front(Swap(s)) == []
  {
    var t, batch := Swap(s), s.buffers + [s.currentBuffer.buf];
    LinesOfSnoc(s.buffers, s.currentBuffer.buf);
    assert LinesOf(batch) == Front(s);
    assert t.batches[..|t.batches| - 1] == s.batches;
    assert Front(t) == [];
  }

  lemma StepKeepsLines(s: Log, ev: Event)
    requires CanRecycle(s) && NothingLost(s) && Enabled(s, ev)
    ensures NothingLost(Step(s, ev))
  {
    match ev
    case Append(line) => AppendKeepsLines(s, line);
    case TakeBuffers => SwapKeepsLines(s);
    case _ => assert Front(Step(s, ev)) == Front(s);
  }

  lemma StepKeepsInv(s: Log, ev: Event)
    requires Inv(s) && Enabled(s, ev)
    ensures Inv(Step(s, ev))
  {
    StepKeepsRecycling(s, ev);
    StepKeepsWhole(s, ev);
    StepKeepsFile(s, ev);
    StepKeepsLines(s, ev);
  }

  lemma {:induction false} RunKeepsInv(s: Log, evs: seq<Event>)
    requires Inv(s) && Legal(s, evs)
    ensures Inv(Run(s, evs))
    decreases |evs|
  {
    if evs != [] {
      StepKeepsInv(s, evs[0]);
      RunKeepsInv(Step(s, evs[0]), evs[1..]);
    }
  }

  // ---------------------------------------------------------------- main results

  /** The lines among the events that are shorter than a buffer, in order. */
  function LinesAppended(size: nat, evs: seq<Event>): seq<Line> {
    if evs == [] then []
    else (if evs[0].Append? && |evs[0].line| < size then [evs[0].line] else [])
         + LinesAppended(size, evs[1..])
  }

  lemma StepAppends(s: Log, ev: Event)
    ensures Step(s, ev).size == s.size
    ensures Step(s, ev).appended
            == s.appended + (if ev.Append? && |ev.line| < s.size then [ev.line] else [])
  {
  }

  lemma {:induction false} AppendedIsInput(s: Log, evs: seq<Event>)
    requires Legal(s, evs)
    ensures Run(s, evs).size == s.size
    ensures Run(s, evs).appended == s.appended + LinesAppended(s.size, evs)
    decreases |evs|
  {
    if evs != [] {
      StepAppends(s, evs[0]);
      AppendedIsInput(Step(s, evs[0]), evs[1..]);
    }
  }

  lemma InitialInv(size: nat)
    requires size > 0
    ensures Inv(Initial(size))
  {
    assert Concat(EMPTY.lines) == "";
  }

  /** In every interleaving of appending threads, the writer and a stop, overload included: the lines
      appended are those of the batches taken, and those still in front; the file is exactly what the
      batches amount to; no line is split; and every assertion of the program holds. */
  lemma EveryInterleaving(size: nat, evs: seq<Event>)
    requires size > 0 && Legal(Initial(size), evs)
    ensures var s := Run(Initial(size), evs);
            && LinesAppended(size, evs) == LinesOfBatches(s.batches) + Front(s)
            && FileIsFaithful(s) && LinesAreWhole(s) && CanRecycle(s)
            && (s.phase.Stopped? ==> s.file == FilesOf(s.batches))
  {
    InitialInv(size);
    RunKeepsInv(Initial(size), evs);
    AppendedIsInput(Initial(size), evs);
    assert [] + LinesAppended(size, evs) == LinesAppended(size, evs);
  }

  // What the file says about the batches.

  function Chunks(file: seq<Item>): seq<Buf> {
    if file == [] then []
    else Chunks(file[..|file| - 1]) + (if file[|file| - 1].Chunk? then [file[|file| - 1].buf] else [])
  }

  function Texts(bufs: seq<Buf>): seq<string> {
    if bufs == [] then [] else Texts(bufs[..|bufs| - 1]) + [bufs[|bufs| - 1].text]
  }

  function Discarded(file: seq<Item>): nat {
    if file == [] then 0
    else
      var last := file[|file| - 1];
      Discarded(file[..|file| - 1]) + (if last.Notice? then last.discarded else 0)
  }

  function Count(batches: seq<seq<Buf>>): nat {
    if batches == [] then 0 else Count(batches[..|batches| - 1]) + |batches[|batches| - 1]|
  }

  lemma {:induction false} FileAppend(a: seq<Item>, b: seq<Item>)
    ensures Chunks(a + b) == Chunks(a) + Chunks(b) && Discarded(a + b) == Discarded(a) + Discarded(b)
  {
    if b == [] {
      assert a + b == a;
    } else {
      var init := b[..|b| - 1];
      assert (a + b)[..|a + b| - 1] == a + init;
      FileAppend(a, init);
    }
  }

  lemma {:induction false} ChunksOfChunks(bufs: seq<Buf>)
    ensures Chunks(ChunksOf(bufs)) == bufs && Discarded(ChunksOf(bufs)) == 0
  {
    if bufs != [] {
      var init := bufs[..|bufs| - 1];
      ChunksOfChunks(init);
      assert ChunksOf(bufs)[..|ChunksOf(bufs)| - 1] == ChunksOf(init);
      assert bufs == init + [bufs[|bufs| - 1]];
    }
  }

  lemma ReportOf(batch: seq<Buf>)
    ensures Chunks(Report(batch)) == [] && Discarded(Report(batch)) == |batch| - |Kept(batch)|
  {
    if |batch| > OVERLOAD {
      var n := Notice(|batch| - 2);
      assert [n][..0] == [];
      assert Chunks([n]) == Chunks([]) + [] && Discarded([n]) == Discarded([]) + n.discarded;
    }
  }

  lemma PartOfFile(batch: seq<Buf>, n: nat)
    requires n <= |Kept(batch)|
    ensures var part := Report(batch) + ChunksOf(Kept(batch)[..n]);
            Chunks(part) == Kept(batch)[..n] && Discarded(part) == |batch| - |Kept(batch)|
  {
    ReportOf(batch);
    ChunksOfChunks(Kept(batch)[..n]);
    FileAppend(Report(batch), ChunksOf(Kept(batch)[..n]));
  }

  lemma {:induction false} FilesOfCount(batches: seq<seq<Buf>>)
    ensures |Chunks(FilesOf(batches))| + Discarded(FilesOf(batches)) == Count(batches)
  {
    if batches != [] {
      var init, last := batches[..|batches| - 1], batches[|batches| - 1];
      FilesOfCount(init);
      FileAppend(FilesOf(init), FileOf(last));
      PartOfFile(last, |Kept(last)|);
      assert Kept(last)[..|Kept(last)|] == Kept(last);
    }
  }

  lemma FileUpToSplit(batches: seq<seq<Buf>>, n: nat)
    requires batches != [] && n <= |Kept(batches[|batches| - 1])|
    ensures var file, init, last := FileUpTo(batches, n), batches[..|batches| - 1], batches[|batches| - 1];
            && Chunks(file) == Chunks(FilesOf(init)) + Kept(last)[..n]
            && Discarded(file) == Discarded(FilesOf(init)) + (|last| - |Kept(last)|)
  {
    var init, last := batches[..|batches| - 1], batches[|batches| - 1];
    PartOfFile(last, n);
    var part := Report(last) + ChunksOf(Kept(last)[..n]);
    FileAppend(FilesOf(init), part);
  }

  lemma FileUpToCount(batches: seq<seq<Buf>>, n: nat)
    requires batches != [] && n <= |Kept(batches[|batches| - 1])|
    ensures var file, kept := FileUpTo(batches, n), Kept(batches[|batches| - 1]);
            |Chunks(file)| + Discarded(file) + (|kept| - n) == Count(batches)
  {
    FileUpToSplit(batches, n);
    FilesOfCount(batches[..|batches| - 1]);
  }

  /** The buffers the writer has taken and not yet written. */
  function Unwritten(s: Log): nat {
    match s.phase
    case Swapped => |s.buffersToWrite|
    case Writing(n) => if n <= |s.buffersToWrite| then |s.buffersToWrite| - n else 0
    case _ => 0
  }

  lemma {:induction false} NoticesAreOverloads(batches: seq<seq<Buf>>, i: nat)
    requires i < |FilesOf(batches)| && FilesOf(batches)[i].Notice?
    ensures FilesOf(batches)[i].discarded > OVERLOAD - 2
    ensures i + 2 < |FilesOf(batches)| && FilesOf(batches)[i + 1].Chunk? && FilesOf(batches)[i + 2].Chunk?
  {
    var init, last := batches[..|batches| - 1], batches[|batches| - 1];
    if i < |FilesOf(init)| {
      NoticesAreOverloads(init, i);
    } else {
      NoticeIsFirst(last, i - |FilesOf(init)|);
    }
  }

  lemma NoticeIsFirst(batch: seq<Buf>, i: nat)
    requires i < |FileOf(batch)| && FileOf(batch)[i].Notice?
    ensures i == 0 && |batch| > OVERLOAD && FileOf(batch)[0].discarded == |batch| - 2
    ensures |FileOf(batch)| == 3 && FileOf(batch)[1].Chunk? && FileOf(batch)[2].Chunk?
  {
    ChunksAreChunks(Kept(batch));
  }

  lemma {:induction false} ChunksAreChunks(bufs: seq<Buf>)
    ensures |ChunksOf(bufs)| == |bufs| && forall i | 0 <= i < |bufs| :: ChunksOf(bufs)[i] == Chunk(bufs[i])
  {
    if bufs != [] {
      ChunksAreChunks(bufs[..|bufs| - 1]);
    }
  }

  /** What the file says adds up to the batches. */
  predicate AddsUp(s: Log) {
    |Chunks(s.file)| + Unwritten(s) + Discarded(s.file) == Count(s.batches)
  }

  lemma FaithfulAddsUp(s: Log)
    requires FileIsFaithful(s)
    ensures AddsUp(s)
  {
    if s.phase.Writing? {
      FileUpToCount(s.batches, s.phase.n);
    } else if s.phase.Swapped? {
      FilesOfCount(s.batches[..|s.batches| - 1]);
    } else {
      FilesOfCount(s.batches);
    }
  }

  /** Item `i` reports more than 23 buffers, and two buffers follow. */
  predicate IsOverload(file: seq<Item>, i: nat) {
    && i + 2 < |file| && file[i].Notice? && file[i].discarded > OVERLOAD - 2
    && file[i + 1].Chunk? && file[i + 2].Chunk?
  }

  predicate ReportsAreOverloads(file: seq<Item>) {
    forall i | 0 <= i < |file| && file[i].Notice? :: IsOverload(file, i)
  }

  lemma FilesReportOverloads(batches: seq<seq<Buf>>)
    ensures ReportsAreOverloads(FilesOf(batches))
  {
    var file := FilesOf(batches);
    forall i | 0 <= i < |file| && file[i].Notice?
      ensures IsOverload(file, i)
    {
      NoticesAreOverloads(batches, i);
    }
  }

  /** In every run, as many buffers have been taken as the file holds, is yet to receive, and reports as
      discarded; and whenever the writer is between batches, every report speaks of more than 23 buffers
      and stands right before the two kept of its batch. */
  lemma OverloadReports(size: nat, evs: seq<Event>)
    requires size > 0 && Legal(Initial(size), evs)
    ensures var s := Run(Initial(size), evs);
            && AddsUp(s)
            && (!s.phase.Writing? ==> ReportsAreOverloads(s.file))
  {
    EveryInterleaving(size, evs);
    var s := Run(Initial(size), evs);
    FaithfulAddsUp(s);
    if s.phase.Swapped? {
      FilesReportOverloads(s.batches[..|s.batches| - 1]);
    } else if !s.phase.Writing? {
      FilesReportOverloads(s.batches);
    }
  }

  lemma {:induction false} TextsAreLines(size: nat, bufs: seq<Buf>)
    requires forall b | b in bufs :: IsWhole(size, b)
    ensures Concat(Texts(bufs)) == Concat(LinesOf(bufs))
  {
    if bufs != [] {
      var init, last := bufs[..|bufs| - 1], bufs[|bufs| - 1];
      assert last in bufs && forall b | b in init :: b in bufs;
      TextsAreLines(size, init);
      ConcatSnoc(Texts(init), last.text);
      ConcatAppend(LinesOf(init), last.lines);
    }
  }

  lemma {:induction false} ChunksComeFromFile(file: seq<Item>, b: Buf)
    requires b in Chunks(file)
    ensures exists i :: 0 <= i < |file| && file[i] == Chunk(b)
  {
    var init, last := file[..|file| - 1], file[|file| - 1];
    if b in Chunks(init) {
      ChunksComeFromFile(init, b);
      var i :| 0 <= i < |init| && init[i] == Chunk(b);
      assert file[i] == Chunk(b);
    } else {
      assert last == Chunk(b);
    }
  }

  lemma {:induction false} NothingDiscarded(batches: seq<seq<Buf>>)
    requires Discarded(FilesOf(batches)) == 0
    ensures LinesOf(Chunks(FilesOf(batches))) == LinesOfBatches(batches)
  {
    if batches != [] {
      var init, last := batches[..|batches| - 1], batches[|batches| - 1];
      FileAppend(FilesOf(init), FileOf(last));
      PartOfFile(last, |Kept(last)|);
      assert Kept(last)[..|Kept(last)|] == Kept(last);
      NothingDiscarded(init);
      LinesOfAppend(Chunks(FilesOf(init)), last);
    }
  }

  lemma NothingDiscardedUpTo(batches: seq<seq<Buf>>, n: nat)
    requires batches != [] && n <= |Kept(batches[|batches| - 1])|
    requires Discarded(FileUpTo(batches, n)) == 0
    ensures LinesOf(Chunks(FileUpTo(batches, n))) <= LinesOfBatches(batches)
  {
    var init, last := batches[..|batches| - 1], batches[|batches| - 1];
    FileUpToSplit(batches, n);
    NothingDiscarded(init);
    LinesOfPart(Chunks(FilesOf(init)), last, n);
  }

  lemma LinesOfPart(before: seq<Buf>, bufs: seq<Buf>, n: nat)
    requires n <= |bufs|
    ensures LinesOf(before + bufs[..n]) <= LinesOf(before) + LinesOf(bufs)
  {
    LinesOfAppend(before, bufs[..n]);
    LinesOfAppend(bufs[..n], bufs[n..]);
    assert bufs == bufs[..n] + bufs[n..];
  }

  /** A file that reports nothing discarded holds, byte for byte, the first of the appended lines; after
      the stop only those still in front are missing. */
  lemma FileIsThePrefix(size: nat, evs: seq<Event>)
    requires size > 0 && Legal(Initial(size), evs)
    requires Discarded(Run(Initial(size), evs).file) == 0
    ensures var s := Run(Initial(size), evs); var lines := LinesOf(Chunks(s.file));
            && Concat(Texts(Chunks(s.file))) == Concat(lines)
            && lines <= LinesAppended(size, evs)
            && (s.phase.Stopped? ==> LinesAppended(size, evs) == lines + Front(s))
  {
    EveryInterleaving(size, evs);
    var s := Run(Initial(size), evs);
    FileIsText(s);
    FileLines(s);
  }

  lemma FileIsText(s: Log)
    requires LinesAreWhole(s)
    ensures Concat(Texts(Chunks(s.file))) == Concat(LinesOf(Chunks(s.file)))
  {
    forall b | b in Chunks(s.file)
      ensures IsWhole(s.size, b)
    {
      ChunksComeFromFile(s.file, b);
    }
    TextsAreLines(s.size, Chunks(s.file));
  }

  lemma FileLines(s: Log)
    requires FileIsFaithful(s) && Discarded(s.file) == 0
    ensures LinesOf(Chunks(s.file)) <= LinesOfBatches(s.batches)
    ensures s.phase.Stopped? ==> LinesOf(Chunks(s.file)) == LinesOfBatches(s.batches)
  {
    if s.phase.Swapped? {
      NothingDiscarded(s.batches[..|s.batches| - 1]);
    } else if s.phase.Writing? {
      NothingDiscardedUpTo(s.batches, s.phase.n);
    } else {
      NothingDiscarded(s.batches);
    }
  }

  /** One append is kept exactly when the line is shorter than a buffer. */
  lemma AppendIsKept(s: Log, line: Line)
    requires CanRecycle(s)
    ensures Front(AppendLine(s, line)) == Front(s) + [line] <==> |line| < s.size
  {
    AppendFront(s, line);
  }
}
