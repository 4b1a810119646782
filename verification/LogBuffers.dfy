/** How the asynchronous log fills its buffers, and when it stops, over the runs of `LogProtocol`. */
module LogBuffers {
  import opened Streams
  import opened FixedBuffer
  import opened LogProtocol

  /** A text is appended exactly when it leaves one byte free. */
  lemma AppendedExactly(size: nat, contents: string, text: string)
    ensures Appended(size, contents, text) == contents + text <==> text == "" || |contents| + |text| < size
    ensures Appended(size, contents, text) != contents + text ==> Appended(size, contents, text) == contents
  {
    if text == "" {
      assert contents + "" == contents;
    } else {
      assert |contents + text| != |contents|;
    }
  }

  /** `next` was started because its first line did not fit behind `full`. */
  predicate WasFull(size: nat, full: Buf, next: Buf) {
    next.lines != [] && |full.text| + |next.lines[0]| >= size
  }

  predicate FilledInTurn(size: nat, bufs: seq<Buf>) {
    forall i | 0 <= i < |bufs| - 1 :: WasFull(size, bufs[i], bufs[i + 1])
  }

  /** The buffers in front, in the order they are filled. */
  function InFront(s: Log): seq<Buf> {
    s.buffers + (if s.currentBuffer.Some? then [s.currentBuffer.buf] else [])
  }

  /** No buffer anywhere was left while the next line would have fitted. */
  predicate Packed(s: Log) {
    FilledInTurn(s.size, InFront(s)) && forall b | b in s.batches :: FilledInTurn(s.size, b)
  }

  /** Every line is shorter than a buffer. */
  predicate ShortLines(size: nat, evs: seq<Event>) {
    forall ev | ev in evs :: ev.Append? ==> |ev.line| < size
  }

  lemma PutInLast(size: nat, bufs: seq<Buf>, last: Buf, line: Line)
    requires FilledInTurn(size, bufs + [last])
    ensures FilledInTurn(size, bufs + [Put(size, last, line)])
  {
    var was, now, put := bufs + [last], bufs + [Put(size, last, line)], Put(size, last, line);
    forall i | 0 <= i < |now| - 1
      ensures WasFull(size, now[i], now[i + 1])
    {
      assert WasFull(size, was[i], was[i + 1]);
      assert i + 1 == |bufs| ==> put.lines[0] == last.lines[0];
    }
  }

  lemma StartNext(size: nat, bufs: seq<Buf>, line: Line)
    requires FilledInTurn(size, bufs) && bufs != [] && |line| < size
    requires size - |bufs[|bufs| - 1].text| <= |line|
    ensures FilledInTurn(size, bufs + [Put(size, EMPTY, line)])
  {
    var now := bufs + [Put(size, EMPTY, line)];
    forall i | 0 <= i < |now| - 1
      ensures WasFull(size, now[i], now[i + 1])
    {
      if i < |bufs| - 1 {
        assert WasFull(size, bufs[i], bufs[i + 1]);
      }
    }
  }

  lemma AppendKeepsPacked(s: Log, line: Line)
    requires CanRecycle(s) && Packed(s) && |line| < s.size
    ensures Packed(AppendLine(s, line))
  {
    var current, t := s.currentBuffer.buf, AppendLine(s, line);
    if s.size - |current.text| > |line| {
      assert InFront(s) == s.buffers + [current];
      PutInLast(s.size, s.buffers, current, line);
      assert InFront(t) == s.buffers + [Put(s.size, current, line)];
    } else {
      assert InFront(t) == InFront(s) + [Put(s.size, EMPTY, line)];
      StartNext(s.size, InFront(s), line);
    }
  }

  lemma StepKeepsPacked(s: Log, ev: Event)
    requires CanRecycle(s) && Packed(s) && Enabled(s, ev) && (ev.Append? ==> |ev.line| < s.size)
    ensures Packed(Step(s, ev))
  {
    match ev
    case Append(line) => AppendKeepsPacked(s, line);
    case TakeBuffers => assert InFront(Step(s, ev)) == [EMPTY];
    case _ => assert InFront(Step(s, ev)) == InFront(s);
  }

  lemma {:induction false} RunKeepsPacked(s: Log, evs: seq<Event>)
    requires CanRecycle(s) && Packed(s) && Legal(s, evs) && ShortLines(s.size, evs)
    ensures Packed(Run(s, evs)) && Run(s, evs).size == s.size
    decreases |evs|
  {
    if evs != [] {
      var t := Step(s, evs[0]);
      assert evs[0] in evs;
      StepAppends(s, evs[0]);
      StepKeepsPacked(s, evs[0]);
      StepKeepsRecycling(s, evs[0]);
      RunKeepsPacked(t, evs[1..]);
    }
  }

  // --------------------------------------------------------------------- main results

  lemma {:induction false} TextLength(bufs: seq<Buf>)
    requires bufs != [] && forall b | b in bufs :: b.text == Concat(b.lines)
    ensures |Concat(LinesOf(bufs))| >= |bufs[0].text|
    ensures |bufs| > 1 ==> |Concat(LinesOf(bufs))| >= |bufs[0].text| + |bufs[1].text|
  {
    var init, last := bufs[..|bufs| - 1], bufs[|bufs| - 1];
    assert last in bufs;
    ConcatAppend(LinesOf(init), last.lines);
    if init != [] {
      assert forall b | b in init :: b in bufs;
      TextLength(init);
    }
  }

  lemma FirstLineIsInText(b: Buf)
    requires b.lines != [] && b.text == Concat(b.lines)
    ensures |b.lines[0]| <= |b.text|
  {
    assert b.lines == [b.lines[0]] + b.lines[1..];
    ConcatAppend([b.lines[0]], b.lines[1..]);
    assert [b.lines[0]][..0] == [];
  }

  lemma FrontOf(s: Log)
    requires s.currentBuffer.Some?
    ensures Front(s) == LinesOf(InFront(s))
  {
    LinesOfSnoc(s.buffers, s.currentBuffer.buf);
  }

  lemma FrontIsWhole(s: Log)
    requires CanRecycle(s) && LinesAreWhole(s)
    ensures forall b | b in InFront(s) :: b.text == Concat(b.lines) && |b.text| < s.size
  {
    forall b | b in InFront(s)
      ensures IsWhole(s.size, b)
    {
      assert b in s.buffers || b == s.currentBuffer.buf;
    }
  }

  lemma OneInFront(s: Log)
    requires CanRecycle(s) && LinesAreWhole(s) && s.buffers == []
    ensures |Concat(Front(s))| < s.size
  {
    FrontIsWhole(s);
    var b := s.currentBuffer.buf;
    assert b in InFront(s);
    assert Front(s) == [] + b.lines == b.lines;
  }

  lemma MoreInFront(s: Log)
    requires CanRecycle(s) && LinesAreWhole(s) && Packed(s) && s.buffers != []
    ensures |Concat(Front(s))| >= s.size
  {
    FrontIsWhole(s);
    FrontOf(s);
    var front := InFront(s);
    TextLength(front);
    assert WasFull(s.size, front[0], front[1]);
    FirstLineIsInText(front[1]);
  }

  /** In every run of lines shorter than a buffer: buffers are queued exactly when the lines since the last
      swap do not fit into one, and no buffer was left while the next line would have fitted. */
  lemma QueuedOnlyWhenFull(size: nat, evs: seq<Event>)
    requires size > 0 && Legal(Initial(size), evs) && ShortLines(size, evs)
    ensures var s := Run(Initial(size), evs);
            Packed(s) && s.size == size && (s.buffers == [] <==> |Concat(Front(s))| < size)
  {
    InitialInv(size);
    assert InFront(Initial(size)) == [EMPTY];
    RunKeepsPacked(Initial(size), evs);
    RunKeepsInv(Initial(size), evs);
    var s := Run(Initial(size), evs);
    if s.buffers == [] {
      OneInFront(s);
    } else {
      MoreInFront(s);
    }
  }

  function Volume(bufs: seq<Buf>): nat {
    if bufs == [] then 0 else Volume(bufs[..|bufs| - 1]) + |bufs[|bufs| - 1].text|
  }

  lemma LastPair(size: nat, bufs: seq<Buf>)
    requires FilledInTurn(size, bufs) && |bufs| >= 2 && forall b | b in bufs :: b.text == Concat(b.lines)
    ensures Volume(bufs) >= Volume(bufs[..|bufs| - 2]) + size
    ensures FilledInTurn(size, bufs[..|bufs| - 2])
  {
    var n := |bufs|;
    var init, rest := bufs[..n - 1], bufs[..n - 2];
    assert init[..n - 2] == rest && init[n - 2] == bufs[n - 2];
    assert WasFull(size, bufs[n - 2], bufs[n - 1]);
    assert bufs[n - 1] in bufs;
    FirstLineIsInText(bufs[n - 1]);
    forall i | 0 <= i < |rest| - 1
      ensures WasFull(size, rest[i], rest[i + 1])
    {
      assert WasFull(size, bufs[i], bufs[i + 1]);
    }
  }

  lemma {:induction false} PairsAreFull(size: nat, bufs: seq<Buf>)
    requires FilledInTurn(size, bufs) && forall b | b in bufs :: b.text == Concat(b.lines)
    ensures Volume(bufs) >= |bufs| / 2 * size
  {
    if |bufs| >= 2 {
      var rest := bufs[..|bufs| - 2];
      LastPair(size, bufs);
      assert forall b | b in rest :: b in bufs;
      PairsAreFull(size, rest);
      OneMore(|bufs| / 2, |rest| / 2, size);
    }
  }

  lemma OneMore(m: nat, n: nat, size: nat)
    requires m == n + 1
    ensures m * size == n * size + size
  {
  }

  /** So ordinary logging is never taken for an overload: a batch of more than 25 buffers holds at least
      thirteen buffers full of text. */
  lemma OverloadNeedsVolume(size: nat, evs: seq<Event>, batch: seq<Buf>)
    requires size > 0 && Legal(Initial(size), evs) && ShortLines(size, evs)
    requires batch in Run(Initial(size), evs).batches && |batch| > 25
    ensures Volume(batch) >= 13 * size
  {
    QueuedOnlyWhenFull(size, evs);
    InitialInv(size);
    BatchesAreWhole(Initial(size), evs);
    PairsAreFull(size, batch);
    assert |batch| / 2 >= 13;
    Scale(|batch| / 2, 13, size);
  }

  lemma Scale(m: nat, n: nat, size: nat)
    requires m >= n
    ensures m * size >= n * size
  {
    assert m * size == n * size + (m - n) * size;
  }

  predicate WholeBatches(s: Log) {
    forall batch | batch in s.batches :: forall b | b in batch :: b.text == Concat(b.lines)
  }

  lemma {:induction false} BatchesAreWhole(s: Log, evs: seq<Event>)
    requires Inv(s) && WholeBatches(s) && Legal(s, evs)
    ensures WholeBatches(Run(s, evs))
    decreases |evs|
  {
    if evs != [] {
      StepKeepsInv(s, evs[0]);
      StepKeepsBatches(s, evs[0]);
      BatchesAreWhole(Step(s, evs[0]), evs[1..]);
    }
  }

  lemma StepKeepsBatches(s: Log, ev: Event)
    requires Inv(s) && WholeBatches(s) && Enabled(s, ev)
    ensures WholeBatches(Step(s, ev))
  {
    if ev.TakeBuffers? {
      var batch := s.buffers + [s.currentBuffer.buf];
      assert Step(s, ev).batches == s.batches + [batch];
      forall b | b in batch
        ensures b.text == Concat(b.lines)
      {
        assert IsWhole(s.size, b);
      }
    }
  }

  /** The logger runs until it is told to stop, and from then on the writer's next test ends its loop. */
  lemma {:induction false} RunsUntilStopped(s: Log, evs: seq<Event>)
    requires s.running && !s.phase.Stopped? && Legal(s, evs)
    ensures var t := Run(s, evs);
            && (t.running <==> Stop !in evs)
            && (Stop !in evs ==> !t.phase.Stopped?)
            && (t.phase.AtTop? ==> (Step(t, TestRunning).phase.Stopped? <==> Stop in evs))
    decreases |evs|
  {
    if evs != [] {
      assert evs == [evs[0]] + evs[1..];
      if evs[0].Stop? {
        StopIsFinal(Step(s, evs[0]), evs[1..]);
      } else {
        RunsUntilStopped(Step(s, evs[0]), evs[1..]);
      }
    }
  }

  lemma {:induction false} StopIsFinal(s: Log, evs: seq<Event>)
    requires !s.running
    ensures !Run(s, evs).running
    decreases |evs|
  {
    if evs != [] {
      StopIsFinal(Step(s, evs[0]), evs[1..]);
    }
  }
}
