/** From one codec to the other: messages framed by `send`, through the output path of a connection,
    over the wire in arbitrary chunks, to the receiving codec. */
module EndToEnd {
  import opened BigEndian
  import opened Buffer
  import opened Streams
  import opened Codec
  import Connection
  import TcpConnection
  import OutputProgress

  /** `LengthHeaderCodec::send` */
  method SendMessage(conn: TcpConnection.TcpConnection, message: Message, inLoop: bool,
                     wr: Connection.WriteResult)
    requires conn.Valid() && Connection.KernelAllows(conn.State(), |FrameOf(message)|, wr)
    modifies conn, conn.outputBuffer, conn.outputBuffer.buffer
    ensures conn.Valid()
    ensures conn.State() == Connection.Send(old(conn.State()), FrameOf(message), inLoop, wr)
  {
    var buf := Codec.Send(message);
    conn.SendBuffer(buf, inLoop, wr);
  }

  /** `handleRead` of a connection whose message callback is the codec. */
  method HandleRead(inputBuffer: Buffer<byte>, received: seq<byte>, failed: bool)
    returns (delivered: seq<Message>, invalid: bool, closed: bool)
    requires inputBuffer.Valid() && |received| <= inputBuffer.ReadCapacity()
    modifies inputBuffer, inputBuffer.buffer
    ensures inputBuffer.Valid() && (inputBuffer.buffer == old(inputBuffer.buffer) || fresh(inputBuffer.buffer))
    ensures closed <==> !failed && received == []
    ensures if failed || received == [] then
              inputBuffer.Contents() == old(inputBuffer.Contents()) && delivered == [] && !invalid
            else
              Decoded(delivered, inputBuffer.Contents(), invalid) == Unframe(old(inputBuffer.Contents()) + received)
  {
    delivered, invalid, closed := [], false, false;
    var n := inputBuffer.ReadFd(received, failed);
    if n > 0 {
      delivered, invalid := OnMessage(inputBuffer);
    } else if n == 0 {
      closed := true;
      assert old(inputBuffer.Contents()) + [] == old(inputBuffer.Contents());
    }
  }

  function Framed(messages: seq<Message>): seq<seq<byte>> {
    if messages == [] then [] else Framed(messages[..|messages| - 1]) + [FrameOf(messages[|messages| - 1])]
  }

  lemma {:induction false} ConcatFramed(messages: seq<Message>)
    ensures |Framed(messages)| == |messages|
    ensures Concat(Framed(messages)) == Frames(messages)
  {
    if messages != [] {
      var init, last := messages[..|messages| - 1], messages[|messages| - 1];
      ConcatFramed(init);
      ConcatSnoc(Framed(init), FrameOf(last));
      FramesSnoc(init, last);
      assert messages == init + [last];
    }
  }

  lemma {:induction false} FramesSnoc(init: seq<Message>, last: Message)
    ensures Frames(init + [last]) == Frames(init) + FrameOf(last)
  {
    if init == [] {
      assert [last][1..] == [];
      assert [] + [last] == [last];
      assert Frames([last]) == FrameOf(last) + Frames([]);
    } else {
      assert (init + [last])[1..] == init[1..] + [last];
      FramesSnoc(init[1..], last);
    }
  }

  lemma {:induction false} FramedPrefix(messages: seq<Message>, k: nat)
    requires k <= |messages|
    ensures |Framed(messages)| == |messages| && Framed(messages)[..k] == Framed(messages[..k])
  {
    ConcatFramed(messages);
    if messages != [] && k < |messages| {
      var init := messages[..|messages| - 1];
      FramedPrefix(init, k);
      assert init[..k] == messages[..k];
    } else {
      assert messages[..k] == messages;
    }
  }

  lemma {:induction false} FramesPrefix(messages: seq<Message>, k: nat)
    requires k <= |messages|
    ensures Frames(messages[..k]) <= Frames(messages)
  {
    if k > 0 {
      assert messages[..k][1..] == messages[1..][..k - 1];
      FramesPrefix(messages[1..], k - 1);
    }
  }

  lemma AcceptedIsFramedPrefix(accepted: seq<seq<byte>>, messages: seq<Message>)
    requires accepted <= Framed(messages)
    ensures Concat(accepted) <= Frames(messages)
  {
    var k := |accepted|;
    assert k <= |messages| by {
      ConcatFramed(messages);
    }
    var init := messages[..k];
    assert accepted == Framed(init) by {
      FramedPrefix(messages, k);
    }
    assert Concat(accepted) == Frames(init) by {
      ConcatFramed(init);
    }
    FramesPrefix(messages, k);
  }

  /** What is on the wire is the beginning of the framed messages, whatever was dropped or buffered. */
  lemma WireIsFramedPrefix(c: Connection.Conn, messages: seq<Message>)
    requires Connection.Inv(c) && c.submitted == Framed(messages)
    ensures c.wire <= Frames(messages)
  {
    assert c.wire <= Concat(c.accepted);
    AcceptedIsFramedPrefix(c.accepted, messages);
  }

  /** For every run of the sender whose loop thread was given these messages, framed, and for every way
      of cutting what has arrived so far into chunks: the receiver has delivered a prefix of the
      messages, keeps exactly the beginning of the next frame, and once the bytes of all frames have
      arrived it has delivered all of them and keeps nothing. */
  lemma EndToEnd(evs: seq<Connection.Event>, messages: seq<Message>, chunks: seq<seq<byte>>)
    requires Connection.Legal(Connection.NEW_CONNECTION, evs)
    requires Connection.Run(Connection.NEW_CONNECTION, evs).submitted == Framed(messages)
    requires Sendable(messages)
    requires Concat(chunks) <= Connection.Run(Connection.NEW_CONNECTION, evs).wire
    ensures DeliversPrefix(Receive(chunks), messages, Concat(chunks))
    ensures |Concat(chunks)| == |Frames(messages)| ==> Receive(chunks) == Decoded(messages, [], false)
  {
    var c := Connection.Run(Connection.NEW_CONNECTION, evs);
    Connection.RunKeepsInv(Connection.NEW_CONNECTION, evs);
    WireIsFramedPrefix(c, messages);
    FragmentationIsInvisible(chunks);
    PrefixDelivery(messages, Concat(chunks));
    if |Concat(chunks)| == |Frames(messages)| {
      AllDelivered(Receive(chunks), messages, Concat(chunks));
    }
  }

  lemma FramedLength(messages: seq<Message>, submitted: seq<seq<byte>>)
    requires submitted <= Framed(messages)
    ensures |submitted| <= |messages| && submitted == Framed(messages[..|submitted|])
  {
    ConcatFramed(messages);
    FramedPrefix(messages, |submitted|);
  }

  /** A healthy connection with nothing buffered and nothing on its way to the loop thread. */
  predicate HasDrained(c: Connection.Conn) {
    OutputProgress.CanWrite(c) && c.output == [] && OutputProgress.QueuedSends(c.tasks) == []
  }

  /** The same in terms of the calls of `send`, all from the loop's own thread or all from others. And once
      a healthy connection has drained, a receiver that has got all of the wire has delivered every message. */
  lemma EndToEndOfCalls(evs: seq<Connection.Event>, inLoop: bool, messages: seq<Message>, chunks: seq<seq<byte>>)
    requires Connection.Legal(Connection.NEW_CONNECTION, evs) && OutputProgress.OneSide(evs, inLoop)
    requires OutputProgress.Called(Connection.NEW_CONNECTION, evs) == Framed(messages) && Sendable(messages)
    requires Concat(chunks) <= Connection.Run(Connection.NEW_CONNECTION, evs).wire
    ensures DeliversPrefix(Receive(chunks), messages, Concat(chunks))
    ensures var c := Connection.Run(Connection.NEW_CONNECTION, evs);
            HasDrained(c) && Concat(chunks) == c.wire ==> Receive(chunks) == Decoded(messages, [], false)
  {
    var c := Connection.Run(Connection.NEW_CONNECTION, evs);
    Connection.RunKeepsInv(Connection.NEW_CONNECTION, evs);
    OutputProgress.CallsAreInOrder(Connection.NEW_CONNECTION, evs, inLoop);
    CalledIsReaching(c, messages);
    FramedLength(messages, c.submitted);
    var reached := messages[..|c.submitted|];
    WireIsFramedPrefix(c, reached);
    FramesPrefix(messages, |c.submitted|);
    FragmentationIsInvisible(chunks);
    PrefixDelivery(messages, Concat(chunks));
    if HasDrained(c) && Concat(chunks) == c.wire {
      HealthyWire(c, messages);
      AllDelivered(Receive(chunks), messages, Concat(chunks));
    }
  }

  lemma CalledIsReaching(c: Connection.Conn, messages: seq<Message>)
    requires OutputProgress.Reaching(c) == OutputProgress.Reaching(Connection.NEW_CONNECTION) + Framed(messages)
    ensures c.submitted + OutputProgress.QueuedSends(c.tasks) == Framed(messages)
    ensures c.submitted <= Framed(messages)
  {
    assert OutputProgress.Reaching(Connection.NEW_CONNECTION) == [];
    assert [] + Framed(messages) == Framed(messages);
  }

  lemma HealthyWire(c: Connection.Conn, messages: seq<Message>)
    requires Connection.Inv(c) && HasDrained(c)
    requires c.submitted + OutputProgress.QueuedSends(c.tasks) == Framed(messages)
    ensures c.wire == Frames(messages)
  {
    assert c.submitted + [] == c.submitted && c.wire + [] == c.wire;
    ConcatFramed(messages);
  }

  lemma AllDelivered(d: Decoded, messages: seq<Message>, bytes: seq<byte>)
    requires DeliversPrefix(d, messages, bytes) && bytes == Frames(messages)
    ensures d == Decoded(messages, [], false)
  {
    if d.messages != messages {
      assert d.messages == messages[..|d.messages|];
      NextFrameFits(messages, |d.messages|);
    }
  }

  lemma NextFrameFits(messages: seq<Message>, k: nat)
    requires k < |messages|
    ensures |Frames(messages)| >= |Frames(messages[..k])| + |FrameOf(messages[k])|
  {
    FramesPrefix(messages, k + 1);
    FramesSnoc(messages[..k], messages[k]);
    assert messages[..k + 1] == messages[..k] + [messages[k]];
  }
}
