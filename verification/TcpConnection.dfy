/** The connection object of WebServer/TcpConnection.cpp and .h: its fields, its output buffer, and the
    members that change them, each against the step of `Connection` it performs. */
module TcpConnection {
  import opened BigEndian
  import opened Buffer
  import opened Connection

  class TcpConnection {
    var state: ConnState
    var reading: bool
    var readEvent: bool   // the channel's event mask
    var writeEvent: bool
    const outputBuffer: Buffer<byte>
    var tasks: seq<Task>  // the connection's part of the loop's queue
    var delayedCloses: nat
    // what the kernel has seen, and the messages that reached the loop thread
    ghost var wire: seq<byte>
    ghost var fin: Fin
    ghost var broken: bool
    ghost var submitted: seq<seq<byte>>
    ghost var accepted: seq<seq<byte>>

    ghost predicate Valid()
      reads this, outputBuffer
    {
      outputBuffer.Valid()
    }

    ghost function State(): Conn
      requires Valid()
      reads this, outputBuffer, outputBuffer.buffer
    {
      Conn(state, reading, readEvent, writeEvent, outputBuffer.Contents(), tasks, delayedCloses,
           wire, fin, broken, submitted, accepted)
    }

    constructor ()
      ensures Valid() && fresh(outputBuffer) && fresh(outputBuffer.buffer) && State() == NEW_CONNECTION
    {
      state, reading, readEvent, writeEvent := Connecting, true, false, false;
      tasks, delayedCloses := [], 0;
      wire, fin, broken, submitted, accepted := [], NoFin, false, [], [];
      outputBuffer := new Buffer<byte>();
    }

    /** `sockets::write`: what the kernel took, or -1 and whether the connection is gone. */
    method Write(data: seq<byte>, wr: WriteResult) returns (n: int, gone: bool)
      requires wr.Wrote? ==> wr.n <= |data|
      modifies this`wire, this`broken
      ensures n == if wr.Wrote? then wr.n else -1
      ensures gone == wr.Broken?
      ensures wire == old(wire) + (if wr.Wrote? then data[..wr.n] else [])
      ensures broken == (old(broken) || wr.Broken?)
    {
      match wr
      case Wrote(k) =>
        n, gone := k, false;
        wire := wire + data[..k];
      case _ =>
        n, gone := -1, wr.Broken?;
        broken := broken || wr.Broken?;
    }

    method Send(data: seq<byte>, inLoop: bool, wr: WriteResult)
      requires Valid() && KernelAllows(State(), |data|, wr)
      modifies this, outputBuffer, outputBuffer.buffer
      ensures Valid() && (outputBuffer.buffer == old(outputBuffer.buffer) || fresh(outputBuffer.buffer))
      ensures State() == Connection.Send(old(State()), data, inLoop, wr)
    {
      if state == Connected {
        if inLoop {
          SendInLoop(data, wr);
        } else {
          tasks := tasks + [SendTask(data)];
        }
      }
    }

    /** Sends and empties the caller's buffer. */
    method SendBuffer(buf: Buffer<byte>, inLoop: bool, wr: WriteResult)
      requires Valid() && buf.Valid() && KernelAllows(State(), buf.ReadableBytes(), wr)
      requires buf != outputBuffer && buf.buffer != outputBuffer.buffer
      modifies this, outputBuffer, outputBuffer.buffer, buf
      ensures Valid() && (outputBuffer.buffer == old(outputBuffer.buffer) || fresh(outputBuffer.buffer))
      ensures State() == Connection.Send(old(State()), old(buf.Contents()), inLoop, wr)
      ensures buf.Valid()
      ensures buf.Contents() == if old(state) == Connected then [] else old(buf.Contents())
    {
      if state == Connected {
        var data := buf.RetrieveAsString(buf.ReadableBytes());
        assert data == old(buf.Contents());
        Send(data, inLoop, wr);
      }
    }

    method SendInLoop(data: seq<byte>, wr: WriteResult)
      requires Valid() && KernelAllows(State(), |data|, wr)
      modifies this, outputBuffer, outputBuffer.buffer
      ensures Valid() && (outputBuffer.buffer == old(outputBuffer.buffer) || fresh(outputBuffer.buffer))
      ensures State() == Connection.SendInLoop(old(State()), data, wr)
    {
      submitted := submitted + [data];
      if state != Disconnected {
        if !writeEvent && outputBuffer.ReadableBytes() == 0 {
          WriteDirectly(data, wr);
        } else {
          Accept(data, 0);
          assert data[0..] == data;
        }
      }
    }

    method WriteDirectly(data: seq<byte>, wr: WriteResult)
      requires Valid() && outputBuffer.Contents() == [] && !writeEvent && (wr.Wrote? ==> wr.n <= |data|)
      modifies this, outputBuffer, outputBuffer.buffer
      ensures Valid() && (outputBuffer.buffer == old(outputBuffer.buffer) || fresh(outputBuffer.buffer))
      ensures State() == Connection.WriteDirectly(old(State()), data, wr)
    {
      var nwrote, faultError := 0, false;
      var n, gone := Write(data, wr);
      if n >= 0 {
        nwrote := n;
      } else {
        faultError := gone;
      }
      if !faultError {
        Accept(data, nwrote);
      }
    }

    /** Buffers what `write` did not take. */
    method Accept(data: seq<byte>, nwrote: nat)
      requires Valid() && nwrote <= |data|
      modifies this`accepted, this`writeEvent, outputBuffer, outputBuffer.buffer
      ensures Valid() && (outputBuffer.buffer == old(outputBuffer.buffer) || fresh(outputBuffer.buffer))
      ensures accepted == old(accepted) + [data]
      ensures outputBuffer.Contents() == old(outputBuffer.Contents()) + data[nwrote..]
      ensures writeEvent == (old(writeEvent) || nwrote < |data|)
    {
      accepted := accepted + [data];
      if nwrote < |data| {
        outputBuffer.Append(data[nwrote..]);
        if !writeEvent {
          writeEvent := true;
        }
      }
    }

    method Shutdown(inLoop: bool)
      requires Valid()
      modifies this
      ensures Valid() && State() == Connection.Shutdown(old(State()), inLoop)
    {
      if state == Connected {
        state := Disconnecting;
        if inLoop {
          ShutdownInLoop();
        } else {
          tasks := tasks + [ShutdownTask];
        }
      }
    }

    method ShutdownInLoop()
      requires Valid()
      modifies this
      ensures Valid() && State() == Connection.ShutdownInLoop(old(State()))
    {
      if !writeEvent {
        if fin.NoFin? {
          fin := Fin(|wire|, state != Disconnected);
        }
      }
    }

    method ForceClose()
      requires Valid()
      modifies this
      ensures Valid() && State() == Connection.ForceClose(old(State()))
    {
      if state == Connected || state == Disconnecting {
        state := Disconnecting;
        tasks := tasks + [ForceCloseTask];
      }
    }

    method ForceCloseWithDelay()
      requires Valid()
      modifies this
      ensures Valid() && State() == Connection.ForceCloseWithDelay(old(State()))
    {
      if state == Connected || state == Disconnecting {
        state := Disconnecting;
        delayedCloses := delayedCloses + 1;
      }
    }

    method ForceCloseInLoop()
      requires Valid()
      modifies this
      ensures Valid() && State() == Connection.ForceCloseInLoop(old(State()))
    {
      if state == Connected || state == Disconnecting {
        HandleClose();
      }
    }

    method StartReadInLoop()
      requires Valid()
      modifies this
      ensures Valid() && State() == Connection.StartReadInLoop(old(State()))
    {
      if !reading || !readEvent {
        readEvent := true;
        reading := true;
      }
    }

    method StopReadInLoop()
      requires Valid()
      modifies this
      ensures Valid() && State() == Connection.StopReadInLoop(old(State()))
    {
      if reading || readEvent {
        readEvent := false;
        reading := false;
      }
    }

    method StartRead(inLoop: bool)
      requires Valid()
      modifies this
      ensures Valid() && State() == Step(old(State()), CallStartRead(inLoop))
    {
      if inLoop {
        StartReadInLoop();
      } else {
        tasks := tasks + [StartReadTask];
      }
    }

    method StopRead(inLoop: bool)
      requires Valid()
      modifies this
      ensures Valid() && State() == Step(old(State()), CallStopRead(inLoop))
    {
      if inLoop {
        StopReadInLoop();
      } else {
        tasks := tasks + [StopReadTask];
      }
    }

    /** The loop calls the first of the connection's queued tasks. */
    method RunFirstTask(wr: WriteResult)
      requires Valid() && Enabled(State(), RunNextTask(wr))
      modifies this, outputBuffer, outputBuffer.buffer
      ensures Valid() && (outputBuffer.buffer == old(outputBuffer.buffer) || fresh(outputBuffer.buffer))
      ensures State() == Step(old(State()), RunNextTask(wr))
    {
      var task := tasks[0];
      tasks := tasks[1..];
      match task
      case SendTask(data) => SendInLoop(data, wr);
      case ShutdownTask => ShutdownInLoop();
      case ForceCloseTask => ForceCloseInLoop();
      case StartReadTask => StartReadInLoop();
      case StopReadTask => StopReadInLoop();
    }

    method ConnectEstablished()
      requires Valid() && state == Connecting
      modifies this
      ensures Valid() && State() == Connection.ConnectEstablished(old(State()))
    {
      state := Connected;
      readEvent := true;
    }

    method ConnectDestroyed()
      requires Valid() && (state == Connected || state == Disconnected)
      modifies this
      ensures Valid() && State() == Connection.ConnectDestroyed(old(State()))
    {
      if state == Connected {
        state := Disconnected;
        readEvent, writeEvent := false, false;
      }
    }

    method HandleWrite(wr: WriteResult)
      requires Valid() && KernelAllows(State(), outputBuffer.ReadableBytes(), wr)
      modifies this, outputBuffer, outputBuffer.buffer
      ensures Valid() && outputBuffer.buffer == old(outputBuffer.buffer)
      ensures State() == Connection.HandleWrite(old(State()), wr)
    {
      if writeEvent {
        ghost var output := outputBuffer.Contents();
        var n, _ := Write(outputBuffer.buffer[outputBuffer.readerIndex..outputBuffer.writerIndex], wr);
        if n > 0 {
          outputBuffer.Retrieve(n);
          assert n == |output| ==> output[..n] == output;
          if outputBuffer.ReadableBytes() == 0 {
            writeEvent := false;
            if state == Disconnecting {
              ShutdownInLoop();
            }
          }
        } else {
          assert wire == old(wire);
        }
      }
    }

    method HandleClose()
      requires Valid() && (state == Connected || state == Disconnecting)
      modifies this
      ensures Valid() && State() == Connection.HandleClose(old(State()))
    {
      state := Disconnected;
      readEvent, writeEvent := false, false;
    }
  }
}
