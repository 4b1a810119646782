# A verified model of a multi-threaded reactor

The repository is a C++ network library in the reactor style: an event loop polls file descriptors,
runs timers and tasks, and drives TCP connections; a length-prefixed codec and an HTTP parser sit on
top, an asynchronous logger and a calendar beside it. This project models the parts of it that hold
state or arithmetic, and proves what they promise.

How the files fit together:

- `Date.dfy`: the two Julian-day conversions and their relation to the Gregorian calendar (section
  3.2.1 of ISO 8601:2004).
- `Numerals.dfy`, `FixedBuffer.dfy`: the fixed-size log buffer and the integer printers, against an
  independent definition of decimal and hexadecimal text.
- `Buffer.dfy`, `BigEndian.dfy`, `Codec.dfy`, `Streams.dfy`: the compacting byte buffer, integers in
  network byte order, and the framing codec.
- `Connection.dfy`, `OutputProgress.dfy`, `TcpConnection.dfy`, `EndToEnd.dfy`: the output path of a
  connection as a state machine over every answer of the kernel (half-close as in section 3.5 of RFC 793):
  what it keeps and what it brings about, the object that implements it, and the theorem from one codec
  to the other.
- `LoopProtocol.dfy`, `EventLoop.dfy`: the task queue and wakeup protocol in every interleaving of
  producers and loop thread, and the loop object.
- `LogProtocol.dfy`, `LogBuffers.dfy`, `AsyncLogging.dfy`: the double-buffered log in every interleaving of
  producers and writer, how it fills its buffers, and the logger object.
- `Channel.dfy`, `PollPoller.dfy`, `EpollPoller.dfy`, `Pollers.dfy`: the two pollers, and the map from
  descriptors to event masks that both implement.
- `TimerProtocol.dfy`, `TimerPromises.dfy`, `TimerQueue.dfy`: the timer queue with re-entrant callbacks
  and reused addresses, its refinement of a plain map, and the object.
- `HttpRequest.dfy`, `HttpParse.dfy`, `HttpMessages.dfy`, `HttpAcceptance.dfy`: the request, the parser, what
  the parser recovers from requests in the grammar of sections 3.1.1, 3.2 and 3.2.4 of RFC 7230, and which
  texts it accepts at all.
- `CInt.dfy`: C++ division and the ranges of fixed-width integers.

Where the program changes state step by step there are two descriptions of it. A *protocol* module
gives the state as a value and every step as a function; the theorems about all runs are proved there.
A *class* with the program's fields carries the members themselves, and each member is proved to perform
its protocol step, or a run of steps. What the operating system decides (how much `write` takes, which
descriptors are ready, when a timerfd fires, what the clock says, which address an allocation gets) and
what other threads do is an input of the step, so the theorems hold for every choice.

Where the code does not do what it is meant to, the model follows the code, and a lemma says exactly when
the promise is met:

- A cancellation that the loop processes before the insertion of the timer it names has no effect
  (`TimerPromises.CancelDooms`; a run: `TimerPromises.EarlyCancelIsLost`).
- A task queued by the loop thread itself before `loop()` does not wake the first `poll`
  (`LoopProtocol.StartCondition`), and a request to quit made before is lost (`LoopProtocol.QuitLasts`).
- A log line as long as a buffer or longer is dropped without a trace (`LogProtocol.AppendIsKept`).
- A message above 65536 bytes is sent, and then refused by the receiving codec
  (`Codec.FrameRoundTrip`).
- Destroying a connection trips the removal assertion unless nothing is watched any more
  (`Connection.RemoveAssertion`); `startRead` on a closed connection is enough
  (`Connection.StartReadAfterCloseBreaksRemoval`).
- A channel registered with the array poller without events cannot be removed
  (`PollPoller.RemovableAfterUpdate`, `Pollers.FirstUpdateWithoutEventsBlocksRemoval`).
- A channel removed from the array poller keeps its index, so the same object cannot be registered again
  (`PollPoller.PollPoller.RemoveChannel`).
- An HTTP request that is cut right behind a line is reported as complete
  (`HttpMessages.CutIsInvisible`; the request line alone: `HttpMessages.RequestLineAloneSucceeds`).
- Weekdays of day numbers below -1 are negative six days out of seven (`Date.WeekDayRange`), and the
  inverse date conversion yields no date at all before its first day (`Date.InverseIsExact`, from
  `Date.InverseFailsBelowRange` on), although the header restricts years to 1900..2500 only in a comment.

## Model

| member | source | states |
|---|---|---|
| Date.DateRoundTrip | Time/Date.cpp:10-31 | every Gregorian date from 1 March -4800 on is recovered from its day number |
| Date.NextDateIsNextNumber | Time/Date.cpp:10-16 | the calendar's next day, with month lengths and the 4/100/400 rule, has the next day number |
| Date.NumberCountsPages | Time/Date.cpp:10-16 | the day number counts the days turned over since the first date |
| Date.NumberRoundTrip | Time/Date.cpp:18-31 | every day number from the first on gives a valid date, the one that many days on, with that number |
| Date.NumberOrdersDates | Time/Date.h:52-60 | comparing day numbers is comparing year, month, day |
| Date.InverseFitsInt32 | Time/Date.cpp:18-31 | no intermediate value of the inverse overflows exactly up to day number 536838867 |
| Date.ForwardFitsInt32 | Time/Date.cpp:10-16 | no intermediate value of the forward conversion overflows for any date below that number |
| Date.InverseFailsBelowRange | Time/Date.cpp:18-31 | the first day number for which it does not: the inverse yields day 0 |
| Date.InverseIsExact | Time/Date.cpp:18-31 | for every integer: the inverse yields a date, and one with that number, if and only if the number is not before the first day |
| Date.WeekDayAdvances | Time/Date.h:43-44 | the weekday is in 0..6 and advances by one modulo 7 from a date to the next |
| Date.WeekDayRange | Time/Date.h:43-44 | exactly which day numbers have a weekday in 0..6, the remainder being truncated |
| Date.Epoch | Time/Date.cpp:33 | the constant for 1 January 1970, and that it is a Thursday |
| Numerals.DecimalRoundTrip | Log/LogStream.cpp:33-56 | the decimal text of any integer is canonical and parses back to it |
| Numerals.IntegerRoundTrip | Log/LogStream.cpp:33-56 | every canonical decimal text is the text of the integer it denotes |
| Numerals.DigitsRoundTrip | Log/LogStream.cpp:59-75 | decimal and hexadecimal digits parse back, without leading zeros |
| FixedBuffer.FixedBuffer.Append | Log/LogStream.h:28-35 | a text that leaves a byte free goes in whole behind the contents, any other leaves them unchanged |
| LogBuffers.AppendedExactly | Log/LogStream.h:28-35 | a text goes in exactly when it leaves one byte free |
| FixedBuffer.FixedBuffer.Add | Log/LogStream.h:42 | the next bytes already in the array become contents |
| FixedBuffer.WriteDigits | Log/LogStream.cpp:36-46 | the loop writes the digits of the magnitude backwards, for negative values too, never negating |
| FixedBuffer.Convert | Log/LogStream.cpp:33-56 | for every 64-bit signed or unsigned value: the decimal text, at most 20 characters, terminated, nothing else touched |
| FixedBuffer.ConvertHex | Log/LogStream.cpp:59-75 | for every address: the hexadecimal text, at most 16 characters, terminated, nothing else touched |
| FixedBuffer.FixedBuffer.FormatInteger | Log/LogStream.cpp:235-243 | the whole number is appended if 32 bytes are free, else nothing |
| FixedBuffer.FixedBuffer.FormatPointer | Log/LogStream.cpp:295-307 | an address is appended as 0x and its hexadecimal text if 32 bytes are free, else nothing |
| Buffer.Buffer.constructor | WebServer/Buffer.h:29-37 | an empty buffer with the initial room before and behind |
| Buffer.Buffer.Swap | WebServer/Buffer.h:42-47 | two buffers exchange contents and positions |
| Buffer.Buffer.Retrieve | WebServer/Buffer.h:69-80 | exactly the first bytes are gone; emptying the buffer resets its positions |
| Buffer.Buffer.RetrieveAsString | WebServer/Buffer.h:120-126 | the first bytes are returned, the rest remain |
| Buffer.Buffer.MakeSpace | WebServer/Buffer.h:336-356 | growing or moving to the front keeps the contents; the assertion of the move holds; which of the two happens |
| Buffer.CopyDown | WebServer/Buffer.h:349-351 | copying towards the front of the same array is right although the regions overlap |
| Buffer.Buffer.EnsureWritableBytes | WebServer/Buffer.h:144-152 | enough room afterwards, same contents, nothing done when there was room |
| Buffer.Buffer.Append | WebServer/Buffer.h:133-138 | the bytes follow the old contents |
| Buffer.Buffer.Prepend | WebServer/Buffer.h:267-273 | the bytes precede the old contents |
| Buffer.Buffer.Shrink | WebServer/Buffer.h:276-282 | same contents in a buffer of the initial layout with the promised free space |
| Buffer.Buffer.ReadFd | WebServer/Buffer.cpp:9-31 | whatever the two regions received follows the old contents, in order; an error changes nothing |
| BigEndian.EncodeRoundTrip | WebServer/Buffer.h:167-245 | every integer of every width is read back as written |
| BigEndian.DecodeRoundTrip | WebServer/Buffer.h:216-245 | every byte string is the encoding of exactly the value read from it |
| BigEndian.ByteAt | WebServer/Buffer.h:167-188 | byte i holds the digit of its weight, most significant first |
| BigEndian.ReadBack | WebServer/Buffer.h:189-245 | an integer in front of other bytes is read back and leaves those bytes |
| BigEndian.AppendInt | WebServer/Buffer.h:167-188 | the integer's bytes follow the contents |
| BigEndian.PrependInt | WebServer/Buffer.h:247-266 | the integer's bytes precede the contents |
| BigEndian.PeekInt | WebServer/Buffer.h:217-245 | the value of the first bytes |
| BigEndian.ReadInt | WebServer/Buffer.h:189-215 | the value of the first bytes, which are gone afterwards |
| Codec.Send | chat/codec.h:60-69 | the buffer holds the message behind its length |
| Codec.OnMessage | chat/codec.h:25-58 | the loop delivers and leaves exactly what the framing says, and stops at an invalid length |
| Codec.TakeMessage | chat/codec.h:43-51 | taking out one whole message is one step of the decoding |
| Codec.UnframeResumes | chat/codec.h:30-57 | decoding may stop at any byte and resume on what it left |
| Codec.FragmentationIsInvisible | chat/codec.h:25-58 | however the bytes are cut into chunks, the same is delivered and kept as from one piece |
| Codec.PrefixDelivery | chat/codec.h:25-69 | from any part of a framed stream: exactly the complete messages, and exactly the beginning of the next frame is kept |
| Codec.FrameRoundTrip | chat/codec.h:25-69 | a message survives framing if and only if it has at most 65536 bytes |
| Codec.UnframeStopsExactly | chat/codec.h:30-57 | for every byte string: the receiver gives up if and only if the length at the front of what it leaves is negative or above 65536, and otherwise leaves an incomplete message |
| Codec.InvalidStays | chat/codec.h:36-41 | having given up it gives up again whatever else arrives |
| Codec.TooLongIsRefused | chat/codec.h:25-69 | behind any sendable messages, one of 65537 to 2^31-1 bytes makes it give up there, after delivering those, whatever follows |
| Connection.OutputPath | WebServer/TcpConnection.cpp:131-245 | in every run: accepted bytes are wire followed by output buffer; writability is watched exactly while something is buffered; nothing follows a FIN, and one issued while open follows everything accepted; a closing connection has something that will close it |
| Connection.RunKeepsInv | WebServer/TcpConnection.cpp:131-405 | every step, in any order, keeps these and that messages are only dropped at the end |
| Connection.WireGrows | WebServer/TcpConnection.cpp:206-215 | the wire is only extended, and not after a FIN |
| Connection.SendInLoopKeepsCore | WebServer/TcpConnection.cpp:132-194 | a send with any short write, EWOULDBLOCK, EPIPE or other error keeps the accounting |
| Connection.HandleWriteKeepsCore | WebServer/TcpConnection.cpp:352-390 | so does a writable event, with the FIN that may follow it |
| Connection.StepKeepsClosing | WebServer/TcpConnection.cpp:197-245 | a Disconnecting connection always has its FIN sent, data draining, or a closing task or timer pending |
| Connection.RemoveAssertion | WebServer/TcpConnection.cpp:314-324 | exactly when connectDestroyed leaves no event watched, as the removal asserts |
| Connection.StartReadAfterCloseBreaksRemoval | WebServer/TcpConnection.cpp:275-324 | a run after which it does not: reading started again after the close |
| OutputProgress.OutputDrains | WebServer/TcpConnection.cpp:352-390 | in any run of writable events the wire grows by exactly the bytes taken, from the front of the buffer; when they are all of it, writability is no longer watched and a closing connection has its FIN |
| OutputProgress.FailedWrite | WebServer/TcpConnection.cpp:352-390 | a writable event the kernel does not serve changes nothing |
| OutputProgress.SendOutcome | WebServer/TcpConnection.cpp:90-194 | a send from the loop thread: with nothing buffered exactly what the kernel takes is on the wire and the rest is buffered, else all of it is buffered; only a broken connection drops it |
| OutputProgress.CallsAreSubmitted | WebServer/TcpConnection.cpp:90-130 | in every run each message handed to send while connected reaches the loop thread or is on its way, once |
| OutputProgress.CallsAreInOrder | WebServer/TcpConnection.cpp:90-130 | in the order of the calls, if all come from the loop thread or all from others |
| OutputProgress.FinIsRecorded | WebServer/TcpConnection.cpp:206-215 | a FIN stands at the end of the wire, recorded as open or closed as the connection was |
| OutputProgress.ShutdownFinishes | WebServer/TcpConnection.cpp:197-215 | in every run after a shutdown: never connected again, and once tasks and output have drained the FIN is sent behind everything accepted |
| OutputProgress.ForceCloseCloses | WebServer/TcpConnection.cpp:218-245 | in every run after forceClose: once the tasks have run, closed |
| OutputProgress.DelayedCloseCloses | WebServer/TcpConnection.cpp:227-245 | in every run after forceCloseWithDelay: once no delay is running, closed |
| OutputProgress.ClosingSteps | WebServer/TcpConnection.cpp:238-245 | the peer closing, a delay coming due or a queued close leave an open connection closed with nothing watched |
| OutputProgress.ClosedIsFinal | WebServer/TcpConnection.cpp:392-405 | in every run a closed connection stays closed, writes nothing, and watches nothing unless reading is started again |
| OutputProgress.ReadRequests | WebServer/TcpConnection.cpp:270-298 | starting and stopping to read take effect at once in the loop thread, and are queued from any other |
| OutputProgress.QueuedReadRequests | WebServer/TcpConnection.cpp:270-298 | queued ones take effect when the loop thread carries them out, and no other task touches reading while the state stays |
| OutputProgress.LifeBeginsAndEnds | WebServer/TcpConnection.cpp:300-324 | establishing opens the connection for reading, destroying leaves it closed |
| TcpConnection.TcpConnection.Send | WebServer/TcpConnection.cpp:90-105 | performs the protocol's send, in the loop thread or queued |
| TcpConnection.TcpConnection.SendBuffer | WebServer/TcpConnection.cpp:108-124 | sends the buffer's contents, and empties it if the connection was open |
| TcpConnection.TcpConnection.SendInLoop | WebServer/TcpConnection.cpp:132-194 | performs the protocol's step for every answer of the kernel |
| TcpConnection.TcpConnection.HandleWrite | WebServer/TcpConnection.cpp:352-390 | performs the protocol's step for every answer of the kernel |
| TcpConnection.TcpConnection.RunFirstTask | Reactor/EventLoop.cpp:291-292 | the loop calls the first of the connection's queued tasks |
| EndToEnd.EndToEnd | chat/codec.h:25-69 | for every run of the sender and every way of cutting what has arrived: the messages delivered are a prefix of those sent, all of them once every byte has arrived, and exactly the undecoded tail is kept |
| EndToEnd.EndToEndOfCalls | chat/codec.h:25-69 | the same for the messages handed to send; and once a healthy connection has drained, a receiver with all of the wire has delivered every one of them |
| EndToEnd.WireIsFramedPrefix | WebServer/TcpConnection.cpp:132-194 | the wire holds the beginning of the framed messages, whatever was buffered or dropped |
| EndToEnd.SendMessage | chat/codec.h:60-69 | the codec's send hands the frame to the connection |
| EndToEnd.HandleRead | WebServer/TcpConnection.cpp:327-350 | what was received is decoded behind what was left before; an end of file or an error changes nothing |
| LoopProtocol.EveryInterleaving | Reactor/EventLoop.cpp:116-192 | in every interleaving, loop() being entered any number of times: tasks run exactly once in push order, and the loop never sleeps in poll on a task or a quit that nobody announces, if its own thread queues nothing outside loop(), or at least what was queued at each entry had been announced |
| LoopProtocol.StartCondition | Reactor/EventLoop.cpp:116-192 | the latter is exact: entered from any state, the loop never sleeps on work if and only if nothing is queued or a wakeup is under way |
| LoopProtocol.OthersAnnounce | Reactor/EventLoop.cpp:116-192 | and follows from the former in every run: other threads always announce what they queue |
| LoopProtocol.QuitLasts | Reactor/EventLoop.cpp:116-165 | a request to quit lasts if and only if loop() is not entered after it |
| LoopProtocol.QuitLeaves | Reactor/EventLoop.cpp:116-165 | after a request to quit the next test leaves the loop, if and only if loop() is not entered again in between |
| LoopProtocol.LoopGoesOn | Reactor/EventLoop.cpp:116-150 | without a request to quit the loop is never left |
| LoopProtocol.ReadResets | Reactor/EventLoop.cpp:251-272 | after a read the count is the number of wakeups since, and without one poll does not report the eventfd again |
| LoopProtocol.ReportedIsRead | Reactor/EventLoop.cpp:124-145 | when poll reports the eventfd it is read before tasks are taken, and only then |
| LoopProtocol.PushThenWake | Reactor/EventLoop.cpp:182-192 | a push by another thread with its wakeup leaves the task queued and the loop about to be woken |
| LoopProtocol.OneIterationCallsEverything | Reactor/EventLoop.cpp:283-294 | whatever was pushed before an iteration has been called when it ends |
| LoopProtocol.RunKeepsInv | Reactor/EventLoop.cpp:116-294 | submitted tasks are executed, in the batch or pending, in order; pending work always has a wakeup under way |
| LoopProtocol.StepKeepsWakeup | Reactor/EventLoop.cpp:181-192 | no step of any thread loses the wakeup |
| EventLoop.EventLoop.PushFunctor | Reactor/EventLoop.cpp:182-192 | the locked push, and whether the pusher must wake the loop |
| EventLoop.EventLoop.QueueInLoop | Reactor/EventLoop.cpp:182-192 | a push followed by its wakeup if one is due |
| EventLoop.EventLoop.DoPendingFunctors | Reactor/EventLoop.cpp:283-294 | swaps the queue out and calls its tasks in order, with arbitrary steps of all threads between the calls |
| EventLoop.CallsAreARun | Reactor/EventLoop.cpp:283-294 | what that member does is a run of the protocol |
| LogProtocol.EveryInterleaving | Log/AsyncLogging.cpp:26-135 | in every interleaving: the appended lines are, in order, those of the batches taken and those in front; the file is exactly what the batches amount to, each whole or, above 25 buffers, a report right before its first two; no line is split; every assertion holds |
| LogProtocol.FileIsThePrefix | Log/AsyncLogging.cpp:26-135 | a file that reports nothing discarded holds, byte for byte, the first of the appended lines; after the stop only those still in front are missing |
| LogProtocol.AppendedIsInput | Log/AsyncLogging.cpp:26-48 | the recorded lines are exactly the appended ones shorter than a buffer |
| LogProtocol.AppendIsKept | Log/AsyncLogging.cpp:26-48 | an append is kept if and only if the line is shorter than a buffer |
| LogBuffers.QueuedOnlyWhenFull | Log/AsyncLogging.cpp:26-48 | in every run of lines shorter than a buffer: buffers are queued if and only if the lines since the last swap do not fit into one, and none was left while the next line would have fitted |
| LogBuffers.OverloadNeedsVolume | Log/AsyncLogging.cpp:90-101 | so a batch of more than 25 buffers holds at least thirteen buffers full of text |
| LogBuffers.RunsUntilStopped | Log/AsyncLogging.cpp:64-135 | the writer goes on until it is told to stop, and then its next test ends the loop |
| LogProtocol.OverloadReports | Log/AsyncLogging.cpp:90-107 | in every run: the buffers taken are those in the file, those still to write and those reported as discarded; while no batch is being written, every report speaks of more than 23 buffers and stands right before the two kept |
| LogProtocol.StepKeepsRecycling | Log/AsyncLogging.cpp:64-131 | the spares can always be refilled: a missing next buffer means a full one is queued |
| LogProtocol.StepKeepsWhole | Log/AsyncLogging.cpp:29-46 | buffers hold whole lines and never fill up entirely |
| LogProtocol.StepKeepsFile | Log/AsyncLogging.cpp:71-131 | after every step the file is determined by the batches taken and the position in the last one |
| LogProtocol.StepKeepsLines | Log/AsyncLogging.cpp:26-131 | no step loses, repeats or reorders a line |
| LogProtocol.RunKeepsInv | Log/AsyncLogging.cpp:26-135 | all of this in every run |
| AsyncLogging.AsyncLogging.AppendLine | Log/AsyncLogging.cpp:26-48 | performs the protocol's append |
| AsyncLogging.AsyncLogging.Test | Log/AsyncLogging.cpp:64-69 | the loop's test; the three assertions behind it hold |
| AsyncLogging.AsyncLogging.Take | Log/AsyncLogging.cpp:71-88 | the locked swap; there is always a buffer to write |
| AsyncLogging.AsyncLogging.DropOverload | Log/AsyncLogging.cpp:90-101 | performs the protocol's overload test |
| AsyncLogging.AsyncLogging.WriteAll | Log/AsyncLogging.cpp:103-107 | performs all the protocol's writes, other threads taking steps between any two |
| AsyncLogging.TailWritesAll | Log/AsyncLogging.cpp:103-131 | whatever they do, the file gains exactly the buffers in hand, in order |
| AsyncLogging.AsyncLogging.MakeSpares | Log/AsyncLogging.cpp:109-131 | both spares exist and are empty again; the two assertions hold |
| AsyncLogging.AsyncLogging.Turn | Log/AsyncLogging.cpp:64-133 | one turn of the loop is a run of the protocol, with arbitrary appends and stops of other threads after every step of the writer |
| AsyncLogging.TurnWritesABatch | Log/AsyncLogging.cpp:64-133 | such a turn takes one batch and adds to the file exactly what that batch amounts to |
| Channel.DirectionsAreIndependent | Reactor/Channel.h:55-82 | each direction is switched by itself, and off undoes on |
| PollPoller.UpdateKeepsInv | Reactor/PollPoller.cpp:67-107 | entries, channels and indices stay in bijection when a channel is added or changed |
| PollPoller.RemoveKeepsInv | Reactor/PollPoller.cpp:109-145 | and when the last entry moves into the gap; exactly one channel is gone |
| PollPoller.UpdateTouchesOne | Reactor/PollPoller.cpp:67-107 | an update touches the entry of its descriptor alone and clears what was reported of it |
| PollPoller.RemoveLosesOne | Reactor/PollPoller.cpp:127-144 | a removal takes out that one entry and keeps all others as they are |
| PollPoller.RemovableAfterUpdate | Reactor/PollPoller.cpp:67-122 | the removal assertion holds after an update if and only if the channel was known and now wants nothing |
| PollPoller.ReadyMembers | Reactor/PollPoller.cpp:47-64 | a descriptor is reported if and only if its entry has something to report |
| PollPoller.ReadyIsDistinct | Reactor/PollPoller.cpp:47-64 | under the invariant of the array no descriptor is reported twice |
| PollPoller.PollPoller.UpdateChannel | Reactor/PollPoller.cpp:67-107 | performs the update on the array, the map and the channel's index; the assertions hold |
| PollPoller.PollPoller.RemoveChannel | Reactor/PollPoller.cpp:109-145 | performs the removal; the removed channel keeps its index, so it is not taken back |
| PollPoller.PollPoller.FillActiveChannels | Reactor/PollPoller.cpp:47-64 | appends the first ready channels in order, each once, all of them when given the count poll returned, each with its events |
| EpollPoller.OperationsAreAccepted | Reactor/EpollPoller.cpp:110-197 | the kernel never sees ADD on a present descriptor, nor MOD or DEL on an absent one, whatever the updates |
| EpollPoller.DisablingRemoves | Reactor/EpollPoller.cpp:110-153 | after an update a descriptor is in the kernel's list, with its mask, if and only if something was asked for or it was not there; no other is touched |
| EpollPoller.EpollPoller.UpdateChannel | Reactor/EpollPoller.cpp:110-153 | performs the update; the assertions hold |
| EpollPoller.EpollPoller.RemoveChannel | Reactor/EpollPoller.cpp:155-174 | performs the removal; the channel may be registered again |
| Pollers.PollersAgree | Reactor/EpollPoller.cpp:110-197 | after the same allowed requests both pollers watch, for every descriptor, the mask its channel wants, and remove the same channels |
| Pollers.RunAgrees | Reactor/PollPoller.cpp:67-145 | both stay in step with the map of wanted masks through every run |
| Pollers.EpollNeedsNoFirstMask | Reactor/EpollPoller.cpp:110-174 | the kernel's list does so without any condition on the masks |
| Pollers.FirstUpdateWithoutEventsBlocksRemoval | Reactor/PollPoller.cpp:71-122 | the array does not: a channel first registered without events cannot be removed until it is updated again |
| TimerProtocol.RunKeepsInv | Timer/TimerQueue.cpp:146-305 | in every run of creating, adding, cancelling and expiring, with callbacks doing the same: both sets hold the same timers under their current expirations, each live timer is in one place, and freed once |
| TimerProtocol.StepKeepsInv | Timer/TimerQueue.cpp:146-305 | every step keeps that |
| TimerProtocol.StepKeepsInTime | Timer/TimerQueue.cpp:146-276 | every step keeps the timerfd set for the earliest waiting timer or sooner |
| TimerProtocol.InOrderMembers | Timer/TimerQueue.cpp:216-233 | the expired entries are the members of the set, in strictly increasing order |
| TimerProtocol.ResetFirstKeepsInv | Timer/TimerQueue.cpp:246-264 | restarting or freeing one expired timer keeps the sets |
| TimerPromises.StepRefines | Timer/TimerQueue.cpp:146-305 | each step does to the queue what it does to a plain map from sequence numbers to expirations |
| TimerPromises.RunRefines | Timer/TimerQueue.cpp:146-305 | so does every run |
| TimerPromises.CancelDooms | Timer/TimerQueue.cpp:166-193 | cancelling a live timer dooms it if and only if it has been inserted |
| TimerPromises.EarlyCancelIsLost | Timer/TimerQueue.cpp:135-193 | a run in which the cancellation comes before the insertion, and the timer waits all the same |
| TimerPromises.CancelIsFinal | Timer/TimerQueue.cpp:166-264 | a doomed timer is gone when the current batch ends, is never re-inserted, and never runs once it is gone, in every continuation |
| TimerPromises.CancelledNeverRuns | Timer/TimerQueue.cpp:166-264 | in every continuation after the end of the batch a cancelled timer is never called |
| TimerPromises.StaleCancelIsHarmless | Timer/TimerQueue.cpp:166-193 | an id whose timer is gone changes no timer, though its address may be in use again |
| TimerPromises.CallsOnlyLiveTimers | Timer/TimerQueue.cpp:206-210 | a callback runs on a timer that has not been freed |
| TimerPromises.EachIsCalledOnce | Timer/TimerQueue.cpp:196-213 | in every run during a batch, each of its timers has been called once if its turn has come and not at all otherwise, whatever the callbacks add and cancel |
| TimerPromises.DueAreCalledOnce | Timer/TimerQueue.cpp:196-276 | from the collection to the end of the batch every timer due is called exactly once |
| TimerPromises.DueAreSettled | Timer/TimerQueue.cpp:92-104 | at the end of its batch a repeating timer not cancelled waits again, one interval after the batch was collected; any other is freed |
| TimerPromises.ExpiredAreTheDue | Timer/TimerQueue.cpp:216-241 | exactly the timers due at or before the time given are expired, in order, and exactly the others remain |
| TimerPromises.SizesAgree | Timer/TimerQueue.cpp:169-192 | the two sets have the same size, as asserted throughout |
| TimerPromises.EveryRun | Timer/TimerQueue.cpp:146-305 | from an empty queue: sets agree, each timer created is live or freed once, a non-empty queue at rest has its timerfd set no later than its earliest expiration |
| TimerPromises.TimespecIsExact | Timer/TimerQueue.cpp:34-47 | the time set is in normal form, never zero, and exact, at least 100 microseconds ahead |
| TimerPromises.ArmedForEarliest | Timer/TimerQueue.cpp:146-276 | whenever the timerfd is set it is for what is then the earliest waiting timer; reading it when it has fired, and nothing else, disarms it |
| TimerPromises.AddArms | Timer/TimerQueue.cpp:146-158 | a new timer sets the timerfd if and only if it expires before all waiting ones |
| TimerPromises.FinishArms | Timer/TimerQueue.cpp:265-275 | at the end of a batch the timerfd is set for the earliest waiting timer if that lies after the epoch, and else left |
| TimerQueue.TimerQueue.NewTimer | Timer/TimerQueue.cpp:135-144 | a timer at a free address with a fresh sequence number |
| TimerQueue.TimerQueue.AddTimer | Timer/TimerQueue.cpp:135-144 | in the loop thread the timer is inserted at once |
| TimerQueue.TimerQueue.AddTimerInLoop | Timer/TimerQueue.cpp:146-158 | inserts, and sets the timerfd when the earliest expiration changed |
| TimerQueue.TimerQueue.InsertEntry | Timer/TimerQueue.cpp:279-305 | both sets gain the timer, neither held it, and whether it is the earliest |
| TimerQueue.TimerQueue.CancelInLoop | Timer/TimerQueue.cpp:166-193 | performs the protocol's cancel; the erased entry was there |
| TimerQueue.TimerQueue.GetExpired | Timer/TimerQueue.cpp:216-241 | returns the due entries in order and removes them from both sets |
| TimerQueue.TimerQueue.Reset | Timer/TimerQueue.cpp:245-276 | performs the protocol's restart of the whole batch and sets the timerfd |
| TimerQueue.TimerQueue.RunCallback | Timer/TimerQueue.cpp:206-210 | one call, whose callback adds and cancels timers |
| TimerQueue.TimerQueue.HandleRead | Timer/TimerQueue.cpp:196-213 | collects, calls each expired timer in order with whatever its callback does, and restarts |
| TimerQueue.HandleReadIsARun | Timer/TimerQueue.cpp:196-213 | what that member does after collecting is a run of the protocol |
| HttpRequest.FindCrlf | WebServer/Buffer.h:294-299 | the first line end, or none |
| HttpRequest.FilenameIsLastSegment | http/HttpRequest.h:106-116 | the file name is the longest end of the path without a slash |
| HttpRequest.TrimmedIsTheMiddle | http/HttpRequest.h:147-163 | trimming takes away exactly the white space around a value |
| HttpRequest.Trimming | http/HttpRequest.h:147-163 | and every value has such a middle, without white space at its ends |
| HttpAcceptance.SpacesAre | http/HttpRequest.h:152-161 | white space is blank, tab, line feed, vertical tab, form feed and return |
| HttpRequest.HttpRequest.SetMethod | http/HttpRequest.h:60-80 | sets the named method, and whether it is one of the three |
| HttpRequest.HttpRequest.SetPath | http/HttpRequest.h:106-116 | sets path and file name |
| HttpRequest.HttpRequest.AddHeader | http/HttpRequest.h:147-163 | the two loops store the trimmed value under the name, replacing an earlier one |
| HttpParse.Parse | http/HttpParse.cpp:57-156 | the parse ends from every state but Success, and returns true exactly when it ends in Success |
| HttpParse.HttpParse.ProcessRequestLineOf | http/HttpParse.cpp:9-55 | performs the line's reading, with what a bad line leaves behind |
| HttpParse.HttpParse.SetTarget | http/HttpParse.cpp:23-33 | splits the target at its first question mark |
| HttpParse.HttpParse.SetVersion | http/HttpParse.cpp:34-51 | accepts exactly HTTP/1.0 and HTTP/1.1 |
| HttpParse.HttpParse.TurnOnce | http/HttpParse.cpp:61-154 | performs one turn of the loop |
| HttpParse.HttpParse.ParseRequest | http/HttpParse.cpp:57-156 | performs the whole parse on the buffer; true if and only if it ends in Success |
| HttpAcceptance.AcceptsExactly | http/HttpParse.cpp:9-55 | for every line: accepted if and only if it is GET, POST or HEAD, a target without a space, and HTTP/1.0 or HTTP/1.1, with one space between |
| HttpAcceptance.WellFormedIsAccepted | http/HttpParse.cpp:9-55 | and then method and version are those the words name |
| HttpAcceptance.RejectedLine | http/HttpParse.cpp:9-55 | a rejected line leaves version, headers and receive time alone |
| HttpAcceptance.ParseAcceptsExactly | http/HttpParse.cpp:57-156 | for every input: the parse succeeds if and only if it is a well-formed request, with any body behind its blank line or without the blank line and all after it |
| HttpMessages.RequestRoundTrip | http/HttpParse.cpp:9-156 | a well-formed request held whole is recovered: method, version, fields; path and query make up the target (if and only if it has a query or none was set before); exactly what follows the blank line is left |
| HttpMessages.LastOccurrenceWins | http/HttpRequest.h:147-163 | each field name maps to the trimmed value of its last occurrence, and no other name changes |
| HttpMessages.FieldsAreRead | http/HttpParse.cpp:90-147 | header lines and blank line are consumed exactly |
| HttpMessages.FailureResumes | http/HttpParse.cpp:83-146 | a call that returns false loses nothing: with more input the parser goes on as if it had seen all of it at once |
| HttpMessages.SplitIsInvisible | http/HttpParse.cpp:57-156 | a request in two parts parses as in one if and only if the first call returned false, nothing is missing, or the blank line has arrived |
| HttpMessages.CutIsInvisible | http/HttpParse.cpp:57-156 | cutting a well-formed request in two changes nothing if and only if the cut is not right behind its request line or one of its header lines |
| HttpMessages.EarlySuccess | http/HttpParse.cpp:72-107 | before the end of the blank line a cut request is reported as complete if and only if the cut is there |
| HttpMessages.RequestLineAloneSucceeds | http/HttpParse.cpp:72-80 | any well-formed request line by itself is reported as a complete request |
| HttpMessages.EarlySuccessEndsALine | http/HttpParse.cpp:57-156 | for arbitrary input: success without the blank line comes right behind a line end |
| HttpMessages.FeedingIsOneParse | http/HttpParse.cpp:57-156 | calls after every chunk end as one call on everything fed so far |

## Left out

- Sockets, addresses, acceptor, connector, DNS, `fopen`/`fwrite`, clocks and thread wrappers: foreign calls; only their possible results appear, as inputs of steps.
- Data races on non-atomic flags: checking and setting a connection's state is one step, and so is everything done under one lock.
- User callbacks of connections (connection, message, write-complete, high-water-mark): what they may do to the connection is covered because any member may be called at any point, but their own scheduling is not.
- Lifetimes of connections and channels across threads (`shared_from_this`, `tie`, raw `this` in bound functions).
- Direct changes to `outputBuffer()` by users, and message callbacks that touch the codec's buffer.
- Connection.OutputPath: once a socket is broken every later `write` is taken to fail with EPIPE, and so is a `write` after a FIN.
- TcpConnection.TcpConnection.SendBuffer: the buffer is emptied before its bytes are handed over, in the loop thread too, where the program empties it afterwards.
- EventLoop.EventLoop.ReturnFromPoll: `loop()` as a whole is not one method; its phases are, and the protocol composes them in every order. The handlers of other channels are not part of the loop's state; what they do to the queue is a step of the loop thread.
- TcpConnection.TcpConnection.ConnectEstablished: `tie` and the connection callback are not part of the state.
- TcpConnection.TcpConnection.ConnectDestroyed: nor are its callback and the removal of the channel, whose assertion is `Connection.RemoveAssertion`.
- TcpConnection.TcpConnection.HandleClose: nor are the connection and close callbacks.
- AsyncLogging.AsyncLogging.AppendLine: buffers are values handed from field to field; that a recycled buffer is the same block of memory is not stated.
- LogFile (rolling, names, flushing) and the text of the overload message: the file receives buffers and the number discarded.
- FixedBuffer.FixedBuffer.Append: bytes beyond the contents are not described, nor is the cookie.
- Channel.DirectionsAreIndependent: changing the mask and the poller update that follows are separate requests in `Pollers`; masks are 16 bits wide.
- Pollers.PollersAgree: a descriptor in the kernel's list with an empty mask counts as not watched, although the kernel still reports errors and hang-ups for it.
- Pollers.RunAgrees: a descriptor registered again after a removal stands for a new channel object, as the array poller needs.
- Resizing the array of ready events and `fillActiveChannels` of the epoll poller: a copy without decisions.
- TimerQueue.TimerQueue.NewTimer: intervals are whole microseconds; an interval above zero but below one microsecond would repeat without advancing.
- TimerProtocol.StepKeepsInTime: the clock reads a time after the epoch when the timerfd fires; expirations are arbitrary.
- Destruction of a timer queue, and reads of the timerfd that return nothing: reading it may or may not disarm it, either way.
- HttpParse.HttpParse.ParseRequest: not called in state Success, where the program's loop would change nothing and never end.
- HttpRequest.HttpRequest.AddHeader: white space is that of the C locale.
- Bodies of requests: the parser leaves them in the buffer.
- `findEOL`, `getHeader`, `methodString` and the other plain lookups.
- `formatSI`, `formatIEC`, `Fmt` and `double` output: they rest on floating-point rounding in `snprintf`.
- ThreadPool, CountDownLatch, Connector's backoff, round-robin loop choice, StringPiece, Timestamp, HttpServer, HttpResponse and the demo programs: easier than the parts chosen.
