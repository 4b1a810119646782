/** Length-prefixed framing over a byte stream (chat/codec.h). */
module Codec {
  import opened Buffer
  import opened BigEndian
  import opened Streams

  const HEADER_LEN := 4
  const MAX_MESSAGE := 65536

  type Message = seq<byte>

  // ---------------------------------------------------------------- sending

  /** A message with its length in front, as a 32-bit signed integer in network byte order. */
  function FrameOf(message: Message): seq<byte> {
    var len := Wrap(|message|, HEADER_LEN);
    WrapFits(|message|, HEADER_LEN);
    Encode(len, HEADER_LEN) + message
  }

  function Frames(messages: seq<Message>): seq<byte> {
    if messages == [] then [] else FrameOf(messages[0]) + Frames(messages[1..])
  }

  predicate Sendable(messages: seq<Message>) {
    forall m | m in messages :: |m| <= MAX_MESSAGE
  }

  lemma WrapFits(x: int, width: nat)
    requires width > 0
    ensures Fits(Wrap(x, width), width)
  {
  }

  method Send(message: Message) returns (buf: Buffer<byte>)
    ensures fresh(buf) && fresh(buf.buffer) && buf.Valid()
    ensures buf.Contents() == FrameOf(message)
  {
    buf := new Buffer<byte>();
    buf.Append(message);
    WrapFits(|message|, HEADER_LEN);
    PrependInt(buf, Wrap(|message|, HEADER_LEN), HEADER_LEN);
  }

  // -------------------------------------------------------------- receiving

  /** What one call of `onMessage` makes of the readable bytes: the messages it delivers, the bytes it
      leaves, and whether it gave up on an invalid length. */
  datatype Decoded = Decoded(messages: seq<Message>, rest: seq<byte>, invalid: bool)

  function Unframe(bytes: seq<byte>): Decoded {
    if |bytes| < HEADER_LEN then Decoded([], bytes, false)
    else
      var len := Decode(bytes[..HEADER_LEN]);
      if len > MAX_MESSAGE || len < 0 then Decoded([], bytes, true)
      else if |bytes| >= len + HEADER_LEN then
        var d := Unframe(bytes[HEADER_LEN + len..]);
        Decoded([bytes[HEADER_LEN..HEADER_LEN + len]] + d.messages, d.rest, d.invalid)
      else Decoded([], bytes, false)
  }

  /** The length in front of `s`, if a whole message follows it. */
  predicate HasMessage(s: seq<byte>, n: nat) {
    HEADER_LEN <= n <= |s| && n - HEADER_LEN <= MAX_MESSAGE && Decode(s[..HEADER_LEN]) == n - HEADER_LEN
  }

  lemma UnframeStep(s: seq<byte>, n: nat)
    requires HasMessage(s, n)
    ensures var d := Unframe(s[n..]);
            Unframe(s) == Decoded([s[HEADER_LEN..n]] + d.messages, d.rest, d.invalid)
  {
  }

  lemma UnframeStops(s: seq<byte>)
    requires forall n: nat :: !HasMessage(s, n)
    ensures Unframe(s).messages == [] && Unframe(s).rest == s
  {
    if |s| >= HEADER_LEN {
      var len := Decode(s[..HEADER_LEN]);
      if 0 <= len {
        assert !HasMessage(s, len + HEADER_LEN);
      }
    }
  }

  /** The length announced at the front of `s` is one no message may have. */
  predicate HasInvalidLength(s: seq<byte>) {
    |s| >= HEADER_LEN && (Decode(s[..HEADER_LEN]) < 0 || Decode(s[..HEADER_LEN]) > MAX_MESSAGE)
  }

  /** No whole message is at the front of `s`: its header or its contents are incomplete. */
  predicate IsIncomplete(s: seq<byte>) {
    |s| < HEADER_LEN || |s| < HEADER_LEN + Decode(s[..HEADER_LEN])
  }

  /** Decoding stops for one of two reasons, and gives up for the first: the length at the front of what it
      leaves is invalid, or the message there is incomplete. */
  lemma {:induction false} UnframeStopsExactly(bytes: seq<byte>)
    ensures var d := Unframe(bytes);
            && (d.invalid <==> HasInvalidLength(d.rest))
            && (!d.invalid ==> IsIncomplete(d.rest))
    decreases |bytes|
  {
    if n: nat :| HasMessage(bytes, n) {
      UnframeStep(bytes, n);
      UnframeStopsExactly(bytes[n..]);
    } else {
      UnframeStops(bytes);
      StopsAtOnce(bytes);
    }
  }

  lemma StopsAtOnce(bytes: seq<byte>)
    requires forall n: nat :: !HasMessage(bytes, n)
    ensures Unframe(bytes).invalid <==> HasInvalidLength(bytes)
    ensures !HasInvalidLength(bytes) ==> IsIncomplete(bytes)
  {
    if |bytes| >= HEADER_LEN {
      var len := Decode(bytes[..HEADER_LEN]);
      if len >= 0 {
        assert !HasMessage(bytes, len + HEADER_LEN);
      }
    }
  }

  lemma AppendMessages(a: seq<Message>, b: seq<Message>, c: seq<Message>)
    ensures (a + b) + c == a + (b + c)
  {
  }

  lemma DropHeader(bytes: seq<byte>, n: nat)
    requires HEADER_LEN <= n <= |bytes|
    ensures bytes[HEADER_LEN..][..n - HEADER_LEN] == bytes[HEADER_LEN..n]
    ensures bytes[HEADER_LEN..][n - HEADER_LEN..] == bytes[n..]
  {
  }

  /** Takes a whole message, `n` bytes with its header, out of the buffer. */
  method TakeMessage(buf: Buffer<byte>, n: nat) returns (message: Message)
    requires buf.Valid() && HasMessage(buf.Contents(), n)
    modifies buf`readerIndex, buf`writerIndex
    ensures buf.Valid()
    ensures message == old(buf.Contents())[HEADER_LEN..n] && buf.Contents() == old(buf.Contents())[n..]
    ensures Unframe(old(buf.Contents())).messages == [message] + Unframe(buf.Contents()).messages
    ensures Unframe(old(buf.Contents())).rest == Unframe(buf.Contents()).rest
    ensures Unframe(old(buf.Contents())).invalid == Unframe(buf.Contents()).invalid
  {
    UnframeStep(buf.Contents(), n);
    message := CutMessage(buf, n);
  }

  method CutMessage(buf: Buffer<byte>, n: nat) returns (message: Message)
    requires buf.Valid() && HEADER_LEN <= n <= buf.ReadableBytes()
    modifies buf`readerIndex, buf`writerIndex
    ensures buf.Valid()
    ensures message == old(buf.Contents())[HEADER_LEN..n] && buf.Contents() == old(buf.Contents())[n..]
  {
    DropHeader(buf.Contents(), n);
    buf.Retrieve(HEADER_LEN);
    message := buf.RetrieveAsString(n - HEADER_LEN);
  }

  method OnMessage(buf: Buffer<byte>) returns (delivered: seq<Message>, shutdown: bool)
    requires buf.Valid()
    modifies buf`readerIndex, buf`writerIndex
    ensures buf.Valid()
    ensures Decoded(delivered, buf.Contents(), shutdown) == Unframe(old(buf.Contents()))
  {
    delivered, shutdown := [], false;
    ghost var all := Unframe(buf.Contents());
    while buf.ReadableBytes() >= HEADER_LEN
      invariant buf.Valid()
      invariant all.messages == delivered + Unframe(buf.Contents()).messages
      invariant all.rest == Unframe(buf.Contents()).rest
      invariant all.invalid == Unframe(buf.Contents()).invalid
      decreases buf.ReadableBytes()
    {
      var len := PeekInt(buf, HEADER_LEN);
      if len > MAX_MESSAGE || len < 0 {
        shutdown := true;
        break;
      } else if buf.ReadableBytes() >= len + HEADER_LEN {
        ghost var before := delivered;
        var message := TakeMessage(buf, HEADER_LEN + len);
        delivered := delivered + [message];
        AppendMessages(before, [message], Unframe(buf.Contents()).messages);
      } else {
        break;
      }
    }
  }

  // ---------------------------------------------------------- fragmentation

  /** A receiver whose input buffer grows by one chunk before each call of `onMessage`. */
  function Receive(chunks: seq<seq<byte>>): Decoded {
    if chunks == [] then Decoded([], [], false)
    else
      var d := Receive(chunks[..|chunks| - 1]);
      var e := Unframe(d.rest + chunks[|chunks| - 1]);
      Decoded(d.messages + e.messages, e.rest, e.invalid)
  }

  /** Decoding may stop anywhere and resume on the bytes it left. */
  lemma {:induction false} UnframeResumes(s: seq<byte>, t: seq<byte>)
    ensures var d := Unframe(s);
            var e := Unframe(d.rest + t);
            Unframe(s + t) == Decoded(d.messages + e.messages, e.rest, e.invalid)
    decreases |s|
  {
    if n: nat :| HasMessage(s, n) {
      assert (s + t)[..HEADER_LEN] == s[..HEADER_LEN];
      UnframeStep(s, n);
      UnframeStep(s + t, n);
      assert (s + t)[n..] == s[n..] + t;
      assert (s + t)[HEADER_LEN..n] == s[HEADER_LEN..n];
      UnframeResumes(s[n..], t);
      AppendMessages([s[HEADER_LEN..n]], Unframe(s[n..]).messages,
                     Unframe(Unframe(s[n..]).rest + t).messages);
    } else {
      UnframeStops(s);
    }
  }

  /** Having given up, the receiver gives up again whatever else arrives, and delivers nothing more. */
  lemma InvalidStays(bytes: seq<byte>, more: seq<byte>)
    requires Unframe(bytes).invalid
    ensures var d := Unframe(bytes); Unframe(bytes + more) == Decoded(d.messages, d.rest + more, true)
  {
    var d := Unframe(bytes);
    UnframeStopsExactly(bytes);
    UnframeResumes(bytes, more);
    assert (d.rest + more)[..HEADER_LEN] == d.rest[..HEADER_LEN];
    assert d.messages + [] == d.messages;
  }

  /** However the bytes are cut into chunks, the receiver delivers and keeps the same. */
  lemma {:induction false} FragmentationIsInvisible(chunks: seq<seq<byte>>)
    ensures Receive(chunks) == Unframe(Concat(chunks))
  {
    if chunks != [] {
      var init := chunks[..|chunks| - 1];
      FragmentationIsInvisible(init);
      UnframeResumes(Concat(init), chunks[|chunks| - 1]);
    }
  }

  lemma HeaderOfFrame(message: Message)
    requires |message| <= MAX_MESSAGE
    ensures |FrameOf(message)| == HEADER_LEN + |message|
    ensures Decode(FrameOf(message)[..HEADER_LEN]) == |message|
    ensures FrameOf(message)[HEADER_LEN..] == message
  {
    assert Span(4) == 0x1_0000_0000;
    WrapOfFitting(|message|, HEADER_LEN);
    EncodeRoundTrip(|message|, HEADER_LEN);
    assert FrameOf(message)[..HEADER_LEN] == Encode(|message|, HEADER_LEN);
  }

  /** What a receiver knows after any part of a framed stream: it has delivered exactly the messages
      that are complete, and keeps exactly the beginning of the next one. */
  ghost predicate DeliversPrefix(d: Decoded, messages: seq<Message>, bytes: seq<byte>) {
    && !d.invalid
    && d.messages <= messages
    && bytes == Frames(d.messages) + d.rest
    && (d.messages == messages ==> d.rest == [])
    && (d.messages != messages ==> d.rest < FrameOf(messages[|d.messages|]))
  }

  lemma {:induction false} PrefixDelivery(messages: seq<Message>, bytes: seq<byte>)
    requires Sendable(messages) && bytes <= Frames(messages)
    ensures DeliversPrefix(Unframe(bytes), messages, bytes)
  {
    if messages != [] {
      var m, f := messages[0], FrameOf(messages[0]);
      HeaderOfFrame(m);
      if |bytes| >= HEADER_LEN {
        assert bytes[..HEADER_LEN] == f[..HEADER_LEN];
      }
      if |bytes| < |f| {
        assert bytes == Frames([]) + bytes;
        assert bytes == f[..|bytes|];
      } else {
        var tail := bytes[|f|..];
        assert bytes == f + tail;
        assert tail <= Frames(messages[1..]);
        PrefixDelivery(messages[1..], tail);
        PrefixCons(m, Unframe(tail), messages, bytes);
        assert bytes[HEADER_LEN..HEADER_LEN + |m|] == f[HEADER_LEN..];
      }
    }
  }

  lemma PrefixCons(m: Message, d: Decoded, messages: seq<Message>, bytes: seq<byte>)
    requires |messages| > 0 && m == messages[0]
    requires FrameOf(m) <= bytes && DeliversPrefix(d, messages[1..], bytes[|FrameOf(m)|..])
    ensures DeliversPrefix(Decoded([m] + d.messages, d.rest, d.invalid), messages, bytes)
  {
    var ms := [m] + d.messages;
    assert ms[1..] == d.messages;
    assert messages == [m] + messages[1..];
    assert bytes == FrameOf(m) + bytes[|FrameOf(m)|..];
    if ms != messages {
      assert messages[|ms|] == messages[1..][|d.messages|];
    }
  }

  /** A single message survives framing exactly when it is at most 65536 bytes long. */
  lemma FrameRoundTrip(message: Message)
    ensures Unframe(FrameOf(message)) == Decoded([message], [], false) <==> |message| <= MAX_MESSAGE
  {
    var bytes := FrameOf(message);
    var len := Wrap(|message|, HEADER_LEN);
    WrapFits(|message|, HEADER_LEN);
    EncodeRoundTrip(len, HEADER_LEN);
    assert bytes[..HEADER_LEN] == Encode(len, HEADER_LEN);
    if |message| <= MAX_MESSAGE {
      HeaderOfFrame(message);
      assert bytes[HEADER_LEN..HEADER_LEN + len] == message;
      assert bytes[HEADER_LEN + len..] == [];
    }
  }

  lemma {:induction false} UnframeFrames(messages: seq<Message>, tail: seq<byte>)
    requires Sendable(messages)
    ensures var d := Unframe(tail);
            Unframe(Frames(messages) + tail) == Decoded(messages + d.messages, d.rest, d.invalid)
  {
    if messages == [] {
      assert [] + tail == tail && [] + Unframe(tail).messages == Unframe(tail).messages;
    } else {
      var m, rest := messages[0], Frames(messages[1..]) + tail;
      assert Frames(messages) + tail == FrameOf(m) + rest;
      FrameInFront(m, rest);
      UnframeFrames(messages[1..], tail);
      assert messages == [m] + messages[1..];
      AppendMessages([m], messages[1..], Unframe(tail).messages);
    }
  }

  lemma FrameInFront(m: Message, rest: seq<byte>)
    requires |m| <= MAX_MESSAGE
    ensures var d := Unframe(rest); Unframe(FrameOf(m) + rest) == Decoded([m] + d.messages, d.rest, d.invalid)
  {
    var f := FrameOf(m);
    var bytes := f + rest;
    HeaderOfFrame(m);
    assert bytes[..HEADER_LEN] == f[..HEADER_LEN] && bytes[HEADER_LEN..|f|] == f[HEADER_LEN..];
    assert bytes[|f|..] == rest;
    UnframeStep(bytes, |f|);
  }

  /** A message that is too long makes the receiver give up where its frame begins, after delivering all
      messages before it, whatever follows. */
  lemma TooLongIsRefused(messages: seq<Message>, message: Message, more: seq<byte>)
    requires Sendable(messages) && MAX_MESSAGE < |message| < 0x8000_0000
    ensures Unframe(Frames(messages) + FrameOf(message) + more) == Decoded(messages, FrameOf(message) + more, true)
  {
    var f := FrameOf(message);
    assert Span(4) == 0x1_0000_0000;
    WrapOfFitting(|message|, HEADER_LEN);
    EncodeRoundTrip(|message|, HEADER_LEN);
    assert (f + more)[..HEADER_LEN] == Encode(|message|, HEADER_LEN);
    assert Frames(messages) + f + more == Frames(messages) + (f + more);
    UnframeFrames(messages, f + more);
    assert messages + [] == messages;
  }
}
