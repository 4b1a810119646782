/** Signed integers in network byte order, as the buffer's integer members store them. */
module BigEndian {
  import opened CInt
  import opened Buffer

  newtype byte = x: int | 0 <= x < 256

  /** 256 to the `width`: the number of values `width` bytes can hold. */
  function Span(width: nat): (n: nat)
    ensures n > 0
    ensures width > 0 ==> n % 2 == 0
  {
    if width == 0 then 1 else 256 * Span(width - 1)
  }

  predicate Fits(x: int, width: nat) {
    width > 0 && -(Span(width) / 2) <= x < Span(width) / 2
  }

  /** A conversion to a signed type of `width` bytes: what overflows wraps around. */
  function Wrap(x: int, width: nat): int
    requires width > 0
  {
    var n := x % Span(width);
    if n < Span(width) / 2 then n else n - Span(width)
  }

  function EncodeNat(n: nat, width: nat): seq<byte> {
    if width == 0 then [] else EncodeNat(n / 256, width - 1) + [(n % 256) as byte]
  }

  function DecodeNat(bytes: seq<byte>): nat {
    if bytes == [] then 0 else DecodeNat(bytes[..|bytes| - 1]) * 256 + bytes[|bytes| - 1] as int
  }

  /** `htobe`: two's complement, most significant byte first. */
  function Encode(x: int, width: nat): seq<byte>
    requires Fits(x, width)
  {
    EncodeNat(if x < 0 then x + Span(width) else x, width)
  }

  /** `betoh` */
  function Decode(bytes: seq<byte>): int
    requires |bytes| > 0
  {
    Wrap(DecodeNat(bytes), |bytes|)
  }

  lemma {:induction false} EncodeNatRoundTrip(n: nat, width: nat)
    requires n < Span(width)
    ensures |EncodeNat(n, width)| == width
    ensures DecodeNat(EncodeNat(n, width)) == n
  {
    if width > 0 {
      EncodeNatRoundTrip(n / 256, width - 1);
      var high := EncodeNat(n / 256, width - 1);
      assert EncodeNat(n, width)[..width - 1] == high;
    }
  }

  lemma {:induction false} DecodeNatRoundTrip(bytes: seq<byte>)
    ensures DecodeNat(bytes) < Span(|bytes|)
    ensures EncodeNat(DecodeNat(bytes), |bytes|) == bytes
  {
    if bytes != [] {
      var high, low := bytes[..|bytes| - 1], bytes[|bytes| - 1];
      DecodeNatRoundTrip(high);
      QuotientIs(DecodeNat(high) * 256 + low as int, 256, DecodeNat(high));
      assert bytes == high + [low];
    }
  }

  /** The most significant byte comes first: byte `i` holds the digit of weight 256 to the power of the
      number of bytes behind it. */
  lemma {:induction false} ByteAt(n: nat, width: nat, i: nat)
    requires n < Span(width) && i < width
    ensures |EncodeNat(n, width)| == width
    ensures EncodeNat(n, width)[i] as int == n / Span(width - 1 - i) % 256
    decreases width
  {
    EncodeNatRoundTrip(n, width);
    EncodeNatRoundTrip(n / 256, width - 1);
    if i == width - 1 {
      assert Span(0) == 1 && n / 1 == n;
    } else {
      ByteAt(n / 256, width - 1, i);
      assert EncodeNat(n, width)[i] == EncodeNat(n / 256, width - 1)[i];
      DivideTwice(n, Span(width - 2 - i));
    }
  }

  lemma DivideTwice(n: nat, k: nat)
    requires k > 0
    ensures n / 256 / k == n / (256 * k)
  {
    var q := n / 256 / k;
    var r := n / 256 - k * q;
    assert 0 <= r < k && n / 256 == k * q + r;
    assert n == 256 * (k * q + r) + n % 256;
    assert 256 * (k * q + r) == 256 * k * q + 256 * r;
    QuotientIs(n, 256 * k, q);
  }

  lemma WrapOfFitting(x: int, width: nat)
    requires Fits(x, width)
    ensures Wrap(x, width) == x
    ensures Wrap(x + Span(width), width) == x
  {
    var s := Span(width);
    if x < 0 {
      QuotientIs(x + s, s, 0);
      QuotientIs(x, s, -1);
    } else {
      QuotientIs(x, s, 0);
      QuotientIs(x + s, s, 1);
    }
  }

  /** What is written is read back, for every width and every value of that width. */
  lemma EncodeRoundTrip(x: int, width: nat)
    requires Fits(x, width)
    ensures |Encode(x, width)| == width
    ensures Decode(Encode(x, width)) == x
  {
    EncodeNatRoundTrip(if x < 0 then x + Span(width) else x, width);
    WrapOfFitting(x, width);
  }

  /** Every byte string is the encoding of exactly the value read from it. */
  lemma DecodeRoundTrip(bytes: seq<byte>)
    requires |bytes| > 0
    ensures Fits(Decode(bytes), |bytes|)
    ensures Encode(Decode(bytes), |bytes|) == bytes
  {
    DecodeNatRoundTrip(bytes);
    QuotientIs(DecodeNat(bytes), Span(|bytes|), 0);
  }

  // ------------------------------------------------ the buffer's integer members

  predicate IsWidth(width: nat) {
    width in {1, 2, 4, 8}
  }

  method AppendInt(buf: Buffer<byte>, x: int, width: nat)
    requires buf.Valid() && IsWidth(width) && Fits(x, width)
    modifies buf, buf.buffer
    ensures buf.Valid() && (buf.buffer == old(buf.buffer) || fresh(buf.buffer))
    ensures buf.Contents() == old(buf.Contents()) + Encode(x, width)
  {
    buf.Append(Encode(x, width));
  }

  method PrependInt(buf: Buffer<byte>, x: int, width: nat)
    requires buf.Valid() && IsWidth(width) && Fits(x, width) && width <= buf.PrependableBytes()
    modifies buf`readerIndex, buf.buffer
    ensures buf.Valid() && buf.Contents() == Encode(x, width) + old(buf.Contents())
  {
    EncodeRoundTrip(x, width);
    buf.Prepend(Encode(x, width));
  }

  method PeekInt(buf: Buffer<byte>, width: nat) returns (x: int)
    requires buf.Valid() && IsWidth(width) && width <= buf.ReadableBytes()
    ensures x == Decode(buf.Contents()[..width])
  {
    var bytes := buf.buffer[buf.readerIndex..buf.readerIndex + width];
    assert bytes == buf.Contents()[..width];
    x := Decode(bytes);
  }

  method ReadInt(buf: Buffer<byte>, width: nat) returns (x: int)
    requires buf.Valid() && IsWidth(width) && width <= buf.ReadableBytes()
    modifies buf`readerIndex, buf`writerIndex
    ensures buf.Valid()
    ensures x == Decode(old(buf.Contents())[..width])
    ensures buf.Contents() == old(buf.Contents())[width..]
  {
    x := PeekInt(buf, width);
    buf.Retrieve(width);
  }

  /** An integer in front of other bytes is read back as it was written and leaves those bytes. */
  lemma ReadBack(x: int, width: nat, tail: seq<byte>)
    requires Fits(x, width)
    ensures var bytes := Encode(x, width) + tail;
            |bytes| >= width && Decode(bytes[..width]) == x && bytes[width..] == tail
  {
    EncodeRoundTrip(x, width);
    assert (Encode(x, width) + tail)[..width] == Encode(x, width);
  }
}
