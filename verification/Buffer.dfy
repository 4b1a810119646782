/** The compacting byte buffer of WebServer/Buffer.h and Buffer.cpp, as a queue with room in front. */
module Buffer {

  const CHEAP_PREPEND := 8
  const INITIAL_SIZE := 1024
  const EXTRA_SIZE := 65536

  function Max(x: int, y: int): int {
    if x < y then y else x
  }

  class Buffer<T(0)> {
    var buffer: array<T>
    var readerIndex: nat
    var writerIndex: nat

    ghost predicate Valid()
      reads this
    {
      readerIndex <= writerIndex <= buffer.Length && CHEAP_PREPEND <= buffer.Length
    }

    /** The readable bytes. */
    ghost function Contents(): seq<T>
      requires Valid()
      reads this, buffer
    {
      buffer[readerIndex..writerIndex]
    }

    constructor (initialSize: nat := INITIAL_SIZE)
      ensures Valid() && fresh(buffer)
      ensures Contents() == [] && WritableBytes() == initialSize && PrependableBytes() == CHEAP_PREPEND
    {
      buffer := new T[CHEAP_PREPEND + initialSize];
      readerIndex, writerIndex := CHEAP_PREPEND, CHEAP_PREPEND;
    }

    function ReadableBytes(): int
      reads this
    {
      writerIndex - readerIndex
    }

    function WritableBytes(): int
      reads this
    {
      buffer.Length - writerIndex
    }

    function PrependableBytes(): int
      reads this
    {
      readerIndex
    }

    method Swap(rhs: Buffer<T>)
      requires Valid() && rhs.Valid()
      modifies this, rhs
      ensures Valid() && rhs.Valid()
      ensures buffer == old(rhs.buffer) && rhs.buffer == old(buffer)
      ensures readerIndex == old(rhs.readerIndex) && writerIndex == old(rhs.writerIndex)
      ensures Contents() == old(rhs.Contents()) && rhs.Contents() == old(Contents())
    {
      buffer, rhs.buffer := rhs.buffer, buffer;
      readerIndex, rhs.readerIndex := rhs.readerIndex, readerIndex;
      writerIndex, rhs.writerIndex := rhs.writerIndex, writerIndex;
    }

    method RetrieveAll()
      requires Valid()
      modifies this`readerIndex, this`writerIndex
      ensures Valid() && Contents() == []
      ensures PrependableBytes() == CHEAP_PREPEND
    {
      readerIndex, writerIndex := CHEAP_PREPEND, CHEAP_PREPEND;
    }

    method Retrieve(len: nat)
      requires Valid() && len <= ReadableBytes()
      modifies this`readerIndex, this`writerIndex
      ensures Valid() && Contents() == old(Contents())[len..]
      ensures len < old(ReadableBytes()) ==> readerIndex == old(readerIndex) + len
      ensures len == old(ReadableBytes()) ==> readerIndex == CHEAP_PREPEND
    {
      if len < ReadableBytes() {
        readerIndex := readerIndex + len;
      } else {
        RetrieveAll();
      }
    }

    method RetrieveAsString(len: nat) returns (result: seq<T>)
      requires Valid() && len <= ReadableBytes()
      modifies this`readerIndex, this`writerIndex
      ensures Valid()
      ensures result == old(Contents())[..len] && Contents() == old(Contents())[len..]
    {
      result := buffer[readerIndex..readerIndex + len];
      assert result == Contents()[..len];
      Retrieve(len);
    }

    /** Called only when the space behind the contents is too small. */
    method MakeSpace(len: nat)
      requires Valid() && WritableBytes() < len
      modifies this, buffer
      ensures Valid() && (buffer == old(buffer) || fresh(buffer))
      ensures Contents() == old(Contents()) && WritableBytes() >= len
      ensures old(WritableBytes() + PrependableBytes()) < len + CHEAP_PREPEND
              ==> readerIndex == old(readerIndex) && WritableBytes() == len
      ensures old(WritableBytes() + PrependableBytes()) >= len + CHEAP_PREPEND
              ==> buffer == old(buffer) && readerIndex == CHEAP_PREPEND
    {
      if WritableBytes() + PrependableBytes() < len + CHEAP_PREPEND {
        buffer := Resize(buffer, writerIndex, writerIndex + len);
      } else {
        assert CHEAP_PREPEND < readerIndex;
        var readable := ReadableBytes();
        CopyDown(buffer, readerIndex, CHEAP_PREPEND, readable);
        readerIndex := CHEAP_PREPEND;
        writerIndex := readerIndex + readable;
        assert readable == ReadableBytes();
      }
    }

    method EnsureWritableBytes(len: nat)
      requires Valid()
      modifies this, buffer
      ensures Valid() && (buffer == old(buffer) || fresh(buffer))
      ensures Contents() == old(Contents()) && WritableBytes() >= len
      ensures old(WritableBytes()) >= len ==> unchanged(this)
      ensures readerIndex == old(readerIndex) || readerIndex == CHEAP_PREPEND
      ensures old(WritableBytes() + PrependableBytes()) < len + CHEAP_PREPEND
              && old(WritableBytes()) < len
              ==> readerIndex == old(readerIndex) && WritableBytes() == len
    {
      if WritableBytes() < len {
        MakeSpace(len);
      }
    }

    method Append(data: seq<T>)
      requires Valid()
      modifies this, buffer
      ensures Valid() && (buffer == old(buffer) || fresh(buffer))
      ensures Contents() == old(Contents()) + data
      ensures old(WritableBytes()) >= |data| ==> buffer == old(buffer)
      ensures readerIndex == old(readerIndex) || readerIndex == CHEAP_PREPEND
    {
      EnsureWritableBytes(|data|);
      Write(buffer, writerIndex, data);
      writerIndex := writerIndex + |data|;
    }

    method Prepend(data: seq<T>)
      requires Valid() && |data| <= PrependableBytes()
      modifies this`readerIndex, buffer
      ensures Valid() && Contents() == data + old(Contents())
    {
      readerIndex := readerIndex - |data|;
      Write(buffer, readerIndex, data);
    }

    /** Moves the contents to a buffer of the initial layout with room for `reserve` more. */
    method Shrink(reserve: nat)
      requires Valid()
      modifies this
      ensures Valid() && fresh(buffer)
      ensures Contents() == old(Contents()) && PrependableBytes() == CHEAP_PREPEND
      ensures WritableBytes() == Max(INITIAL_SIZE - old(ReadableBytes()), reserve)
    {
      var other := new Buffer<T>();
      other.EnsureWritableBytes(ReadableBytes() + reserve);
      other.Append(buffer[readerIndex..writerIndex]);
      Swap(other);
    }

    /** What one `readv` may deliver: the free tail, and the stack buffer when the tail is smaller. */
    function ReadCapacity(): int
      reads this
    {
      if WritableBytes() < EXTRA_SIZE then WritableBytes() + EXTRA_SIZE else WritableBytes()
    }

    /** `received` is what the kernel delivered, -1 an error. The first part lands in the free tail,
        the rest in the stack buffer, from where it is appended. */
    method ReadFd(received: seq<T>, failed: bool) returns (n: int)
      requires Valid() && |received| <= ReadCapacity()
      modifies this, buffer
      ensures Valid() && (buffer == old(buffer) || fresh(buffer))
      ensures n == if failed then -1 else |received|
      ensures Contents() == if failed then old(Contents()) else old(Contents()) + received
    {
      if failed {
        return -1;
      }
      n := |received|;
      var writable := WritableBytes();
      if n <= writable {
        Write(buffer, writerIndex, received);
        writerIndex := writerIndex + n;
      } else {
        Write(buffer, writerIndex, received[..writable]);
        writerIndex := buffer.Length;
        Append(received[writable..]);
        JoinHalves(old(Contents()), received, writable);
      }
    }
  }

  lemma JoinHalves<T>(before: seq<T>, received: seq<T>, n: nat)
    requires n <= |received|
    ensures (before + received[..n]) + received[n..] == before + received
  {
  }

  /** `vector::resize` to a larger size: the first `keep` elements survive. */
  method Resize<T(0)>(a: array<T>, keep: nat, size: nat) returns (b: array<T>)
    requires keep <= a.Length && keep <= size
    ensures fresh(b) && b.Length == size
    ensures forall lo | 0 <= lo <= keep :: b[lo..keep] == a[lo..keep]
  {
    b := new T[size];
    forall i | 0 <= i < keep {
      b[i] := a[i];
    }
  }

  /** `std::copy` from elsewhere: slices ending with the written region gain the data behind, slices
      starting with it gain the data in front. */
  method Write<T>(a: array<T>, at: nat, data: seq<T>)
    requires at + |data| <= a.Length
    modifies a
    ensures forall lo | 0 <= lo <= at :: a[lo..at + |data|] == old(a[lo..at]) + data
    ensures forall hi | at + |data| <= hi <= a.Length :: a[at..hi] == data + old(a[at + |data|..hi])
  {
    forall i | at <= i < at + |data| {
      a[i] := data[i - at];
    }
  }

  /** `std::copy` towards the front of the same array: the regions may overlap. */
  method CopyDown<T>(a: array<T>, from: nat, to: nat, len: nat)
    requires to <= from && from + len <= a.Length
    modifies a
    ensures a[to..to + len] == old(a[from..from + len])
  {
    for i := 0 to len
      invariant forall k | to <= k < to + i :: a[k] == old(a[k + (from - to)])
      invariant forall k | to + i <= k < a.Length :: a[k] == old(a[k])
    {
      a[to + i] := a[from + i];
    }
  }
}
