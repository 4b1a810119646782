/** The fixed-size character buffer and the integer printers (Log/LogStream.h, Log/LogStream.cpp). */
module FixedBuffer {
  import opened CInt
  import opened Numerals

  const MAX_NUMERIC_SIZE := 32

  /** A whole text goes in, or none of it: one byte always stays free for the terminator. */
  function Appended(size: nat, contents: string, text: string): string {
    if size - |contents| > |text| then contents + text else contents
  }

  class FixedBuffer {
    const data: array<char>
    var cur: nat  // the first free position

    ghost predicate Valid()
      reads this
    {
      cur <= data.Length
    }

    ghost function Contents(): string
      requires Valid()
      reads this, data
    {
      data[..cur]
    }

    function Avail(): int
      reads this
    {
      data.Length - cur
    }

    constructor (size: nat)
      ensures Valid() && fresh(data) && data.Length == size && Contents() == ""
    {
      data := new char[size];
      cur := 0;
    }

    method Append(text: string)
      requires Valid()
      modifies this`cur, data
      ensures Valid() && Contents() == Appended(data.Length, old(Contents()), text)
    {
      if Avail() > |text| {
        forall i | 0 <= i < |text| {
          data[cur + i] := text[i];
        }
        cur := cur + |text|;
      }
    }

    method Add(len: nat)
      requires Valid() && cur + len <= data.Length
      modifies this`cur
      ensures Valid() && Contents() == data[..old(cur) + len]
    {
      cur := cur + len;
    }

    method Reset()
      requires Valid()
      modifies this`cur
      ensures Valid() && Contents() == ""
    {
      cur := 0;
    }

    /** `LogStream::operator<<` on integers: a whole number, or nothing. */
    method FormatInteger(value: int)
      requires Valid() && INT64_MIN <= value <= UINT64_MAX
      modifies this`cur, data
      ensures Valid()
      ensures Contents() == if old(Avail()) >= MAX_NUMERIC_SIZE then old(Contents()) + Decimal(value)
                            else old(Contents())
    {
      if Avail() >= MAX_NUMERIC_SIZE {
        var len := Convert(data, cur, value);
        Add(len);
        assert data[..cur] == data[..old(cur)] + data[old(cur)..cur];
      }
    }

    /** `LogStream::operator<<` on pointers. */
    method FormatPointer(value: nat)
      requires Valid() && value <= UINT64_MAX
      modifies this`cur, data
      ensures Valid()
      ensures Contents() == if old(Avail()) >= MAX_NUMERIC_SIZE
                            then old(Contents()) + "0x" + Hexadecimal(value)
                            else old(Contents())
    {
      if Avail() >= MAX_NUMERIC_SIZE {
        data[cur] := '0';
        data[cur + 1] := 'x';
        var len := ConvertHex(data, cur + 2, value);
        Add(len + 2);
        assert data[..cur] == data[..old(cur)] + "0x" + data[old(cur) + 2..cur];
      }
    }
  }

  // ------------------------------------------------------------ the printers

  const MIRRORED_DIGITS := "9876543210123456789"

  /** `zero[lsd]`: the digit of a remainder, whatever its sign. */
  function MirroredDigit(lsd: int): char
    requires -9 <= lsd <= 9
  {
    MIRRORED_DIGITS[9 + lsd]
  }

  function Abs(x: int): nat {
    if x < 0 then -x else x
  }

  function Reversed(s: string): string {
    if s == "" then "" else Reversed(s[1..]) + [s[0]]
  }

  lemma MirroredDigitIsDigit(lsd: int)
    requires -9 <= lsd <= 9
    ensures MirroredDigit(lsd) == DIGITS[Abs(lsd)]
  {
    assert lsd in [-9, -8, -7, -6, -5, -4, -3, -2, -1, 0, 1, 2, 3, 4, 5, 6, 7, 8, 9];
  }

  /** Truncating division and remainder strip the last digit of either sign. */
  lemma StripDigit(i: int)
    ensures Abs(Div(i, 10)) == Abs(i) / 10 && Abs(Mod(i, 10)) == Abs(i) % 10
    ensures -9 <= Mod(i, 10) <= 9
  {
  }

  lemma {:induction false} ReversedAt(s: string, k: nat)
    requires k < |s|
    ensures |Reversed(s)| == |s| && Reversed(s)[k] == s[|s| - 1 - k]
  {
    if |s| == 1 {
      assert Reversed(s[1..]) == "";
    } else {
      ReversedAt(s[1..], if k < |s| - 1 then k else 0);
    }
  }

  lemma {:induction false} ReversedLength(s: string)
    ensures |Reversed(s)| == |s|
  {
    if s != "" {
      ReversedLength(s[1..]);
    }
  }

  lemma {:induction false} ReversedAppend(s: string, c: char)
    ensures Reversed(s + [c]) == [c] + Reversed(s)
  {
    if s == "" {
      assert s + [c] == [c];
      assert Reversed([c][1..]) == "";
    } else {
      assert (s + [c])[1..] == s[1..] + [c];
      ReversedAppend(s[1..], c);
    }
  }

  /** `std::reverse` on `buf[lo..hi]`. */
  method Reverse(buf: array<char>, lo: nat, hi: nat)
    requires lo <= hi <= buf.Length
    modifies buf
    ensures buf[lo..hi] == Reversed(old(buf[lo..hi]))
    ensures forall k | 0 <= k < buf.Length && !(lo <= k < hi) :: buf[k] == old(buf[k])
  {
    ghost var was := buf[lo..hi];
    Mirror(buf, lo, hi);
    forall k | 0 <= k < |was|
      ensures buf[lo..hi][k] == was[|was| - 1 - k]
    {
      assert buf[lo + k] == old(buf[lo + hi - 1 - (lo + k)]);
    }
    ReversedIs(was, buf[lo..hi]);
  }

  method Mirror(buf: array<char>, lo: nat, hi: nat)
    requires lo <= hi <= buf.Length
    modifies buf
    ensures forall k | lo <= k < hi :: buf[k] == old(buf[lo + hi - 1 - k])
    ensures forall k | 0 <= k < buf.Length && !(lo <= k < hi) :: buf[k] == old(buf[k])
  {
    var i, j := lo, hi;
    while i < j
      invariant lo <= i <= hi && i <= j + 1 && lo + hi == i + j
      invariant forall k | lo <= k < i || j <= k < hi :: buf[k] == old(buf[lo + hi - 1 - k])
      invariant forall k | i <= k < j :: buf[k] == old(buf[k])
      invariant forall k | 0 <= k < buf.Length && !(lo <= k < hi) :: buf[k] == old(buf[k])
    {
      buf[i], buf[j - 1] := buf[j - 1], buf[i];
      i, j := i + 1, j - 1;
    }
  }

  lemma ReversedIs(s: string, t: string)
    requires |t| == |s| && forall k | 0 <= k < |s| :: t[k] == s[|s| - 1 - k]
    ensures t == Reversed(s)
  {
    ReversedLength(s);
    forall k | 0 <= k < |s|
      ensures t[k] == Reversed(s)[k]
    {
      ReversedAt(s, k);
    }
  }

  /** The digits still to be written: `i` holds them until the loop ends. */
  function Rest(more: bool, i: nat, base: nat): string
    requires IsBase(base)
  {
    if more then DigitsOf(i, base) else ""
  }

  lemma RestStep(i: nat, base: nat, out: string)
    requires IsBase(base)
    ensures Rest(true, i, base) + out
            == Rest(i / base != 0, i / base, base) + ([DIGITS[i % base]] + out)
  {
    if i < base {
      assert i / base == 0 && i % base == i;
    }
    assert Rest(true, i, base) == Rest(i / base != 0, i / base, base) + [DIGITS[i % base]];
  }

  /** Writing one more character puts it in front of the text read backwards. */
  lemma ReversedWrite(before: string, after: string, c: char)
    requires after == before + [c]
    ensures Reversed(after) == [c] + Reversed(before)
  {
    ReversedAppend(before, c);
  }

  /** The `do` loop of `convert`: writes the digits of `value`, least significant first. The magnitude
      is never computed, so the minimum value needs no special case. */
  method WriteDigits(buf: array<char>, start: nat, value: int) returns (p: nat)
    requires start + |DigitsOf(Abs(value), 10)| <= buf.Length
    modifies buf
    ensures p == start + |DigitsOf(Abs(value), 10)|
    ensures Reversed(buf[start..p]) == DigitsOf(Abs(value), 10)
    ensures forall k | 0 <= k < buf.Length && !(start <= k < p) :: buf[k] == old(buf[k])
  {
    var i, more := value, true;
    p := start;
    ghost var out := "";
    while more
      invariant DigitsOf(Abs(value), 10) == Rest(more, Abs(i), 10) + out
      invariant start <= p && |out| == p - start
      invariant out == Reversed(buf[start..p])
      invariant forall k | 0 <= k < buf.Length && !(start <= k < p) :: buf[k] == old(buf[k])
      decreases more, Abs(i)
    {
      StripDigit(i);
      RestStep(Abs(i), 10, out);
      var lsd := Mod(i, 10);
      MirroredDigitIsDigit(lsd);
      ghost var before := buf[start..p];
      i := Div(i, 10);
      buf[p] := MirroredDigit(lsd);
      ReversedWrite(before, buf[start..p + 1], buf[p]);
      out := [buf[p]] + out;
      p := p + 1;
      more := i != 0;
    }
  }

  /** Writes `value` in decimal and a terminator. */
  method Convert(buf: array<char>, start: nat, value: int) returns (len: nat)
    requires INT64_MIN <= value <= UINT64_MAX
    requires start + MAX_NUMERIC_SIZE <= buf.Length
    modifies buf
    ensures len <= 20 && buf[start..start + len] == Decimal(value)
    ensures buf[start + len] == '\0'
    ensures forall k | 0 <= k < buf.Length && !(start <= k <= start + len) :: buf[k] == old(buf[k])
  {
    DecimalParts(value);
    var p := WriteDigits(buf, start, value);
    if value < 0 {
      PutSign(buf, start, p);
      p := p + 1;
    }
    Finish(buf, start, p);
    len := p - start;
  }

  lemma DecimalParts(value: int)
    requires INT64_MIN <= value <= UINT64_MAX
    ensures Decimal(value) == (if value < 0 then ['-'] else []) + DigitsOf(Abs(value), 10)
    ensures |Decimal(value)| <= 20
  {
    DecimalLength(value);
    assert value >= 0 ==> [] + DigitsOf(value, 10) == DigitsOf(value, 10);
  }

  method PutSign(buf: array<char>, start: nat, p: nat)
    requires start <= p < buf.Length
    modifies buf
    ensures Reversed(buf[start..p + 1]) == ['-'] + Reversed(old(buf[start..p]))
    ensures forall k | 0 <= k < buf.Length && k != p :: buf[k] == old(buf[k])
  {
    ghost var before := buf[start..p];
    buf[p] := '-';
    ReversedWrite(before, buf[start..p + 1], '-');
  }

  /** Terminates the text and turns it round. */
  method Finish(buf: array<char>, start: nat, p: nat)
    requires start <= p < buf.Length
    modifies buf
    ensures p - start == |Reversed(old(buf[start..p]))|
    ensures buf[start..p] == Reversed(old(buf[start..p])) && buf[p] == '\0'
    ensures forall k | 0 <= k < buf.Length && !(start <= k <= p) :: buf[k] == old(buf[k])
  {
    ghost var text := buf[start..p];
    ReversedLength(text);
    buf[p] := '\0';
    assert buf[start..p] == text;
    Reverse(buf, start, p);
  }

  /** Writes an address in hexadecimal, likewise. */
  method ConvertHex(buf: array<char>, start: nat, value: nat) returns (len: nat)
    requires value <= UINT64_MAX
    requires start + 17 <= buf.Length
    modifies buf
    ensures len <= 16 && buf[start..start + len] == Hexadecimal(value)
    ensures buf[start + len] == '\0'
    ensures forall k | 0 <= k < buf.Length && !(start <= k <= start + len) :: buf[k] == old(buf[k])
  {
    HexadecimalLength(value);
    var i, p, more := value, start, true;
    ghost var out := "";
    while more
      invariant Hexadecimal(value) == Rest(more, i, 16) + out
      invariant start <= p && |out| == p - start
      invariant out == Reversed(buf[start..p])
      invariant forall k | 0 <= k < buf.Length && !(start <= k < p) :: buf[k] == old(buf[k])
      decreases more, i
    {
      RestStep(i, 16, out);
      var lsd := i % 16;
      ghost var before := buf[start..p];
      i := i / 16;
      buf[p] := DIGITS[lsd];
      ReversedWrite(before, buf[start..p + 1], buf[p]);
      out := [buf[p]] + out;
      p := p + 1;
      more := i != 0;
    }
    Finish(buf, start, p);
    len := p - start;
  }
}
