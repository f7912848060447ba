/** The byte buffer of buffer.c: a window of an array that is compacted or grown on demand. */
module Buffers {
  import opened Text

  const INIT_BUFFER_SIZE := 65536

  /** What readv delivers: bytes, none of them at the end of the stream, or an error. */
  datatype Arrival = Arrived(bytes: string) | ReadError

  /** Contents() is the queue of bytes that are still to be read. */
  class Buffer {
    var data: array<char>
    var readIndex: nat
    var writeIndex: nat

    ghost predicate Valid()
      reads this
    {
      readIndex <= writeIndex <= data.Length
    }

    ghost function Contents(): (s: string)
      reads this, data
      requires Valid()
    {
      data[readIndex..writeIndex]
    }

    function WriteableSize(): (n: nat)
      reads this
      requires Valid()
    {
      data.Length - writeIndex
    }

    function ReadableSize(): (n: nat)
      reads this, data
      requires Valid()
      ensures n == |Contents()|
    {
      writeIndex - readIndex
    }

    function FrontSpareSize(): nat
      reads this
    {
      readIndex
    }

    constructor ()
      ensures Valid() && fresh(data) && data.Length == INIT_BUFFER_SIZE && Contents() == ""
    {
      data := new char[INIT_BUFFER_SIZE];
      readIndex, writeIndex := 0, 0;
    }

    /** Room for `size` more bytes: as it is, by moving the contents to the front, or in a longer array. */
    method ExpandSpace(size: nat)
      requires Valid()
      modifies this, data
      ensures Valid() && (data == old(data) || fresh(data))
      ensures Contents() == old(Contents()) && WriteableSize() >= size
    {
      if WriteableSize() >= size {
        return;
      }
      if FrontSpareSize() + WriteableSize() >= size {
        Compact();
      } else {
        Grow(size);
      }
    }

    /** The forward copy of the contents onto themselves, one byte at a time. */
    method Compact()
      requires Valid()
      modifies this`readIndex, this`writeIndex, data
      ensures Valid() && Contents() == old(Contents())
      ensures readIndex == 0 && writeIndex == old(writeIndex - readIndex)
    {
      var readable := ReadableSize();
      for i := 0 to readable
        modifies data
        invariant forall k :: 0 <= k < i ==> data[k] == old(data[readIndex + k])
        invariant forall k :: readIndex + i <= k < writeIndex ==> data[k] == old(data[k])
      {
        data[i] := data[readIndex + i];
      }
      readIndex, writeIndex := 0, readable;
      assert forall k :: 0 <= k < readable ==> data[k] == old(Contents())[k];
    }

    /** realloc: the same bytes in an array that is `size` longer. */
    method Grow(size: nat)
      requires Valid()
      modifies this`data
      ensures Valid() && fresh(data) && data.Length == old(data.Length) + size
      ensures Contents() == old(Contents())
    {
      var longer := new char[data.Length + size];
      for i := 0 to data.Length
        modifies longer
        invariant forall k :: 0 <= k < i ==> longer[k] == data[k]
      {
        longer[i] := data[i];
      }
      data := longer;
    }

    method Append(s: string)
      requires Valid()
      modifies this, data
      ensures Valid() && (data == old(data) || fresh(data))
      ensures Contents() == old(Contents()) + s
    {
      ExpandSpace(|s|);
      Store(s);
    }

    /** memcpy behind the contents, which it leaves alone. */
    method Store(s: string)
      requires Valid() && |s| <= WriteableSize()
      modifies this`writeIndex, data
      ensures Valid() && writeIndex == old(writeIndex) + |s|
      ensures Contents() == old(Contents()) + s
    {
      for i := 0 to |s|
        modifies data
        invariant data[readIndex..writeIndex] == old(Contents())
        invariant data[writeIndex..writeIndex + i] == s[..i]
      {
        data[writeIndex + i] := s[i];
      }
      writeIndex := writeIndex + |s|;
    }

    /** A scatter read: the free tail first, then a scratch array whose bytes are appended. */
    method SocketRead(arrival: Arrival) returns (result: int)
      requires Valid()
      requires arrival.Arrived? ==> |arrival.bytes| <= WriteableSize() + INIT_BUFFER_SIZE
      modifies this, data
      ensures Valid() && (data == old(data) || fresh(data))
      ensures match arrival
              case ReadError => result == -1 && Contents() == old(Contents())
              case Arrived(bytes) => result == |bytes| && Contents() == old(Contents()) + bytes
    {
      if arrival.ReadError? {
        return -1;
      }
      var bytes := arrival.bytes;
      var maxWritable := WriteableSize();
      result := |bytes|;
      if result <= maxWritable {
        Store(bytes);
      } else {
        Store(bytes[..maxWritable]);
        assert writeIndex == data.Length;
        Append(bytes[maxWritable..]);
        assert bytes == bytes[..maxWritable] + bytes[maxWritable..];
      }
    }

    /** Where the first CRLF starts in the contents, or -1. */
    method FindCrlf() returns (i: int)
      requires Valid()
      ensures i >= 0 ==> At(Contents(), CRLF, i)
      ensures forall j :: At(Contents(), CRLF, j) ==> 0 <= i <= j
      ensures i == IndexOf(Contents(), CRLF)
    {
      i := IndexOf(data[readIndex..writeIndex], CRLF);
    }

    method Peek(n: nat) returns (s: string)
      requires Valid() && n <= ReadableSize()
      ensures s == Contents()[..n]
    {
      s := data[readIndex..readIndex + n];
    }

    method Consume(n: nat)
      requires Valid() && n <= ReadableSize()
      modifies this`readIndex
      ensures Valid() && Contents() == old(Contents())[n..]
    {
      readIndex := readIndex + n;
    }
  }
}
