/** Buffer: one growing array split into a prepend, a readable and a writable region. */
module Buffers {
  import opened Bytes
  import opened Sequences

  const PREFIX := 8
  const INIT_SIZE := 1024
  const EXTRA := 65536
  const SIZE_T := 0x1_0000_0000_0000_0000

  /** GetPrependableSize() - BUFFER_PREFIX_SIZE + GetWritableSize(), in unsigned 64-bit arithmetic. */
  function Spare(prependable: nat, writable: nat): (r: nat)
    ensures r < SIZE_T
  {
    (prependable - PREFIX + writable) % SIZE_T
  }

  /** The test that chooses between growing and compacting is the intended one exactly when the free space
      covers the prefix; below that the subtraction wraps and the buffer is never grown. */
  lemma SpareExact(prependable: nat, writable: nat, len: nat)
    requires prependable + writable < SIZE_T && len < SIZE_T - PREFIX
    ensures (len > Spare(prependable, writable) <==> len > prependable - PREFIX + writable)
       <==> prependable + writable >= PREFIX
  {
    if prependable + writable >= PREFIX {
      assert Spare(prependable, writable) == prependable - PREFIX + writable;
    } else {
      assert Spare(prependable, writable) == SIZE_T + prependable - PREFIX + writable;
    }
  }

  /** Storage that starts with what it held before has the same slices there. */
  lemma SameSlice(s: seq<byte>, was: seq<byte>, i: nat, j: nat)
    requires i <= j <= |was| <= |s| && s[..|was|] == was
    ensures s[i..j] == was[i..j]
  {
    forall k | i <= k < j
      ensures s[k] == was[k]
    {
      assert s[..|was|][k] == s[k];
    }
  }

  class Buffer {
    var data: array<byte>
    var readIndex: nat
    var writeIndex: nat

    ghost predicate Valid()
      reads this
    {
      readIndex <= writeIndex <= data.Length && PREFIX <= data.Length < SIZE_T - PREFIX
    }

    ghost function Contents(): (c: seq<byte>)
      requires Valid()
      reads this, data
      ensures |c| == writeIndex - readIndex
    {
      data[readIndex..writeIndex]
    }

    constructor (initSize: nat)
      requires initSize + PREFIX < SIZE_T - PREFIX
      ensures Valid() && fresh(data) && data.Length == PREFIX + initSize && Contents() == [] && readIndex == PREFIX
    {
      data := new byte[PREFIX + initSize](_ => 0);
      readIndex, writeIndex := PREFIX, PREFIX;
    }

    function ReadableSize(): nat
      requires Valid()
      reads this
    {
      writeIndex - readIndex
    }

    function WritableSize(): nat
      requires Valid()
      reads this
    {
      data.Length - writeIndex
    }

    /** Enlarge the storage; what it held stays, what is new is unspecified (here zero). */
    method Grow(n: nat)
      requires Valid() && n < SIZE_T - PREFIX
      modifies this`data
      ensures Valid() && data.Length == if n <= old(data.Length) then old(data.Length) else n
      ensures n <= old(data.Length) ==> data == old(data)
      ensures n > old(data.Length) ==> fresh(data)
      ensures data[..old(data.Length)] == old(data[..])
    {
      if n <= data.Length {
        return;
      }
      var grown := new byte[n](_ => 0);
      for i := 0 to data.Length
        invariant grown[..i] == data[..i]
        modifies grown
      {
        grown[i] := data[i];
      }
      data := grown;
    }

    /** Slide the readable region down to the prefix, byte by byte from its front. */
    method Compact()
      requires Valid() && PREFIX < readIndex
      modifies this`readIndex, this`writeIndex, data
      ensures Valid() && Contents() == old(Contents()) && readIndex == PREFIX
    {
      var readable := writeIndex - readIndex;
      ghost var was, shift := data[..], readIndex - PREFIX;
      for i := 0 to readable
        invariant forall k :: PREFIX <= k < PREFIX + i ==> data[k] == was[k + shift]
        invariant forall k :: readIndex + i <= k < writeIndex ==> data[k] == was[k]
        modifies data
      {
        data[PREFIX + i] := data[readIndex + i];
      }
      readIndex := PREFIX;
      writeIndex := PREFIX + readable;
      assert data[readIndex..writeIndex] == was[readIndex + shift..writeIndex + shift] == old(Contents());
    }

    /** The request fits as it is, or the free space covers the prefix: see SpareExact. */
    ghost predicate Reservable(len: nat)
      requires Valid()
      reads this
    {
      len <= WritableSize() || readIndex + WritableSize() >= PREFIX
    }

    /** False, with nothing changed, stands for the compaction whose copy would end past the storage. */
    method ReserveWriteSpace(len: nat) returns (within: bool)
      requires Valid() && writeIndex + len < SIZE_T - PREFIX
      modifies this, data
      ensures Valid() && Contents() == old(Contents())
      ensures within <==> old(Reservable(len))
      ensures if within then WritableSize() >= len else unchanged(this) && data[..] == old(data[..])
      ensures data == old(data) || fresh(data)
      ensures readIndex == old(readIndex) || readIndex == PREFIX <= old(readIndex)
    {
      if len <= WritableSize() {
        return true;
      }
      SpareExact(readIndex, WritableSize(), len);
      if len > Spare(readIndex, WritableSize()) {
        ghost var was := data[..];
        Grow(writeIndex + len);
        SameSlice(data[..], was, readIndex, writeIndex);
        return true;
      }
      if PREFIX + ReadableSize() > data.Length {
        return false;
      }
      Compact();
      return true;
    }

    /** std::copy of a view to an offset of the storage. */
    method CopyIn(at: nat, str: seq<byte>)
      requires at + |str| <= data.Length
      modifies data
      ensures data[..at] == old(data[..at]) && data[at..at + |str|] == str
      ensures data[at + |str|..] == old(data[at + |str|..])
    {
      for i := 0 to |str|
        invariant forall k :: 0 <= k < data.Length && !(at <= k < at + i) ==> data[k] == old(data[k])
        invariant forall k :: 0 <= k < i ==> data[at + k] == str[k]
      {
        data[at + i] := str[i];
      }
    }

    method AdvanceWrite(n: nat)
      requires Valid() && n <= WritableSize()
      modifies this`writeIndex
      ensures Valid() && Contents() == old(Contents()) + data[old(writeIndex)..old(writeIndex) + n]
    {
      writeIndex := writeIndex + n;
      assert data[readIndex..writeIndex] == data[readIndex..old(writeIndex)] + data[old(writeIndex)..writeIndex];
    }

    /** Copy bytes that fit to the write index and take them over. */
    method Place(bytes: seq<byte>)
      requires Valid() && |bytes| <= WritableSize()
      modifies this`writeIndex, data
      ensures Valid() && Contents() == old(Contents()) + bytes && writeIndex == old(writeIndex) + |bytes|
    {
      ghost var before := data[..writeIndex];
      CopyIn(writeIndex, bytes);
      assert data[readIndex..writeIndex] == before[readIndex..writeIndex];
      AdvanceWrite(|bytes|);
    }

    method Append(str: seq<byte>) returns (within: bool)
      requires Valid() && writeIndex + |str| < SIZE_T - PREFIX
      modifies this, data
      ensures Valid() && (within <==> old(Reservable(|str|)))
      ensures Contents() == if within then old(Contents()) + str else old(Contents())
      ensures data == old(data) || fresh(data)
      ensures readIndex == old(readIndex) || readIndex == PREFIX <= old(readIndex)
    {
      within := ReserveWriteSpace(|str|);
      if within {
        Place(str);
      }
    }

    method Prepend(str: seq<byte>)
      requires Valid() && readIndex >= PREFIX && |str| <= readIndex
      modifies this`readIndex, data
      ensures Valid() && Contents() == str + old(Contents()) && readIndex == old(readIndex) - |str|
    {
      ghost var r, contents := readIndex, Contents();
      readIndex := readIndex - |str|;
      CopyIn(readIndex, str);
      assert data[r..writeIndex] == data[r..][..writeIndex - r] == contents;
      assert data[readIndex..writeIndex] == data[readIndex..r] + data[r..writeIndex];
    }

    /** Drop n readable bytes; an emptied buffer goes back to its initial indices. */
    method AdvanceRead(n: nat)
      requires Valid() && n <= ReadableSize()
      modifies this`readIndex, this`writeIndex
      ensures Valid() && Contents() == old(Contents())[n..]
      ensures readIndex >= old(readIndex) || readIndex == PREFIX
    {
      if n == ReadableSize() {
        readIndex, writeIndex := PREFIX, PREFIX;
      } else {
        readIndex := readIndex + n;
      }
    }

    method Prepend32(n: u32)
      requires Valid() && readIndex >= PREFIX
      modifies this`readIndex, data
      ensures Valid() && Contents() == EncodeBE32(n) + old(Contents()) && readIndex == old(readIndex) - 4
    {
      Prepend(EncodeBE32(n));
    }

    /** The bytes at an offset from the first readable one. */
    method Peek(at: nat, len: nat) returns (bytes: seq<byte>)
      requires Valid() && at + len <= ReadableSize()
      ensures bytes == Contents()[at..at + len]
    {
      bytes := data[readIndex + at..readIndex + at + len];
      var contents := data[readIndex..writeIndex];
      assert forall i :: 0 <= i < len ==> contents[at..at + len][i] == contents[at + i] == bytes[i];
    }

    method GetReadBegin32() returns (n: u32)
      requires Valid() && ReadableSize() >= 4
      ensures n == DecodeBE32(Contents()[..4])
    {
      var bytes := data[readIndex..readIndex + 4];
      assert bytes == Contents()[..4];
      n := DecodeBE32(bytes);
    }

    method Read32() returns (n: u32)
      requires Valid() && ReadableSize() >= 4
      modifies this`readIndex, this`writeIndex
      ensures Valid() && n == DecodeBE32(old(Contents())[..4]) && Contents() == old(Contents())[4..]
    {
      n := GetReadBegin32();
      AdvanceRead(4);
    }

    /** Prepending a value and reading it back returns it and restores the content. */
    method PrependThenRead32(n: u32) returns (m: u32)
      requires Valid() && readIndex >= PREFIX
      modifies this, data
      ensures Valid() && m == n && Contents() == old(Contents())
    {
      Prepend32(n);
      DecodeEncodeBE32(n);
      assert Contents()[..4] == EncodeBE32(n);
      m := Read32();
    }

    /** One scatter read: the bytes received fill the writable region and overflow into a 64k side buffer, which
        is appended; None stands for a failed readv. */
    method ReadFromFd(received: Option<seq<byte>>) returns (within: bool)
      requires Valid()
      requires received.Some? ==>
                 && |received.value| <= WritableSize() + (if WritableSize() < EXTRA then EXTRA else 0)
                 && writeIndex + |received.value| < SIZE_T - PREFIX
      modifies this, data
      ensures Valid()
      ensures within <==> received.None? || |received.value| <= old(WritableSize()) || old(readIndex) >= PREFIX
      ensures within ==> Contents() == old(Contents()) + (if received.Some? then received.value else [])
      ensures !within ==> Contents() == old(Contents()) + received.value[..old(WritableSize())]
      ensures data == old(data) || fresh(data)
      ensures old(readIndex) >= PREFIX ==> readIndex >= PREFIX
    {
      if received.None? {
        return true;
      }
      var bytes, writable := received.value, WritableSize();
      if |bytes| <= writable {
        Place(bytes);
        return true;
      }
      ghost var contents := Contents();
      Place(bytes[..writable]);
      assert writeIndex == data.Length;  // SetWriteIndex(GetCapacity())
      Assoc(contents, bytes[..writable], bytes[writable..]);
      assert bytes[..writable] + bytes[writable..] == bytes;
      within := Append(bytes[writable..]);
    }
  }

  /** A size prepended to a full buffer leaves less free space than the prefix: one more byte cannot be appended. */
  method PrependedWhenFull() returns (within: bool)
    ensures !within
  {
    var buffer := new Buffer(0);
    buffer.Prepend32(4);
    within := buffer.Append([0]);
  }
}
