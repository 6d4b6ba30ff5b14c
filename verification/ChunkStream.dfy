/** ChunkStream: the zero-copy output stream that protobuf writes a message to, over a ChunkList. */
module ChunkStreams {
  import opened Bytes
  import opened ChunkLists

  class ChunkStream {
    const chunkList: ChunkList

    constructor ()
      ensures fresh(chunkList) && chunkList.Valid() && chunkList.Contents() == []
      ensures chunkList.buffers == [] && chunkList.free == []
    {
      chunkList := new ChunkList();
    }

    /** A last chunk that can take something. */
    method EnsureRoom()
      requires chunkList.Valid()
      modifies chunkList
      ensures chunkList.Valid() && chunkList.buffers != [] && chunkList.Room() > 0
      ensures chunkList.free == old(chunkList.free)
      ensures chunkList.Contents() == old(chunkList.Contents())
      ensures old(chunkList.buffers) != [] ==> chunkList.FirstRead() == old(chunkList.FirstRead())
      ensures forall i :: 0 <= i < |chunkList.buffers| ==>
                chunkList.buffers[i] in old(chunkList.buffers) || fresh(chunkList.buffers[i])
    {
      if chunkList.buffers == [] || chunkList.buffers[|chunkList.buffers| - 1].WritableSize() == 0 {
        chunkList.ReserveChunk(1);
        chunkList.ReserveKeepsPacked(old(chunkList.buffers), 0);
      }
    }

    /** Hand out the rest of the last chunk, taken as written until BackUp says otherwise. */
    method Next() returns (chunk: Chunk, offset: nat, size: nat)
      requires chunkList.Valid()
      modifies chunkList, chunkList.buffers
      ensures chunkList.Valid() && chunkList.buffers != []
      ensures chunk == chunkList.buffers[|chunkList.buffers| - 1] && chunk.Valid()
      ensures chunk.readIndex <= offset && offset + size == chunk.writeIndex == CHUNK_SIZE && size > 0
      ensures chunkList.Contents() == old(chunkList.Contents()) + chunk.buf[offset..]
      ensures old(chunkList.buffers) != [] ==> chunkList.FirstRead() == old(chunkList.FirstRead())
      ensures forall i :: 0 <= i < |chunkList.buffers| ==>
                chunkList.buffers[i] in old(chunkList.buffers) || fresh(chunkList.buffers[i])
      ensures chunkList.free == old(chunkList.free)
    {
      EnsureRoom();
      chunk := chunkList.buffers[|chunkList.buffers| - 1];
      assert chunk.Valid();
      offset := chunk.writeIndex;
      size := chunk.WritableSize();
      chunkList.AdvanceLast(size);
    }

    /** The last `count` bytes handed out were not used after all. */
    method BackUp(count: nat)
      requires chunkList.Valid() && chunkList.buffers != []
      requires count <= chunkList.buffers[|chunkList.buffers| - 1].ReadableSize()
      modifies chunkList.buffers[|chunkList.buffers| - 1]
      ensures chunkList.FirstRead() == old(chunkList.FirstRead())
      ensures chunkList.Valid() && count <= |old(chunkList.Contents())|
      ensures chunkList.Contents() == old(chunkList.Contents())[..|old(chunkList.Contents())| - count]
    {
      chunkList.RetractLast(count);
    }

    /** A serializer's write: ask for a region, store what fits, give the rest back. */
    method Write(data: seq<byte>) returns (stored: nat)
      requires chunkList.Valid() && data != []
      modifies chunkList, chunkList.buffers
      ensures chunkList.Valid() && 0 < stored <= |data| && chunkList.buffers != []
      ensures chunkList.Contents() == old(chunkList.Contents()) + data[..stored]
      ensures old(chunkList.buffers) != [] ==> chunkList.FirstRead() == old(chunkList.FirstRead())
      ensures forall i :: 0 <= i < |chunkList.buffers| ==>
                chunkList.buffers[i] in old(chunkList.buffers) || fresh(chunkList.buffers[i])
      ensures chunkList.free == old(chunkList.free)
    {
      ghost var contents := chunkList.Contents();
      var chunk, offset, size := Next();
      stored := if |data| <= size then |data| else size;
      chunkList.Deposit(offset, data[..stored], contents);
      if stored < size {
        BackUp(size - stored);
      }
      assert chunkList.Contents() == contents + data[..stored];
    }

    /** SerializePartialToZeroCopyStream, with the message already reduced to its bytes. */
    method Serialize(payload: seq<byte>)
      requires chunkList.Valid() && chunkList.buffers != []
      modifies chunkList, chunkList.buffers
      ensures chunkList.Valid() && chunkList.Contents() == old(chunkList.Contents()) + payload
      ensures chunkList.buffers != [] && chunkList.FirstRead() == old(chunkList.FirstRead())
      ensures forall i :: 0 <= i < |chunkList.buffers| ==>
                chunkList.buffers[i] in old(chunkList.buffers) || fresh(chunkList.buffers[i])
      ensures chunkList.free == old(chunkList.free)
    {
      var n := 0;
      ghost var contents := chunkList.Contents();
      assert contents + payload[..0] == contents;
      while n < |payload|
        invariant 0 <= n <= |payload| && chunkList.Valid() && chunkList.Contents() == contents + payload[..n]
        invariant chunkList.buffers != [] && chunkList.FirstRead() == old(chunkList.FirstRead())
        invariant forall i :: 0 <= i < |chunkList.buffers| ==>
                    chunkList.buffers[i] in old(chunkList.buffers) || fresh(chunkList.buffers[i])
        invariant chunkList.free == old(chunkList.free)
      {
        var stored := Write(payload[n..]);
        Extend(contents, payload, n, stored);
        n := n + stored;
      }
      assert payload[..n] == payload;
    }

    method ByteCount() returns (count: nat)
      requires chunkList.Valid()
      ensures count == |chunkList.Contents()|
    {
      count := chunkList.GetReadableSize();
      chunkList.ReadableSizeExact();
    }
  }
}
