/** GenericPbCodec: messages in frames, checked by XXH32.

    The sender hashes the chunks of its output list one by one; the receiver hashes contiguous bytes at once. */
module PbCodec {
  import opened Bytes
  import opened Sequences
  import opened Framing
  import opened ChunkLists
  import opened ChunkStreams
  import opened Buffers
  import Xxh32

  function Value(h: Xxh32.word): (n: u32)
    ensures n as Xxh32.word == h
  {
    h as int
  }

  /** The checksum of a tag and its payload. */
  function CheckSum(bytes: seq<byte>): u32
  {
    Value(Xxh32.Hash(bytes, 0))
  }

  /** The checksum of contiguous bytes. */
  method GetCheckSum(bytes: seq<byte>) returns (sum: u32)
    ensures sum == CheckSum(bytes)
  {
    var h := Xxh32.OneShot(bytes, 0);
    sum := Value(h);
  }

  /** What remains to be fed would complete the digest of all the pieces. */
  ghost predicate Fedness(state: Xxh32.State, views: seq<seq<byte>>, i: nat)
    requires state.Valid() && i <= |views|
    reads state, state.mem
  {
    Xxh32.FedAll(state.View(), views[i..]) == Xxh32.FedAll(Xxh32.After([], 0), views)
  }

  /** The loop of HashChunks before the i-th chunk. */
  ghost predicate Hashing(list: ChunkList, state: Xxh32.State, views: seq<seq<byte>>, i: nat)
    reads list, list.buffers, list.free, state, state.mem
  {
    && list.Valid() && Views(list.buffers, list.base) == views
    && state.Valid() && i <= |views| && Fedness(state, views, i)
  }

  /** One update, by the i-th of the pieces. */
  method UpdateWith(state: Xxh32.State, chunk: Chunk, ghost views: seq<seq<byte>>, ghost i: nat)
    requires state.Valid() && chunk.Valid() && i < |views| && chunk.View() == views[i] && Fedness(state, views, i)
    modifies state, state.mem
    ensures state.Valid()
    ensures Fedness(state, views, i + 1)
  {
    assert views[i..][1..] == views[i + 1..];
    state.Update(chunk.buf[chunk.readIndex..chunk.writeIndex]);
  }

  method HashChunk(list: ChunkList, state: Xxh32.State, ghost views: seq<seq<byte>>, i: nat)
    requires Hashing(list, state, views, i) && i < |list.buffers| - 1
    modifies list.buffers[i], state, state.mem
    ensures Hashing(list, state, views, i + 1) && list.FirstRead() == old(list.FirstRead())
  {
    list.AdvanceWriteAll(i);
    assert list.buffers[i].View() == views[i];
    UpdateWith(state, list.buffers[i], views, i);
  }

  /** The last update and the digest. */
  method UpdateLast(state: Xxh32.State, chunk: Chunk, ghost views: seq<seq<byte>>) returns (sum: u32)
    requires state.Valid() && chunk.Valid() && views != [] && chunk.View() == views[|views| - 1]
    requires Fedness(state, views, |views| - 1)
    modifies state, state.mem
    ensures sum == CheckSum(Flatten(views))
  {
    UpdateWith(state, chunk, views, |views| - 1);
    Xxh32.StreamingIsOneShot(views, 0);
    var h := state.Digest();
    sum := Value(h);
  }

  /** All chunks but the last in a loop, and the last. */
  method HashViews(list: ChunkList, state: Xxh32.State, ghost views: seq<seq<byte>>) returns (sum: u32)
    requires list.buffers != [] && Hashing(list, state, views, 0)
    modifies list.buffers, state, state.mem
    ensures list.Valid() && Views(list.buffers, list.base) == views && list.FirstRead() == old(list.FirstRead())
    ensures sum == CheckSum(Flatten(views))
  {
    var last := |list.buffers| - 1;
    for i := 0 to last
      invariant Hashing(list, state, views, i) && list.FirstRead() == old(list.FirstRead())
    {
      HashChunk(list, state, views, i);
    }
    sum := UpdateLast(state, list.buffers[last], views);
  }

  method CreateState(ghost views: seq<seq<byte>>) returns (state: Xxh32.State)
    ensures fresh(state) && fresh(state.mem) && state.Valid() && Fedness(state, views, 0)
  {
    state := new Xxh32.State(0);
    assert views[0..] == views;
  }

  /** The checksum of a chunk list, one update for each chunk. */
  method HashChunks(list: ChunkList) returns (sum: u32)
    requires list.Valid() && list.buffers != []
    modifies list.buffers
    ensures list.Valid() && list.Contents() == old(list.Contents()) && list.FirstRead() == old(list.FirstRead())
    ensures sum == CheckSum(list.Contents())
  {
    ghost var views := Views(list.buffers, list.base);
    var state := CreateState(views);
    sum := HashViews(list, state, views);
  }

  class GenericPbCodec {
    const tag: seq<byte>
    /** Whether the protobuf parser takes a payload. */
    const accepts: seq<byte> -> bool

    constructor (tag: seq<byte>, accepts: seq<byte> -> bool)
      ensures this.tag == tag && this.accepts == accepts
    {
      this.tag, this.accepts := tag, accepts;
    }

    ghost function Wire(): Codec
    {
      Codec(tag, CheckSum, accepts)
    }

    // ------------------------------------------------------------ sending

    /** The size in front, the checksum at the end. */
    method Finish(buffer: ChunkList, payload: seq<byte>, sum: u32)
      requires SizeOf(tag, payload) < WORD && sum == Wire().checkSum(tag + payload)
      requires buffer.Valid() && buffer.buffers != [] && buffer.FirstRead() == HEADER_ROOM
      requires buffer.Contents() == tag + payload
      modifies buffer, buffer.buffers, buffer.free
      ensures buffer.Valid() && buffer.Contents() == Frame(Wire(), payload)
    {
      var size := EncodeBE32(SizeOf(tag, payload));
      buffer.Prepend(size);
      Assoc(size, tag + payload, EncodeBE32(sum));
      buffer.Append(EncodeBE32(sum));
    }

    /** The list handed to the connection holds exactly one frame. */
    method Send(payload: seq<byte>) returns (buffer: ChunkList)
      requires tag != [] && SizeOf(tag, payload) < WORD
      ensures fresh(buffer) && buffer.Valid() && buffer.Contents() == Frame(Wire(), payload)
    {
      var stream := new ChunkStream();
      buffer := stream.chunkList;
      buffer.Append(tag);
      assert buffer.Contents() == tag;
      stream.Serialize(payload);
      assert buffer.Contents() == tag + payload;
      var sum := HashChunks(buffer);
      Finish(buffer, payload, sum);
    }

    // ------------------------------------------------------------ receiving

    /** The checksum behind the first len bytes is theirs. */
    method CheckCheckSum(bytes: seq<byte>, len: nat) returns (ok: bool)
      requires len + CHECKSUM_LENGTH == |bytes|
      ensures ok <==> Wire().checkSum(bytes[..len]) == DecodeBE32(bytes[len..])
    {
      var newSum := GetCheckSum(bytes[..len]);
      ok := newSum == DecodeBE32(bytes[len..]);
    }

    method Parse(body: seq<byte>) returns (code: ErrorCode)
      requires |body| >= |tag| + CHECKSUM_LENGTH
      ensures code == ParseCode(Wire(), body)
    {
      code := NoError;
      var ok := CheckCheckSum(body, |body| - CHECKSUM_LENGTH);
      if ok {
        if body[..|tag|] == tag {
          if !accepts(body[|tag|..|body| - CHECKSUM_LENGTH]) {
            code := ParseError;
          }
        } else {
          code := InvalidMessage;
        }
      } else {
        code := InvalidChecksum;
      }
    }

    /** Judge the front of a buffer that holds a header at least. */
    method Examine(buffer: Buffer) returns (front: Front)
      requires buffer.Valid() && buffer.ReadableSize() >= MIN_MESSAGE
      ensures front == FrontOf(Wire(), buffer.Contents())
    {
      ghost var bytes := buffer.Contents();
      var size := buffer.GetReadBegin32();
      assert size == DecodeBE32(bytes[..SIZE_LENGTH]);
      if size < CHECKSUM_LENGTH + |tag| || size >= MAX_MESSAGE {
        return Bad(InvalidLength);
      } else if buffer.ReadableSize() >= SIZE_LENGTH + size {
        var body := buffer.Peek(SIZE_LENGTH, size);
        FrontOfBody(Wire(), bytes, size, body);
        var code := Parse(body);
        if code == NoError {
          return Message(body[|tag|..|body| - CHECKSUM_LENGTH], SIZE_LENGTH + size);
        } else {
          return Bad(code);
        }
      } else {
        return Wait;
      }
    }

    /** Deliver every complete frame of the buffer, stopping at the first error. */
    method OnMessage(buffer: Buffer) returns (delivered: seq<seq<byte>>, error: ErrorCode)
      requires buffer.Valid()
      modifies buffer`readIndex, buffer`writeIndex
      ensures buffer.Valid() && Outcome(delivered, buffer.Contents(), error) == Entry(Wire(), old(buffer.Contents()))
    {
      delivered, error := [], NoError;
      if buffer.ReadableSize() >= MAX_MESSAGE {
        buffer.AdvanceRead(buffer.ReadableSize());
        return [], InvalidLength;
      }
      ghost var bytes := buffer.Contents();
      assert Then([], Drain(Wire(), bytes)) == Drain(Wire(), bytes);
      while buffer.ReadableSize() >= MIN_MESSAGE
        invariant buffer.Valid() && error == NoError
        invariant Then(delivered, Drain(Wire(), buffer.Contents())) == Drain(Wire(), bytes)
        decreases buffer.ReadableSize()
      {
        DrainFront(Wire(), buffer.Contents(), delivered);
        var front := Examine(buffer);
        match front {
          case Wait => return;
          case Bad(code) => return delivered, code;
          case Message(payload, length) =>
            delivered := delivered + [payload];
            buffer.AdvanceRead(length);
        }
      }
      DrainFront(Wire(), buffer.Contents(), delivered);
    }
  }
}
