/** ChunkList: a byte queue kept in 4096-byte chunks, with a list of free chunks to reuse.

    The sequence of bytes a list holds is the concatenation of what its chunks hold. */
module ChunkLists {
  import opened Bytes

  const CHUNK_SIZE := 4096
  const HEADER_ROOM := 8

  class Chunk {
    /** The padding buffer behind the node, always CHUNK_SIZE bytes long. */
    var buf: seq<byte>
    var readIndex: nat
    var writeIndex: nat
    const maxSize: nat
    /** Which list the chunk is in, and its rank there; no two chunks have both in common. */
    ghost var inUse: bool
    ghost var rank: int
    /** The list it belongs to, in use or free. */
    ghost const owner: object

    ghost predicate Valid()
      reads this
    {
      |buf| == maxSize == CHUNK_SIZE && readIndex <= writeIndex <= maxSize
    }

    ghost function View(): (v: seq<byte>)
      requires Valid()
      reads this
      ensures |v| == writeIndex - readIndex
    {
      buf[readIndex..writeIndex]
    }

    constructor (ghost used: bool, ghost place: int, ghost list: object)
      ensures Valid() && readIndex == writeIndex == 0 && inUse == used && rank == place && owner == list
    {
      inUse, rank, owner := used, place, list;
      buf := seq(CHUNK_SIZE, _ => 0);
      maxSize := CHUNK_SIZE;
      readIndex, writeIndex := 0, 0;
    }

    function ReadableSize(): nat
      requires Valid()
      reads this
    {
      writeIndex - readIndex
    }

    function WritableSize(): nat
      requires Valid()
      reads this
    {
      maxSize - writeIndex
    }

    method SetToHeader()
      requires Valid()
      modifies this`readIndex, this`writeIndex
      ensures Valid() && readIndex == writeIndex == HEADER_ROOM && View() == []
    {
      readIndex, writeIndex := HEADER_ROOM, HEADER_ROOM;
    }

    method Reset()
      requires Valid()
      modifies this`readIndex, this`writeIndex
      ensures Valid() && readIndex == writeIndex == 0 && View() == []
    {
      readIndex, writeIndex := 0, 0;
    }

    method AdvanceRead(len: nat)
      requires Valid() && len <= ReadableSize()
      modifies this`readIndex
      ensures Valid() && View() == old(View())[len..]
      ensures readIndex == old(readIndex) + len
    {
      readIndex := readIndex + len;
    }

    /** Move the write index, forwards or, for BackUp, backwards. */
    method AdvanceWrite(len: int)
      requires Valid() && readIndex <= writeIndex + len <= maxSize
      modifies this`writeIndex
      ensures Valid() && writeIndex == old(writeIndex) + len
    {
      writeIndex := writeIndex + len;
    }

    /** memcpy to an offset of the padding buffer. */
    method Copy(at: nat, data: seq<byte>)
      requires Valid() && at + |data| <= maxSize
      modifies this`buf
      ensures Valid() && buf == old(buf)[..at] + data + old(buf)[at + |data|..]
    {
      buf := buf[..at] + data + buf[at + |data|..];
    }

    method Append(data: seq<byte>)
      requires Valid() && |data| <= WritableSize()
      modifies this`buf, this`writeIndex
      ensures Valid() && View() == old(View()) + data
      ensures writeIndex == old(writeIndex) + |data|
    {
      Copy(writeIndex, data);
      writeIndex := writeIndex + |data|;
      assert buf[readIndex..writeIndex] == old(buf)[readIndex..old(writeIndex)] + data;
    }

    method Prepend(data: seq<byte>)
      requires Valid() && readIndex >= HEADER_ROOM && |data| <= HEADER_ROOM
      modifies this`buf, this`readIndex
      ensures Valid() && View() == data + old(View())
      ensures readIndex == old(readIndex) - |data|
    {
      readIndex := readIndex - |data|;
      Copy(readIndex, data);
      assert buf[readIndex..writeIndex] == data + old(buf)[old(readIndex)..writeIndex];
    }
  }

  /** The chunks of a list carry its mark and consecutive ranks, so they are pairwise different. */
  ghost predicate Ranked(cs: seq<Chunk>, inUse: bool, base: int)
    reads cs
  {
    forall i :: 0 <= i < |cs| ==> cs[i].Valid() && cs[i].inUse == inUse && cs[i].rank == base + i
  }

  ghost predicate Unused(cs: seq<Chunk>)
    reads cs
  {
    forall i :: 0 <= i < |cs| ==> cs[i].readIndex == cs[i].writeIndex == 0
  }

  /** What each chunk holds. */
  ghost function Views(cs: seq<Chunk>, base: int): (v: seq<seq<byte>>)
    requires Ranked(cs, true, base)
    reads cs
    ensures |v| == |cs|
  {
    seq(|cs|, i requires 0 <= i < |cs| && Ranked(cs, true, base) reads cs => cs[i].View())
  }

  /** Every chunk but the last is filled to its end, and only the first may have been read from. */
  ghost predicate Packed(cs: seq<Chunk>)
    reads cs
  {
    forall i :: 0 <= i < |cs| ==>
      && (i < |cs| - 1 ==> cs[i].writeIndex == CHUNK_SIZE)
      && (i > 0 ==> cs[i].readIndex == 0)
  }

  /** The room a chunk offers when it is added: the first keeps the header room back. */
  function FirstRoom(first: bool): nat
  {
    if first then CHUNK_SIZE - HEADER_ROOM else CHUNK_SIZE
  }

  function Ceiling(n: nat): nat
  {
    (n + CHUNK_SIZE - 1) / CHUNK_SIZE
  }

  /** What is left of n bytes once `room` of them are placed. */
  function Beyond(room: nat, n: nat): nat
  {
    if n <= room then 0 else n - room
  }

  /** How many chunks n bytes take when they start a new chunk. */
  function ChunksNeeded(empty: bool, n: nat): nat
  {
    if n == 0 then 0
    else if empty then 1 + Ceiling(Beyond(FirstRoom(true), n))
    else Ceiling(n)
  }

  lemma NeedStep(empty: bool, n: nat)
    requires n > 0
    ensures ChunksNeeded(empty, n) == 1 + ChunksNeeded(false, Beyond(FirstRoom(empty), n))
  {
  }

  /** The free list after n chunks were asked of it, and how many of them it could not give. */
  ghost function Popped(free: seq<Chunk>, n: nat): (rest: seq<Chunk>)
    ensures forall i :: 0 <= i < |rest| ==> rest[i] in free
  {
    if n <= |free| then free[n..] else []
  }

  function Shortage(free: nat, n: nat): nat
  {
    if n <= free then 0 else n - free
  }

  lemma OneMore(free: seq<Chunk>, n: nat)
    ensures Popped(Popped(free, n), 1) == Popped(free, n + 1)
    ensures Shortage(|free|, n) + Shortage(|Popped(free, n)|, 1) == Shortage(|free|, n + 1)
    ensures forall c :: c in Popped(free, n) ==> c in free
  {
  }

  lemma DropSmaller(s: seq<byte>, len: nat, dropped: nat)
    requires dropped <= len && dropped <= |s| && (dropped == len || s[dropped..] == [])
    ensures dropped == |s| - Beyond(len, |s|)
  {
  }

  lemma DropFirst<T>(s: seq<T>, k: nat)
    requires k < |s|
    ensures s[k..][0] == s[k] && s[k..][1..] == s[k + 1..]
  {
  }

  lemma Extend(a: seq<byte>, data: seq<byte>, n: nat, m: nat)
    requires n + m <= |data|
    ensures (a + data[..n]) + data[n..][..m] == a + data[..n + m]
  {
  }

  lemma Updated<T>(after: seq<T>, before: seq<T>, n: nat, x: T)
    requires n < |before| == |after| && after[n] == x
    requires forall i :: 0 <= i < |before| && i != n ==> after[i] == before[i]
    ensures after == before[n := x]
  {
  }

  lemma SplitSlice(s: seq<byte>, r: nat, m: nat, w: nat)
    requires r <= m <= w <= |s|
    ensures s[r..w] == s[r..m] + s[m..w]
  {
  }

  lemma Halves(s: seq<byte>, r: nat, w: nat)
    requires r <= w <= |s|
    ensures s[r..] == s[r..w] + s[w..]
  {
  }

  lemma Rejoin(a: seq<byte>, data: seq<byte>, n: nat)
    requires n <= |data|
    ensures (a + data[..n]) + data[n..] == a + data
  {
  }

  lemma DropDrop(s: seq<byte>, a: nat, b: nat)
    requires a + b <= |s|
    ensures s[a..][b..] == s[a + b..]
  {
  }

  lemma FlattenLast(views: seq<seq<byte>>, data: seq<byte>)
    requires views != []
    ensures Flatten(views[|views| - 1 := views[|views| - 1] + data]) == Flatten(views) + data
  {
    var n := |views| - 1;
    FlattenSnoc(views[..n], views[n]);
    FlattenSnoc(views[..n], views[n] + data);
    assert views == views[..n] + [views[n]];
    assert views[n := views[n] + data] == views[..n] + [views[n] + data];
  }

  /** Exchanging the end of the last piece exchanges the end of the whole. */
  lemma FlattenSuffix(views: seq<seq<byte>>, kept: seq<byte>, a: seq<byte>, b: seq<byte>, prefix: seq<byte>)
    requires views != [] && views[|views| - 1] == kept + a && Flatten(views) == prefix + a
    ensures Flatten(views[|views| - 1 := kept + b]) == prefix + b
  {
    var n := |views| - 1;
    FlattenLast(views[n := kept], a);
    FlattenLast(views[n := kept], b);
    assert views[n := kept][n := kept + a] == views && views[n := kept][n := kept + b] == views[n := kept + b];
    var body := Flatten(views[n := kept]);
    assert body + a == prefix + a;
    assert |body| == |prefix| && body == (body + a)[..|body|] && prefix == (prefix + a)[..|prefix|];
  }

  lemma FlattenTrim(views: seq<seq<byte>>, n: nat, kept: seq<byte>, back: seq<byte>, all: seq<byte>)
    requires n == |views| - 1 && views[n] == kept + back && all == Flatten(views)
    ensures |back| <= |all| && Flatten(views[n := kept]) == all[..|all| - |back|]
  {
    FlattenLast(views[n := kept], back);
    assert views[n := kept][n := kept + back] == views;
  }

  lemma FlattenFirst(views: seq<seq<byte>>, len: nat)
    requires views != [] && len <= |views[0]|
    ensures |Flatten(views)| >= |views[0]| && Flatten(views[0 := views[0][len..]]) == Flatten(views)[len..]
  {
    assert views[0 := views[0][len..]][1..] == views[1..];
  }

  /** After reserving n bytes on a list in use, appending at most n bytes makes no new chunk. */
  lemma ReservedSuffices(room: nat, n: nat, m: nat, free: nat)
    requires m <= n && free >= Ceiling(Beyond(room, n))
    ensures Shortage(free, ChunksNeeded(false, Beyond(room, m))) == 0
  {
  }

  /** On an empty list the first chunk's header room counts as well; this is exactly when the reservation is enough. */
  lemma EmptyReservation(n: nat, m: nat, free: nat)
    requires 0 < m <= n
    ensures ChunksNeeded(true, m) == Ceiling(m + HEADER_ROOM)
    ensures Shortage(free + Shortage(free, Ceiling(n)), ChunksNeeded(true, m)) == 0
       <==> Ceiling(m + HEADER_ROOM) <= free || Ceiling(m + HEADER_ROOM) <= Ceiling(n)
  {
    assert ChunksNeeded(true, m) == Ceiling(m + HEADER_ROOM);
  }

  // -------------------------------------------------------------- the closed form

  function Sum(sizes: seq<nat>): nat
  {
    if sizes == [] then 0 else sizes[0] + Sum(sizes[1..])
  }

  function ClosedForm(sizes: seq<nat>): nat
  {
    var n := |sizes|;
    if n == 0 then 0
    else if n == 1 then sizes[0]
    else if n == 2 then sizes[0] + sizes[1]
    else sizes[0] + sizes[1] + (n - 3) * CHUNK_SIZE + sizes[n - 1]
  }

  lemma {:induction false} FlattenSize(views: seq<seq<byte>>)
    ensures |Flatten(views)| == Sum(seq(|views|, i requires 0 <= i < |views| => |views[i]|))
  {
    if views != [] {
      var sizes := seq(|views|, i requires 0 <= i < |views| => |views[i]|);
      FlattenSize(views[1..]);
      assert sizes[1..] == seq(|views| - 1, i requires 0 <= i < |views| - 1 => |views[1..][i]|);
    }
  }

  lemma {:induction false} SumConcat(a: seq<nat>, b: seq<nat>)
    ensures Sum(a + b) == Sum(a) + Sum(b)
  {
    if a == [] {
      assert a + b == b;
    } else {
      assert (a + b)[1..] == a[1..] + b;
      SumConcat(a[1..], b);
    }
  }

  /** n chunks of at most 4096 bytes hold n * 4096 bytes exactly when each of them is full. */
  lemma {:induction false} SumFull(sizes: seq<nat>)
    requires forall i :: 0 <= i < |sizes| ==> sizes[i] <= CHUNK_SIZE
    ensures Sum(sizes) <= |sizes| * CHUNK_SIZE
    ensures Sum(sizes) == |sizes| * CHUNK_SIZE <==> forall i :: 0 <= i < |sizes| ==> sizes[i] == CHUNK_SIZE
  {
    if sizes != [] {
      SumFull(sizes[1..]);
      assert sizes == [sizes[0]] + sizes[1..];
      if Sum(sizes) == |sizes| * CHUNK_SIZE {
        assert Sum(sizes[1..]) == |sizes[1..]| * CHUNK_SIZE;
        forall i | 0 <= i < |sizes|
          ensures sizes[i] == CHUNK_SIZE
        {
          assert i > 0 ==> sizes[i] == sizes[1..][i - 1];
        }
      }
    }
  }

  lemma SumOne(size: nat)
    ensures Sum([size]) == size
  {
    assert [size][1..] == [];
  }

  lemma Ends(sizes: seq<nat>)
    requires |sizes| >= 3
    ensures sizes[1..][0] == sizes[1] && sizes[1..][1..] == sizes[2..|sizes| - 1] + [sizes[|sizes| - 1]]
  {
  }

  lemma SumEnds(sizes: seq<nat>)
    requires |sizes| >= 3
    ensures Sum(sizes) == sizes[0] + sizes[1] + Sum(sizes[2..|sizes| - 1]) + sizes[|sizes| - 1]
  {
    var n := |sizes|;
    Ends(sizes);
    SumConcat(sizes[2..n - 1], [sizes[n - 1]]);
    SumOne(sizes[n - 1]);
    assert Sum(sizes) == sizes[0] + Sum(sizes[1..]) && Sum(sizes[1..]) == sizes[1] + Sum(sizes[1..][1..]);
  }

  /** The closed form is right exactly when every chunk between the second and the last is full. */
  lemma ClosedFormExact(sizes: seq<nat>)
    requires forall i :: 0 <= i < |sizes| ==> sizes[i] <= CHUNK_SIZE
    ensures ClosedForm(sizes) == Sum(sizes) <==> forall i :: 2 <= i < |sizes| - 1 ==> sizes[i] == CHUNK_SIZE
  {
    var n := |sizes|;
    if n >= 3 {
      var middle := sizes[2..n - 1];
      SumEnds(sizes);
      assert forall i :: 0 <= i < |middle| ==> middle[i] == sizes[i + 2] <= CHUNK_SIZE;
      SumFull(middle);
      assert forall i :: 2 <= i < n - 1 ==> sizes[i] == middle[i - 2];
    } else if n == 2 {
      assert sizes[1..] == [sizes[1]];
    }
  }

  // -------------------------------------------------------------- the list

  class ChunkList {
    var buffers: seq<Chunk>
    var free: seq<Chunk>
    /** How many chunks were ever allocated, and how many of them given back by Shrink. */
    ghost var created: nat
    ghost var erased: nat
    ghost var base: int
    ghost var freeBase: int

    ghost predicate Owned(cs: seq<Chunk>)
    {
      forall i :: 0 <= i < |cs| ==> cs[i].owner == this
    }

    ghost predicate UsedOk()
      reads this, buffers
    {
      Ranked(buffers, true, base) && Owned(buffers)
    }

    ghost predicate FreeOk()
      reads this, free
    {
      Ranked(free, false, freeBase) && Unused(free) && Owned(free)
    }

    /** The chunks themselves are in order. */
    ghost predicate WellFormed()
      reads this, buffers, free
    {
      UsedOk() && FreeOk() && created == erased + |buffers| + |free|
    }

    ghost predicate Valid()
      reads this, buffers, free
    {
      WellFormed() && Packed(buffers)
    }

    /** The bytes of the queue. */
    ghost function Contents(): seq<byte>
      requires WellFormed()
      reads this, buffers, free
    {
      Flatten(Views(buffers, base))
    }

    constructor ()
      ensures Valid() && Contents() == [] && buffers == [] && free == [] && created == 0
    {
      buffers, free := [], [];
      created, erased, base, freeBase := 0, 0, 0, 0;
    }

    /** Where the first chunk is read from; an empty list will start one with its header room free. */
    ghost function FirstRead(): nat
      reads this, buffers
    {
      if buffers == [] then HEADER_ROOM else buffers[0].readIndex
    }

    /** A free chunk, or a new one, not in either list any more. */
    method TakeChunk() returns (chunk: Chunk)
      requires WellFormed()
      modifies this`free, this`freeBase, this`created
      ensures FreeOk() && (forall i :: 0 <= i < |free| ==> free[i] != chunk)
      ensures chunk.Valid() && !chunk.inUse && chunk.owner == this && chunk.readIndex == chunk.writeIndex == 0
      ensures chunk in old(free) || fresh(chunk)
      ensures free == if old(free) == [] then [] else old(free)[1..]
      ensures created == old(created) + if old(free) == [] then 1 else 0
    {
      if free != [] {
        chunk := free[0];
        free := free[1..];
        freeBase := freeBase + 1;
      } else {
        chunk := new Chunk(false, 0, this);
        created := created + 1;
      }
    }

    /** Put a chunk at the end of the chunks in use. */
    method PushChunk(chunk: Chunk)
      requires UsedOk() && Packed(buffers) && FreeOk() && forall i :: 0 <= i < |free| ==> free[i] != chunk
      requires buffers != [] ==> buffers[|buffers| - 1].writeIndex == CHUNK_SIZE
      requires chunk.Valid() && !chunk.inUse && chunk.owner == this && chunk.readIndex == chunk.writeIndex == 0
      modifies this`buffers, chunk
      ensures UsedOk() && Packed(buffers) && FreeOk() && FirstRead() == old(FirstRead())
      ensures buffers == old(buffers) + [chunk] && chunk.Valid()
      ensures chunk.writeIndex == chunk.readIndex == if |buffers| == 1 then HEADER_ROOM else 0
      ensures Views(buffers, base) == old(Views(buffers, base)) + [[]]
    {
      chunk.inUse, chunk.rank := true, base + |buffers|;
      buffers := buffers + [chunk];
      if |buffers| == 1 {
        chunk.SetToHeader();
      }
      assert chunk.View() == [];
      assert forall i :: 0 <= i < |buffers| - 1 ==> buffers[i] == old(buffers[i]) && buffers[i] != chunk;
    }

    /** Take a free chunk, or make one, and put it at the end; the first chunk keeps room for a header. */
    method AddChunk() returns (chunk: Chunk)
      requires Valid()
      requires buffers != [] ==> buffers[|buffers| - 1].writeIndex == CHUNK_SIZE
      modifies this, free
      ensures Valid() && chunk.Valid()
      ensures buffers == old(buffers) + [chunk] && (chunk in old(free) || fresh(chunk))
      ensures free == if old(free) == [] then [] else old(free)[1..]
      ensures created == old(created) + (if old(free) == [] then 1 else 0) && erased == old(erased)
      ensures chunk.writeIndex == chunk.readIndex == if |buffers| == 1 then HEADER_ROOM else 0
      ensures Contents() == old(Contents()) && FirstRead() == old(FirstRead())
    {
      ghost var views := Views(buffers, base);
      FlattenSnoc(views, []);
      chunk := TakeChunk();
      PushChunk(chunk);
    }

    /** How much the last chunk can still take. */
    ghost function Room(): nat
      requires WellFormed()
      reads this, buffers, free
    {
      if buffers == [] then 0 else buffers[|buffers| - 1].WritableSize()
    }

    // ------------------------------------------------------------ append

    /** Append to the last chunk, where the data fits. */
    method FillLast(data: seq<byte>)
      requires Valid() && buffers != [] && |data| <= buffers[|buffers| - 1].WritableSize()
      modifies buffers[|buffers| - 1]
      ensures Valid() && Contents() == old(Contents()) + data && FirstRead() == old(FirstRead())
      ensures buffers[|buffers| - 1].writeIndex == old(buffers[|buffers| - 1].writeIndex) + |data|
    {
      ghost var views := Views(buffers, base);
      var last := buffers[|buffers| - 1];
      last.Append(data);
      assert forall i :: 0 <= i < |buffers| - 1 ==> buffers[i] != last;
      FlattenLast(views, data);
      Updated(Views(buffers, base), views, |views| - 1, views[|views| - 1] + data);
    }

    /** The lists after `added` chunks were put in use, from the free list as long as it lasted. */
    ghost predicate Grown(length: nat, stock: seq<Chunk>, made: nat, added: nat)
      reads this
    {
      && |buffers| == length + added && free == Popped(stock, added)
      && created == made + Shortage(|stock|, added)
    }

    /** The state of the Append loop: n bytes placed, `need` chunks in all. */
    ghost predicate Appending(contents: seq<byte>, data: seq<byte>, n: nat, added: nat, need: nat)
      reads this, buffers, free
    {
      && Valid() && n <= |data| && Contents() == contents + data[..n]
      && (n < |data| && buffers != [] ==> Room() == 0)
      && added + ChunksNeeded(buffers == [], |data| - n) == need
    }

    /** Add a chunk and fill it, or use up the data. */
    method AppendChunk(data: seq<byte>) returns (used: nat)
      requires Valid() && data != [] && (buffers != [] ==> Room() == 0)
      modifies this, free
      ensures Valid() && buffers != [] && erased == old(erased)
      ensures used == |data| - Beyond(FirstRoom(old(buffers) == []), |data|) && (used == |data| || Room() == 0)
      ensures Contents() == old(Contents()) + data[..used] && FirstRead() == old(FirstRead())
      ensures Grown(old(|buffers|), old(free), old(created), 1)
    {
      var chunk := AddChunk();
      var wsize := chunk.WritableSize();
      used := if |data| >= wsize then wsize else |data|;
      FillLast(data[..used]);
    }

    /** One turn of the loop. */
    method AppendTurn(data: seq<byte>, n: nat, ghost contents: seq<byte>, ghost added: nat, ghost need: nat,
                      ghost length: nat, ghost stock: seq<Chunk>, ghost made: nat) returns (m: nat)
      requires n < |data| && Appending(contents, data, n, added, need) && Grown(length, stock, made, added)
      modifies this, free
      ensures Appending(contents, data, m, added + 1, need) && Grown(length, stock, made, added + 1)
      ensures n < m && erased == old(erased) && FirstRead() == old(FirstRead())
    {
      NeedStep(buffers == [], |data| - n);
      OneMore(stock, added);
      var used := AppendChunk(data[n..]);
      Extend(contents, data, n, used);
      m := n + used;
    }

    /** The loop of Append: new chunks until the data is used up. */
    method AppendChunks(data: seq<byte>)
      requires Valid() && (buffers != [] ==> Room() == 0)
      modifies this, free
      ensures Valid() && Contents() == old(Contents()) + data && erased == old(erased)
      ensures Grown(old(|buffers|), old(free), old(created), ChunksNeeded(old(buffers) == [], |data|))
      ensures FirstRead() == old(FirstRead())
    {
      var n: nat := 0;
      ghost var added, need := 0, ChunksNeeded(buffers == [], |data|);
      ghost var contents, length, stock, made := Contents(), |buffers|, free, created;
      assert contents + data[..0] == contents;
      while n < |data|
        invariant Appending(contents, data, n, added, need) && Grown(length, stock, made, added)
        invariant erased == old(erased) && FirstRead() == old(FirstRead())
      {
        OneMore(stock, added);
        n := AppendTurn(data, n, contents, added, need, length, stock, made);
        added := added + 1;
      }
      assert data[..n] == data;
    }

    /** Append at the end: the last chunk first, then chunks from the free list, then new ones. */
    method Append(data: seq<byte>)
      requires Valid() && (data != [] || buffers != [])
      modifies this, buffers, free
      ensures Valid() && Contents() == old(Contents()) + data && erased == old(erased)
      ensures Grown(old(|buffers|), old(free), old(created),
                    ChunksNeeded(old(buffers) == [], Beyond(old(Room()), |data|)))
      ensures FirstRead() == old(FirstRead())
    {
      var rest := data;
      if buffers != [] {
        var wsize := buffers[|buffers| - 1].WritableSize();
        if wsize > 0 {
          if wsize >= |rest| {
            FillLast(rest);
            return;
          } else {
            Rejoin(Contents(), data, wsize);
            FillLast(rest[..wsize]);
            rest := rest[wsize..];
          }
        }
      }
      AppendChunks(rest);
    }

    // ------------------------------------------------------------ read

    /** Unlink the first chunk in use. */
    method ExtractFront() returns (chunk: Chunk)
      requires Valid() && buffers != []
      modifies this`buffers, this`base
      ensures UsedOk() && Packed(buffers) && buffers == old(buffers)[1..]
      ensures chunk == old(buffers)[0] && chunk.rank == base - 1
      ensures forall i :: 0 <= i < |buffers| ==> buffers[i] != chunk
      ensures old(Contents()) == old(chunk.View()) + Flatten(Views(buffers, base))
    {
      ghost var views := Views(buffers, base);
      chunk := buffers[0];
      buffers, base := buffers[1..], base + 1;
      assert forall i :: 0 <= i < |buffers| ==> buffers[i].rank == base + i;
      assert Views(buffers, base) == views[1..];
    }

    /** Reset a chunk that was in use and put it in front of the free ones. */
    method PushFree(chunk: Chunk)
      requires FreeOk() && chunk.Valid() && chunk.inUse && chunk.owner == this
      modifies this`free, this`freeBase, chunk
      ensures FreeOk() && free == [chunk] + old(free)
    {
      assert forall i :: 0 <= i < |free| ==> free[i] != chunk;
      chunk.Reset();
      chunk.inUse, chunk.rank := false, freeBase - 1;
      free, freeBase := [chunk] + free, freeBase - 1;
    }

    /** Recycle the first chunk: its content is forgotten and it waits on the free list. */
    method PutToFreeChunk() returns (ok: bool)
      requires Valid() && buffers != []
      modifies this, buffers[0]
      ensures Valid() && ok && buffers == old(buffers)[1..] && free == [old(buffers)[0]] + old(free)
      ensures created == old(created) && erased == old(erased)
      ensures old(Contents()) == old(buffers[0].View()) + Contents()
    {
      ok := buffers[0].maxSize == CHUNK_SIZE;
      if ok {
        var chunk := ExtractFront();
        PushFree(chunk);
      }
    }

    /** Drop bytes from the front of the first chunk, which holds more than that. */
    method ReadFirst(len: nat)
      requires Valid() && buffers != [] && len <= buffers[0].ReadableSize()
      modifies buffers[0]
      ensures Valid() && Contents() == old(Contents())[len..]
    {
      ghost var views := Views(buffers, base);
      buffers[0].AdvanceRead(len);
      assert forall i :: 0 < i < |buffers| ==> buffers[i] != buffers[0];
      FlattenFirst(views, len);
      assert Views(buffers, base) == views[0 := views[0][len..]];
    }

    /** The state of the AdvanceRead loop: `dropped` bytes of the contents are gone. */
    ghost predicate Reading(contents: seq<byte>, dropped: nat)
      reads this, buffers, free
    {
      Valid() && dropped <= |contents| && Contents() == contents[dropped..]
    }

    /** One turn of the loop that uses up the first chunk. */
    method RecycleFirst(ghost contents: seq<byte>, ghost dropped: nat)
      requires Reading(contents, dropped) && buffers != []
      modifies this, buffers[0]
      ensures Reading(contents, dropped + old(buffers[0].ReadableSize())) && buffers == old(buffers)[1..]
      ensures created == old(created) && erased == old(erased)
    {
      FlattenFirst(Views(buffers, base), 0);
      DropDrop(contents, dropped, buffers[0].ReadableSize());
      var ok := PutToFreeChunk();
    }

    /** The last turn: the first chunk holds more than is left to drop. */
    method ReadRest(left: nat, ghost contents: seq<byte>, ghost dropped: nat)
      requires Reading(contents, dropped) && buffers != [] && left < buffers[0].ReadableSize()
      modifies buffers[0]
      ensures Reading(contents, dropped + left)
    {
      FlattenFirst(Views(buffers, base), 0);
      DropDrop(contents, dropped, left);
      ReadFirst(left);
    }

    /** Drop bytes from the front, recycling every chunk that is used up; asking for too much empties the list. */
    method AdvanceRead(len: nat)
      requires Valid()
      modifies this, buffers
      ensures Valid() && created == old(created) && erased == old(erased)
      ensures Contents() == old(Contents())[|old(Contents())| - Beyond(len, |old(Contents())|)..]
    {
      var left: nat := len;
      ghost var contents, chunks := Contents(), buffers;
      ghost var dropped: nat, k := 0, 0;
      while |buffers| > 0
        invariant 0 <= k <= |chunks| && buffers == chunks[k..]
        invariant Reading(contents, dropped) && dropped + left == len
        invariant created == old(created) && erased == old(erased)
        decreases |chunks| - k
      {
        DropFirst(chunks, k);
        var rsize := buffers[0].ReadableSize();
        if left >= rsize {
          RecycleFirst(contents, dropped);
          left, dropped, k := left - rsize, dropped + rsize, k + 1;
        } else {
          ReadRest(left, contents, dropped);
          DropSmaller(contents, len, len);
          return;
        }
      }
      DropSmaller(contents, len, dropped);
    }

    method PrependFirst(data: seq<byte>)
      requires Valid() && buffers != [] && buffers[0].readIndex >= HEADER_ROOM && |data| <= HEADER_ROOM
      modifies buffers[0]
      ensures Valid() && Contents() == data + old(Contents())
    {
      ghost var views := Views(buffers, base);
      buffers[0].Prepend(data);
      assert forall i :: 0 < i < |buffers| ==> buffers[i] != buffers[0];
      assert Views(buffers, base) == views[0 := data + views[0]];
      assert views[0 := data + views[0]][1..] == views[1..];
    }

    /** Prepend at most 8 bytes to a first chunk that still has its header room, adding one to an empty list. */
    method Prepend(data: seq<byte>)
      requires Valid() && |data| <= HEADER_ROOM && FirstRead() >= HEADER_ROOM
      modifies this, buffers, free
      ensures Valid() && Contents() == data + old(Contents()) && erased == old(erased)
      ensures Grown(old(|buffers|), old(free), old(created), if old(buffers) == [] then 1 else 0)
      ensures old(buffers) != [] ==> buffers == old(buffers)
    {
      if buffers == [] {
        var chunk := AddChunk();
      }
      PrependFirst(data);
    }

    // ------------------------------------------------------------ the stream's view

    /** Take everything up to the end of the last chunk as written. */
    method AdvanceLast(size: nat)
      requires Valid() && buffers != [] && size == buffers[|buffers| - 1].WritableSize()
      modifies buffers[|buffers| - 1]
      ensures Valid() && buffers[|buffers| - 1].writeIndex == CHUNK_SIZE && FirstRead() == old(FirstRead())
      ensures buffers[|buffers| - 1].readIndex == old(buffers[|buffers| - 1].readIndex)
      ensures Contents() == old(Contents()) + buffers[|buffers| - 1].buf[old(buffers[|buffers| - 1].writeIndex)..]
    {
      ghost var views, n := Views(buffers, base), |buffers| - 1;
      var last := buffers[|buffers| - 1];
      ghost var r, w := last.readIndex, last.writeIndex;
      last.AdvanceWrite(size);
      assert forall i :: 0 <= i < n ==> buffers[i] != last;
      assert views[n] == last.buf[r..w];
      Halves(last.buf, r, w);
      FlattenLast(views, last.buf[w..]);
      assert last.View() == last.buf[r..];
      Updated(Views(buffers, base), views, n, views[n] + last.buf[w..]);
    }

    /** Take the i-th chunk as written to its end, which every chunk but the last is already. */
    method AdvanceWriteAll(i: nat)
      requires Valid() && i < |buffers| - 1
      modifies buffers[i]
      ensures Valid() && Views(buffers, base) == old(Views(buffers, base)) && FirstRead() == old(FirstRead())
    {
      buffers[i].AdvanceWrite(buffers[i].WritableSize());
      assert forall j :: 0 <= j < |buffers| && j != i ==> buffers[j] != buffers[i];
    }

    /** Bytes stored through the pointer the stream handed out, at an offset of the last chunk. */
    method Deposit(offset: nat, data: seq<byte>, ghost prefix: seq<byte>)
      requires Valid() && buffers != [] && offset + |data| <= CHUNK_SIZE
      requires buffers[|buffers| - 1].readIndex <= offset && buffers[|buffers| - 1].writeIndex == CHUNK_SIZE
      requires Contents() == prefix + buffers[|buffers| - 1].buf[offset..]
      modifies buffers[|buffers| - 1]
      ensures Valid() && FirstRead() == old(FirstRead())
      ensures buffers[|buffers| - 1].readIndex == old(buffers[|buffers| - 1].readIndex)
      ensures buffers[|buffers| - 1].writeIndex == CHUNK_SIZE
      ensures Contents() == prefix + data + buffers[|buffers| - 1].buf[offset + |data|..]
    {
      ghost var views, n := Views(buffers, base), |buffers| - 1;
      var last := buffers[|buffers| - 1];
      ghost var r, was := last.readIndex, last.buf;
      last.Copy(offset, data);
      assert forall i :: 0 <= i < n ==> buffers[i] != last;
      ghost var kept := was[r..offset];
      assert views[n] == kept + was[offset..];
      assert last.View() == kept + (data + last.buf[offset + |data|..]);
      Updated(Views(buffers, base), views, n, kept + (data + last.buf[offset + |data|..]));
      FlattenSuffix(views, kept, was[offset..], data + last.buf[offset + |data|..], prefix);
    }

    /** Take back the last `count` bytes. */
    method RetractLast(count: nat)
      requires Valid() && buffers != [] && count <= buffers[|buffers| - 1].ReadableSize()
      modifies buffers[|buffers| - 1]
      ensures FirstRead() == old(FirstRead())
      ensures Valid() && count <= |old(Contents())| && Contents() == old(Contents())[..|old(Contents())| - count]
    {
      ghost var views, n := Views(buffers, base), |buffers| - 1;
      var last := buffers[|buffers| - 1];
      ghost var r, m, w := last.readIndex, last.writeIndex - count, last.writeIndex;
      SplitSlice(last.buf, r, m, w);
      FlattenTrim(views, n, last.buf[r..m], last.buf[m..w], Contents());
      last.AdvanceWrite(0 - count);
      assert forall i :: 0 <= i < n ==> buffers[i] != last;
      Updated(Views(buffers, base), views, n, last.buf[r..m]);
    }

    // ------------------------------------------------------------ size

    /** The readable sizes of the chunks. */
    ghost function Sizes(): (s: seq<nat>)
      requires WellFormed()
      reads this, buffers, free
      ensures |s| == |buffers|
    {
      seq(|buffers|,
          i requires 0 <= i < |buffers| && WellFormed() reads this, buffers, free => buffers[i].ReadableSize())
    }

    lemma SizesSum()
      requires WellFormed()
      ensures Sum(Sizes()) == |Contents()|
    {
      var views := Views(buffers, base);
      FlattenSize(views);
      assert Sizes() == seq(|views|, i requires 0 <= i < |views| => |views[i]|);
    }

    /** In every reachable state the closed form is the number of bytes held. */
    lemma ReadableSizeExact()
      requires Valid()
      ensures ClosedForm(Sizes()) == |Contents()|
    {
      SizesSum();
      ClosedFormExact(Sizes());
    }

    /** The closed form of the source: the chunks between the second and the last are not looked at. */
    method GetReadableSize() returns (size: nat)
      requires WellFormed()
      ensures size == ClosedForm(Sizes())
      ensures Valid() ==> size == |Contents()|
    {
      if Valid() {
        ReadableSizeExact();
      }
      if buffers == [] {
        return 0;
      }
      var first := buffers[0];
      if |buffers| == 1 {
        return first.ReadableSize();
      } else if |buffers| == 2 {
        return first.ReadableSize() + buffers[1].ReadableSize();
      }
      var last := buffers[|buffers| - 1];
      return first.ReadableSize() + buffers[1].ReadableSize() + (|buffers| - 3) * CHUNK_SIZE + last.ReadableSize();
    }

    // ------------------------------------------------------------ free chunks

    /** Give back free chunks from the front until `keep` are left. */
    method Shrink(keep: nat)
      requires Valid()
      modifies this`free, this`freeBase, this`erased
      ensures Valid() && Contents() == old(Contents())
      ensures free == old(free)[Shortage(keep, |old(free)|)..]
      ensures erased == old(erased) + Shortage(keep, |old(free)|)
    {
      if keep >= |free| {
        return;
      }
      var cut := |free| - keep;
      free, freeBase, erased := free[cut..], freeBase + cut, erased + cut;
    }

    method AddFree()
      requires Valid()
      modifies this`free, this`created
      ensures Valid() && Contents() == old(Contents())
      ensures |free| == |old(free)| + 1 && old(free) <= free && fresh(free[|free| - 1])
      ensures created == old(created) + 1
    {
      var chunk := new Chunk(false, freeBase + |free|, this);
      created := created + 1;
      free := free + [chunk];
    }

    method ReserveFreeChunk(chunks: nat)
      requires Valid()
      modifies this`free, this`created
      ensures Valid() && Contents() == old(Contents())
      ensures |free| == |old(free)| + Shortage(|old(free)|, chunks) && old(free) <= free
      ensures created == old(created) + Shortage(|old(free)|, chunks)
      ensures forall i :: |old(free)| <= i < |free| ==> fresh(free[i])
    {
      if chunks <= |free| {
        return;
      }
      var diff := chunks - |free|;
      for i := 0 to diff
        invariant Valid() && Contents() == old(Contents())
        invariant |free| == |old(free)| + i && old(free) <= free && created == old(created) + i
        invariant forall k :: |old(free)| <= k < |free| ==> fresh(free[k])
      {
        AddFree();
      }
    }

    method AppendNew(chunk: Chunk)
      requires UsedOk() && chunk.Valid() && chunk.inUse && chunk.rank == base + |buffers| && chunk.owner == this
      requires chunk.readIndex == chunk.writeIndex
      modifies this`buffers
      ensures UsedOk() && buffers == old(buffers) + [chunk]
      ensures Views(buffers, base) == old(Views(buffers, base)) + [[]]
    {
      buffers := buffers + [chunk];
    }

    method PushNew()
      requires WellFormed()
      modifies this`buffers, this`created
      ensures WellFormed() && Contents() == old(Contents())
      ensures |buffers| == |old(buffers)| + 1 && old(buffers) <= buffers && fresh(buffers[|buffers| - 1])
      ensures buffers[|buffers| - 1].readIndex == buffers[|buffers| - 1].writeIndex == 0
      ensures created == old(created) + 1
    {
      ghost var views := Views(buffers, base);
      var chunk := new Chunk(true, base + |buffers|, this);
      FlattenSnoc(views, []);
      AppendNew(chunk);
      created := created + 1;
    }

    /** Put n new chunks in use. */
    method ReserveChunk(n: nat)
      requires WellFormed()
      modifies this`buffers, this`created
      ensures WellFormed() && Contents() == old(Contents())
      ensures |buffers| == |old(buffers)| + n && old(buffers) <= buffers && created == old(created) + n
      ensures forall i :: |old(buffers)| <= i < |buffers| ==>
                fresh(buffers[i]) && buffers[i].readIndex == buffers[i].writeIndex == 0
    {
      for i := 0 to n
        invariant WellFormed() && Contents() == old(Contents())
        invariant |buffers| == |old(buffers)| + i && old(buffers) <= buffers && created == old(created) + i
        invariant forall k :: |old(buffers)| <= k < |buffers| ==>
                    fresh(buffers[k]) && buffers[k].readIndex == buffers[k].writeIndex == 0
      {
        PushNew();
      }
    }

    /** Reserving keeps a list packed exactly when it adds nothing, or one chunk behind a full one. */
    lemma ReserveKeepsPacked(before: seq<Chunk>, room: nat)
      requires WellFormed() && before <= buffers && Packed(before)
      requires room == if before == [] then 0 else CHUNK_SIZE - before[|before| - 1].writeIndex
      requires forall i :: |before| <= i < |buffers| ==> buffers[i].readIndex == buffers[i].writeIndex == 0
      ensures Packed(buffers) <==> |buffers| == |before| || (|buffers| == |before| + 1 && room == 0)
    {
      var k := |before|;
      assert forall i :: 0 <= i < k ==> buffers[i] == before[i];
      if k < |buffers| {
        assert k >= 1 && Packed(buffers) ==> buffers[k - 1].writeIndex == CHUNK_SIZE;
        assert buffers[k].writeIndex == 0;
      }
    }

    /** After reserving chunks on a packed list, the closed form is the number of bytes held exactly in these cases. */
    lemma ReservedSizeExact(before: seq<Chunk>, room: nat)
      requires WellFormed() && before <= buffers && Packed(before)
      requires room == if before == [] then 0 else CHUNK_SIZE - before[|before| - 1].writeIndex
      requires forall i :: |before| <= i < |buffers| ==> buffers[i].readIndex == buffers[i].writeIndex == 0
      ensures ClosedForm(Sizes()) == |Contents()|
         <==> |buffers| == |before| || |buffers| <= 3 || (|buffers| == |before| + 1 && room == 0)
    {
      var k, sizes := |before|, Sizes();
      SizesSum();
      ClosedFormExact(sizes);
      assert forall i :: 0 <= i < k ==> buffers[i] == before[i];
      assert forall i :: 2 <= i < k - 1 ==> sizes[i] == CHUNK_SIZE;
      if 3 < |buffers| && k < |buffers| {
        assert k > 2 ==> sizes[k - 1] == CHUNK_SIZE - room;
        assert |buffers| > k + 1 ==> sizes[|buffers| - 2] == 0;
      }
    }

    /** Ask for the size after chunks were reserved. */
    method MeasureReserved(ghost before: seq<Chunk>, ghost room: nat) returns (size: nat)
      requires WellFormed() && before <= buffers && Packed(before)
      requires room == if before == [] then 0 else CHUNK_SIZE - before[|before| - 1].writeIndex
      requires forall i :: |before| <= i < |buffers| ==> buffers[i].readIndex == buffers[i].writeIndex == 0
      ensures size == |Contents()|
         <==> |buffers| == |before| || |buffers| <= 3 || (|buffers| == |before| + 1 && room == 0)
    {
      ReservedSizeExact(before, room);
      size := GetReadableSize();
    }

    /** Reserve chunks and ask for the size. */
    method ReserveThenMeasure(n: nat) returns (size: nat)
      requires Valid()
      modifies this`buffers, this`created
      ensures WellFormed() && Contents() == old(Contents())
      ensures size == |Contents()| <==> n == 0 || old(|buffers|) + n <= 3 || (n == 1 && old(Room()) == 0)
    {
      ghost var before, room := buffers, Room();
      ReserveChunk(n);
      size := MeasureReserved(before, room);
    }

    /** Make sure that `size` bytes can be appended, going by the room in the chunks in use. */
    method ReserveWriteSpace(size: nat)
      requires Valid() && (size > 0 || buffers != [])
      modifies this`free, this`created
      ensures Valid() && Contents() == old(Contents())
      ensures |free| == |old(free)| + Shortage(|old(free)|, Ceiling(Beyond(Room(), size))) && old(free) <= free
      ensures created == old(created) + Shortage(|old(free)|, Ceiling(Beyond(Room(), size)))
      ensures forall i :: |old(free)| <= i < |free| ==> fresh(free[i])
    {
      var left: nat := size;
      for i := 0 to |buffers|
        invariant i < |buffers| ==> left == size
        invariant i == |buffers| ==> left == Beyond(Room(), size) && left > 0
      {
        var room := buffers[i].WritableSize();
        if left <= room {
          return;
        }
        left := left - room;
      }
      var chunks := (left - 1) / CHUNK_SIZE + 1;
      ReserveFreeChunk(chunks);
    }

    /** On a list in use, what was reserved can be appended without a new chunk. */
    method ReserveThenAppend(n: nat, data: seq<byte>) returns (ghost reserved: nat)
      requires Valid() && buffers != [] && |data| <= n
      modifies this, buffers, free
      ensures Valid() && Contents() == old(Contents()) + data
      ensures reserved == old(created) + Shortage(|old(free)|, Ceiling(Beyond(old(Room()), n)))
      ensures created == reserved
    {
      ReserveWriteSpace(n);
      reserved := created;
      ReservedSuffices(Room(), n, |data|, |free|);
      Append(data);
    }

    /** On an empty list that holds exactly if the free chunks also cover the header room of the first. */
    method ReserveThenAppendToEmpty(n: nat, data: seq<byte>) returns (ghost reserved: nat)
      requires Valid() && buffers == [] && 0 < |data| <= n
      modifies this, buffers, free
      ensures Valid() && Contents() == data
      ensures reserved == old(created) + Shortage(|old(free)|, Ceiling(n))
      ensures created == reserved
         <==> Ceiling(|data| + HEADER_ROOM) <= |old(free)| || Ceiling(|data| + HEADER_ROOM) <= Ceiling(n)
      ensures created == reserved
                         + Shortage(|old(free)| + Shortage(|old(free)|, Ceiling(n)), Ceiling(|data| + HEADER_ROOM))
    {
      ReserveWriteSpace(n);
      reserved := created;
      EmptyReservation(n, |data|, old(|free|));
      Append(data);
    }
  }

  lemma FourEmpty(sizes: seq<nat>)
    requires |sizes| == 4 && forall i :: 0 <= i < 4 ==> sizes[i] == 0
    ensures ClosedForm(sizes) == CHUNK_SIZE
  {
  }

  /** Four chunks reserved on a new list hold nothing, yet the size is said to be 4096. */
  method ReservedChunksMislead() returns (list: ChunkList, size: nat)
    ensures fresh(list) && list.WellFormed() && list.Contents() == [] && size == CHUNK_SIZE
  {
    list := new ChunkList();
    list.ReserveChunk(4);
    FourEmpty(list.Sizes());
    size := list.GetReadableSize();
  }

  /** 4096 bytes reserved on a new list are one chunk, but appending them takes two. */
  method ReservationTooShort(data: seq<byte>) returns (list: ChunkList, ghost reserved: nat)
    requires |data| == CHUNK_SIZE
    ensures fresh(list) && list.Valid() && list.Contents() == data && reserved == 1 && list.created == 2
  {
    list := new ChunkList();
    reserved := list.ReserveThenAppendToEmpty(CHUNK_SIZE, data);
  }
}
