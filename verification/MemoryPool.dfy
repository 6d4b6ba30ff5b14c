/** FixedChunkMemoryPool: blocks of equal chunks, a free list threaded through the free ones.

    Memory is a map from the address of a word to the word. A block starts with the link to the next block; a chunk
    is a status word followed by its payload, and while the chunk is free the first payload word links to the next
    free chunk. The addresses that malloc returns are a parameter. */
module MemoryPools {

  type Address = nat
  type Memory = map<Address, nat>

  const WORD_SIZE := 8
  const ALLOCATED := 0
  const FREE := 1

  /** Room for the link of a free chunk at least. */
  function AlignSize(sz: nat): nat
  {
    if sz < WORD_SIZE then WORD_SIZE else sz
  }

  function BlockSpace(size: nat, perBlock: nat): nat
  {
    WORD_SIZE + (WORD_SIZE + size) * perBlock
  }

  lemma Commutes(x: nat, y: nat)
    ensures x * y == y * x
  {
  }

  lemma Usage(sz: nat, perBlock: nat, blocks: nat)
    ensures BlockSpace(AlignSize(sz), perBlock) * blocks == blocks * BlockSpace(AlignSize(sz), perBlock)
    ensures BlockSpace(AlignSize(sz), perBlock) == 8 + perBlock * (8 + if sz >= 8 then sz else 8)
  {
    Commutes(BlockSpace(AlignSize(sz), perBlock), blocks);
    Commutes(WORD_SIZE + AlignSize(sz), perBlock);
  }

  /** The i-th chunk of a block, as the loops step to it. */
  function ChunkAt(block: Address, i: nat, size: nat): Address
  {
    if i == 0 then block + WORD_SIZE else ChunkAt(block, i - 1, size) + WORD_SIZE + size
  }

  lemma {:induction false} ChunkAtIs(block: Address, i: nat, size: nat)
    ensures ChunkAt(block, i, size) == block + BlockSpace(size, i)
  {
    if i > 0 {
      ChunkAtIs(block, i - 1, size);
      assert (WORD_SIZE + size) * i == (WORD_SIZE + size) * (i - 1) + (WORD_SIZE + size);
    }
  }

  lemma {:induction false} ChunkOrder(block: Address, i: nat, j: nat, size: nat)
    requires i <= j
    ensures i < j ==> ChunkAt(block, i, size) + WORD_SIZE + size <= ChunkAt(block, j, size)
    ensures ChunkAt(block, i, size) <= ChunkAt(block, j, size)
    decreases j
  {
    if i < j {
      ChunkOrder(block, i, j - 1, size);
    }
  }

  // ---------------------------------------------------------------- where the chunks are

  /** The index-th chunk of the block-th block, in the order of allocation. */
  datatype Slot = Slot(block: nat, index: nat)

  /** The blocks in the order of allocation, the newest with only its first `filled` chunks yet. A chunk takes
      WORD_SIZE + size bytes, status word and payload. */
  datatype Layout = Layout(blocks: seq<Address>, size: nat, perBlock: nat, filled: nat)
  {
    function Space(): nat
    {
      BlockSpace(size, perBlock)
    }

    predicate Has(s: Slot)
    {
      s.block < |blocks| && s.index < if s.block + 1 == |blocks| then filled else perBlock
    }

    function At(s: Slot): Address
      requires Has(s)
    {
      ChunkAt(blocks[s.block], s.index, size)
    }
  }

  predicate Apart(a: Address, aLen: nat, b: Address, bLen: nat)
  {
    a + aLen <= b || b + bLen <= a
  }

  /** Blocks do not overlap. */
  ghost predicate Sound(l: Layout)
  {
    && l.size >= WORD_SIZE && 1 <= l.perBlock && l.filled <= l.perBlock
    && (forall k :: 0 <= k < |l.blocks| ==> l.blocks[k] > 0)
    && (forall j, k :: 0 <= j < k < |l.blocks| ==> Apart(l.blocks[j], l.Space(), l.blocks[k], l.Space()))
  }

  /** A chunk lies in its block, behind the link. */
  lemma Inside(l: Layout, s: Slot)
    requires Sound(l) && l.Has(s)
    ensures l.blocks[s.block] + WORD_SIZE <= l.At(s)
    ensures l.At(s) + WORD_SIZE + l.size <= l.blocks[s.block] + l.Space()
  {
    var b := l.blocks[s.block];
    ChunkOrder(b, 0, s.index, l.size);
    ChunkOrder(b, s.index, l.perBlock, l.size);
    ChunkAtIs(b, l.perBlock, l.size);
  }

  /** Two chunks, status words and payloads, do not overlap. */
  lemma ChunksApart(l: Layout, s: Slot, t: Slot)
    requires Sound(l) && l.Has(s) && l.Has(t) && s != t
    ensures Apart(l.At(s), WORD_SIZE + l.size, l.At(t), WORD_SIZE + l.size)
  {
    if s.block == t.block {
      var b := l.blocks[s.block];
      if s.index < t.index {
        ChunkOrder(b, s.index, t.index, l.size);
      } else {
        ChunkOrder(b, t.index, s.index, l.size);
      }
    } else {
      Inside(l, s);
      Inside(l, t);
      assert s.block < t.block ==> Apart(l.blocks[s.block], l.Space(), l.blocks[t.block], l.Space());
      assert t.block < s.block ==> Apart(l.blocks[t.block], l.Space(), l.blocks[s.block], l.Space());
    }
  }

  /** No chunk overlaps the link of a block. */
  lemma LinkApart(l: Layout, s: Slot, k: nat)
    requires Sound(l) && l.Has(s) && k < |l.blocks|
    ensures Apart(l.At(s), WORD_SIZE + l.size, l.blocks[k], WORD_SIZE)
  {
    Inside(l, s);
    ChunkOrder(0, 0, l.perBlock, l.size);
    ChunkAtIs(0, l.perBlock, l.size);
    assert s.block < k ==> Apart(l.blocks[s.block], l.Space(), l.blocks[k], l.Space());
    assert k < s.block ==> Apart(l.blocks[k], l.Space(), l.blocks[s.block], l.Space());
  }

  // ---------------------------------------------------------------- what the memory holds

  /** The free list has each free chunk once. */
  ghost predicate ListOk(l: Layout, free: seq<Slot>)
  {
    && (forall j :: 0 <= j < |free| ==> l.Has(free[j]))
    && (forall i, j :: 0 <= i < j < |free| ==> free[i] != free[j])
  }

  /** The address of the j-th free chunk, null after the last. */
  ghost function FreeAt(l: Layout, free: seq<Slot>, j: nat): Address
    requires ListOk(l, free)
  {
    if j < |free| then l.At(free[j]) else 0
  }

  /** Where the j-th free chunk keeps its link. */
  ghost function Link(l: Layout, free: seq<Slot>, j: nat): Address
    requires ListOk(l, free) && j < |free|
  {
    l.At(free[j]) + WORD_SIZE
  }

  ghost predicate Holds(m: Memory, a: Address, v: nat)
  {
    a in m && m[a] == v
  }

  /** The status words say which chunks are on it. */
  ghost predicate StatusOk(l: Layout, free: seq<Slot>, m: Memory)
  {
    forall s :: l.Has(s) ==> Holds(m, l.At(s), if s in free then FREE else ALLOCATED)
  }

  /** The first `linked` links of the free list are in place. */
  ghost predicate LinksOk(l: Layout, free: seq<Slot>, m: Memory, linked: nat)
    requires ListOk(l, free)
  {
    forall j {:trigger Link(l, free, j)} :: 0 <= j < linked && j < |free| ==>
      Holds(m, Link(l, free, j), FreeAt(l, free, j + 1))
  }

  /** The block allocated before the k-th, null before the first. */
  ghost function Before(blocks: seq<Address>, k: nat): Address
    requires k <= |blocks|
  {
    if k == 0 then 0 else blocks[k - 1]
  }

  /** Each block links to the one allocated before it. */
  ghost predicate ChainOk(blocks: seq<Address>, m: Memory)
  {
    forall k {:trigger Before(blocks, k)} :: 0 <= k < |blocks| ==> Holds(m, blocks[k], Before(blocks, k))
  }

  ghost predicate Ok(l: Layout, free: seq<Slot>, m: Memory, linked: nat)
  {
    Sound(l) && ListOk(l, free) && StatusOk(l, free, m) && LinksOk(l, free, m, linked) && ChainOk(l.blocks, m)
  }

  // ---------------------------------------------------------------- what writing a word leaves alone

  /** A write into a chunk changes no link of a block. */
  lemma ChainKept(l: Layout, m: Memory, s: Slot, a: Address, v: nat)
    requires Sound(l) && ChainOk(l.blocks, m) && l.Has(s) && l.At(s) <= a < l.At(s) + WORD_SIZE + l.size
    ensures ChainOk(l.blocks, m[a := v])
  {
    forall k | 0 <= k < |l.blocks|
      ensures Holds(m[a := v], l.blocks[k], Before(l.blocks, k))
    {
      LinkApart(l, s, k);
      assert Holds(m, l.blocks[k], Before(l.blocks, k));
    }
  }

  /** A write into one chunk leaves the others' words alone. */
  lemma OthersKept(l: Layout, s: Slot, a: Address)
    requires Sound(l) && l.Has(s) && l.At(s) <= a < l.At(s) + WORD_SIZE + l.size
    ensures forall t :: l.Has(t) && t != s ==> l.At(t) != a && l.At(t) + WORD_SIZE != a
  {
    forall t | l.Has(t) && t != s
      ensures l.At(t) != a && l.At(t) + WORD_SIZE != a
    {
      ChunksApart(l, s, t);
    }
  }

  // ---------------------------------------------------------------- taking and giving back a chunk

  lemma WithoutFirst(free: seq<Slot>, t: Slot)
    requires free != [] && forall i, j :: 0 <= i < j < |free| ==> free[i] != free[j]
    ensures t in free[1..] <==> t in free && t != free[0]
  {
    assert free == [free[0]] + free[1..];
  }

  /** The first free chunk is marked and taken off the list. */
  lemma TakenOk(l: Layout, free: seq<Slot>, m: Memory)
    requires free != [] && Ok(l, free, m, |free|)
    ensures Ok(l, free[1..], m[l.At(free[0]) := ALLOCATED], |free| - 1)
  {
    var s, free', m' := free[0], free[1..], m[l.At(free[0]) := ALLOCATED];
    ChainKept(l, m, s, l.At(s), ALLOCATED);
    OthersKept(l, s, l.At(s));
    forall t | l.Has(t)
      ensures Holds(m', l.At(t), if t in free' then FREE else ALLOCATED)
    {
      WithoutFirst(free, t);
      assert Holds(m, l.At(t), if t in free then FREE else ALLOCATED);
    }
    forall j | 0 <= j < |free'|
      ensures Holds(m', Link(l, free', j), FreeAt(l, free', j + 1))
    {
      assert Link(l, free', j) == Link(l, free, j + 1) && FreeAt(l, free', j + 1) == FreeAt(l, free, j + 2);
      assert Holds(m, Link(l, free, j + 1), FreeAt(l, free, j + 2));
    }
  }

  /** A chunk that was in use is marked, linked to the first free one and put before it. */
  lemma GivenOk(l: Layout, free: seq<Slot>, m: Memory, s: Slot)
    requires Ok(l, free, m, |free|) && l.Has(s) && s !in free
    ensures Ok(l, [s] + free, m[l.At(s) := FREE][l.At(s) + WORD_SIZE := FreeAt(l, free, 0)], |free| + 1)
  {
    var m1 := m[l.At(s) := FREE];
    var m2 := m1[l.At(s) + WORD_SIZE := FreeAt(l, free, 0)];
    var free' := [s] + free;
    ChainKept(l, m, s, l.At(s), FREE);
    ChainKept(l, m1, s, l.At(s) + WORD_SIZE, FreeAt(l, free, 0));
    OthersKept(l, s, l.At(s));
    OthersKept(l, s, l.At(s) + WORD_SIZE);
    forall t | l.Has(t)
      ensures Holds(m2, l.At(t), if t in free' then FREE else ALLOCATED)
    {
      assert Holds(m, l.At(t), if t in free then FREE else ALLOCATED);
    }
    forall j | 0 <= j < |free'|
      ensures Holds(m2, Link(l, free', j), FreeAt(l, free', j + 1))
    {
      if j > 0 {
        assert Link(l, free', j) == Link(l, free, j - 1) && FreeAt(l, free', j + 1) == FreeAt(l, free, j);
        assert Holds(m, Link(l, free, j - 1), FreeAt(l, free, j));
      }
    }
  }

  // ---------------------------------------------------------------- a new block

  /** malloc returned memory that is not in use. */
  ghost predicate NewBlock(l: Layout, block: Address)
  {
    block > 0 && forall k :: 0 <= k < |l.blocks| ==> Apart(l.blocks[k], l.Space(), block, l.Space())
  }

  /** The words outside a stretch of memory. */
  ghost function Outside(m: Memory, start: Address, len: nat): Memory
  {
    map a | a in m && !(start <= a < start + len) :: m[a]
  }

  ghost predicate SameOutside(m: Memory, m': Memory, start: Address, len: nat)
  {
    Outside(m, start, len) == Outside(m', start, len)
  }

  function AddBlock(l: Layout, block: Address): Layout
  {
    l.(blocks := l.blocks + [block], filled := 0)
  }

  lemma BlockAdded(l: Layout, m: Memory, block: Address)
    requires Ok(l, [], m, 0) && l.filled == l.perBlock && NewBlock(l, block)
    ensures Ok(AddBlock(l, block), [], m[block := Before(l.blocks, |l.blocks|)], 0)
  {
    var l', m' := AddBlock(l, block), m[block := Before(l.blocks, |l.blocks|)];
    forall s | l'.Has(s)
      ensures Holds(m', l'.At(s), ALLOCATED)
    {
      assert l.Has(s) && l'.blocks[s.block] == l.blocks[s.block];
      Inside(l, s);
      assert Holds(m, l.At(s), ALLOCATED);
    }
    ChunkAtIs(0, l.perBlock, l.size);
    ChunkOrder(0, 0, l.perBlock, l.size);
    forall k | 0 <= k < |l'.blocks|
      ensures Holds(m', l'.blocks[k], Before(l'.blocks, k))
    {
      if k < |l.blocks| {
        assert Holds(m, l.blocks[k], Before(l.blocks, k));
      }
    }
  }

  /** The next chunk of the newest block. */
  ghost function NextSlot(l: Layout): Slot
    requires l.blocks != []
  {
    Slot(|l.blocks| - 1, l.filled)
  }

  function AddChunk(l: Layout): Layout
  {
    l.(filled := l.filled + 1)
  }

  lemma ChunkMarked(l: Layout, free: seq<Slot>, m: Memory, linked: nat)
    requires Ok(l, free, m, linked) && l.blocks != [] && l.filled < l.perBlock && linked < |free| + 1
    requires linked == |free| - 1 || free == []
    ensures var s, l' := NextSlot(l), AddChunk(l);
            l'.Has(s) && Ok(l', free + [s], m[l'.At(s) := FREE], linked)
  {
    var s, l', free' := NextSlot(l), AddChunk(l), free + [NextSlot(l)];
    var m' := m[l'.At(s) := FREE];
    assert forall t :: l'.Has(t) <==> l.Has(t) || t == s;
    ChainKept(l', m, s, l'.At(s), FREE);
    OthersKept(l', s, l'.At(s));
    forall t | l'.Has(t)
      ensures Holds(m', l'.At(t), if t in free' then FREE else ALLOCATED)
    {
      if t != s {
        assert Holds(m, l.At(t), if t in free then FREE else ALLOCATED);
      }
    }
    forall j | 0 <= j < linked
      ensures Holds(m', Link(l', free', j), FreeAt(l', free', j + 1))
    {
      assert Holds(m, Link(l, free, j), FreeAt(l, free, j + 1));
      assert free[j] != s;
    }
  }

  /** The first missing link is filled in. */
  lemma LinkAdded(l: Layout, free: seq<Slot>, m: Memory, linked: nat)
    requires Ok(l, free, m, linked) && linked < |free|
    ensures Ok(l, free, m[Link(l, free, linked) := FreeAt(l, free, linked + 1)], linked + 1)
  {
    var a, v := Link(l, free, linked), FreeAt(l, free, linked + 1);
    var s, m' := free[linked], m[a := v];
    ChainKept(l, m, s, a, v);
    OthersKept(l, s, a);
    forall t | l.Has(t)
      ensures Holds(m', l.At(t), if t in free then FREE else ALLOCATED)
    {
      assert Holds(m, l.At(t), if t in free then FREE else ALLOCATED);
    }
    forall j | 0 <= j < linked + 1
      ensures Holds(m', Link(l, free, j), FreeAt(l, free, j + 1))
    {
      if j < linked {
        assert Holds(m, Link(l, free, j), FreeAt(l, free, j + 1));
        assert free[j] != s;
      }
    }
  }

  /** The first n chunks of a block, in order. */
  ghost function FirstSlots(block: nat, n: nat): (slots: seq<Slot>)
    ensures |slots| == n && forall j :: 0 <= j < n ==> slots[j] == Slot(block, j)
  {
    if n == 0 then [] else FirstSlots(block, n - 1) + [Slot(block, n - 1)]
  }

  lemma WritesInside(m: Memory, a: Address, v: nat, b: Address, w: nat, start: Address, len: nat)
    requires start <= a < start + len && start <= b < start + len
    ensures SameOutside(m, m[a := v][b := w], start, len)
  {
  }

  /** A new block with its first chunk. */
  lemma FirstChunk(l: Layout, m: Memory, block: Address)
    requires Ok(l, [], m, 0) && l.filled == l.perBlock && NewBlock(l, block)
    ensures var m' := m[block := Before(l.blocks, |l.blocks|)][block + WORD_SIZE := FREE];
            && Ok(AddChunk(AddBlock(l, block)), FirstSlots(|l.blocks|, 1), m', 0)
            && SameOutside(m, m', block, l.Space())
  {
    BlockAdded(l, m, block);
    var l1, m1 := AddBlock(l, block), m[block := Before(l.blocks, |l.blocks|)];
    ChunkMarked(l1, [], m1, 0);
    assert [] + [NextSlot(l1)] == FirstSlots(|l.blocks|, 1);
    Inside(AddChunk(l1), NextSlot(l1));
    WritesInside(m, block, Before(l.blocks, |l.blocks|), block + WORD_SIZE, FREE, block, l.Space());
  }

  /** One turn of the loop that links the chunks of a new block. */
  lemma ChunkLinked(l: Layout, free: seq<Slot>, m: Memory)
    requires free != [] && Ok(l, free, m, |free| - 1) && l.blocks != [] && l.filled < l.perBlock
    ensures var s, l' := NextSlot(l), AddChunk(l);
            && l'.Has(s)
            && Ok(l', free + [s], m[Link(l, free, |free| - 1) := l'.At(s)][l'.At(s) := FREE], |free|)
  {
    var s, l', free' := NextSlot(l), AddChunk(l), free + [NextSlot(l)];
    ChunkMarked(l, free, m, |free| - 1);
    var m1 := m[l'.At(s) := FREE];
    LinkAdded(l', free', m1, |free| - 1);
    var a := Link(l, free, |free| - 1);
    assert Link(l', free', |free| - 1) == a && FreeAt(l', free', |free|) == l'.At(s);
    OthersKept(l', s, l'.At(s));
    assert free[|free| - 1] != s;
    assert m[a := l'.At(s)][l'.At(s) := FREE] == m1[a := l'.At(s)];
  }

  // ---------------------------------------------------------------- counting

  ghost function Row(block: nat, n: nat): set<Slot>
  {
    set i | 0 <= i < n :: Slot(block, i)
  }

  ghost function AllSlots(blocks: nat, perBlock: nat): set<Slot>
  {
    set k, i | 0 <= k < blocks && 0 <= i < perBlock :: Slot(k, i)
  }

  lemma {:induction false} RowSize(block: nat, n: nat)
    ensures |Row(block, n)| == n
  {
    if n > 0 {
      RowSize(block, n - 1);
      assert Row(block, n) == Row(block, n - 1) + {Slot(block, n - 1)};
    }
  }

  lemma RowAdded(blocks: nat, perBlock: nat)
    requires blocks > 0
    ensures AllSlots(blocks, perBlock) == AllSlots(blocks - 1, perBlock) + Row(blocks - 1, perBlock)
    ensures AllSlots(blocks - 1, perBlock) !! Row(blocks - 1, perBlock)
  {
  }

  lemma {:induction false} AllSlotsSize(blocks: nat, perBlock: nat)
    ensures |AllSlots(blocks, perBlock)| == blocks * perBlock
  {
    if blocks > 0 {
      AllSlotsSize(blocks - 1, perBlock);
      RowSize(blocks - 1, perBlock);
      RowAdded(blocks, perBlock);
      assert blocks * perBlock == (blocks - 1) * perBlock + perBlock;
    }
  }

  ghost function SetOf(free: seq<Slot>): set<Slot>
  {
    set s | s in free
  }

  lemma {:induction false} SetOfSize(free: seq<Slot>)
    requires forall i, j :: 0 <= i < j < |free| ==> free[i] != free[j]
    ensures |SetOf(free)| == |free|
  {
    if free != [] {
      SetOfSize(free[1..]);
      assert free == [free[0]] + free[1..];
      assert SetOf(free) == {free[0]} + SetOf(free[1..]);
    }
  }

  /** The free chunks that the counting loops have passed, going from the newest block to the oldest. */
  ghost function Passed(free: seq<Slot>, block: int, index: nat): set<Slot>
  {
    set s | s in free && (s.block > block || (s.block == block && s.index < index))
  }

  /** The loop that links the chunks of a new block: `chunk` is the last one so far and links nowhere yet. */
  ghost predicate Linking(l: Layout, free: seq<Slot>, m: Memory, chunk: Address, was: Memory)
  {
    && l.blocks != [] && 1 <= l.filled <= l.perBlock && free == FirstSlots(|l.blocks| - 1, l.filled)
    && Ok(l, free, m, l.filled - 1) && chunk == ChunkAt(l.blocks[|l.blocks| - 1], l.filled - 1, l.size)
    && SameOutside(was, m, l.blocks[|l.blocks| - 1], l.Space())
  }

  lemma NextPlaces(l: Layout, free: seq<Slot>, m: Memory, chunk: Address, next: Address, was: Memory)
    requires Linking(l, free, m, chunk, was) && l.filled < l.perBlock && next == chunk + WORD_SIZE + l.size
    ensures Link(l, free, |free| - 1) == chunk + WORD_SIZE && AddChunk(l).At(NextSlot(l)) == next
    ensures SameOutside(was, m[chunk + WORD_SIZE := next][next := FREE], l.blocks[|l.blocks| - 1], l.Space())
  {
    Inside(l, free[|free| - 1]);
    Inside(AddChunk(l), NextSlot(l));
    WritesInside(m, chunk + WORD_SIZE, next, next, FREE, l.blocks[|l.blocks| - 1], l.Space());
  }

  /** One turn, on the addresses: the last chunk links to the next, which is marked. */
  lemma LinkTurn(l: Layout, free: seq<Slot>, m: Memory, chunk: Address, next: Address, was: Memory)
    requires Linking(l, free, m, chunk, was) && l.filled < l.perBlock && next == chunk + WORD_SIZE + l.size
    ensures Linking(AddChunk(l), free + [NextSlot(l)], m[chunk + WORD_SIZE := next][next := FREE], next, was)
  {
    NextPlaces(l, free, m, chunk, next, was);
    ChunkLinked(l, free, m);
  }

  /** The last chunk links to none. */
  lemma LinkEnd(l: Layout, free: seq<Slot>, m: Memory, chunk: Address, was: Memory)
    requires Linking(l, free, m, chunk, was)
    ensures Ok(l, free, m[chunk + WORD_SIZE := 0], |free|)
    ensures SameOutside(was, m[chunk + WORD_SIZE := 0], l.blocks[|l.blocks| - 1], l.Space())
  {
    LinkAdded(l, free, m, |free| - 1);
    Inside(l, free[|free| - 1]);
    assert Link(l, free, |free| - 1) == chunk + WORD_SIZE && FreeAt(l, free, |free|) == 0;
  }

  lemma BlockLive(block: nat, perBlock: nat)
    ensures AllSlots(block + 1, perBlock) - SetOf(FirstSlots(block, perBlock)) == AllSlots(block, perBlock)
  {
    RowAdded(block + 1, perBlock);
    assert SetOf(FirstSlots(block, perBlock)) == Row(block, perBlock) by {
      assert forall i :: 0 <= i < perBlock ==> FirstSlots(block, perBlock)[i] == Slot(block, i);
    }
  }

  lemma TakeLive(blocks: nat, perBlock: nat, free: seq<Slot>)
    requires free != [] && free[0] in AllSlots(blocks, perBlock)
    requires forall i, j :: 0 <= i < j < |free| ==> free[i] != free[j]
    ensures AllSlots(blocks, perBlock) - SetOf(free[1..]) == AllSlots(blocks, perBlock) - SetOf(free) + {free[0]}
  {
    assert free == [free[0]] + free[1..];
    assert SetOf(free) == SetOf(free[1..]) + {free[0]};
    assert free[0] !in free[1..];
  }

  lemma PassOne(free: seq<Slot>, block: nat, i: nat)
    ensures |Passed(free, block, i + 1)| == |Passed(free, block, i)| + if Slot(block, i) in free then 1 else 0
  {
    var s := Slot(block, i);
    assert forall t :: t in free && t.block == block && t.index == i ==> t == s;
    if s in free {
      assert Passed(free, block, i + 1) == Passed(free, block, i) + {s};
    } else {
      assert Passed(free, block, i + 1) == Passed(free, block, i);
    }
  }

  lemma NextRow(l: Layout, free: seq<Slot>, block: nat)
    requires ListOk(l, free) && l.filled == l.perBlock
    ensures Passed(free, block, l.perBlock) == Passed(free, block - 1, 0)
  {
    assert forall s :: s in free ==> s.index < l.perBlock;
  }

  // ---------------------------------------------------------------- the users' payloads

  /** The payloads of these chunks hold what they held. */
  ghost predicate Untouched(l: Layout, slots: set<Slot>, m: Memory, m': Memory)
  {
    forall s, a :: s in slots && l.Has(s) && l.At(s) + WORD_SIZE <= a < l.At(s) + WORD_SIZE + l.size ==>
      (a in m <==> a in m') && (a in m ==> m[a] == m'[a])
  }

  lemma UntouchedTwice(l: Layout, slots: set<Slot>, m: Memory, m': Memory, m'': Memory)
    requires Untouched(l, slots, m, m') && Untouched(l, slots, m', m'')
    ensures Untouched(l, slots, m, m'')
  {
  }

  /** A write to one chunk leaves every other chunk's payload alone, and its own if it is to the status word. */
  lemma OthersUntouched(l: Layout, s: Slot, a: Address, v: nat, m: Memory)
    requires Sound(l) && l.Has(s) && l.At(s) <= a < l.At(s) + WORD_SIZE + l.size
    ensures Untouched(l, AllSlots(|l.blocks|, l.perBlock) - {s}, m, m[a := v])
    ensures a == l.At(s) ==> Untouched(l, AllSlots(|l.blocks|, l.perBlock), m, m[a := v])
  {
    forall t | l.Has(t) && t != s
      ensures Apart(l.At(s), WORD_SIZE + l.size, l.At(t), WORD_SIZE + l.size)
    {
      ChunksApart(l, s, t);
    }
  }

  lemma GivenUntouched(l: Layout, s: Slot, v: nat, m: Memory, slots: set<Slot>)
    requires Sound(l) && l.Has(s) && slots <= AllSlots(|l.blocks|, l.perBlock) - {s}
    ensures Untouched(l, slots, m, m[l.At(s) := FREE][l.At(s) + WORD_SIZE := v])
  {
    var m1 := m[l.At(s) := FREE];
    OthersUntouched(l, s, l.At(s), FREE, m);
    OthersUntouched(l, s, l.At(s) + WORD_SIZE, v, m1);
    UntouchedTwice(l, slots, m, m1, m1[l.At(s) + WORD_SIZE := v]);
  }

  /** What is written inside the newest block leaves the chunks of the others alone. */
  lemma OlderUntouched(l: Layout, m: Memory, m': Memory)
    requires Sound(l) && l.blocks != [] && SameOutside(m, m', l.blocks[|l.blocks| - 1], l.Space())
    ensures Untouched(l, AllSlots(|l.blocks| - 1, l.perBlock), m, m')
  {
    var block := l.blocks[|l.blocks| - 1];
    var o, o' := Outside(m, block, l.Space()), Outside(m', block, l.Space());
    forall s, a | s in AllSlots(|l.blocks| - 1, l.perBlock) && l.Has(s) &&
                  l.At(s) + WORD_SIZE <= a < l.At(s) + WORD_SIZE + l.size
      ensures (a in m <==> a in m') && (a in m ==> m[a] == m'[a])
    {
      Inside(l, s);
      assert Apart(l.blocks[s.block], l.Space(), block, l.Space());
      assert (a in m <==> a in o) && (a in m' <==> a in o');
    }
  }

  /** The pool keeps nothing in the payload of a chunk in use. */
  lemma StoredOk(l: Layout, free: seq<Slot>, m: Memory, s: Slot, a: Address, v: nat)
    requires Ok(l, free, m, |free|) && l.Has(s) && s !in free && l.At(s) + WORD_SIZE <= a < l.At(s) + WORD_SIZE + l.size
    ensures Ok(l, free, m[a := v], |free|)
  {
    ChainKept(l, m, s, a, v);
    OthersKept(l, s, a);
    forall t | l.Has(t)
      ensures Holds(m[a := v], l.At(t), if t in free then FREE else ALLOCATED)
    {
      assert Holds(m, l.At(t), if t in free then FREE else ALLOCATED);
    }
    forall j | 0 <= j < |free|
      ensures Holds(m[a := v], Link(l, free, j), FreeAt(l, free, j + 1))
    {
      assert Holds(m, Link(l, free, j), FreeAt(l, free, j + 1));
      assert free[j] != s;
    }
  }

  // ---------------------------------------------------------------- the pool

  class FixedChunkMemoryPool {
    const chunkPerBlock: nat
    var freeChunkHeader: Address
    var blockChain: Address
    var blockCount: nat
    var memory: Memory
    /** The aligned size that every call passes. */
    ghost const size: nat
    ghost var blocks: seq<Address>
    ghost var free: seq<Slot>

    ghost function L(): Layout
      reads this
    {
      Layout(blocks, size, chunkPerBlock, chunkPerBlock)
    }

    ghost predicate Valid()
      reads this
    {
      && Ok(L(), free, memory, |free|)
      && freeChunkHeader == FreeAt(L(), free, 0)
      && blockChain == Before(blocks, |blocks|) && blockCount == |blocks|
    }

    constructor (chunkPerBlock: nat, ghost size: nat)
      requires chunkPerBlock >= 1 && size >= WORD_SIZE
      ensures Valid() && blocks == [] && free == [] && this.chunkPerBlock == chunkPerBlock && this.size == size
    {
      this.chunkPerBlock, this.size := chunkPerBlock, size;
      freeChunkHeader, blockChain, blockCount := 0, 0, 0;
      memory, blocks, free := map[], [], [];
    }

    /** The chunks in use. */
    ghost function Live(): set<Slot>
      reads this
    {
      AllSlots(|blocks|, chunkPerBlock) - SetOf(free)
    }

    /** Link the last chunk to the next and mark that. */
    method LinkChunk(sz: nat, chunk: Address, ghost l: Layout, ghost was: Memory) returns (next: Address)
      requires Linking(l, free, memory, chunk, was) && l.filled < l.perBlock && sz == l.size
      modifies `memory, `free
      ensures Linking(AddChunk(l), free, memory, next, was)
    {
      next := chunk + WORD_SIZE + sz;
      LinkTurn(l, free, memory, chunk, next, was);
      memory := memory[chunk + WORD_SIZE := next];
      memory := memory[next := FREE];
      free := free + [NextSlot(l)];
    }

    /** The loop that links the chunks of the new block, and the end of the list. */
    method LinkChunks(sz: nat, block: Address)
      requires sz == size && chunkPerBlock >= 1 && blocks != [] && block == blocks[|blocks| - 1]
      requires freeChunkHeader == block + WORD_SIZE && free == FirstSlots(|blocks| - 1, 1)
      requires Ok(Layout(blocks, size, chunkPerBlock, 1), free, memory, 0)
      modifies `memory, `free
      ensures free == FirstSlots(|blocks| - 1, chunkPerBlock) && Ok(L(), free, memory, |free|)
      ensures SameOutside(old(memory), memory, block, L().Space())
    {
      var chunk: Address := freeChunkHeader;
      ghost var l := Layout(blocks, size, chunkPerBlock, 1);
      for i := 1 to chunkPerBlock
        invariant l == Layout(blocks, size, chunkPerBlock, i) && Linking(l, free, memory, chunk, old(memory))
      {
        chunk := LinkChunk(sz, chunk, l, old(memory));
        l := AddChunk(l);
      }
      LinkEnd(l, free, memory, chunk, old(memory));
      memory := memory[chunk + WORD_SIZE := 0];
    }

    /** Link the block in and mark its first chunk. */
    method StartBlock(provided: Address)
      requires Valid() && free == [] && NewBlock(L(), provided)
      modifies `memory, `blockChain, `blocks, `freeChunkHeader, `free
      ensures blockChain == provided && blocks == old(blocks) + [provided] && freeChunkHeader == provided + WORD_SIZE
      ensures free == FirstSlots(|old(blocks)|, 1)
      ensures Ok(AddChunk(AddBlock(old(L()), provided)), free, memory, 0)
      ensures SameOutside(old(memory), memory, provided, L().Space())
    {
      FirstChunk(L(), memory, provided);
      memory := memory[provided := blockChain];
      blockChain := provided;
      freeChunkHeader := provided + WORD_SIZE;
      memory := memory[freeChunkHeader := FREE];
      blocks := blocks + [provided];
      free := FirstSlots(|old(blocks)|, 1);
    }

    /** A new block, all its chunks on the free list in the order of their addresses; null if malloc fails. */
    method AllocBlock(sz: nat, provided: Address) returns (header: Address)
      requires Valid() && free == [] && sz == size
      requires provided != 0 ==> NewBlock(L(), provided)
      modifies this
      ensures Valid() && header == freeChunkHeader
      ensures provided == 0 ==> unchanged(this) && header == 0
      ensures provided != 0 ==>
                && blocks == old(blocks) + [provided] && free == FirstSlots(|old(blocks)|, chunkPerBlock)
                && SameOutside(old(memory), memory, provided, L().Space())
    {
      if provided == 0 {
        return 0;
      }
      StartBlock(provided);
      LinkChunks(sz, provided);
      blockCount := blockCount + 1;
      return freeChunkHeader;
    }

    /** Take the first free chunk. */
    method TakeFirst() returns (ptr: Address, ghost s: Slot)
      requires Valid() && free != []
      modifies `memory, `freeChunkHeader, `free
      ensures Valid() && s == old(free)[0] && free == old(free)[1..] && L().Has(s) && ptr == L().At(s) + WORD_SIZE
      ensures s in Live() && Live() == old(Live()) + {s} && s !in old(Live())
      ensures Untouched(L(), old(Live()), old(memory), memory)
    {
      s := free[0];
      TakenOk(L(), free, memory);
      TakeLive(|blocks|, chunkPerBlock, free);
      var header := freeChunkHeader;
      assert Link(L(), free, 0) == header + WORD_SIZE;
      freeChunkHeader := memory[freeChunkHeader + WORD_SIZE];
      memory := memory[header := ALLOCATED];
      free := free[1..];
      OthersUntouched(L(), s, header, ALLOCATED, old(memory));
      return header + WORD_SIZE, s;
    }

    lemma HeaderNull()
      requires Valid()
      ensures freeChunkHeader == 0 <==> free == []
    {
      if free != [] {
        Inside(L(), free[0]);
      }
    }

    /** A new block when the free list is empty, as the chunks in use see it. */
    method Grow(sz: nat, provided: Address) returns (header: Address)
      requires Valid() && free == [] && sz == size
      requires provided != 0 ==> NewBlock(L(), provided)
      modifies this
      ensures Valid() && (header == 0 <==> provided == 0)
      ensures provided == 0 ==> unchanged(this)
      ensures provided != 0 ==>
                && blocks == old(blocks) + [provided] && free != []
                && Live() == old(Live()) && Untouched(L(), old(Live()), old(memory), memory)
    {
      header := AllocBlock(sz, provided);
      HeaderNull();
      if provided != 0 {
        BlockLive(|old(blocks)|, chunkPerBlock);
        OlderUntouched(L(), old(memory), memory);
      }
    }

    /** A chunk for the caller: the first free one, or else the first of a new block; null if there is none. */
    method Malloc(sz: nat, provided: Address) returns (ptr: Address, ghost s: Slot)
      requires Valid() && (sz != 0 ==> AlignSize(sz) == size)
      requires provided != 0 ==> NewBlock(L(), provided)
      modifies this
      ensures Valid() && (ptr == 0 <==> sz == 0 || (old(free) == [] && provided == 0))
      ensures ptr == 0 ==> unchanged(this)
      ensures ptr != 0 ==> sz <= size && (size == sz || size == WORD_SIZE)
      ensures ptr != 0 ==>
                && L().Has(s) && ptr == L().At(s) + WORD_SIZE && s in Live()
                && Live() == old(Live()) + {s} && s !in old(Live()) && Untouched(L(), old(Live()), old(memory), memory)
      ensures ptr != 0 ==> blocks == old(blocks) + if old(free) == [] then [provided] else []
    {
      if sz == 0 {
        return 0, Slot(0, 0);
      }
      var size := AlignSize(sz);
      var header := freeChunkHeader;
      HeaderNull();
      if header == 0 {
        header := Grow(size, provided);
        if header == 0 {
          return 0, Slot(0, 0);
        }
      }
      ghost var was := memory;
      ptr, s := TakeFirst();
      UntouchedTwice(L(), old(Live()), old(memory), was, memory);
    }

    /** Mark the chunk and link it in front of the free ones. */
    method PutBack(chunk: Address, ghost s: Slot)
      requires Valid() && L().Has(s) && s !in free && chunk == L().At(s)
      modifies `memory, `freeChunkHeader, `free
      ensures Valid() && free == [s] + old(free)
      ensures memory == old(memory)[chunk := FREE][chunk + WORD_SIZE := old(freeChunkHeader)]
    {
      GivenOk(L(), free, memory, s);
      memory := memory[chunk := FREE];
      memory := memory[chunk + WORD_SIZE := freeChunkHeader];
      freeChunkHeader := chunk;
      free := [s] + free;
    }

    /** Give a chunk back; it becomes the first free one. A null pointer is ignored. */
    method Free(ptr: Address, ghost s: Slot)
      requires Valid() && (ptr != 0 ==> s in Live() && ptr == L().At(s) + WORD_SIZE)
      modifies `memory, `freeChunkHeader, `free
      ensures Valid()
      ensures ptr == 0 ==> unchanged(this)
      ensures ptr != 0 ==>
                && free == [s] + old(free) && Live() == old(Live()) - {s}
                && Untouched(L(), Live(), old(memory), memory)
    {
      if ptr == 0 {
        return;
      }
      ghost var live := Live() - {s};
      GivenUntouched(L(), s, freeChunkHeader, memory, live);
      PutBack(ptr - WORD_SIZE, s);
      assert SetOf(free) == SetOf(old(free)) + {s};
      assert Live() == live;
    }

    /** The user writes anything anywhere in the payload of a chunk it holds. */
    method Store(ptr: Address, a: Address, v: nat, ghost s: Slot)
      requires Valid() && s in Live() && ptr == L().At(s) + WORD_SIZE && ptr <= a < ptr + size
      modifies `memory
      ensures Valid() && memory == old(memory)[a := v] && Untouched(L(), Live() - {s}, old(memory), memory)
    {
      OthersUntouched(L(), s, a, v, memory);
      StoredOk(L(), free, memory, s, a, v);
      memory := memory[a := v];
    }

    // ------------------------------------------------------------ counting

    /** The free chunks of one block, found by their status words. */
    method GetFreeChunkNumInBlock(block: Address, sz: nat, ghost k: nat) returns (count: nat)
      requires Valid() && sz == size && k < |blocks| && block == blocks[k]
      ensures count + |Passed(free, k, 0)| == |Passed(free, k, chunkPerBlock)|
    {
      var chunk: Address := block + WORD_SIZE;
      count := 0;
      for i := 0 to chunkPerBlock
        invariant chunk == ChunkAt(block, i, size) && count + |Passed(free, k, 0)| == |Passed(free, k, i)|
      {
        PassOne(free, k, i);
        assert Holds(memory, L().At(Slot(k, i)), if Slot(k, i) in free then FREE else ALLOCATED);
        if memory[chunk] == FREE {
          count := count + 1;
        }
        chunk := chunk + WORD_SIZE + sz;
      }
    }

    /** Every chunk is either free or in use. */
    lemma Conservation()
      requires Valid()
      ensures |free| + |Live()| == blockCount * chunkPerBlock
    {
      AllSlotsSize(|blocks|, chunkPerBlock);
      SetOfSize(free);
      assert SetOf(free) <= AllSlots(|blocks|, chunkPerBlock);
    }

    lemma PassedEnds()
      requires Valid()
      ensures Passed(free, |blocks| - 1, 0) == {} && |Passed(free, -1, 0)| == |free|
    {
      assert Passed(free, |blocks| - 1, 0) == {};
      assert Passed(free, -1, 0) == SetOf(free);
      SetOfSize(free);
    }

    /** The loop down the chain of blocks. */
    method CountChain(sz: nat) returns (count: nat)
      requires Valid() && sz == size
      ensures count == |free|
    {
      var block := blockChain;
      count := 0;
      ghost var k := |blocks|;
      PassedEnds();
      while block != 0
        invariant 0 <= k <= |blocks| && block == Before(blocks, k) && count == |Passed(free, k - 1, 0)|
        decreases k
      {
        var n := GetFreeChunkNumInBlock(block, sz, k - 1);
        count := count + n;
        NextRow(L(), free, k - 1);
        assert Holds(memory, blocks[k - 1], Before(blocks, k - 1));
        block := memory[block];
        k := k - 1;
      }
    }

    /** The count over all blocks is the length of the free list. */
    method GetFreeChunkNum(sz: nat) returns (count: nat)
      requires Valid() && AlignSize(sz) == size
      ensures count == |free| && count + |Live()| == blockCount * chunkPerBlock
    {
      count := CountChain(AlignSize(sz));
      Conservation();
    }

    /** What two chunks in use are to each other and to the words the pool keeps. */
    lemma PayloadsApart(s: Slot, t: Slot, k: nat)
      requires Valid() && s in Live() && t in AllSlots(|blocks|, chunkPerBlock) && k < |blocks|
      ensures var p := L().At(s) + WORD_SIZE;
              && blocks[s.block] < p && p + size <= blocks[s.block] + L().Space()
              && (s != t ==> Apart(p, size, L().At(t) + WORD_SIZE, size))
              && Apart(p, size, L().At(t), WORD_SIZE) && Apart(p, size, blocks[k], WORD_SIZE)
    {
      Inside(L(), s);
      LinkApart(L(), s, k);
      if s != t {
        ChunksApart(L(), s, t);
      }
    }

    /** And of the sz bytes that were asked for in particular. */
    lemma RequestApart(sz: nat, s: Slot, t: Slot, k: nat)
      requires Valid() && s in Live() && t in AllSlots(|blocks|, chunkPerBlock) && k < |blocks|
      ensures AlignSize(sz) == size ==>
                var p := L().At(s) + WORD_SIZE;
                && blocks[s.block] < p && p + sz <= blocks[s.block] + L().Space()
                && (s != t ==> Apart(p, sz, L().At(t) + WORD_SIZE, size))
                && Apart(p, sz, L().At(t), WORD_SIZE) && Apart(p, sz, blocks[k], WORD_SIZE)
    {
      PayloadsApart(s, t, k);
    }

    /** Each block takes a link, and for each chunk a status word and the bytes asked for, a word at least. */
    method GetUsage(sz: nat) returns (usage: nat)
      requires Valid()
      ensures AlignSize(sz) == size ==> usage == |blocks| * L().Space()
      ensures usage == |blocks| * (8 + chunkPerBlock * (8 + if sz >= 8 then sz else 8))
    {
      usage := BlockSpace(AlignSize(sz), chunkPerBlock) * blockCount;
      Usage(sz, chunkPerBlock, blockCount);
    }
  }
}
