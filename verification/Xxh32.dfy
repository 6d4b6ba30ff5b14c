/** XXH32: the one-shot routine, the streaming state, and the hash both compute.

    `Hash` is the algorithm of the "XXH32 Algorithm Description" section of the xxHash
    fast digest algorithm specification, written over the whole input at once. */
module Xxh32 {
  import opened Bytes
  import opened Striping

  type word = bv32

  const PRIME32_1: word := 0x9E3779B1
  const PRIME32_2: word := 0x85EBCA77
  const PRIME32_3: word := 0xC2B2AE3D
  const PRIME32_4: word := 0x27D4EB2F
  const PRIME32_5: word := 0x165667B1

  /** The four accumulator lanes. */
  type Lanes = v: seq<word> | |v| == 4 witness [0, 0, 0, 0]

  function Init(seed: word): Lanes
  {
    [seed + PRIME32_1 + PRIME32_2, seed + PRIME32_2, seed + 0, seed - PRIME32_1]
  }

  function Round(acc: word, input: word): word
  {
    (acc + input * PRIME32_2).RotateLeft(13) * PRIME32_1
  }

  function ReadLE32(s: seq<byte>, i: nat): word
    requires i + 4 <= |s|
  {
    (s[i] as word) | ((s[i + 1] as word) << 8) | ((s[i + 2] as word) << 16) | ((s[i + 3] as word) << 24)
  }

  /** One 16-byte stripe, four bytes to each lane. */
  function Stripe(v: Lanes, s: Block): Lanes
  {
    seq(4, i requires 0 <= i < 4 => Round(v[i], ReadLE32(s, 4 * i)))
  }

  /** The lanes after every complete stripe of s. */
  function Absorb(v: Lanes, s: seq<byte>): Lanes
  {
    Stripes(Stripe, v, s)
  }

  function Converge(v: Lanes): word
  {
    v[0].RotateLeft(1) + v[1].RotateLeft(7) + v[2].RotateLeft(12) + v[3].RotateLeft(18)
  }

  function MixWord(h: word, w: word): word
  {
    (h + w * PRIME32_3).RotateLeft(17) * PRIME32_4
  }

  function MixByte(h: word, b: word): word
  {
    (h + b * PRIME32_5).RotateLeft(11) * PRIME32_1
  }

  /** The bytes after the last stripe: four at a time, then one at a time. */
  function Mixed(four: (word, word) -> word, one: (word, word) -> word, h: word, s: seq<byte>): word
    decreases |s|
  {
    if |s| >= 4 then Mixed(four, one, four(h, ReadLE32(s, 0)), s[4..])
    else if |s| > 0 then Mixed(four, one, one(h, s[0] as word), s[1..])
    else h
  }

  function Remainder(h: word, s: seq<byte>): word
  {
    Mixed(MixWord, MixByte, h, s)
  }

  function Avalanche(h: word): word
  {
    var a := (h ^ (h >> 15)) * PRIME32_2;
    var b := (a ^ (a >> 13)) * PRIME32_3;
    b ^ (b >> 16)
  }

  /** The accumulator before the length and the remaining bytes are mixed in. */
  function Accumulate(s: seq<byte>, seed: word): word
  {
    if |s| >= 16 then Converge(Absorb(Init(seed), s)) else seed + PRIME32_5
  }

  /** Mix in the length, cast to 32 bits, and the bytes after the last stripe. */
  function Finish(h: word, length: u32, tail: seq<byte>): word
  {
    Avalanche(Remainder(h + (length as word), tail))
  }

  /** The XXH32 digest of a whole byte sequence. */
  function Hash(s: seq<byte>, seed: word): word
  {
    Finish(Accumulate(s, seed), |s| % WORD, Pending(s))
  }

  lemma WordTurn(four: (word, word) -> word, one: (word, word) -> word, h: word, s: seq<byte>, p: nat)
    requires p + 4 <= |s|
    ensures Mixed(four, one, h, s[p..]) == Mixed(four, one, four(h, ReadLE32(s[p..], 0)), s[p + 4..])
  {
    assert s[p..][4..] == s[p + 4..];
  }

  lemma ByteTurn(four: (word, word) -> word, one: (word, word) -> word, h: word, s: seq<byte>, p: nat)
    requires p < |s| < p + 4
    ensures Mixed(four, one, h, s[p..]) == Mixed(four, one, one(h, s[p..][0] as word), s[p + 1..])
  {
    assert s[p..][1..] == s[p + 1..];
  }

  /** The two loops of XXH32_finalize. */
  method MixRest(four: (word, word) -> word, one: (word, word) -> word, h0: word, s: seq<byte>, len0: nat)
    returns (h: word)
    requires len0 % 16 == |s|
    ensures h == Mixed(four, one, h0, s)
  {
    h := h0;
    var p, len: nat := 0, len0 % 16;
    assert s[0..] == s;
    while len >= 4
      invariant 0 <= p <= |s| && p + len == |s| && Mixed(four, one, h, s[p..]) == Mixed(four, one, h0, s)
    {
      WordTurn(four, one, h, s, p);
      h := four(h, ReadLE32(s[p..], 0));
      p, len := p + 4, len - 4;
    }
    while len > 0
      invariant 0 <= p <= |s| && p + len == |s| && len < 4 && Mixed(four, one, h, s[p..]) == Mixed(four, one, h0, s)
    {
      ByteTurn(four, one, h, s, p);
      h := one(h, s[p..][0] as word);
      p, len := p + 1, len - 1;
    }
  }

  /** `h32 += length` followed by XXH32_finalize. */
  method Finalize(h0: word, length: u32, s: seq<byte>, len0: nat) returns (h: word)
    requires len0 % 16 == |s|
    ensures h == Finish(h0, length, s)
  {
    h := MixRest(MixWord, MixByte, h0 + (length as word), s, len0);
    h := Avalanche(h);
  }

  /** The first half of the one-shot routine: the accumulator, and where the stripes end. */
  method AccumulateStripes(input: seq<byte>, seed: word) returns (h: word, p: nat)
    ensures h == Accumulate(input, seed) && p <= |input| && input[p..] == Pending(input)
  {
    assert input[0..] == input;
    if |input| >= 16 {
      var v;
      v, p := ConsumeStripes(Stripe, Init(seed), input, 0);
      h := Converge(v);
    } else {
      h, p := seed + PRIME32_5, 0;
    }
  }

  /** The receiver's routine, over one contiguous region. */
  method OneShot(input: seq<byte>, seed: word) returns (h: word)
    ensures h == Hash(input, seed)
  {
    var p;
    h, p := AccumulateStripes(input, seed);
    PendingLength(input);
    h := Finalize(h, |input| % WORD, input[p..], |input|);
  }

  // ---------------------------------------------------------------- streaming

  /** What a streaming state holds: the length modulo 2^32, the sticky flag, the lanes and the bytes kept back. */
  datatype Snapshot = Snapshot(totalLen: u32, largeLen: bool, lanes: Lanes, pending: seq<byte>)

  /** What the state must hold once `data` has been fed since a reset with `seed`. */
  function After(data: seq<byte>, seed: word): Snapshot
  {
    Snapshot(|data| % WORD, |data| >= 16, Absorb(Init(seed), data), Pending(data))
  }

  /** What one update does to it. */
  function Fed(s: Snapshot, input: seq<byte>): Snapshot
  {
    var total := (s.totalLen + |input|) % WORD;
    Snapshot(total, s.largeLen || |input| >= 16 || total >= 16,
             Absorb(s.lanes, s.pending + input), Pending(s.pending + input))
  }

  function DigestOf(s: Snapshot): word
  {
    Finish(if s.largeLen then Converge(s.lanes) else s.lanes[2] + PRIME32_5, s.totalLen, s.pending)
  }

  class State {
    var totalLen: u32
    var largeLen: bool
    var v: Lanes
    const mem: array<byte>
    var memSize: nat

    ghost predicate Valid()
      reads this
    {
      mem.Length == 16 && memSize < 16
    }

    ghost function View(): Snapshot
      requires Valid()
      reads this, mem
    {
      Snapshot(totalLen, largeLen, v, mem[..memSize])
    }

    constructor (seed: word)
      ensures Valid() && fresh(mem) && View() == After([], seed)
    {
      totalLen, largeLen := 0, false;
      v := Init(seed);
      mem := new byte[16](_ => 0);
      memSize := 0;
    }

    /** memcpy into mem at an offset: what was kept before the offset is now followed by the piece. */
    method CopyToMem(at: nat, piece: seq<byte>)
      requires at + |piece| <= mem.Length
      modifies mem
      ensures mem[..at + |piece|] == old(mem[..at]) + piece
    {
      for i := 0 to |piece|
        invariant mem[..at] == old(mem[..at])
        invariant forall k :: 0 <= k < i ==> mem[at + k] == piece[k]
      {
        mem[at + i] := piece[i];
      }
    }

    /** The first stripe of an update: the bytes kept back, completed from the input. */
    method TopUp(input: seq<byte>) returns (p: nat)
      requires Valid() && memSize > 0 && memSize + |input| >= 16
      modifies this, mem
      ensures Valid() && memSize == 0 && p <= |input| && totalLen == old(totalLen) && largeLen == old(largeLen)
      ensures Absorb(v, input[p..]) == Absorb(old(v), old(mem[..memSize]) + input)
      ensures Pending(input[p..]) == Pending(old(mem[..memSize]) + input)
    {
      ghost var all := mem[..memSize] + input;
      p := 16 - memSize;
      CopyToMem(memSize, input[..p]);
      assert mem[..] == mem[..16] == all[..16] && input[p..] == all[16..];
      v := Stripe(v, mem[..]);
      memSize := 0;
    }

    /** The input fits behind the bytes kept back. */
    method KeepAll(input: seq<byte>)
      requires Valid() && memSize + |input| < 16
      modifies this`memSize, mem
      ensures Valid() && mem[..memSize] == old(mem[..memSize]) + input
    {
      CopyToMem(memSize, input);
      memSize := memSize + |input|;
    }

    /** The input completes a stripe: consume what is complete and keep the rest. */
    method Consume(input: seq<byte>)
      requires Valid() && memSize + |input| >= 16
      modifies this, mem
      ensures Valid() && totalLen == old(totalLen) && largeLen == old(largeLen)
      ensures v == Absorb(old(v), old(mem[..memSize]) + input) && mem[..memSize] == Pending(old(mem[..memSize]) + input)
    {
      ghost var all := mem[..memSize] + input;
      var p := 0;
      if memSize > 0 {
        p := TopUp(input);
      } else {
        assert all == input[p..];
      }
      v, p := ConsumeStripes(Stripe, v, input, p);

      if p < |input| {
        CopyToMem(0, input[p..]);
        memSize := |input| - p;
      }
      assert mem[..memSize] == [] + input[p..];
    }

    method Update(input: seq<byte>)
      requires Valid()
      modifies this, mem
      ensures Valid() && View() == Fed(old(View()), input)
    {
      var len := |input|;
      totalLen := (totalLen + len) % WORD;
      largeLen := largeLen || len >= 16 || totalLen >= 16;

      if memSize + len < 16 {
        KeepAll(input);
      } else {
        Consume(input);
      }
    }

    method Digest() returns (h: word)
      requires Valid()
      ensures h == DigestOf(View())
    {
      if largeLen {
        h := Converge(v);
      } else {
        h := v[2] + PRIME32_5;
      }
      h := Finalize(h, totalLen, mem[..memSize], memSize);
    }
  }

  lemma WrapAdd(a: nat, b: nat)
    ensures (a % WORD + b) % WORD == (a + b) % WORD
  {
  }

  /** One update takes the state for `data` to the state for `data + input`, flag and wrapped length included. */
  lemma FedAfter(data: seq<byte>, input: seq<byte>, seed: word)
    ensures Fed(After(data, seed), input) == After(data + input, seed)
  {
    WrapAdd(|data|, |input|);
    FeedConcat(Stripe, Init(seed), data, input);
  }

  /** The digest of the state for `data` is the one-shot hash of `data`. */
  lemma DigestAfter(data: seq<byte>, seed: word)
    ensures DigestOf(After(data, seed)) == Hash(data, seed)
  {
    assert |data| < 16 ==> After(data, seed).lanes[2] == seed;
  }

  /** Every update in turn. */
  function FedAll(s: Snapshot, pieces: seq<seq<byte>>): Snapshot
    decreases |pieces|
  {
    if pieces == [] then s else FedAll(Fed(s, pieces[0]), pieces[1..])
  }

  lemma {:induction false} FedAllAfter(data: seq<byte>, pieces: seq<seq<byte>>, seed: word)
    ensures FedAll(After(data, seed), pieces) == After(data + Flatten(pieces), seed)
    decreases |pieces|
  {
    if pieces == [] {
      assert data + Flatten(pieces) == data;
    } else {
      FedAfter(data, pieces[0], seed);
      FedAllAfter(data + pieces[0], pieces[1..], seed);
      assert data + Flatten(pieces) == data + pieces[0] + Flatten(pieces[1..]);
    }
  }

  /** Streaming equals one-shot, for every way of cutting the input into pieces. */
  lemma {:induction false} StreamingIsOneShot(pieces: seq<seq<byte>>, seed: word)
    ensures DigestOf(FedAll(After([], seed), pieces)) == Hash(Flatten(pieces), seed)
  {
    FedAllAfter([], pieces, seed);
    DigestAfter(Flatten(pieces), seed);
    assert [] + Flatten(pieces) == Flatten(pieces);
  }

  /** The sender's routine: reset, one update per piece, digest. */
  method HashPieces(pieces: seq<seq<byte>>, seed: word) returns (h: word)
    ensures h == Hash(Flatten(pieces), seed)
  {
    var state := new State(seed);
    for i := 0 to |pieces|
      invariant fresh(state) && fresh(state.mem) && state.Valid()
      invariant FedAll(state.View(), pieces[i..]) == FedAll(After([], seed), pieces)
    {
      assert pieces[i..][1..] == pieces[i + 1..];
      state.Update(pieces[i]);
    }
    h := state.Digest();
    StreamingIsOneShot(pieces, seed);
  }
}
