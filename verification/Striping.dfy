/** Folding a step function over the complete 16-byte stripes of an input, all at once or piece by piece. */
module Striping {
  import opened Bytes

  type Block = s: seq<byte> | |s| == 16 witness seq(16, _ => 0)

  /** Every complete stripe of s, in order; the last |s| % 16 bytes are left alone. */
  function Stripes<L>(step: (L, Block) -> L, v: L, s: seq<byte>): L
    decreases |s|
  {
    if |s| < 16 then v else Stripes(step, step(v, s[..16]), s[16..])
  }

  /** The bytes after the last complete stripe. */
  function Pending(s: seq<byte>): (tail: seq<byte>)
    ensures |tail| < 16
    decreases |s|
  {
    if |s| < 16 then s else Pending(s[16..])
  }

  lemma {:induction false} PendingLength(s: seq<byte>)
    ensures |Pending(s)| == |s| % 16
    decreases |s|
  {
    if |s| >= 16 {
      PendingLength(s[16..]);
    }
  }

  /** Feeding b after a folds the stripes of a, and then those of the bytes a left pending and b. */
  lemma {:induction false} FeedConcat<L>(step: (L, Block) -> L, v: L, a: seq<byte>, b: seq<byte>)
    ensures Stripes(step, v, a + b) == Stripes(step, Stripes(step, v, a), Pending(a) + b)
    ensures Pending(a + b) == Pending(Pending(a) + b)
    decreases |a|
  {
    if |a| >= 16 {
      assert (a + b)[..16] == a[..16] && (a + b)[16..] == a[16..] + b;
      FeedConcat(step, step(v, a[..16]), a[16..], b);
    }
  }

  lemma NextStripe<L>(step: (L, Block) -> L, v: L, input: seq<byte>, p: nat)
    requires p + 16 <= |input|
    ensures Stripes(step, step(v, input[p..p + 16]), input[p + 16..]) == Stripes(step, v, input[p..])
    ensures Pending(input[p + 16..]) == Pending(input[p..])
  {
    assert input[p..][..16] == input[p..p + 16] && input[p..][16..] == input[p + 16..];
  }

  /** The stripe loop of both hash routines: every complete stripe from `start` on. */
  method ConsumeStripes<L>(step: (L, Block) -> L, v0: L, input: seq<byte>, start: nat) returns (v: L, p: nat)
    requires start <= |input|
    ensures start <= p <= |input| < p + 16
    ensures v == Stripes(step, v0, input[start..])
    ensures input[p..] == Pending(input[start..])
  {
    v, p := v0, start;
    while p + 16 <= |input|
      invariant start <= p <= |input|
      invariant Stripes(step, v, input[p..]) == Stripes(step, v0, input[start..])
      invariant Pending(input[p..]) == Pending(input[start..])
    {
      NextStripe(step, v, input, p);
      v := step(v, input[p..p + 16]);
      p := p + 16;
    }
  }
}
