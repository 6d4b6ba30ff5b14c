/** How many threads of a protocol are in a program counter of some kind, and how one thread's move changes that. */
module Counting {

  function One(b: bool): nat
  {
    if b then 1 else 0
  }

  /** `pc[t]` is where thread t is; `holds(k, p)` says that p is of kind k. */
  function Count<P, K>(pc: seq<P>, k: K, holds: (K, P) -> bool): nat
  {
    if pc == [] then 0 else One(holds(k, pc[0])) + Count(pc[1..], k, holds)
  }

  lemma {:induction false} CountSet<P, K>(pc: seq<P>, t: nat, p: P, k: K, holds: (K, P) -> bool)
    requires t < |pc|
    ensures Count(pc[t := p], k, holds) == Count(pc, k, holds) - One(holds(k, pc[t])) + One(holds(k, p))
  {
    if t > 0 {
      assert pc[t := p][1..] == pc[1..][t - 1 := p];
      CountSet(pc[1..], t - 1, p, k, holds);
    } else {
      assert pc[t := p][1..] == pc[1..];
    }
  }

  /** What one thread's move does to every count. */
  lemma Moves<P, K(!new)>(pc: seq<P>, t: nat, p: P, holds: (K, P) -> bool)
    requires t < |pc|
    ensures forall k :: Count(pc[t := p], k, holds) == Count(pc, k, holds) - One(holds(k, pc[t])) + One(holds(k, p))
  {
    forall k
      ensures Count(pc[t := p], k, holds) == Count(pc, k, holds) - One(holds(k, pc[t])) + One(holds(k, p))
    {
      CountSet(pc, t, p, k, holds);
    }
  }

  lemma {:induction false} CountIn<P, K>(pc: seq<P>, t: nat, k: K, holds: (K, P) -> bool)
    requires t < |pc| && holds(k, pc[t])
    ensures Count(pc, k, holds) > 0
  {
    if t > 0 {
      CountIn(pc[1..], t - 1, k, holds);
    }
  }

  lemma {:induction false} CountFound<P, K>(pc: seq<P>, k: K, holds: (K, P) -> bool) returns (t: nat)
    requires Count(pc, k, holds) > 0
    ensures t < |pc| && holds(k, pc[t])
  {
    if holds(k, pc[0]) {
      t := 0;
    } else {
      t := CountFound(pc[1..], k, holds);
      t := t + 1;
    }
  }

  lemma NoneOf<P, K>(pc: seq<P>, k: K, holds: (K, P) -> bool)
    ensures Count(pc, k, holds) == 0 <==> forall t :: 0 <= t < |pc| ==> !holds(k, pc[t])
  {
    if Count(pc, k, holds) > 0 {
      var t := CountFound(pc, k, holds);
    } else {
      forall t | 0 <= t < |pc|
        ensures !holds(k, pc[t])
      {
        if holds(k, pc[t]) {
          CountIn(pc, t, k, holds);
        }
      }
    }
  }

  /** Fewer participants, or as many and fewer of them notified: a rank that drops, for n threads. */
  lemma MeasureDrops(n: nat, p: nat, w: nat, p': nat, w': nat)
    requires w' <= n && ((p' < p) || (p' == p && w' < w))
    ensures p' * (n + 1) + w' < p * (n + 1) + w
  {
    if p' < p {
      assert p' * (n + 1) + (n + 1) == (p' + 1) * (n + 1) <= p * (n + 1);
    }
  }
}
