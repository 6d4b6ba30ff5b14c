/** The singly linked list with a header that caches the last node and the number of elements.

    Every operation is proved to keep the heap representation (`Valid`) and to act on the
    sequence of values (`Contents`) as its name says. */
module ForwardLists {
  import opened Sequences
  import opened Ordering

  class Node<T(0)> {
    const val: T
    var next: Node?<T>

    /** The header sentinel, whose value is never looked at. */
    constructor Header()
      ensures next == null
    {
      next := null;
    }

    constructor (v: T)
      ensures val == v && next == null
    {
      val, next := v, null;
    }
  }

  function Vals<T(0)>(nodes: seq<Node<T>>): (vals: seq<T>)
    ensures |vals| == |nodes|
  {
    seq(|nodes|, i requires 0 <= i < |nodes| => nodes[i].val)
  }

  /** Values without those that satisfy the predicate. */
  function Kept<T>(s: seq<T>, pred: T -> bool): seq<T>
  {
    if s == [] then [] else (if pred(s[0]) then [] else [s[0]]) + Kept(s[1..], pred)
  }

  /** Each value is kept or not on its own, and the order stays. */
  lemma {:induction false} KeptConcat<T>(a: seq<T>, b: seq<T>, pred: T -> bool)
    ensures Kept(a + b, pred) == Kept(a, pred) + Kept(b, pred)
    ensures |a| == 1 ==> Kept(a, pred) == if pred(a[0]) then [] else a
  {
    if a == [] {
      assert a + b == b;
    } else {
      FirstOfBoth(a, b);
      KeptConcat(a[1..], b, pred);
    }
  }

  lemma {:induction false} KeptPrefix<T>(s: seq<T>, pred: T -> bool, k: nat)
    requires k <= |s| && forall i :: 0 <= i < k ==> !pred(s[i])
    ensures Kept(s, pred) == s[..k] + Kept(s[k..], pred)
  {
    if k > 0 {
      KeptPrefix(s[1..], pred, k - 1);
      assert s[1..][..k - 1] == s[1..k] && s[1..][k - 1..] == s[k..];
    }
  }

  ghost function Remove<T>(s: seq<T>, k: nat): seq<T>
    requires k < |s|
  {
    s[..k] + s[k + 1..]
  }

  lemma AllKept<T>(s: seq<T>, pred: T -> bool)
    requires forall i :: 0 <= i < |s| ==> !pred(s[i])
    ensures Kept(s, pred) == s
  {
    KeptPrefix(s, pred, |s|);
  }

  /** Removing a value that satisfies the predicate changes nothing of what is kept. */
  lemma {:induction false} KeptRemove<T>(s: seq<T>, pred: T -> bool, k: nat)
    requires k < |s| && pred(s[k]) && forall i :: 0 <= i < k ==> !pred(s[i])
    ensures Kept(Remove(s, k), pred) == Kept(s, pred)
  {
    var r := Remove(s, k);
    assert r[..k] == s[..k] && r[k..] == s[k + 1..] == s[k..][1..];
    assert forall i :: 0 <= i < k ==> r[i] == s[i];
    calc {
      Kept(r, pred);
      { KeptPrefix(r, pred, k); }
      s[..k] + Kept(s[k..][1..], pred);
      s[..k] + Kept(s[k..], pred);
      { KeptPrefix(s, pred, k); }
      Kept(s, pred);
    }
  }

  /** Each run of adjacent values that the predicate relates to its first value, reduced to that value. */
  function Deduped<T>(s: seq<T>, eq: (T, T) -> bool): (r: seq<T>)
    ensures s != [] ==> r != [] && r[0] == s[0]
    decreases |s|
  {
    if |s| < 2 then s
    else if eq(s[0], s[1]) then Deduped([s[0]] + s[2..], eq)
    else [s[0]] + Deduped(s[1..], eq)
  }

  /** The first run, as long as it goes on, leaves its first value, and what follows goes by itself. */
  lemma {:induction false} DedupedRun<T>(s: seq<T>, eq: (T, T) -> bool, k: nat)
    requires 0 < k <= |s| && (forall i :: 0 < i < k ==> eq(s[0], s[i])) && (k < |s| ==> !eq(s[0], s[k]))
    ensures Deduped(s, eq) == [s[0]] + Deduped(s[k..], eq)
    decreases |s|
  {
    if k > 1 {
      var t := [s[0]] + s[2..];
      assert forall i :: 0 < i < |t| ==> t[i] == s[i + 1];
      DedupedRun(t, eq, k - 1);
      assert t[k - 1..] == s[k..];
    } else if |s| == 1 {
      assert s == [s[0]] + s[1..];
    }
  }

  /** No two neighbours of the result are related. */
  lemma {:induction false} DedupedApart<T>(s: seq<T>, eq: (T, T) -> bool, i: nat)
    requires i + 1 < |Deduped(s, eq)|
    ensures !eq(Deduped(s, eq)[i], Deduped(s, eq)[i + 1])
    decreases |s|
  {
    if |s| >= 2 {
      if eq(s[0], s[1]) {
        DedupedApart([s[0]] + s[2..], eq, i);
      } else if i > 0 {
        DedupedApart(s[1..], eq, i - 1);
      }
    }
  }

  ghost function DedupedFrom<T>(c: seq<T>, k: nat, eq: (T, T) -> bool): seq<T>
    requires k <= |c|
  {
    c[..k] + Deduped(c[k..], eq)
  }

  lemma {:induction false} DedupedDrop<T>(c: seq<T>, k: nat, eq: (T, T) -> bool)
    requires k + 1 < |c| && eq(c[k], c[k + 1])
    ensures DedupedFrom(Remove(c, k + 1), k, eq) == DedupedFrom(c, k, eq)
  {
    assert Remove(c, k + 1)[k..] == [c[k..][0]] + c[k..][2..];
    assert Remove(c, k + 1)[..k] == c[..k];
  }

  lemma {:induction false} DedupedKeep<T>(c: seq<T>, k: nat, eq: (T, T) -> bool)
    requires k + 1 < |c| && !eq(c[k], c[k + 1])
    ensures DedupedFrom(c, k + 1, eq) == DedupedFrom(c, k, eq)
  {
    assert c[k..][1..] == c[k + 1..];
  }

  lemma {:induction false} DedupedEnds<T>(c: seq<T>, k: nat, eq: (T, T) -> bool)
    requires k <= |c|
    ensures k == 0 ==> DedupedFrom(c, k, eq) == Deduped(c, eq)
    ensures k + 1 >= |c| ==> DedupedFrom(c, k, eq) == c
  {
    assert c[0..] == c && c[..0] == [];
    assert c[..k] + c[k..] == c;
  }

  /** The i-th node, or null past the end. */
  ghost function NodeAt<T(0)>(nodes: seq<Node<T>>, i: nat): Node?<T>
  {
    if i < |nodes| then nodes[i] else null
  }

  /** The node after the i-th of a chain that ends before `last`. */
  ghost function Follower<T(0)>(chain: seq<Node<T>>, i: int, last: Node?<T>): Node?<T>
    requires -1 <= i
  {
    if i + 1 < |chain| then chain[i + 1] else last
  }

  ghost function Insert<T>(s: seq<T>, k: nat, x: T): seq<T>
    requires k <= |s|
  {
    s[..k] + [x] + s[k..]
  }

  lemma RemoveBehind<T>(s: seq<T>, n: nat)
    requires n < |s|
    ensures Remove(s, n)[..n] == s[..n]
  {
  }

  lemma RemoveInserted<T>(s: seq<T>, k: nat, x: T)
    requires k <= |s|
    ensures Remove(Insert(s, k, x), k) == s && Insert(s, k, x)[k] == x
  {
  }

  lemma InsertFront<T>(s: seq<T>, x: T)
    ensures Insert(s, 0, x) == [x] + s
  {
  }

  ghost function Splice<T>(s: seq<T>, k: nat, t: seq<T>): seq<T>
    requires k <= |s|
  {
    s[..k] + t + s[k..]
  }

  lemma SpliceOne<T>(s: seq<T>, k: nat, t: seq<T>, x: T, at: nat)
    requires k <= |s| && at == k + |t|
    ensures Insert(Splice(s, k, t), at, x) == Splice(s, k, t + [x])
  {
  }

  lemma ValsSplice<T(0)>(spine: seq<Node<T>>, k: nat, chain: seq<Node<T>>)
    requires k < |spine|
    ensures Vals(Splice(spine, k + 1, chain)[1..]) == Splice(Vals(spine[1..]), k, Vals(chain))
  {
  }

  /** What the merge of two lists will yield, when the first k nodes after the header are settled. */
  ghost function Pending<T(0)>(spine: seq<Node<T>>, k: nat, other: seq<Node<T>>, lt: (T, T) -> bool): seq<T>
    requires k < |spine| && 0 < |other|
  {
    Vals(spine[1..k + 1]) + Merged(Vals(spine[k + 1..]), Vals(other[1..]), lt)
  }

  lemma PendingStart<T(0)>(spine: seq<Node<T>>, other: seq<Node<T>>, lt: (T, T) -> bool)
    requires 0 < |spine| && 0 < |other|
    ensures Pending(spine, 0, other, lt) == Merged(Vals(spine[1..]), Vals(other[1..]), lt)
  {
  }

  /** Moving the other list's first node in front of one it is below changes nothing. */
  lemma PendingTake<T(0)>(spine: seq<Node<T>>, k: nat, other: seq<Node<T>>, lt: (T, T) -> bool)
    requires k + 1 < |spine| && 1 < |other| && lt(other[1].val, spine[k + 1].val)
    ensures Pending(Insert(spine, k + 1, other[1]), k + 1, Remove(other, 1), lt) == Pending(spine, k, other, lt)
  {
    var spine', other' := Insert(spine, k + 1, other[1]), Remove(other, 1);
    assert spine'[k + 2..] == spine[k + 1..];
    assert Vals(spine'[1..k + 2]) == Vals(spine[1..k + 1]) + [other[1].val];
    assert Vals(other'[1..]) == Vals(other[1..])[1..];
  }

  lemma PendingSkip<T(0)>(spine: seq<Node<T>>, k: nat, other: seq<Node<T>>, lt: (T, T) -> bool)
    requires k + 1 < |spine| && 1 < |other| && !lt(other[1].val, spine[k + 1].val)
    ensures Pending(spine, k + 1, other, lt) == Pending(spine, k, other, lt)
  {
    assert Vals(spine[1..k + 2]) == Vals(spine[1..k + 1]) + [spine[k + 1].val];
    assert Vals(spine[k + 2..]) == Vals(spine[k + 1..])[1..];
  }

  /** When either side is used up, the rest of the other follows. */
  lemma PendingEnd<T(0)>(spine: seq<Node<T>>, k: nat, other: seq<Node<T>>, lt: (T, T) -> bool)
    requires k < |spine| && 0 < |other|
    ensures |other| == 1 ==> Pending(spine, k, other, lt) == Vals(spine[1..])
    ensures k + 1 == |spine| ==> Pending(spine, k, other, lt) == Splice(Vals(spine[1..]), k, Vals(other[1..]))
  {
    assert spine[1..] == spine[1..k + 1] + spine[k + 1..];
  }

  lemma ValsInsert<T(0)>(spine: seq<Node<T>>, k: nat, node: Node<T>)
    requires k < |spine|
    ensures Vals(Insert(spine, k + 1, node)[1..]) == Insert(Vals(spine[1..]), k, node.val)
  {
  }

  lemma ValsCut<T(0)>(spine: seq<Node<T>>, j: nat, k: nat)
    requires j < k <= |spine|
    ensures Vals((spine[..j + 1] + spine[k..])[1..]) == Vals(spine[1..])[..j] + Vals(spine[1..])[k - 1..]
  {
  }

  lemma ValsRemove<T(0)>(spine: seq<Node<T>>, k: nat)
    requires k + 1 < |spine|
    ensures Vals(Remove(spine, k + 1)[1..]) == Remove(Vals(spine[1..]), k)
  {
  }

  lemma ValsReversed<T(0)>(spine: seq<Node<T>>)
    requires spine != []
    ensures Vals(([spine[0]] + Reversed(spine[1..]))[1..]) == Reversed(Vals(spine[1..]))
  {
    assert ([spine[0]] + Reversed(spine[1..]))[1..] == Reversed(spine[1..]);
  }

  class ForwardList<T(0)> {
    const header: Node<T>
    var prev: Node<T>
    var count: nat
    /** The header followed by the chain of nodes. */
    ghost var spine: seq<Node<T>>

    /** The links alone: an acyclic chain from the header, whose last node is cached. */
    ghost predicate Chained()
      reads this, spine
    {
      && |spine| >= 1 && spine[0] == header
      && (forall i {:trigger spine[i].next} :: 0 <= i < |spine| ==> spine[i].next == NodeAt(spine, i + 1))
      && prev == spine[|spine| - 1]
    }

    ghost predicate Valid()
      reads this, spine
    {
      Chained() && count == |spine| - 1
    }

    ghost function Contents(): (c: seq<T>)
      reads this
      ensures spine != [] ==> |c| == |spine| - 1
    {
      if spine == [] then [] else Vals(spine[1..])
    }

    lemma NoRepeat(i: nat, j: nat)
      requires Valid() && i < j < |spine|
      ensures spine[i] != spine[j]
      decreases |spine| - j
    {
      if spine[i] == spine[j] {
        assert spine[i].next == spine[j].next;
        if j + 1 < |spine| {
          NoRepeat(i + 1, j + 1);
        }
      }
    }

    /** A chain that ends has no cycle: no node occurs at two positions. */
    lemma Acyclic(k: nat)
      requires Valid() && k < |spine|
      ensures forall i :: 0 <= i < |spine| && i != k ==> spine[i] != spine[k]
    {
      forall i | 0 <= i < |spine| && i != k
        ensures spine[i] != spine[k]
      {
        if i < k {
          NoRepeat(i, k);
        } else {
          NoRepeat(k, i);
        }
      }
    }

    lemma HeaderFirst()
      requires Valid()
      ensures forall i :: 0 < i < |spine| ==> spine[i] != header
    {
      Acyclic(0);
    }

    /** The chain without its header, ready to be hung elsewhere. */
    lemma LooseChain()
      requires Valid() && count > 0
      ensures var chain := spine[1..];
              && |chain| == count && header.next == chain[0] && prev == chain[count - 1]
              && (forall i :: 0 <= i < count - 1 ==> chain[i] != prev && chain[i].next == NodeAt(chain, i + 1))
              && (forall i :: 0 <= i < count ==> chain[i] != header)
    {
      HeaderFirst();
      Acyclic(|spine| - 1);
    }

    constructor ()
      ensures Valid() && Contents() == [] && fresh(header) && spine == [header]
    {
      header := new Node<T>.Header();
      prev, count := header, 0;
      spine := [header];
    }

    /** Base::reset: forget the chain. */
    method Reset()
      modifies this, header
      ensures Valid() && spine == [header]
    {
      prev := header;
      header.next := null;
      count := 0;
      spine := [header];
    }

    /** No node is shared with another list. */
    ghost predicate Apart(list: ForwardList<T>)
      reads this, list
    {
      this != list && forall i, j :: 0 <= i < |spine| && 0 <= j < |list.spine| ==> spine[i] != list.spine[j]
    }

    ghost predicate Outside(node: Node<T>)
      reads this
    {
      forall i :: 0 <= i < |spine| ==> spine[i] != node
    }

    method PushFront(node: Node<T>)
      requires Valid() && Outside(node)
      modifies this, header, node
      ensures Valid() && spine == Insert(old(spine), 1, node)
    {
      Acyclic(0);
      if header.next == null {
        prev := node;
      }
      node.next := header.next;
      header.next := node;
      count := count + 1;
      spine := Insert(spine, 1, node);
    }

    method PushBack(node: Node<T>)
      requires Valid() && Outside(node) && node.next == null
      modifies this, prev
      ensures Valid() && spine == old(spine) + [node]
    {
      Acyclic(|spine| - 1);
      if prev != header {
        prev.next := node;
      } else {
        header.next := node;
      }
      prev := node;
      count := count + 1;
      spine := spine + [node];
    }

    method InsertAfter(pos: Node<T>, node: Node<T>, ghost k: nat)
      requires Valid() && Outside(node) && k < |spine| && spine[k] == pos
      modifies this, pos, node
      ensures Valid() && spine == Insert(old(spine), k + 1, node)
    {
      Acyclic(k);
      if pos == prev {
        prev := node;
      }
      node.next := pos.next;
      pos.next := node;
      count := count + 1;
      spine := Insert(spine, k + 1, node);
    }

    method ExtractAfter(pos: Node<T>, ghost k: nat) returns (node: Node<T>)
      requires Valid() && k + 1 < |spine| && spine[k] == pos
      modifies this, pos, pos.next
      ensures Valid() && node == old(spine)[k + 1] && node.next == null
      ensures spine == Remove(old(spine), k + 1)
    {
      Acyclic(k);
      Acyclic(k + 1);
      assert pos.next == spine[k + 1];
      node := pos.next;
      if node == prev {
        prev := pos;
      }
      pos.next := pos.next.next;
      node.next := null;
      count := count - 1;
      spine := Remove(spine, k + 1);
    }

    method ExtractFront() returns (node: Node<T>)
      requires Valid() && count > 0
      modifies this, header, header.next
      ensures Valid() && node == old(spine)[1] && node.next == null
      ensures spine == Remove(old(spine), 1)
    {
      Acyclic(0);
      Acyclic(1);
      assert header.next == spine[1];
      node := header.next;
      header.next := header.next.next;
      if header.next == null {
        prev := header;
      }
      node.next := null;
      count := count - 1;
      spine := Remove(spine, 1);
    }

    /** Hang a separate chain of nodes between pos and its successor. */
    method LinkChain(pos: Node<T>, first: Node<T>, last: Node<T>, size: nat, ghost k: nat, ghost chain: seq<Node<T>>)
      requires Valid() && k < |spine| && spine[k] == pos
      requires |chain| == size > 0 && first == chain[0] && last == chain[size - 1]
      requires forall i :: 0 <= i < size - 1 ==> chain[i] != last && chain[i].next == NodeAt(chain, i + 1)
      requires forall i, j :: 0 <= i < |spine| && 0 <= j < size ==> spine[i] != chain[j]
      modifies this, pos, last
      ensures Valid() && spine == Splice(old(spine), k + 1, chain)
    {
      Acyclic(k);
      var oldNext := pos.next;
      if pos == prev {
        prev := last;
      }
      pos.next := first;
      last.next := oldNext;
      count := count + size;
      spine := Splice(spine, k + 1, chain);
    }

    /** Splice the whole of another list after the k-th position. */
    method SpliceAfter(pos: Node<T>, list: ForwardList<T>, ghost k: nat)
      requires Valid() && list.Valid() && Apart(list)
      requires k < |spine| && spine[k] == pos
      modifies this, pos, list, list.header, list.prev
      ensures Valid() && list.Valid() && list.spine == [list.header] && Apart(list)
      ensures spine == Splice(old(spine), k + 1, old(list.spine)[1..])
      ensures Contents() == Splice(old(Contents()), k, old(list.Contents()))
    {
      ValsSplice(spine, k, list.spine[1..]);
      if list.count == 0 {
        assert Splice(spine, k + 1, []) == spine;
        return;
      }
      list.LooseChain();
      LinkChain(pos, list.header.next, list.prev, list.count, k, list.spine[1..]);
      list.Reset();
    }

    /** Exchange the chains; an empty chain leaves the header as its own last node. */
    method Swap(other: ForwardList<T>)
      requires Valid() && other.Valid() && (other == this || Apart(other))
      modifies this, header, other, other.header
      ensures Valid() && other.Valid() && (other == this || Apart(other))
      ensures spine == [header] + old(other.spine)[1..] && other.spine == [other.header] + old(spine)[1..]
      ensures Contents() == old(other.Contents()) && other.Contents() == old(Contents())
    {
      HeaderFirst();
      other.HeaderFirst();
      count, other.count := other.count, count;
      header.next, other.header.next := other.header.next, header.next;
      var oldPrev := prev;
      prev := if count == 0 then header else other.prev;
      other.prev := if other.count == 0 then other.header else oldPrev;
      spine, other.spine := [header] + other.spine[1..], [other.header] + spine[1..];
    }

    /** The step of merge that moves the front node of the other list behind the k-th node of this one. */
    method TakeFront(beg: Node<T>, list: ForwardList<T>, ghost k: nat)
      requires Valid() && list.Valid() && Apart(list) && list.count > 0
      requires k < |spine| && beg == spine[k]
      modifies this, beg, list, list.header, list.header.next
      ensures Valid() && list.Valid() && Apart(list)
      ensures spine == Insert(old(spine), k + 1, old(list.spine)[1])
      ensures list.spine == Remove(old(list.spine), 1)
    {
      var oldNode := list.header.next.next;
      list.Acyclic(1);
      var node := list.ExtractAfter(list.header, 0);
      InsertAfter(beg, node, k);
      list.header.next := oldNode;
    }

    ghost predicate Within(pool: set<Node<T>>)
      reads this
    {
      forall i :: 0 <= i < |spine| ==> spine[i] in pool
    }

    ghost predicate CanMerge(list: ForwardList<T>, pool: set<Node<T>>)
      reads this, list, spine, list.spine
    {
      Valid() && list.Valid() && Apart(list) && Within(pool) && list.Within(pool)
    }

    /** One turn of the merge loop: settle one more node behind `beg`. */
    method MergeStep(beg: Node<T>, list: ForwardList<T>, lt: (T, T) -> bool, ghost k: nat, ghost pool: set<Node<T>>)
      returns (next: Node<T>)
      requires CanMerge(list, pool) && k + 1 < |spine| && beg == spine[k] && list.count > 0
      modifies this, list, pool
      ensures CanMerge(list, pool) && k + 1 < |spine| && next == spine[k + 1]
      ensures Pending(spine, k + 1, list.spine, lt) == old(Pending(spine, k, list.spine, lt))
      ensures |spine| + |list.spine| == old(|spine| + |list.spine|) && |list.spine| <= old(|list.spine|)
    {
      assert beg.next == spine[k + 1] && list.header.next == list.spine[1];
      if lt(list.header.next.val, beg.next.val) {
        PendingTake(spine, k, list.spine, lt);
        TakeFront(beg, list, k);
      } else {
        PendingSkip(spine, k, list.spine, lt);
      }
      assert beg == spine[k] && spine[k].next == spine[k + 1];
      next := beg.next;
    }

    /** The merge loop: until one of the two lists is used up. */
    method MergeLoop(list: ForwardList<T>, lt: (T, T) -> bool, ghost pool: set<Node<T>>)
      returns (beg: Node<T>, ghost k: nat)
      requires CanMerge(list, pool)
      modifies this, list, pool
      ensures CanMerge(list, pool) && k < |spine| && beg == spine[k] && (k + 1 == |spine| || |list.spine| == 1)
      ensures Pending(spine, k, list.spine, lt) == old(Pending(spine, 0, list.spine, lt))
    {
      beg, k := header, 0;
      while beg.next != null && list.header.next != null
        invariant CanMerge(list, pool) && k < |spine| && beg == spine[k]
        invariant Pending(spine, k, list.spine, lt) == old(Pending(spine, 0, list.spine, lt))
        decreases |spine| - k + |list.spine|
      {
        beg := MergeStep(beg, list, lt, k, pool);
        k := k + 1;
      }
    }

    /** What is left of the other list goes to the end. */
    method MergeRest(beg: Node<T>, list: ForwardList<T>, lt: (T, T) -> bool, ghost k: nat, ghost pool: set<Node<T>>)
      requires CanMerge(list, pool) && k < |spine| && beg == spine[k] && (k + 1 == |spine| || |list.spine| == 1)
      modifies this, list, pool
      ensures Valid() && list.Valid() && list.spine == [list.header] && Apart(list) && Within(pool)
      ensures Contents() == old(Pending(spine, k, list.spine, lt))
    {
      PendingEnd(spine, k, list.spine, lt);
      assert spine[k].next == NodeAt(spine, k + 1);
      if beg.next == null {
        SpliceAfter(prev, list, k);
      }
    }

    method Merge(list: ForwardList<T>, lt: (T, T) -> bool, ghost pool: set<Node<T>>)
      requires CanMerge(list, pool)
      modifies this, list, pool
      ensures Valid() && list.Valid() && list.spine == [list.header] && Apart(list) && Within(pool)
      ensures Contents() == Merged(old(Contents()), old(list.Contents()), lt)
    {
      if list.count == 0 {
        return;
      }
      PendingStart(spine, list.spine, lt);
      var beg, k := MergeLoop(list, lt, pool);
      MergeRest(beg, list, lt, k, pool);
    }

    // ---------------------------------------------------- operations on values

    method PushFrontValue(v: T)
      requires Valid()
      modifies this, header
      ensures Valid() && Contents() == [v] + old(Contents())
    {
      var node := new Node<T>(v);
      InsertFront(Contents(), v);
      ValsInsert(spine, 0, node);
      PushFront(node);
    }

    method PushBackValue(v: T)
      requires Valid()
      modifies this, prev
      ensures Valid() && Contents() == old(Contents()) + [v]
      ensures spine[..|spine| - 1] == old(spine) && fresh(spine[|spine| - 1])
    {
      var node := new Node<T>(v);
      PushBack(node);
    }

    method InsertValueAfter(pos: Node<T>, v: T, ghost k: nat)
      requires Valid() && k < |spine| && spine[k] == pos
      modifies this, pos
      ensures Valid() && Contents() == Insert(old(Contents()), k, v)
      ensures |spine| == old(|spine|) + 1 && fresh(spine[k + 1]) && pos.next == spine[k + 1]
      ensures Remove(spine, k + 1) == old(spine)
    {
      var node := new Node<T>(v);
      ValsInsert(spine, k, node);
      RemoveInserted(spine, k + 1, node);
      InsertAfter(pos, node, k);
    }

    method PopFront()
      requires Valid() && count > 0
      modifies this, header, header.next
      ensures Valid() && Contents() == old(Contents())[1..]
    {
      ValsRemove(spine, 0);
      var node := ExtractFront();
    }

    method EraseAfter(pos: Node<T>, ghost k: nat)
      requires Valid() && k + 1 < |spine| && spine[k] == pos
      modifies this, pos, pos.next
      ensures Valid() && Contents() == Remove(old(Contents()), k)
      ensures spine == Remove(old(spine), k + 1) && spine[k] == pos && pos.next == NodeAt(spine, k + 1)
    {
      ValsRemove(spine, k);
      var node := ExtractAfter(pos, k);
      assert spine[k] == pos;
    }

    /** The state of the insert loop: `copies` follow the k-th node, and `at` is the last of them. */
    ghost predicate Inserting(contents: seq<T>, k: nat, copies: seq<T>, at: Node<T>)
      reads this, spine
    {
      && Valid() && k <= |contents| && Contents() == Splice(contents, k, copies)
      && spine[k + |copies|] == at
    }

    /** One turn: insert after the last copy, and step to the new one. */
    method InsertOne(pos: Node<T>, v: T, ghost k: nat, ghost contents: seq<T>, ghost copies: seq<T>)
      returns (at: Node<T>)
      requires Inserting(contents, k, copies, pos)
      modifies this, pos
      ensures Inserting(contents, k, copies + [v], at) && fresh(at)
    {
      ghost var n := k + |copies|;
      SpliceOne(contents, k, copies, v, n);
      InsertValueAfter(pos, v, n);
      at := pos.next;
    }

    /** Insert count copies, each after the one before. */
    method InsertCopies(pos: Node<T>, n: nat, v: T, ghost k: nat)
      requires Valid() && k < |spine| && spine[k] == pos
      modifies this, spine
      ensures Valid() && Contents() == Splice(old(Contents()), k, seq(n, _ => v))
    {
      var at := pos;
      ghost var contents, copies := Contents(), [];
      assert Splice(contents, k, copies) == contents;
      for i := 0 to n
        invariant Inserting(contents, k, copies, at) && (at in old(spine) || fresh(at))
        invariant |copies| == i && forall j :: 0 <= j < i ==> copies[j] == v
      {
        at := InsertOne(at, v, k, contents, copies);
        copies := copies + [v];
      }
      assert copies == seq(n, _ => v);
    }

    /** A chain of its own that ends at `last`. */
    ghost predicate Detached(chain: seq<Node<T>>, last: Node?<T>)
      reads chain
    {
      forall i :: 0 <= i < |chain| ==> chain[i] != last && chain[i].next == Follower(chain, i, last)
    }

    /** Unlink the open range between first and last, where last may be the end; the count is left to the caller. */
    method ExtractRange(first: Node<T>, last: Node?<T>, ghost j: nat, ghost k: nat) returns (firstNext: Node?<T>)
      requires Valid() && j < k <= |spine| && first == spine[j] && last == NodeAt(spine, k)
      modifies this`prev, this`spine, first
      ensures Chained() && spine == old(spine)[..j + 1] + old(spine)[k..]
      ensures firstNext == if k == j + 1 then null else old(spine)[j + 1]
      ensures Detached(old(spine)[j + 1..k], last)
    {
      Acyclic(j);
      if k < |spine| {
        Acyclic(k);
      }
      ghost var chain := spine[j + 1..k];
      assert forall i :: 0 <= i < |chain| ==> chain[i] == spine[j + 1 + i];
      if first.next != last {
        if last == null {
          prev := first;
        }
        firstNext := first.next;
        first.next := last;
      } else {
        firstNext := null;
      }
      spine := spine[..j + 1] + spine[k..];
    }

    /** Free a detached chain up to `last`, counting each node off. */
    method DropChain(firstNext: Node<T>, last: Node?<T>, ghost chain: seq<Node<T>>)
      requires 0 < |chain| <= count && firstNext == chain[0] && Detached(chain, last)
      modifies this`count
      ensures count == old(count) - |chain|
    {
      var node: Node?<T> := firstNext;
      ghost var m := 0;
      while node != last
        invariant 0 <= m <= |chain| && node == Follower(chain, m - 1, last)
        invariant count == old(count) - m
        decreases |chain| - m
      {
        assert node == chain[m];
        node := node.next;
        count := count - 1;
        m := m + 1;
      }
    }

    method EraseRange(first: Node<T>, last: Node?<T>, ghost j: nat, ghost k: nat)
      requires Valid() && j < k <= |spine| && first == spine[j] && last == NodeAt(spine, k)
      modifies this, first
      ensures Valid() && spine == old(spine)[..j + 1] + old(spine)[k..]
      ensures Contents() == old(Contents())[..j] + old(Contents())[k - 1..]
    {
      ValsCut(spine, j, k);
      ghost var chain := spine[j + 1..k];
      var firstNext := ExtractRange(first, last, j, k);
      if firstNext != null {
        DropChain(firstNext, last, chain);
      }
    }

    /** Free every node, then reset the header. */
    method Clear()
      requires Valid()
      modifies this, header
      ensures Valid() && Contents() == [] && spine == [header]
    {
      ghost var k := 1;
      HeaderFirst();
      while header.next != null
        invariant 1 <= k <= |spine| && header.next == NodeAt(spine, k)
        invariant spine == old(spine) && spine[0] == header
        invariant forall i :: 0 < i < |spine| ==> spine[i] != header && spine[i].next == NodeAt(spine, i + 1)
        decreases |spine| - k
      {
        var node := header.next;
        assert node == spine[k];
        header.next := node.next;
        k := k + 1;
      }
      Reset();
    }

    /** The position before the first value, from position k on, that satisfies the predicate; null if there is none. */
    method SearchBefore(pred: T -> bool, pos: Node<T>, ghost k: nat) returns (it: Node?<T>, ghost m: nat)
      requires Valid() && k < |spine| && spine[k] == pos
      ensures k <= m < |spine| && (it == null <==> m + 1 == |spine|) && (it != null ==> it == spine[m])
      ensures forall i :: k <= i < m ==> !pred(Contents()[i])
      ensures it != null ==> pred(Contents()[m])
      ensures it == null <==> forall i :: k <= i < |Contents()| ==> !pred(Contents()[i])
    {
      var beg := pos;
      m := k;
      while beg.next != null
        invariant k <= m < |spine| && beg == spine[m]
        invariant forall i :: k <= i < m ==> !pred(Contents()[i])
        decreases |spine| - m
      {
        assert spine[m].next == spine[m + 1];
        if pred(beg.next.val) {
          return beg, m;
        }
        beg := beg.next;
        m := m + 1;
      }
      assert spine[m].next == null;
      it := null;
    }

    /** The remove_if loop: the first m values stay, and the node before the next one to go is known. */
    ghost predicate Removing(pred: T -> bool, it: Node?<T>, m: nat, pool: set<Node<T>>, was: seq<T>)
      reads this, spine
    {
      && Valid() && Within(pool) && m < |spine|
      && (forall i :: 0 <= i < m ==> !pred(Contents()[i]))
      && (if it == null then m + 1 == |spine| else m + 1 < |spine| && it == spine[m] && pred(Contents()[m]))
      && Kept(Contents(), pred) == Kept(was, pred)
    }

    /** Erase that node and look for the next. */
    method RemoveStep(pred: T -> bool, it: Node<T>, ghost m: nat, ghost pool: set<Node<T>>, ghost was: seq<T>)
      returns (next: Node?<T>, ghost n: nat)
      requires Removing(pred, it, m, pool, was)
      modifies this, pool
      ensures Removing(pred, next, n, pool, was) && |spine| == old(|spine|) - 1
    {
      KeptRemove(Contents(), pred, m);
      assert it.next == spine[m + 1];
      EraseAfter(it, m);
      next, n := SearchBefore(pred, it, m);
    }

    method RemoveIf(pred: T -> bool) returns (removed: nat)
      requires Valid()
      modifies this, spine
      ensures Valid() && Contents() == Kept(old(Contents()), pred)
      ensures removed == old(|Contents()|) - |Contents()|
    {
      ghost var pool := set n | n in spine;
      removed := 0;
      var it, m := SearchBefore(pred, header, 0);
      while it != null
        invariant Removing(pred, it, m, pool, old(Contents())) && removed == old(|spine|) - |spine|
        decreases |spine|
      {
        removed := removed + 1;
        it, m := RemoveStep(pred, it, m, pool, old(Contents()));
      }
      AllKept(Contents(), pred);
    }

    /** The unique loop: the nodes up to `beg`, the k-th, are settled. */
    ghost predicate Deduping(eq: (T, T) -> bool, beg: Node<T>, k: nat, pool: set<Node<T>>, goal: seq<T>)
      reads this, spine
    {
      && Valid() && Within(pool) && k < |spine| && beg == spine[k] && DedupedFrom(Contents(), k, eq) == goal
    }

    lemma NextTwo(k: nat)
      requires Valid() && k < |spine|
      ensures spine[k].next == NodeAt(spine, k + 1)
      ensures k + 1 < |spine| ==> spine[k + 1].next == NodeAt(spine, k + 2)
    {
    }

    /** One turn: drop the second of the next two nodes, or pass the first. */
    method UniqueStep(beg: Node<T>, eq: (T, T) -> bool, ghost k: nat, ghost pool: set<Node<T>>, ghost goal: seq<T>)
      returns (next: Node<T>, dropped: bool)
      requires Deduping(eq, beg, k, pool, goal) && k + 2 < |spine|
      modifies this, pool
      ensures Deduping(eq, next, if dropped then k else k + 1, pool, goal)
      ensures |spine| == old(|spine|) - (if dropped then 1 else 0)
    {
      NextTwo(k);
      if eq(beg.next.val, beg.next.next.val) {
        DedupedDrop(Contents(), k, eq);
        EraseAfter(beg.next, k + 1);
        next, dropped := beg, true;
      } else {
        DedupedKeep(Contents(), k, eq);
        next, dropped := beg.next, false;
      }
    }

    method Unique(eq: (T, T) -> bool) returns (removed: nat)
      requires Valid()
      modifies this, spine
      ensures Valid() && Contents() == Deduped(old(Contents()), eq)
      ensures removed == old(|Contents()|) - |Contents()|
    {
      ghost var pool := set n | n in spine;
      removed := 0;
      var beg := header;
      ghost var k, goal := 0, Deduped(Contents(), eq);
      DedupedEnds(Contents(), 0, eq);
      NextTwo(0);
      while beg.next != null && beg.next.next != null
        invariant Deduping(eq, beg, k, pool, goal) && removed == old(|spine|) - |spine|
        invariant beg.next == NodeAt(spine, k + 1) && (k + 1 < |spine| ==> beg.next.next == NodeAt(spine, k + 2))
        decreases |spine| - k
      {
        var dropped;
        beg, dropped := UniqueStep(beg, eq, k, pool, goal);
        if dropped {
          removed := removed + 1;
        } else {
          k := k + 1;
        }
        NextTwo(k);
      }
      DedupedEnds(Contents(), k, eq);
    }

    /** The growing half of resize. */
    method Extend(diff: nat, v: T)
      requires Valid()
      modifies this, prev
      ensures Valid() && Contents() == old(Contents()) + seq(diff, _ => v)
    {
      ghost var contents, copies, last := Contents(), [], prev;
      for i := 0 to diff
        invariant Valid() && |copies| == i && Contents() == contents + copies && (prev == last || fresh(prev))
        invariant forall j :: 0 <= j < i ==> copies[j] == v
      {
        Assoc(contents, copies, [v]);
        PushBackValue(v);
        copies := copies + [v];
      }
      assert copies == seq(diff, _ => v);
    }

    /** The n-th node, counted from the header. */
    method Advance(n: nat) returns (it: Node<T>)
      requires Valid() && n < |spine|
      ensures it == spine[n]
    {
      it := header;
      for i := 0 to n
        invariant it == spine[i]
      {
        assert spine[i].next == spine[i + 1];
        it := it.next;
      }
    }

    /** The shrinking loop: the first n values are there, and `it` is the n-th node. */
    ghost predicate Shrinking(it: Node<T>, n: nat, pool: set<Node<T>>, was: seq<T>)
      reads this, spine
    {
      && Valid() && Within(pool) && n < |spine| && it == spine[n] && it.next == NodeAt(spine, n + 1)
      && n <= |was| && Contents()[..n] == was[..n]
    }

    method EraseNext(it: Node<T>, n: nat, ghost pool: set<Node<T>>, ghost was: seq<T>)
      requires Shrinking(it, n, pool, was) && it.next != null
      modifies this, pool
      ensures Shrinking(it, n, pool, was) && |spine| == old(|spine|) - 1
    {
      RemoveBehind(Contents(), n);
      EraseAfter(it, n);
    }

    /** The shrinking half: walk to the n-th node and erase what follows. */
    method Truncate(n: nat)
      requires Valid() && n < count
      modifies this, spine
      ensures Valid() && Contents() == old(Contents())[..n]
    {
      ghost var pool := set x | x in spine;
      var it := Advance(n);
      NextTwo(n);
      while it.next != null
        invariant Shrinking(it, n, pool, old(Contents()))
        decreases |spine|
      {
        EraseNext(it, n, pool, old(Contents()));
      }
      assert Contents()[..n] == Contents();
    }

    method Resize(n: nat, v: T)
      requires Valid()
      modifies this, spine
      ensures Valid()
      ensures Contents() == if old(|Contents()|) <= n then old(Contents()) + seq(n - old(|Contents()|), _ => v)
                            else old(Contents())[..n]
    {
      if count <= n {
        Extend(n - count, v);
      } else {
        Truncate(n);
      }
    }

    /** Turn every link around, on a list that is not empty. */
    method ReverseNodes()
      requires Valid() && |spine| >= 2
      modifies this, spine
      ensures Valid() && spine == [header] + Reversed(old(spine)[1..])
    {
      ghost var S := spine;
      HeaderFirst();
      forall i | 0 < i < |S| ensures forall j :: 0 < j < |S| && j != i ==> S[j] != S[i] { Acyclic(i); }
      var cur := header.next;
      var before: Node?<T> := null;
      var firstNode := header.next;
      assert firstNode == S[1];
      header.next := prev;
      prev := firstNode;
      ghost var k := 1;
      while cur != null
        invariant 1 <= k <= |S| && cur == NodeAt(S, k) && spine == S && count == |S| - 1 && prev == S[1]
        invariant before == if k == 1 then null else S[k - 1]
        invariant header.next == S[|S| - 1]
        invariant forall i {:trigger S[i].next} :: k <= i < |S| ==> S[i].next == NodeAt(S, i + 1)
        invariant forall i {:trigger S[i].next} :: 1 <= i < k ==> S[i].next == if i == 1 then null else S[i - 1]
        decreases |S| - k
      {
        var next := cur.next;
        cur.next := before;
        before := cur;
        cur := next;
        k := k + 1;
      }
      spine := [header] + Reversed(S[1..]);
    }

    /** The case of two nodes: the first goes behind the second. */
    method ExchangeTwo()
      requires Valid() && count == 2
      modifies this, spine
      ensures Valid() && Contents() == Reversed(old(Contents()))
    {
      ghost var S := spine;
      Acyclic(1);
      assert header.next == spine[1];
      var node := ExtractFront();
      PushBack(node);
      assert spine == [header, S[2], S[1]];
    }

    method Reverse()
      requires Valid()
      modifies this, spine
      ensures Valid() && Contents() == Reversed(old(Contents()))
    {
      if count < 2 {
        assert Reversed(Contents()) == Contents();
        return;
      }
      if count == 2 {
        ExchangeTwo();
        return;
      }
      ValsReversed(spine);
      ReverseNodes();
    }

    /** The move constructor: take over the chain of another list, which is reset. */
    constructor Move(other: ForwardList<T>)
      requires other.Valid()
      modifies other, other.header
      ensures Valid() && other.Valid()
      ensures Contents() == old(other.Contents()) && other.Contents() == []
    {
      header := new Node<T>.Header();
      count := other.count;
      prev := if other.count == 0 then header else other.prev;
      spine := [header] + other.spine[1..];
      new;
      other.HeaderFirst();
      assert other.header.next == NodeAt(other.spine, 1);
      header.next := other.header.next;
      other.Reset();
    }
  }
}
