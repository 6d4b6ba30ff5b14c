/** ForwardList::sort: a binary counter of sorted runs, merged at the end. */
module ForwardListSort {
  import opened Ordering
  import opened ForwardLists

  // ------------------------------------------------------ a family of separate lists

  /** Valid lists that share no node with one another; all their nodes lie in the pool. */
  ghost predicate Family<T(0)>(all: seq<ForwardList<T>>, pool: set<Node<T>>)
    reads all, pool
  {
    && (forall i :: 0 <= i < |all| ==> all[i].Within(pool))
    && (forall i :: 0 <= i < |all| ==> all[i].Valid())
    && (forall i, j :: 0 <= i < |all| && 0 <= j < |all| && i != j ==> all[i].Apart(all[j]))
  }

  /** What the lists hold, in order. */
  ghost function Conts<T(0)>(all: seq<ForwardList<T>>): (c: seq<seq<T>>)
    reads all
    ensures |c| == |all|
  {
    seq(|all|, i requires 0 <= i < |all| reads all => all[i].Contents())
  }

  ghost function Both<T(0)>(a: seq<Node<T>>, b: seq<Node<T>>): set<Node<T>>
  {
    (set n | n in a) + (set n | n in b)
  }

  ghost function Spines<T(0)>(all: seq<ForwardList<T>>): (s: seq<seq<Node<T>>>)
    reads all
    ensures |s| == |all|
  {
    seq(|all|, i requires 0 <= i < |all| reads all => all[i].spine)
  }

  /** Chains that share no node, all in the pool. */
  ghost predicate Separate<T(0)>(spines: seq<seq<Node<T>>>, pool: set<Node<T>>)
  {
    && (forall i, n :: 0 <= i < |spines| && n in spines[i] ==> n in pool)
    && (forall i, j, n :: 0 <= i < |spines| && 0 <= j < |spines| && i != j && n in spines[i] ==> n !in spines[j])
  }

  lemma FamilySeparate<T(0)>(all: seq<ForwardList<T>>, pool: set<Node<T>>)
    requires Family(all, pool)
    ensures Separate(Spines(all), pool)
  {
  }

  /** Working on two of the lists, within their own nodes, keeps the family together. */
  lemma FamilyKept<T(0)>(all: seq<ForwardList<T>>, before: seq<seq<Node<T>>>, p: nat, q: nat, pool: set<Node<T>>)
    requires p < |all| && q < |all| && p != q && |before| == |all| && Separate(before, pool)
    requires forall i :: 0 <= i < |all| ==> all[i].Valid()
    requires forall i, j :: 0 <= i < |all| && 0 <= j < |all| && i != j ==> all[i] != all[j]
    requires forall i :: 0 <= i < |all| && i != p && i != q ==> all[i].spine == before[i]
    requires all[p].Apart(all[q])
    requires all[p].Within(Both(before[p], before[q])) && all[q].Within(Both(before[p], before[q]))
    ensures Family(all, pool)
  {
    forall i, j | 0 <= i < |all| && 0 <= j < |all| && i != j
      ensures all[i].Apart(all[j])
    {
      forall a, b | 0 <= a < |all[i].spine| && 0 <= b < |all[j].spine|
        ensures all[i].spine[a] != all[j].spine[b]
      {
        var m, n := all[i].spine[a], all[j].spine[b];
        assert i != p && i != q ==> m in before[i];
        assert j != p && j != q ==> n in before[j];
      }
    }
  }

  /** The effect of one list operation on what the lists hold. */
  ghost function MergedInto<T>(c: seq<seq<T>>, p: nat, q: nat, lt: (T, T) -> bool): (c': seq<seq<T>>)
    requires p < |c| && q < |c| && p != q
    ensures |c'| == |c|
  {
    c[p := Merged(c[p], c[q], lt)][q := []]
  }

  ghost function Swapped<T>(c: seq<seq<T>>, p: nat, q: nat): (c': seq<seq<T>>)
    requires p < |c| && q < |c| && p != q
    ensures |c'| == |c|
  {
    c[p := c[q]][q := c[p]]
  }

  ghost function FrontMoved<T>(c: seq<seq<T>>, p: nat, q: nat): (c': seq<seq<T>>)
    requires p < |c| && q < |c| && p != q && c[p] != []
    ensures |c'| == |c|
  {
    c[p := c[p][1..]][q := c[p][..1]]
  }

  method MergeIn<T(0)>(all: seq<ForwardList<T>>, p: nat, q: nat, lt: (T, T) -> bool, ghost pool: set<Node<T>>)
    requires Family(all, pool) && p < |all| && q < |all| && p != q
    modifies all, pool
    ensures Family(all, pool)
    ensures Conts(all) == MergedInto(old(Conts(all)), p, q, lt)
  {
    ghost var before := Spines(all);
    FamilySeparate(all, pool);
    all[p].Merge(all[q], lt, Both(before[p], before[q]));
    FamilyKept(all, before, p, q, pool);
  }

  method SwapIn<T(0)>(all: seq<ForwardList<T>>, p: nat, q: nat, ghost pool: set<Node<T>>)
    requires Family(all, pool) && p < |all| && q < |all| && p != q
    modifies all, pool
    ensures Family(all, pool)
    ensures Conts(all) == Swapped(old(Conts(all)), p, q)
  {
    ghost var before := Spines(all);
    FamilySeparate(all, pool);
    all[p].Swap(all[q]);
    FamilyKept(all, before, p, q, pool);
  }

  method ShiftFront<T(0)>(from: ForwardList<T>, to: ForwardList<T>)
    requires from.Valid() && to.Valid() && from.Apart(to) && from.count > 0 && to.count == 0
    modifies from, to, from.header, to.header, from.header.next
    ensures from.Valid() && to.Valid() && from.Apart(to)
    ensures from.spine == Remove(old(from.spine), 1) && to.spine == [to.header, old(from.spine)[1]]
    ensures from.Contents() == old(from.Contents())[1..] && to.Contents() == old(from.Contents())[..1]
  {
    ValsRemove(from.spine, 0);
    from.Acyclic(1);
    var node := from.ExtractFront();
    to.PushFront(node);
  }

  lemma Counted<T(0)>(all: seq<ForwardList<T>>, i: nat, pool: set<Node<T>>)
    requires Family(all, pool) && i < |all|
    ensures all[i].count == |Conts(all)[i]|
  {
  }

  /** list.push_front(extract_front()): the front node of p becomes the only node of the empty q. */
  method MoveFront<T(0)>(all: seq<ForwardList<T>>, p: nat, q: nat, ghost pool: set<Node<T>>)
    requires Family(all, pool) && p < |all| && q < |all| && p != q
    requires Conts(all)[p] != [] && Conts(all)[q] == []
    modifies all, pool
    ensures Family(all, pool)
    ensures Conts(all) == FrontMoved(old(Conts(all)), p, q)
  {
    Counted(all, p, pool);
    Counted(all, q, pool);
    ghost var before := Spines(all);
    FamilySeparate(all, pool);
    ShiftFront(all[p], all[q]);
    FamilyKept(all, before, p, q, pool);
  }

  // ------------------------------------------------------ the counter, on values

  function Pow2(n: nat): (p: nat)
    ensures p > 0
  {
    if n == 0 then 1 else 2 * Pow2(n - 1)
  }

  lemma {:induction false} Pow2Monotone(m: nat, n: nat)
    requires m <= n
    ensures Pow2(m) <= Pow2(n)
  {
    if m < n {
      Pow2Monotone(m, n - 1);
    }
  }

  /** Everything the lists hold together. */
  ghost function Bag<T>(c: seq<seq<T>>): multiset<T>
  {
    if c == [] then multiset{} else multiset(c[0]) + Bag(c[1..])
  }

  lemma {:induction false} BagUpdate<T>(c: seq<seq<T>>, p: nat, s: seq<T>)
    requires p < |c|
    ensures Bag(c[p := s]) + multiset(c[p]) == Bag(c) + multiset(s)
  {
    if p == 0 {
      assert c[p := s][1..] == c[1..];
    } else {
      assert c[p := s][1..] == c[1..][p - 1 := s] && c[1..][p - 1] == c[p];
      calc {
        Bag(c[p := s]) + multiset(c[p]);
        multiset(c[0]) + (Bag(c[1..][p - 1 := s]) + multiset(c[1..][p - 1]));
        { BagUpdate(c[1..], p - 1, s); }
        multiset(c[0]) + (Bag(c[1..]) + multiset(s));
        Bag(c) + multiset(s);
      }
    }
  }

  lemma Cancel<T>(a: multiset<T>, b: multiset<T>, c: multiset<T>)
    requires a + c == b + c
    ensures a == b
  {
    assert a == (a + c) - c && b == (b + c) - c;
  }

  /** Replacing two of the sequences by two with the same elements keeps the whole. */
  lemma BagExchange<T>(c: seq<seq<T>>, p: nat, q: nat, s: seq<T>, t: seq<T>)
    requires p < |c| && q < |c| && p != q
    requires multiset(s) + multiset(t) == multiset(c[p]) + multiset(c[q])
    ensures Bag(c[p := s][q := t]) == Bag(c)
  {
    BagUpdate(c, p, s);
    BagUpdate(c[p := s], q, t);
    var a, b := multiset(c[p]), multiset(c[q]);
    calc {
      Bag(c[p := s][q := t]) + (a + b);
      Bag(c[p := s][q := t]) + b + a;
      Bag(c[p := s]) + multiset(t) + a;
      Bag(c[p := s]) + a + multiset(t);
      Bag(c) + multiset(s) + multiset(t);
      Bag(c) + (a + b);
    }
    Cancel(Bag(c[p := s][q := t]), Bag(c), a + b);
  }

  lemma BagBounds<T>(c: seq<seq<T>>, p: nat)
    requires p < |c|
    ensures |c[p]| <= |Bag(c)|
  {
    BagUpdate(c, p, []);
    assert Bag(c) == Bag(c[p := []]) + multiset(c[p]);
  }

  const SLOTS := 64

  /** Slot i is free or holds a sorted run of exactly 2^i elements. */
  ghost predicate Slot<T>(run: seq<T>, i: nat, lt: (T, T) -> bool)
  {
    run == [] || (|run| == Pow2(i) && Sorted(run, lt))
  }

  /** The slots: each in order, none used from `used` on. */
  ghost predicate Counter<T>(c: seq<seq<T>>, used: nat, lt: (T, T) -> bool)
  {
    && |c| == SLOTS + 2 && used <= SLOTS
    && (forall i :: 0 <= i < SLOTS ==> Slot(c[i], i, lt))
    && (forall i :: used <= i < SLOTS ==> c[i] == [])
  }

  /** Before the first insertion: only the list being sorted holds anything, fewer than 2^64 elements. */
  ghost predicate Fresh<T>(c: seq<seq<T>>)
  {
    && |c| == SLOTS + 2 && |c[SLOTS + 1]| < Pow2(SLOTS)
    && forall i :: 0 <= i <= SLOTS ==> c[i] == []
  }

  /** In the middle of a carry: the first i slots are free and the carried run has 2^i elements. */
  ghost predicate Carrying<T>(c: seq<seq<T>>, used: nat, i: nat, lt: (T, T) -> bool)
  {
    && Counter(c, used, lt) && i <= used
    && (forall j :: 0 <= j < i ==> c[j] == [])
    && |c[SLOTS]| == Pow2(i) && Sorted(c[SLOTS], lt)
  }

  /** A list whose size fits size_t never carries past the last slot. */
  lemma CarryFits<T>(c: seq<seq<T>>, used: nat, i: nat, lt: (T, T) -> bool)
    requires Carrying(c, used, i, lt) && |Bag(c)| < Pow2(SLOTS)
    ensures i < SLOTS
  {
    BagBounds(c, SLOTS);
    if SLOTS <= i {
      Pow2Monotone(SLOTS, i);
    }
  }

  /** Two runs of 2^i elements merge into a sorted run of 2^(i + 1). */
  lemma CarryStep<T(!new)>(c: seq<seq<T>>, used: nat, i: nat, lt: (T, T) -> bool)
    requires StrictWeakOrder(lt) && Carrying(c, used, i, lt) && i < SLOTS && c[i] != []
    ensures var c' := MergedInto(c, SLOTS, i, lt);
            Carrying(c', used, i + 1, lt) && Bag(c') == Bag(c) && c'[SLOTS + 1] == c[SLOTS + 1]
  {
    MergedPermutes(c[SLOTS], c[i], lt);
    MergedSorted(c[SLOTS], c[i], lt);
    assert |multiset(Merged(c[SLOTS], c[i], lt))| == |c[SLOTS]| + |c[i]|;
    BagExchange(c, SLOTS, i, Merged(c[SLOTS], c[i], lt), []);
  }

  /** A free slot takes the carried run. */
  lemma CarryStop<T>(c: seq<seq<T>>, used: nat, i: nat, lt: (T, T) -> bool)
    requires Carrying(c, used, i, lt) && i < SLOTS && c[i] == []
    ensures var c' := Swapped(c, SLOTS, i);
            && Counter(c', if i == used then used + 1 else used, lt)
            && c'[SLOTS] == [] && Bag(c') == Bag(c) && c'[SLOTS + 1] == c[SLOTS + 1]
  {
    BagExchange(c, SLOTS, i, c[i], c[SLOTS]);
  }

  /** The inner loop of sort: put a one-element list into the counter. */
  method Carry<T(0, !new)>(all: seq<ForwardList<T>>, endOfLists: nat, lt: (T, T) -> bool, ghost pool: set<Node<T>>)
    returns (used: nat)
    requires StrictWeakOrder(lt) && Family(all, pool) && Carrying(Conts(all), endOfLists, 0, lt)
    requires |Bag(Conts(all))| < Pow2(SLOTS)
    modifies all, pool
    ensures Family(all, pool) && Counter(Conts(all), used, lt) && Conts(all)[SLOTS] == []
    ensures Bag(Conts(all)) == old(Bag(Conts(all)))
    ensures Conts(all)[SLOTS + 1] == old(Conts(all)[SLOTS + 1])
  {
    ghost var bag, rest := Bag(Conts(all)), Conts(all)[SLOTS + 1];
    var i := 0;
    while true
      invariant Family(all, pool) && Carrying(Conts(all), endOfLists, i, lt)
      invariant Bag(Conts(all)) == bag && Conts(all)[SLOTS + 1] == rest
      decreases SLOTS - i
    {
      ghost var c := Conts(all);
      CarryFits(c, endOfLists, i, lt);
      Counted(all, i, pool);
      Counted(all, SLOTS, pool);
      if all[i].count == 0 {
        CarryStop(c, endOfLists, i, lt);
        SwapIn(all, SLOTS, i, pool);
        return if i == endOfLists then endOfLists + 1 else endOfLists;
      }
      if all[i].count > all[SLOTS].count {
        assert false;  // both hold 2^i elements: the larger list never has to merge the shorter
      } else {
        CarryStep(c, endOfLists, i, lt);
        MergeIn(all, SLOTS, i, lt, pool);
      }
      i := i + 1;
    }
  }

  lemma StartCarry<T>(c: seq<seq<T>>, used: nat, lt: (T, T) -> bool)
    requires Counter(c, used, lt) && c[SLOTS] == [] && c[SLOTS + 1] != []
    ensures var c' := FrontMoved(c, SLOTS + 1, SLOTS);
            Carrying(c', used, 0, lt) && Bag(c') == Bag(c) && c'[SLOTS + 1] == c[SLOTS + 1][1..]
  {
    var rest := c[SLOTS + 1];
    assert rest == rest[..1] + rest[1..];
    BagExchange(c, SLOTS + 1, SLOTS, rest[1..], rest[..1]);
  }

  lemma {:induction false} BagOfEmpty<T>(c: seq<seq<T>>)
    requires forall i :: 0 <= i < |c| ==> c[i] == []
    ensures Bag(c) == multiset{}
  {
    if c != [] {
      BagOfEmpty(c[1..]);
    }
  }

  lemma BagOfOne<T>(c: seq<seq<T>>, p: nat)
    requires p < |c| && forall i :: 0 <= i < |c| && i != p ==> c[i] == []
    ensures Bag(c) == multiset(c[p])
  {
    BagUpdate(c, p, []);
    BagOfEmpty(c[p := []]);
    assert Bag(c) == Bag(c[p := []]) + multiset(c[p]);
  }

  /** A list whose nodes are outside the pool joins the family. */
  lemma Joins<T(0)>(all: seq<ForwardList<T>>, pool: set<Node<T>>, list: ForwardList<T>)
    requires Family(all, pool) && list.Valid() && list !in all
    requires forall i :: 0 <= i < |list.spine| ==> list.spine[i] !in pool
    ensures Family(all + [list], pool + set n | n in list.spine)
  {
    forall i | 0 <= i < |all|
      ensures all[i].Apart(list) && list.Apart(all[i])
    {
      assert forall k :: 0 <= k < |all[i].spine| ==> all[i].spine[k] in pool;
    }
  }

  /** The 64 slots, the working list and the list being sorted, as one family. */
  method Allocate<T(0)>(self: ForwardList<T>) returns (all: seq<ForwardList<T>>, ghost pool: set<Node<T>>)
    requires self.Valid()
    ensures Family(all, pool) && |all| == SLOTS + 2 && all[SLOTS + 1] == self
    ensures forall i :: 0 <= i <= SLOTS ==> fresh(all[i]) && Conts(all)[i] == []
    ensures Conts(all)[SLOTS + 1] == self.Contents()
    ensures forall n :: n in pool ==> n in self.spine || fresh(n)
  {
    all, pool := [], {};
    while |all| <= SLOTS
      invariant |all| <= SLOTS + 1 && Family(all, pool)
      invariant forall i :: 0 <= i < |all| ==> fresh(all[i]) && all[i].Contents() == []
      invariant forall n :: n in pool ==> fresh(n)
      decreases SLOTS + 1 - |all|
    {
      var list := new ForwardList<T>();
      Joins(all, pool, list);
      pool := pool + set n | n in list.spine;
      all := all + [list];
    }
    Joins(all, pool, self);
    pool := pool + set n | n in self.spine;
    all := all + [self];
  }

  /** Merging the last run in use keeps the result sorted and frees its slot. */
  lemma RunStep<T(!new)>(c: seq<seq<T>>, i: nat, lt: (T, T) -> bool)
    requires StrictWeakOrder(lt) && Counter(c, i + 1, lt) && Sorted(c[SLOTS], lt)
    ensures var c' := MergedInto(c, SLOTS, i, lt);
            Counter(c', i, lt) && Sorted(c'[SLOTS], lt) && Bag(c') == Bag(c)
  {
    assert Slot(c[i], i, lt);
    MergedPermutes(c[SLOTS], c[i], lt);
    MergedSorted(c[SLOTS], c[i], lt);
    BagExchange(c, SLOTS, i, Merged(c[SLOTS], c[i], lt), []);
  }

  /** The last loop of sort: merge the runs, the largest first. */
  method MergeRuns<T(0, !new)>(all: seq<ForwardList<T>>, endOfLists: nat, lt: (T, T) -> bool, ghost pool: set<Node<T>>)
    requires StrictWeakOrder(lt) && Family(all, pool) && Counter(Conts(all), endOfLists, lt)
    requires Conts(all)[SLOTS] == [] && Conts(all)[SLOTS + 1] == []
    modifies all, pool
    ensures Family(all, pool) && Sorted(Conts(all)[SLOTS], lt)
    ensures multiset(Conts(all)[SLOTS]) == old(Bag(Conts(all)))
  {
    ghost var bag := Bag(Conts(all));
    var i: nat := endOfLists;
    while i > 0
      invariant Family(all, pool) && Counter(Conts(all), i, lt)
      invariant Sorted(Conts(all)[SLOTS], lt) && Conts(all)[SLOTS + 1] == []
      invariant Bag(Conts(all)) == bag
    {
      i := i - 1;
      RunStep(Conts(all), i, lt);
      MergeIn(all, SLOTS, i, lt, pool);
    }
    BagOfOne(Conts(all), SLOTS);
  }

  /** Between two insertions. */
  ghost predicate Filling<T>(c: seq<seq<T>>, used: nat, lt: (T, T) -> bool, was: seq<T>)
  {
    Counter(c, used, lt) && c[SLOTS] == [] && Bag(c) == multiset(was)
  }

  /** One turn of the first loop: feed the next element to the counter. */
  method FeedFront<T(0, !new)>(all: seq<ForwardList<T>>, endOfLists: nat, lt: (T, T) -> bool, ghost pool: set<Node<T>>,
                               ghost was: seq<T>) returns (used: nat)
    requires StrictWeakOrder(lt) && Family(all, pool) && Filling(Conts(all), endOfLists, lt, was)
    requires Conts(all)[SLOTS + 1] != [] && |was| < Pow2(SLOTS)
    modifies all, pool
    ensures Family(all, pool) && Filling(Conts(all), used, lt, was)
    ensures Conts(all)[SLOTS + 1] == old(Conts(all)[SLOTS + 1])[1..]
  {
    StartCarry(Conts(all), endOfLists, lt);
    MoveFront(all, SLOTS + 1, SLOTS, pool);
    used := Carry(all, endOfLists, lt, pool);
  }

  /** The first loop of sort: feed every element to the counter. */
  method FillCounter<T(0, !new)>(all: seq<ForwardList<T>>, lt: (T, T) -> bool, ghost pool: set<Node<T>>)
    returns (endOfLists: nat)
    requires StrictWeakOrder(lt) && Family(all, pool) && Fresh(Conts(all))
    modifies all, pool
    ensures Family(all, pool) && Filling(Conts(all), endOfLists, lt, old(Conts(all)[SLOTS + 1]))
    ensures Conts(all)[SLOTS + 1] == []
  {
    ghost var was := Conts(all)[SLOTS + 1];
    BagOfOne(Conts(all), SLOTS + 1);
    endOfLists := 0;
    Counted(all, SLOTS + 1, pool);
    while all[SLOTS + 1].count != 0
      invariant Family(all, pool) && Filling(Conts(all), endOfLists, lt, was)
      invariant all[SLOTS + 1].count == |Conts(all)[SLOTS + 1]|
      decreases |Conts(all)[SLOTS + 1]|
    {
      endOfLists := FeedFront(all, endOfLists, lt, pool, was);
      Counted(all, SLOTS + 1, pool);
    }
  }

  /** The body of sort, once its lists exist. */
  method SortFamily<T(0, !new)>(all: seq<ForwardList<T>>, lt: (T, T) -> bool, ghost pool: set<Node<T>>)
    requires StrictWeakOrder(lt) && Family(all, pool) && Fresh(Conts(all))
    modifies all, pool
    ensures Family(all, pool) && Sorted(Conts(all)[SLOTS + 1], lt)
    ensures multiset(Conts(all)[SLOTS + 1]) == multiset(old(Conts(all)[SLOTS + 1]))
  {
    ghost var bag := multiset(Conts(all)[SLOTS + 1]);
    var endOfLists := FillCounter(all, lt, pool);
    MergeRuns(all, endOfLists, lt, pool);
    ghost var run := Conts(all)[SLOTS];
    assert Sorted(run, lt) && multiset(run) == bag;
    SwapIn(all, SLOTS + 1, SLOTS, pool);
    assert Conts(all)[SLOTS + 1] == run;
  }

  /** A sorted permutation, for every strict weak order and every size that fits 64 bits. */
  method Sort<T(0, !new)>(self: ForwardList<T>, lt: (T, T) -> bool)
    requires self.Valid() && StrictWeakOrder(lt) && |self.Contents()| < Pow2(SLOTS)
    modifies self, self.spine
    ensures self.Valid()
    ensures Sorted(self.Contents(), lt)
    ensures multiset(self.Contents()) == multiset(old(self.Contents()))
  {
    var all, pool := Allocate(self);
    SortFamily(all, lt, pool);
    assert Conts(all)[SLOTS + 1] == self.Contents();
  }
}
