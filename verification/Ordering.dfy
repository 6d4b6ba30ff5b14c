/** Merging two sequences under a comparison, as ForwardList::merge interleaves two lists. */
module Ordering {
  import opened Sequences

  predicate Equivalent<T>(lt: (T, T) -> bool, x: T, y: T)
  {
    !lt(x, y) && !lt(y, x)
  }

  /** What a C++ Compare must be: a strict weak ordering. */
  ghost predicate StrictWeakOrder<T(!new)>(lt: (T, T) -> bool)
  {
    && (forall x :: !lt(x, x))
    && (forall x, y, z :: lt(x, y) && lt(y, z) ==> lt(x, z))
    && (forall x, y, z :: Equivalent(lt, x, y) && Equivalent(lt, y, z) ==> Equivalent(lt, x, z))
  }

  ghost predicate Sorted<T>(s: seq<T>, lt: (T, T) -> bool)
  {
    forall i, j :: 0 <= i < j < |s| ==> !lt(s[j], s[i])
  }

  /** Elements of b go in front of the first element of a they are below; otherwise a comes first. */
  function Merged<T>(a: seq<T>, b: seq<T>, lt: (T, T) -> bool): seq<T>
    decreases |a| + |b|
  {
    if b == [] then a
    else if a == [] then b
    else if lt(b[0], a[0]) then [b[0]] + Merged(a, b[1..], lt)
    else [a[0]] + Merged(a[1..], b, lt)
  }

  lemma NotAboveTransitive<T(!new)>(lt: (T, T) -> bool, x: T, y: T, z: T)
    requires StrictWeakOrder(lt) && !lt(y, x) && !lt(z, y)
    ensures !lt(z, x)
  {
    if lt(z, x) {
      if Equivalent(lt, x, y) && Equivalent(lt, y, z) {
        assert false;
      }
    }
  }

  lemma ConsCount<T>(h: T, s: seq<T>)
    ensures multiset([h] + s) == multiset{h} + multiset(s)
  {
  }

  lemma HeadCount<T>(s: seq<T>)
    requires s != []
    ensures multiset(s) == multiset{s[0]} + multiset(s[1..])
  {
    ConsCount(s[0], s[1..]);
    assert [s[0]] + s[1..] == s;
  }

  /** Nothing is lost, duplicated or invented. */
  lemma {:induction false} MergedPermutes<T>(a: seq<T>, b: seq<T>, lt: (T, T) -> bool)
    ensures multiset(Merged(a, b, lt)) == multiset(a) + multiset(b)
    decreases |a| + |b|
  {
    if b != [] && a != [] {
      if lt(b[0], a[0]) {
        MergedPermutes(a, b[1..], lt);
        ConsCount(b[0], Merged(a, b[1..], lt));
        HeadCount(b);
      } else {
        MergedPermutes(a[1..], b, lt);
        ConsCount(a[0], Merged(a[1..], b, lt));
        HeadCount(a);
      }
    }
  }

  lemma SortedCons<T>(h: T, s: seq<T>, lt: (T, T) -> bool)
    requires Sorted(s, lt) && forall x :: x in s ==> !lt(x, h)
    ensures Sorted([h] + s, lt)
  {
  }

  lemma SortedHead<T(!new)>(s: seq<T>, lt: (T, T) -> bool)
    requires StrictWeakOrder(lt) && Sorted(s, lt) && s != []
    ensures forall x :: x in s ==> !lt(x, s[0])
    ensures Sorted(s[1..], lt)
  {
  }

  lemma HeadBelow<T(!new)>(h: T, a: seq<T>, b: seq<T>, lt: (T, T) -> bool)
    requires forall x :: x in a ==> !lt(x, h)
    requires forall x :: x in b ==> !lt(x, h)
    requires Sorted(Merged(a, b, lt), lt)
    ensures Sorted([h] + Merged(a, b, lt), lt)
  {
    MergedPermutes(a, b, lt);
    forall x | x in Merged(a, b, lt)
      ensures !lt(x, h)
    {
      assert x in multiset(Merged(a, b, lt));
    }
    SortedCons(h, Merged(a, b, lt), lt);
  }

  /** Merging sorted sequences yields a sorted one. */
  lemma {:induction false} MergedSorted<T(!new)>(a: seq<T>, b: seq<T>, lt: (T, T) -> bool)
    requires StrictWeakOrder(lt) && Sorted(a, lt) && Sorted(b, lt)
    ensures Sorted(Merged(a, b, lt), lt)
    decreases |a| + |b|
  {
    if b != [] && a != [] {
      SortedHead(a, lt);
      SortedHead(b, lt);
      if lt(b[0], a[0]) {
        MergedSorted(a, b[1..], lt);
        HeadBelow(b[0], a, b[1..], lt);
      } else {
        MergedSorted(a[1..], b, lt);
        forall x | x in b
          ensures !lt(x, a[0])
        {
          NotAboveTransitive(lt, a[0], b[0], x);
        }
        HeadBelow(a[0], a[1..], b, lt);
      }
    }
  }

  function TieOf<T>(x: T, h: T, lt: (T, T) -> bool): seq<T>
  {
    if Equivalent(lt, x, h) then [h] else []
  }

  /** The elements of s that tie with x, in order. */
  function Ties<T>(x: T, s: seq<T>, lt: (T, T) -> bool): seq<T>
  {
    if s == [] then []
    else TieOf(x, s[0], lt) + Ties(x, s[1..], lt)
  }

  lemma {:induction false} TiesCons<T>(x: T, h: T, s: seq<T>, lt: (T, T) -> bool)
    ensures Ties(x, [h] + s, lt) == TieOf(x, h, lt) + Ties(x, s, lt)
  {
    assert ([h] + s)[1..] == s;
  }

  lemma PastEmpty<T>(h: seq<T>, a: seq<T>, b: seq<T>)
    requires h == [] || a == []
    ensures h + (a + b) == a + (h + b)
  {
  }

  /** A merge step that takes from the second sequence, on ties alone. */
  lemma {:induction false} TiesSecond<T>(x: T, a: seq<T>, b: seq<T>, lt: (T, T) -> bool)
    requires a != [] && b != [] && lt(b[0], a[0]) && (Equivalent(lt, x, b[0]) ==> Ties(x, a, lt) == [])
    requires Ties(x, Merged(a, b[1..], lt), lt) == Ties(x, a, lt) + Ties(x, b[1..], lt)
    ensures Ties(x, Merged(a, b, lt), lt) == Ties(x, a, lt) + Ties(x, b, lt)
  {
    TiesCons(x, b[0], Merged(a, b[1..], lt), lt);
    PastEmpty(TieOf(x, b[0], lt), Ties(x, a, lt), Ties(x, b[1..], lt));
  }

  /** And one that takes from the first. */
  lemma {:induction false} TiesFirst<T>(x: T, a: seq<T>, b: seq<T>, lt: (T, T) -> bool)
    requires a != [] && b != [] && !lt(b[0], a[0])
    requires Ties(x, Merged(a[1..], b, lt), lt) == Ties(x, a[1..], lt) + Ties(x, b, lt)
    ensures Ties(x, Merged(a, b, lt), lt) == Ties(x, a, lt) + Ties(x, b, lt)
  {
    TiesCons(x, a[0], Merged(a[1..], b, lt), lt);
    Assoc(TieOf(x, a[0], lt), Ties(x, a[1..], lt), Ties(x, b, lt));
  }

  /** A sorted sequence whose head is above a tie of x holds no tie of x. */
  lemma {:induction false} NoTiesAbove<T(!new)>(x: T, a: seq<T>, y: T, lt: (T, T) -> bool)
    requires StrictWeakOrder(lt) && Sorted(a, lt)
    requires Equivalent(lt, x, y) && (a != [] ==> lt(y, a[0]))
    ensures Ties(x, a, lt) == []
    decreases |a|
  {
    if a != [] {
      SortedHead(a, lt);
      if Equivalent(lt, x, a[0]) {
        assert Equivalent(lt, y, x);
      }
      if |a| > 1 {
        assert !lt(a[1], a[0]);
        if !lt(y, a[1]) {
          NotAboveTransitive(lt, a[0], a[1], y);
        }
      }
      NoTiesAbove(x, a[1..], y, lt);
    }
  }

  /** On ties the elements of a come first, each side keeping its own order. */
  lemma {:induction false} MergedTies<T(!new)>(x: T, a: seq<T>, b: seq<T>, lt: (T, T) -> bool)
    requires StrictWeakOrder(lt) && Sorted(a, lt)
    ensures Ties(x, Merged(a, b, lt), lt) == Ties(x, a, lt) + Ties(x, b, lt)
    decreases |a| + |b|
  {
    if b == [] {
      assert Ties(x, a, lt) + [] == Ties(x, a, lt);
    } else if a == [] {
      assert [] + Ties(x, b, lt) == Ties(x, b, lt);
    } else if lt(b[0], a[0]) {
      MergedTies(x, a, b[1..], lt);
      if Equivalent(lt, x, b[0]) {
        NoTiesAbove(x, a, b[0], lt);
      }
      TiesSecond(x, a, b, lt);
    } else {
      SortedHead(a, lt);
      MergedTies(x, a[1..], b, lt);
      TiesFirst(x, a, b, lt);
    }
  }
}
