/** Runs of a step protocol: `next(s, e)` is the state after event e, if e can happen in s. */
module Runs {
  import opened Bytes

  ghost predicate Run<S, E>(next: (S, E) -> Option<S>, s: S, es: seq<E>, s': S)
    decreases |es|
  {
    if es == [] then s == s'
    else next(s, es[0]).Some? && Run(next, next(s, es[0]).value, es[1..], s')
  }

  /** One more event at the end. */
  lemma {:induction false} RunThen<S, E>(next: (S, E) -> Option<S>, s: S, es: seq<E>, m: S, e: E)
    requires Run(next, s, es, m) && next(m, e).Some?
    ensures Run(next, s, es + [e], next(m, e).value)
    decreases |es|
  {
    if es == [] {
      assert [e][1..] == [];
    } else {
      assert (es + [e])[0] == es[0] && (es + [e])[1..] == es[1..] + [e];
      RunThen(next, next(s, es[0]).value, es[1..], m, e);
    }
  }

  /** What every step keeps, every run keeps. */
  lemma {:induction false} RunKeeps<S(!new), E(!new)>(next: (S, E) -> Option<S>, inv: S -> bool, s: S, es: seq<E>,
                                                      s': S)
    requires forall s, e :: inv(s) && next(s, e).Some? ==> inv(next(s, e).value)
    requires inv(s) && Run(next, s, es, s')
    ensures inv(s')
    decreases |es|
  {
    if es != [] {
      RunKeeps(next, inv, next(s, es[0]).value, es[1..], s');
    }
  }

  lemma {:induction false} RunConcat<S, E>(next: (S, E) -> Option<S>, s: S, es: seq<E>, m: S, fs: seq<E>, s': S)
    requires Run(next, s, es, m) && Run(next, m, fs, s')
    ensures Run(next, s, es + fs, s')
    decreases |es|
  {
    if es == [] {
      assert es + fs == fs;
    } else {
      assert (es + fs)[0] == es[0] && (es + fs)[1..] == es[1..] + fs;
      RunConcat(next, next(s, es[0]).value, es[1..], m, fs, s');
    }
  }

  /** The state before the last event. */
  lemma {:induction false} RunLast<S, E>(next: (S, E) -> Option<S>, s: S, es: seq<E>, s': S) returns (m: S)
    requires es != [] && Run(next, s, es, s')
    ensures Run(next, s, es[..|es| - 1], m) && next(m, es[|es| - 1]) == Some(s')
    decreases |es|
  {
    if |es| == 1 {
      m := s;
    } else {
      m := RunLast(next, next(s, es[0]).value, es[1..], s');
      assert es[1..][..|es| - 2] == es[..|es| - 1][1..];
    }
  }

  /** What holds before anything happened, and what every step keeps of the events so far and the state, holds of every
      run. */
  lemma {:induction false} RunRecords<S(!new), E(!new)>(next: (S, E) -> Option<S>, inv: (seq<E>, S) -> bool, s: S,
                                                        es: seq<E>, s': S)
    requires inv([], s)
    requires forall h, m, e :: inv(h, m) && next(m, e).Some? ==> inv(h + [e], next(m, e).value)
    requires Run(next, s, es, s')
    ensures inv(es, s')
    decreases |es|
  {
    if es != [] {
      var m := RunLast(next, s, es, s');
      RunRecords(next, inv, s, es[..|es| - 1], m);
      assert es == es[..|es| - 1] + [es[|es| - 1]];
    }
  }

  /** Some event of the sequence is of that kind. */
  ghost predicate Occurs<E>(es: seq<E>, kind: E -> bool)
  {
    exists i :: 0 <= i < |es| && kind(es[i])
  }

  lemma OccursThen<E>(es: seq<E>, e: E, kind: E -> bool)
    ensures Occurs(es + [e], kind) <==> Occurs(es, kind) || kind(e)
  {
    var all := es + [e];
    assert all[|es|] == e && forall i :: 0 <= i < |es| ==> all[i] == es[i];
  }

  /** One more event leaves what was before. */
  lemma Earlier<E>(es: seq<E>, e: E, i: nat)
    requires i <= |es|
    ensures (es + [e])[..i] == es[..i] && (es + [e])[i] == if i < |es| then es[i] else e
  {
  }
}
