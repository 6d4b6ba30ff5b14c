/** EventLoop: the functor queue, the eventfd and the poll loop, as a step protocol.

    The owner thread runs StartLoop; any number of other threads call QueueToLoop and Quit. A step is one access to
    what the threads share: the queue (under its lock), the quit flag or the eventfd. */
module EventLoops {
  import opened Bytes
  import opened Runs
  import opened Sequences
  import opened Counting

  type Thread = nat
  type Functor = nat

  /** The eventfd counter cannot pass this value; a write that would is refused. */
  const EVENTFD_MAX := 0xFFFF_FFFF_FFFF_FFFE

  datatype Owner =
    | NotStarted
    | Check                      // the loop condition
    | InPoll
    | Handling(evActive: bool)   // the handlers of the active channels; evActive: the eventfd's is still to run
    | Entering                   // CallFunctors before its test of quit
    | Swapping                   // and before the swap
    | Swapped                    // and before calling_functors is set
    | Calling(waking: bool)      // waking: a functor has queued another and is about to write the eventfd
    | Exited

  datatype Other =
    | Away
    | ToWake        // has queued a functor or set quit, and is about to write the eventfd
    | QuitChecked   // in Quit, past the test

  /** `queued` is every functor in the order of the lock, `executed` those called so far, `batch` those swapped out
      and not called yet; `early` says that the owner queued a functor before it started the loop, and has not swapped
      since. */
  datatype State = State(owner: Owner, others: seq<Other>, functors: seq<Functor>, batch: seq<Functor>, quit: bool,
                         calling: bool, ev: nat, queued: seq<Functor>, executed: seq<Functor>, early: bool)
  {
    function Set(t: Thread, p: Other): State
      requires t < |others|
    {
      this.(others := others[t := p])
    }

    function Wakeup(): State
    {
      this.(ev := if ev < EVENTFD_MAX then ev + 1 else ev)
    }

    function Push(f: Functor): State
    {
      this.(functors := functors + [f], queued := queued + [f])
    }
  }

  function Init(threads: nat): State
  {
    State(NotStarted, seq(threads, _ => Away), [], [], false, false, 0, [], [], false)
  }

  // ---------------------------------------------------------------- steps

  datatype Event =
    // the owner, in the loop
    | StartLoop
    | TestQuit
    | PollReturns(other: bool)       // other: some other channel is active, or the time is up
    | EvRead
    | HandlersDone
    | EnterCallFunctors
    | Swap
    | BeginCalling
    | CallNext
    | EndCalling
    // the owner, inside a handler or a functor
    | OwnerQueues(f: Functor)
    | OwnerWakes
    | OwnerQuits
    // another thread
    | Queues(t: Thread, f: Functor)
    | Wakes(t: Thread)
    | TestsQuit(t: Thread)
    | SetsQuit(t: Thread)

  /** The owner runs user code. */
  predicate InCallback(s: State)
  {
    s.owner.Handling? || s.owner == Calling(false)
  }

  predicate Enabled(s: State, e: Event)
  {
    match e
    case StartLoop => s.owner == NotStarted
    case TestQuit => s.owner == Check
    case PollReturns(other) => s.owner == InPoll && (other || s.ev > 0)
    case EvRead => s.owner == Handling(true)
    case HandlersDone => s.owner == Handling(false)
    case EnterCallFunctors => s.owner == Entering
    case Swap => s.owner == Swapping
    case BeginCalling => s.owner == Swapped
    case CallNext => s.owner == Calling(false) && s.batch != []
    case EndCalling => s.owner == Calling(false) && s.batch == []
    case OwnerQueues(f) => InCallback(s) || s.owner == NotStarted
    case OwnerWakes => s.owner == Calling(true)
    case OwnerQuits => InCallback(s) || s.owner == NotStarted
    case Queues(t, f) => t < |s.others| && s.others[t] == Away
    case Wakes(t) => t < |s.others| && s.others[t] == ToWake
    case TestsQuit(t) => t < |s.others| && s.others[t] == Away
    case SetsQuit(t) => t < |s.others| && s.others[t] == QuitChecked
  }

  function Apply(s: State, e: Event): State
    requires Enabled(s, e)
  {
    match e
    case StartLoop => s.(owner := Check)
    case TestQuit => s.(owner := if s.quit then Exited else InPoll)
    case PollReturns(other) => s.(owner := Handling(s.ev > 0))
    case EvRead => s.(owner := Handling(false), ev := 0)
    case HandlersDone => s.(owner := Entering)
    case EnterCallFunctors => s.(owner := if s.quit then Check else Swapping)
    case Swap => s.(owner := Swapped, batch := s.functors, functors := [], early := false)
    case BeginCalling => s.(owner := Calling(false), calling := true)
    case CallNext => s.(batch := s.batch[1..], executed := s.executed + [s.batch[0]])
    case EndCalling => s.(owner := Check, calling := false)
    case OwnerQueues(f) =>
      var pushed := s.Push(f);
      if s.owner == NotStarted then pushed.(early := true)
      else if s.calling then pushed.(owner := Calling(true))
      else pushed
    case OwnerWakes => s.(owner := Calling(false)).Wakeup()
    case OwnerQuits => s.(quit := true)
    case Queues(t, f) => s.Push(f).Set(t, ToWake)
    case Wakes(t) => s.Set(t, Away).Wakeup()
    case TestsQuit(t) => if s.quit then s else s.Set(t, QuitChecked)
    case SetsQuit(t) => s.(quit := true).Set(t, ToWake)
  }

  function Next(s: State, e: Event): Option<State>
  {
    if Enabled(s, e) then Some(Apply(s, e)) else None
  }

  ghost predicate Reachable(threads: nat, s: State)
  {
    exists es :: Run(Next, Init(threads), es, s)
  }

  // ---------------------------------------------------------------- the invariant

  /** Another thread is about to write the eventfd. */
  ghost predicate WakeupComing(s: State)
  {
    exists t :: 0 <= t < |s.others| && s.others[t] == ToWake
  }

  ghost predicate Signalled(s: State)
  {
    s.ev > 0 || WakeupComing(s) || s.owner == Calling(true)
  }

  /** From here the owner will poll before it swaps. */
  predicate PollsFirst(o: Owner)
  {
    o.NotStarted? || o.Check? || o.InPoll? || o.Swapped? || o.Calling?
  }

  /** Every functor is queued, swapped out or called, in order. */
  ghost predicate Ordered(s: State)
  {
    s.executed + s.batch + s.functors == s.queued
  }

  ghost predicate Phased(s: State)
  {
    && (s.batch != [] ==> s.owner.Swapped? || s.owner.Calling?)
    && (s.calling <==> s.owner.Calling?)
    && (s.owner.NotStarted? || s.early ==> s.executed == [] && s.batch == [])
    && (s.owner == Handling(true) ==> s.ev > 0)
    && (s.owner.Exited? ==> s.quit)
  }

  /** Work or a request to quit ahead of a poll has its wakeup. */
  ghost predicate Awakened(s: State)
  {
    && (!s.early && s.functors != [] && PollsFirst(s.owner) ==> Signalled(s) || (s.owner.Check? && s.quit))
    && (s.owner.InPoll? && s.quit ==> Signalled(s))
  }

  ghost predicate Inv(s: State)
  {
    Ordered(s) && Phased(s) && Awakened(s)
  }

  lemma InitInv(threads: nat)
    ensures Inv(Init(threads))
  {
  }

  lemma StepOrdered(s: State, e: Event)
    requires Inv(s) && Enabled(s, e)
    ensures Ordered(Apply(s, e))
  {
    match e
    case CallNext =>
      assert s.batch == [s.batch[0]] + s.batch[1..];
      assert s.executed + ([s.batch[0]] + s.batch[1..]) == s.executed + [s.batch[0]] + s.batch[1..];
    case Swap => assert s.executed + [] + s.functors == s.executed + s.functors + [];
    case OwnerQueues(f) => Assoc(s.executed + s.batch, s.functors, [f]);
    case Queues(_, f) => Assoc(s.executed + s.batch, s.functors, [f]);
    case _ =>
  }

  predicate ByOther(e: Event)
  {
    e.Queues? || e.Wakes? || e.TestsQuit? || e.SetsQuit?
  }

  lemma OwnerStepPhased(s: State, e: Event)
    requires Phased(s) && Enabled(s, e) && !ByOther(e)
    ensures Phased(Apply(s, e))
  {
  }

  lemma OwnerStepAwakened(s: State, e: Event)
    requires Phased(s) && Awakened(s) && Enabled(s, e) && !ByOther(e)
    ensures Awakened(Apply(s, e))
  {
    assert WakeupComing(s) ==> WakeupComing(Apply(s, e));
  }

  lemma OwnerStepInv(s: State, e: Event)
    requires Inv(s) && Enabled(s, e) && !ByOther(e)
    ensures Inv(Apply(s, e))
  {
    StepOrdered(s, e);
    OwnerStepPhased(s, e);
    OwnerStepAwakened(s, e);
  }

  lemma OtherStepInv(s: State, e: Event)
    requires Inv(s) && Enabled(s, e) && ByOther(e)
    ensures Inv(Apply(s, e))
  {
    StepOrdered(s, e);
    var s' := Apply(s, e);
    if e.Queues? || e.SetsQuit? {
      assert s'.others[e.t] == ToWake;
    } else if e.TestsQuit? && WakeupComing(s) {
      var u :| 0 <= u < |s.others| && s.others[u] == ToWake;
      assert s'.others[u] == ToWake;
    }
  }

  lemma StepInv(s: State, e: Event)
    requires Inv(s) && Enabled(s, e)
    ensures Inv(Apply(s, e))
  {
    if ByOther(e) {
      OtherStepInv(s, e);
    } else {
      OwnerStepInv(s, e);
    }
  }

  lemma ReachableInv(threads: nat, s: State)
    requires Reachable(threads, s)
    ensures Inv(s)
  {
    var es :| Run(Next, Init(threads), es, s);
    forall s, e | Inv(s) && Next(s, e).Some?
      ensures Inv(Next(s, e).value)
    {
      StepInv(s, e);
    }
    InitInv(threads);
    RunKeeps(Next, Inv, Init(threads), es, s);
  }

  // ---------------------------------------------------------------- the state, by the events of the run

  predicate AsksToQuit(e: Event)
  {
    e.OwnerQuits? || e.SetsQuit?
  }

  predicate Starts(e: Event)
  {
    e.StartLoop?
  }

  predicate Swaps(e: Event)
  {
    e.Swap?
  }

  /** The functors of the queueing events, in order. */
  function QueuedBy(es: seq<Event>): seq<Functor>
  {
    if es == [] then []
    else
      var e := es[|es| - 1];
      QueuedBy(es[..|es| - 1]) + if e.OwnerQueues? || e.Queues? then [e.f] else []
  }

  /** How many functors were called. */
  function CallsIn(es: seq<Event>): nat
  {
    if es == [] then 0 else CallsIn(es[..|es| - 1]) + One(es[|es| - 1].CallNext?)
  }

  /** How often the eventfd was written since it was read. */
  function WritesIn(es: seq<Event>): nat
  {
    if es == [] then 0
    else if es[|es| - 1].EvRead? then 0
    else WritesIn(es[..|es| - 1]) + One(es[|es| - 1].Wakes? || es[|es| - 1].OwnerWakes?)
  }

  /** The owner queued a functor before it started the loop. */
  ghost predicate QueuedEarly(es: seq<Event>)
  {
    exists i :: 0 <= i < |es| && es[i].OwnerQueues? && !Occurs(es[..i], Starts)
  }

  lemma QueuedEarlyThen(es: seq<Event>, e: Event)
    ensures QueuedEarly(es + [e]) <==> QueuedEarly(es) || (e.OwnerQueues? && !Occurs(es, Starts))
  {
    var all := es + [e];
    assert all[|es|] == e && all[..|es|] == es;
    assert forall i :: 0 <= i < |es| ==> all[i] == es[i] && all[..i] == es[..i];
  }

  lemma CountedThen(es: seq<Event>, e: Event)
    ensures QueuedBy(es + [e]) == QueuedBy(es) + if e.OwnerQueues? || e.Queues? then [e.f] else []
    ensures CallsIn(es + [e]) == CallsIn(es) + One(e.CallNext?)
    ensures WritesIn(es + [e]) == if e.EvRead? then 0 else WritesIn(es) + One(e.Wakes? || e.OwnerWakes?)
  {
    var all := es + [e];
    assert all[|all| - 1] == e && all[..|all| - 1] == es;
  }

  /** What the state remembers of requests is what happened. */
  ghost predicate Booked(es: seq<Event>, s: State)
  {
    && s.queued == QueuedBy(es) && |s.executed| == CallsIn(es) && (s.quit <==> Occurs(es, AsksToQuit))
    && s.ev == if WritesIn(es) <= EVENTFD_MAX then WritesIn(es) else EVENTFD_MAX
  }

  /** And so is what it remembers of the start. */
  ghost predicate Dated(es: seq<Event>, s: State)
  {
    && (s.owner.NotStarted? <==> !Occurs(es, Starts)) && (s.owner.NotStarted? ==> !Occurs(es, Swaps))
    && (s.early <==> QueuedEarly(es) && !Occurs(es, Swaps))
  }

  lemma BookedThen(es: seq<Event>, s: State, e: Event)
    requires Booked(es, s) && Enabled(s, e)
    ensures Booked(es + [e], Apply(s, e))
  {
    OccursThen(es, e, AsksToQuit);
    CountedThen(es, e);
  }

  lemma DatedThen(es: seq<Event>, s: State, e: Event)
    requires Phased(s) && Dated(es, s) && Enabled(s, e)
    ensures Dated(es + [e], Apply(s, e))
  {
    OccursThen(es, e, Starts);
    OccursThen(es, e, Swaps);
    QueuedEarlyThen(es, e);
  }

  /** Where another thread is by its last event: about to write after queueing or setting quit, and past the test in
      Quit only if nobody had asked before. */
  ghost function Doing(es: seq<Event>, t: Thread): Other
  {
    if es == [] then Away
    else
      var before := es[..|es| - 1];
      match es[|es| - 1]
      case Queues(u, _) => if u == t then ToWake else Doing(before, t)
      case Wakes(u) => if u == t then Away else Doing(before, t)
      case TestsQuit(u) => if u != t then Doing(before, t) else if Occurs(before, AsksToQuit) then Away else QuitChecked
      case SetsQuit(u) => if u == t then ToWake else Doing(before, t)
      case _ => Doing(before, t)
  }

  ghost predicate Placed(es: seq<Event>, s: State)
  {
    forall t :: 0 <= t < |s.others| ==> s.others[t] == Doing(es, t)
  }

  lemma PlacedThen(es: seq<Event>, s: State, e: Event)
    requires Booked(es, s) && Placed(es, s) && Enabled(s, e)
    ensures Placed(es + [e], Apply(s, e))
  {
    var all := es + [e];
    assert all[|all| - 1] == e && all[..|all| - 1] == es;
  }

  /** In every run: what is queued is what the queueing events asked for, in their order; as many functors are called
      as there are calling events; the quit flag is set exactly if somebody asked; the eventfd counts its writes; and
      the other threads are where their last events put them. */
  lemma History(threads: nat, es: seq<Event>, s: State)
    requires Run(Next, Init(threads), es, s)
    ensures Inv(s) && Booked(es, s) && Dated(es, s) && Placed(es, s)
  {
    var inv := (h: seq<Event>, s: State) => Inv(s) && Booked(h, s) && Dated(h, s) && Placed(h, s);
    forall h, m, e | inv(h, m) && Next(m, e).Some?
      ensures inv(h + [e], Next(m, e).value)
    {
      StepInv(m, e);
      BookedThen(h, m, e);
      DatedThen(h, m, e);
      PlacedThen(h, m, e);
    }
    InitInv(threads);
    RunRecords(Next, inv, Init(threads), es, s);
  }

  /** The loop ends only on request. */
  lemma EndsOnRequest(threads: nat, es: seq<Event>, s: State)
    requires Run(Next, Init(threads), es, s) && s.owner.Exited?
    ensures Occurs(es, AsksToQuit)
  {
    History(threads, es, s);
  }

  /** The owner is past the test of quit in CallFunctors. */
  predicate InTurn(o: Owner)
  {
    o.Swapping? || o.Swapped? || o.Calling?
  }

  lemma QuitStep(s: State, e: Event)
    requires Inv(s) && s.quit && !InTurn(s.owner) && Enabled(s, e)
    ensures Apply(s, e).quit && Apply(s, e).executed == s.executed && !InTurn(Apply(s, e).owner)
  {
  }

  /** Once asked to quit, outside the turn that is under way, no functor is called any more, whoever does what. */
  lemma QuitStops(s: State, es: seq<Event>, s': State)
    requires Inv(s) && s.quit && !InTurn(s.owner) && Run(Next, s, es, s')
    ensures s'.quit && s'.executed == s.executed && !InTurn(s'.owner)
  {
    var inv := (m: State) => Inv(m) && m.quit && !InTurn(m.owner) && m.executed == s.executed;
    forall m, e | inv(m) && Next(m, e).Some?
      ensures inv(Next(m, e).value)
    {
      StepInv(m, e);
      QuitStep(m, e);
    }
    RunKeeps(Next, inv, s, es, s');
  }

  // ---------------------------------------------------------------- safety over all runs

  /** Blocked in poll with work to do or with quit set, the counter at zero and nobody about to write it. */
  ghost predicate Stuck(s: State)
  {
    s.owner.InPoll? && (s.functors != [] || s.quit) && s.ev == 0 && !WakeupComing(s)
  }

  /** In every run, the loop never sleeps on work or on a request to quit, but for one case: a functor that the owner
      queued before it started the loop, at a poll before the first swap. */
  lemma NoLostWakeup(threads: nat, es: seq<Event>, s: State)
    requires Run(Next, Init(threads), es, s) && Stuck(s)
    ensures QueuedEarly(es) && !Occurs(es, Swaps) && !Occurs(es, AsksToQuit)
  {
    History(threads, es, s);
  }

  /** And the restriction is needed: a functor that the owner queues before it starts the loop is slept on. */
  lemma EarlyFunctorIsSleptOn(threads: nat, f: Functor) returns (s: State)
    ensures Reachable(threads, s) && Stuck(s) && s.functors == [f]
  {
    var s0 := Init(threads);
    var es := [OwnerQueues(f), StartLoop, TestQuit];
    var s1 := Apply(s0, es[0]);
    var s2 := Apply(s1, es[1]);
    s := Apply(s2, es[2]);
    assert es[1..][0] == StartLoop && es[1..][1..][0] == TestQuit && es[1..][1..][1..] == [];
    assert Run(Next, s2, es[1..][1..], s);
    assert Run(Next, s1, es[1..], s);
    assert Run(Next, s0, es, s);
  }

  /** In every run, functors are called in the order in which they were queued, each at most once; and the eventfd
      is read only when it can be. */
  lemma InOrderOnce(threads: nat, es: seq<Event>, s: State)
    requires Run(Next, Init(threads), es, s)
    ensures CallsIn(es) <= |QueuedBy(es)| && s.executed == QueuedBy(es)[..CallsIn(es)]
    ensures s.batch + s.functors == QueuedBy(es)[CallsIn(es)..]
    ensures s.owner == Handling(true) ==> s.ev > 0
  {
    History(threads, es, s);
    Assoc(s.executed, s.batch, s.functors);
  }

  // ---------------------------------------------------------------- everything queued is called

  /** The steps that no further call and no other channel is needed for. */
  predicate Internal(e: Event)
  {
    match e
    case OwnerQueues(_) => false
    case OwnerQuits => false
    case Queues(_, _) => false
    case TestsQuit(_) => false
    case PollReturns(other) => !other
    case _ => true
  }

  predicate Is(k: Other, p: Other)
  {
    k == p
  }

  /** How far the owner is from its next poll. */
  function Phase(o: Owner): nat
  {
    match o
    case NotStarted => 9
    case Handling(evActive) => if evActive then 1 else 8
    case Entering => 7
    case Swapping => 6
    case Swapped => 5
    case Calling(_) => 4
    case Check => 3
    case InPoll => 2
    case Exited => 0
  }

  /** What may still make a poll return. */
  function Wakeups(s: State): nat
  {
    3 * Count(s.others, QuitChecked, Is) + 2 * Count(s.others, ToWake, Is)
    + One(s.ev > 0) + 2 * One(s.owner == Calling(true))
  }

  function Measure(s: State): nat
  {
    10 * Wakeups(s) + |s.batch| + |s.functors| + Phase(s.owner)
  }

  lemma OtherStepDecreases(s: State, e: Event)
    requires Enabled(s, e) && (e.Wakes? || e.SetsQuit?)
    ensures Measure(Apply(s, e)) < Measure(s)
  {
    Moves(s.others, e.t, Apply(s, e).others[e.t], Is);
  }

  lemma StepDecreases(s: State, e: Event)
    requires Inv(s) && Enabled(s, e) && Internal(e)
    ensures Measure(Apply(s, e)) < Measure(s)
  {
    if e.Wakes? || e.SetsQuit? {
      OtherStepDecreases(s, e);
    } else {
      assert Apply(s, e).others == s.others;
    }
  }

  /** Where no internal step is left, the loop has ended on request, or it waits in poll with everything called. */
  ghost predicate Settled(s: State)
  {
    || (s.owner.Exited? && s.quit)
    || (s.owner.InPoll? && !s.quit && s.executed == s.queued)
  }

  lemma SettledAtEnd(s: State)
    requires Inv(s) && !s.early && forall e :: Internal(e) ==> !Enabled(s, e)
    ensures Settled(s)
  {
    assert !Enabled(s, StartLoop) && !Enabled(s, TestQuit) && !Enabled(s, PollReturns(false)) && !Enabled(s, EvRead);
    assert !Enabled(s, HandlersDone) && !Enabled(s, EnterCallFunctors) && !Enabled(s, Swap);
    assert !Enabled(s, BeginCalling) && !Enabled(s, CallNext) && !Enabled(s, EndCalling) && !Enabled(s, OwnerWakes);
    assert s.owner.InPoll? || s.owner.Exited?;
    forall t | 0 <= t < |s.others|
      ensures s.others[t] != ToWake
    {
      assert !Enabled(s, Wakes(t));
    }
  }

  /** However the internal steps are interleaved, there are no more of them than the measure; and when they are done,
      every queued functor has been called, in order, unless the loop was asked to quit. */
  lemma {:induction false} Drains(s: State, es: seq<Event>, s': State)
    requires Inv(s) && !s.early && Run(Next, s, es, s') && forall i :: 0 <= i < |es| ==> Internal(es[i])
    ensures |es| + Measure(s') <= Measure(s)
    ensures (forall e :: Internal(e) ==> !Enabled(s', e)) ==> Settled(s')
    decreases |es|
  {
    if es == [] {
      if forall e :: Internal(e) ==> !Enabled(s', e) {
        SettledAtEnd(s');
      }
    } else {
      StepDecreases(s, es[0]);
      StepInv(s, es[0]);
      Drains(Apply(s, es[0]), es[1..], s');
    }
  }
}
