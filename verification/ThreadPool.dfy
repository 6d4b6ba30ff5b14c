/** ThreadPool: the bounded task queue on two condition variables, as a step protocol.

    A step is one stretch of Push or Pop under the mutex, up to the return or the next wait. */
module ThreadPools {
  import opened Bytes
  import opened Runs
  import opened Counting

  type Thread = nat
  type Task = nat

  datatype Pc =
    | Idle
    | PushAsleep(task: Task)      // waiting on not_full
    | PushNotified(task: Task)
    | PopAsleep                   // waiting on not_empty
    | PopNotified

  /** `pushed` and `popped` are the tasks that went in and came out so far, in the order of the mutex. */
  datatype State = State(pc: seq<Pc>, queue: seq<Task>, max: nat, pushed: seq<Task>, popped: seq<Task>)
  {
    function Set(t: Thread, p: Pc): State
      requires t < |pc|
    {
      this.(pc := pc[t := p])
    }
  }

  function Init(threads: nat, max: nat): State
  {
    State(seq(threads, _ => Idle), [], max, [], [])
  }

  datatype Kind = OnNotFull | OnNotEmpty | Producing | Consuming | Notifieds | Participants

  predicate Is(k: Kind, p: Pc)
  {
    match k
    case OnNotFull => p.PushAsleep?
    case OnNotEmpty => p.PopAsleep?
    case Producing => p.PushNotified?
    case Consuming => p.PopNotified?
    case Notifieds => p.PushNotified? || p.PopNotified?
    case Participants => !p.Idle?
  }

  function Notified(p: Pc): Pc
  {
    match p
    case PushAsleep(task) => PushNotified(task)
    case PopAsleep => PopNotified
    case _ => p
  }

  /** A notify on a condition wakes one of its sleepers, if there is one. */
  predicate MayWake(s: State, cond: Kind, woken: Option<Thread>)
  {
    match woken
    case None => forall t :: 0 <= t < |s.pc| ==> !Is(cond, s.pc[t])
    case Some(t) => t < |s.pc| && Is(cond, s.pc[t])
  }

  function Wake(s: State, woken: Option<Thread>): State
    requires woken.Some? ==> woken.value < |s.pc|
  {
    if woken.None? then s else s.Set(woken.value, Notified(s.pc[woken.value]))
  }

  // ---------------------------------------------------------------- the code under the mutex

  /** Push past its loop, before the notify. */
  function Enqueued(s: State, t: Thread, task: Task): State
    requires t < |s.pc|
  {
    s.Set(t, Idle).(queue := s.queue + [task], pushed := s.pushed + [task])
  }

  /** Pop past its loop, before the notify. */
  function Dequeued(s: State, t: Thread): State
    requires t < |s.pc| && s.queue != []
  {
    s.Set(t, Idle).(queue := s.queue[1..], popped := s.popped + [s.queue[0]])
  }

  predicate PushMay(s: State, t: Thread, task: Task, woken: Option<Thread>)
    requires t < |s.pc|
  {
    if |s.queue| == s.max then woken.None? else MayWake(Enqueued(s, t, task), OnNotEmpty, woken)
  }

  function PushTest(s: State, t: Thread, task: Task, woken: Option<Thread>): State
    requires t < |s.pc| && PushMay(s, t, task, woken)
  {
    if |s.queue| == s.max then s.Set(t, PushAsleep(task)) else Wake(Enqueued(s, t, task), woken)
  }

  predicate PopMay(s: State, t: Thread, woken: Option<Thread>)
    requires t < |s.pc|
  {
    if s.queue == [] then woken.None? else MayWake(Dequeued(s, t), OnNotFull, woken)
  }

  function PopTest(s: State, t: Thread, woken: Option<Thread>): State
    requires t < |s.pc| && PopMay(s, t, woken)
  {
    if s.queue == [] then s.Set(t, PopAsleep) else Wake(Dequeued(s, t), woken)
  }

  // ---------------------------------------------------------------- steps and runs

  datatype Event =
    | Push(t: Thread, task: Task, woken: Option<Thread>)
    | Pop(t: Thread, woken: Option<Thread>)
    | Retest(t: Thread, woken: Option<Thread>)
    | Spurious(t: Thread)

  predicate Enabled(s: State, e: Event)
  {
    && e.t < |s.pc|
    && match e
       case Push(t, task, woken) => s.pc[t] == Idle && PushMay(s, t, task, woken)
       case Pop(t, woken) => s.pc[t] == Idle && PopMay(s, t, woken)
       case Retest(t, woken) =>
         if s.pc[t].PushNotified? then PushMay(s, t, s.pc[t].task, woken)
         else s.pc[t] == PopNotified && PopMay(s, t, woken)
       case Spurious(t) => Is(OnNotFull, s.pc[t]) || Is(OnNotEmpty, s.pc[t])
  }

  function Apply(s: State, e: Event): State
    requires Enabled(s, e)
  {
    match e
    case Push(t, task, woken) => PushTest(s, t, task, woken)
    case Pop(t, woken) => PopTest(s, t, woken)
    case Retest(t, woken) =>
      if s.pc[t].PushNotified? then PushTest(s, t, s.pc[t].task, woken) else PopTest(s, t, woken)
    case Spurious(t) => s.Set(t, Notified(s.pc[t]))
  }

  function Next(s: State, e: Event): Option<State>
  {
    if Enabled(s, e) then Some(Apply(s, e)) else None
  }

  ghost predicate Reachable(threads: nat, max: nat, s: State)
  {
    exists es :: Run(Next, Init(threads, max), es, s)
  }

  // ---------------------------------------------------------------- the invariant

  ghost predicate Inv(s: State)
  {
    && s.max >= 1 && |s.queue| <= s.max && s.popped + s.queue == s.pushed
    && (Count(s.pc, OnNotEmpty, Is) > 0 ==> |s.queue| <= Count(s.pc, Consuming, Is))
    && (Count(s.pc, OnNotFull, Is) > 0 ==> s.max - |s.queue| <= Count(s.pc, Producing, Is))
  }

  lemma InitInv(threads: nat, max: nat)
    requires max >= 1
    ensures Inv(Init(threads, max))
  {
    NoneOf(Init(threads, max).pc, OnNotEmpty, Is);
    NoneOf(Init(threads, max).pc, OnNotFull, Is);
  }

  lemma PushInv(s: State, t: Thread, task: Task, woken: Option<Thread>)
    requires Inv(s) && t < |s.pc| && (s.pc[t] == Idle || s.pc[t] == PushNotified(task)) && PushMay(s, t, task, woken)
    ensures Inv(PushTest(s, t, task, woken))
  {
    if |s.queue| == s.max {
      Moves(s.pc, t, PushAsleep(task), Is);
    } else {
      var m := Enqueued(s, t, task);
      assert m.popped + m.queue == m.pushed;
      Moves(s.pc, t, Idle, Is);
      if woken.Some? {
        Moves(m.pc, woken.value, Notified(m.pc[woken.value]), Is);
      } else {
        NoneOf(m.pc, OnNotEmpty, Is);
      }
    }
  }

  lemma PopInv(s: State, t: Thread, woken: Option<Thread>)
    requires Inv(s) && t < |s.pc| && (s.pc[t] == Idle || s.pc[t] == PopNotified) && PopMay(s, t, woken)
    ensures Inv(PopTest(s, t, woken))
  {
    if s.queue == [] {
      Moves(s.pc, t, PopAsleep, Is);
    } else {
      var m := Dequeued(s, t);
      assert m.popped + m.queue == s.popped + s.queue;
      Moves(s.pc, t, Idle, Is);
      if woken.Some? {
        Moves(m.pc, woken.value, Notified(m.pc[woken.value]), Is);
      } else {
        NoneOf(m.pc, OnNotFull, Is);
      }
    }
  }

  lemma StepInv(s: State, e: Event)
    requires Inv(s) && Enabled(s, e)
    ensures Inv(Apply(s, e)) && |Apply(s, e).pc| == |s.pc| && Apply(s, e).max == s.max
  {
    match e
    case Push(t, task, woken) => PushInv(s, t, task, woken);
    case Pop(t, woken) => PopInv(s, t, woken);
    case Retest(t, woken) =>
      if s.pc[t].PushNotified? {
        PushInv(s, t, s.pc[t].task, woken);
      } else {
        PopInv(s, t, woken);
      }
    case Spurious(t) => Moves(s.pc, t, Notified(s.pc[t]), Is);
  }

  lemma ReachableInv(threads: nat, max: nat, s: State)
    requires max >= 1 && Reachable(threads, max, s)
    ensures Inv(s) && s.max == max
  {
    var es :| Run(Next, Init(threads, max), es, s);
    var inv := (s: State) => Inv(s) && s.max == max;
    forall s, e | inv(s) && Next(s, e).Some?
      ensures inv(Next(s, e).value)
    {
      StepInv(s, e);
    }
    InitInv(threads, max);
    RunKeeps(Next, inv, Init(threads, max), es, s);
  }

  // ---------------------------------------------------------------- safety over all runs

  /** First in, first out and once each; never more than max; and a sleeper only while the notified ones suffice. */
  ghost predicate Safe(s: State)
  {
    && s.popped <= s.pushed && s.queue == s.pushed[|s.popped|..] && |s.queue| <= s.max
    && (forall t :: 0 <= t < |s.pc| && s.pc[t].PopAsleep? ==> |s.queue| <= Count(s.pc, Consuming, Is))
    && (forall t :: 0 <= t < |s.pc| && s.pc[t].PushAsleep? ==> s.max - |s.queue| <= Count(s.pc, Producing, Is))
  }

  lemma Safety(threads: nat, max: nat, s: State)
    requires max >= 1 && Reachable(threads, max, s)
    ensures Safe(s) && s.max == max
  {
    ReachableInv(threads, max, s);
    NoneOf(s.pc, OnNotEmpty, Is);
    NoneOf(s.pc, OnNotFull, Is);
  }

  // ---------------------------------------------------------------- every call accounts for its task

  /** The tasks of the Push events, in order. */
  function PushedBy(es: seq<Event>): seq<Task>
  {
    if es == [] then []
    else PushedBy(es[..|es| - 1]) + if es[|es| - 1].Push? then [es[|es| - 1].task] else []
  }

  /** How often Pop was called. */
  function PopsIn(es: seq<Event>): nat
  {
    if es == [] then 0 else PopsIn(es[..|es| - 1]) + One(es[|es| - 1].Pop?)
  }

  datatype Call = Pushing(task: Task) | Popping

  /** The last call of thread t. */
  function LastCall(es: seq<Event>, t: Thread): Option<Call>
  {
    if es == [] then None
    else
      match es[|es| - 1]
      case Push(u, task, _) => if u == t then Some(Pushing(task)) else LastCall(es[..|es| - 1], t)
      case Pop(u, _) => if u == t then Some(Popping) else LastCall(es[..|es| - 1], t)
      case _ => LastCall(es[..|es| - 1], t)
  }

  lemma CallsThen(es: seq<Event>, e: Event, t: Thread)
    ensures PushedBy(es + [e]) == PushedBy(es) + if e.Push? then [e.task] else []
    ensures PopsIn(es + [e]) == PopsIn(es) + One(e.Pop?)
    ensures LastCall(es + [e], t) == if e.t == t && e.Push? then Some(Pushing(e.task))
                                     else if e.t == t && e.Pop? then Some(Popping)
                                     else LastCall(es, t)
  {
    var all := es + [e];
    assert all[|all| - 1] == e && all[..|all| - 1] == es;
  }

  /** A producer that waits with that task. */
  predicate Carries(x: Task, p: Pc)
  {
    (p.PushAsleep? || p.PushNotified?) && p.task == x
  }

  /** Whoever waits does so in its last call, with the task of that call. */
  ghost predicate Placed(es: seq<Event>, s: State)
  {
    forall t :: 0 <= t < |s.pc| ==>
      match s.pc[t]
      case Idle => true
      case PushAsleep(task) => LastCall(es, t) == Some(Pushing(task))
      case PushNotified(task) => LastCall(es, t) == Some(Pushing(task))
      case PopAsleep => LastCall(es, t) == Some(Popping)
      case PopNotified => LastCall(es, t) == Some(Popping)
  }

  /** A task that was asked for as often as it went in or waits with its producer. */
  ghost predicate TaskKept(es: seq<Event>, s: State, x: Task)
  {
    multiset(s.pushed)[x] + Count(s.pc, x, Carries) == multiset(PushedBy(es))[x]
  }

  /** As many tasks came out as Pop was called, but for the consumers that wait. */
  ghost predicate PopsKept(es: seq<Event>, s: State)
  {
    |s.popped| + Count(s.pc, OnNotEmpty, Is) + Count(s.pc, Consuming, Is) == PopsIn(es)
  }

  lemma WakeKeeps(s: State, woken: Option<Thread>, x: Task)
    requires woken.Some? ==> woken.value < |s.pc|
    ensures Count(Wake(s, woken).pc, x, Carries) == Count(s.pc, x, Carries)
    ensures Count(Wake(s, woken).pc, OnNotEmpty, Is) + Count(Wake(s, woken).pc, Consuming, Is)
         == Count(s.pc, OnNotEmpty, Is) + Count(s.pc, Consuming, Is)
  {
    if woken.Some? {
      CountSet(s.pc, woken.value, Notified(s.pc[woken.value]), x, Carries);
      CountSet(s.pc, woken.value, Notified(s.pc[woken.value]), OnNotEmpty, Is);
      CountSet(s.pc, woken.value, Notified(s.pc[woken.value]), Consuming, Is);
    }
  }

  /** A thread that moves to p, on both counts. */
  lemma MoveKeeps(pc: seq<Pc>, t: Thread, p: Pc, x: Task)
    requires t < |pc|
    ensures Count(pc[t := p], x, Carries) == Count(pc, x, Carries) - One(Carries(x, pc[t])) + One(Carries(x, p))
    ensures Count(pc[t := p], OnNotEmpty, Is) + Count(pc[t := p], Consuming, Is)
         == Count(pc, OnNotEmpty, Is) + Count(pc, Consuming, Is)
            - One(pc[t].PopAsleep? || pc[t].PopNotified?) + One(p.PopAsleep? || p.PopNotified?)
  {
    CountSet(pc, t, p, x, Carries);
    CountSet(pc, t, p, OnNotEmpty, Is);
    CountSet(pc, t, p, Consuming, Is);
  }

  /** What a Push that gets the mutex does to both accounts. */
  lemma PushKeeps(s: State, t: Thread, task: Task, woken: Option<Thread>, x: Task)
    requires t < |s.pc| && (s.pc[t] == Idle || s.pc[t] == PushNotified(task)) && PushMay(s, t, task, woken)
    ensures var s' := PushTest(s, t, task, woken);
            && multiset(s'.pushed)[x] + Count(s'.pc, x, Carries)
               == multiset(s.pushed)[x] + Count(s.pc, x, Carries) + One(s.pc[t] == Idle && task == x)
            && |s'.popped| + Count(s'.pc, OnNotEmpty, Is) + Count(s'.pc, Consuming, Is)
               == |s.popped| + Count(s.pc, OnNotEmpty, Is) + Count(s.pc, Consuming, Is)
  {
    if |s.queue| == s.max {
      MoveKeeps(s.pc, t, PushAsleep(task), x);
    } else {
      MoveKeeps(s.pc, t, Idle, x);
      WakeKeeps(Enqueued(s, t, task), woken, x);
    }
  }

  lemma PopKeeps(s: State, t: Thread, woken: Option<Thread>, x: Task)
    requires t < |s.pc| && (s.pc[t] == Idle || s.pc[t] == PopNotified) && PopMay(s, t, woken)
    ensures var s' := PopTest(s, t, woken);
            && multiset(s'.pushed)[x] + Count(s'.pc, x, Carries) == multiset(s.pushed)[x] + Count(s.pc, x, Carries)
            && |s'.popped| + Count(s'.pc, OnNotEmpty, Is) + Count(s'.pc, Consuming, Is)
               == |s.popped| + Count(s.pc, OnNotEmpty, Is) + Count(s.pc, Consuming, Is) + One(s.pc[t] == Idle)
  {
    if s.queue == [] {
      MoveKeeps(s.pc, t, PopAsleep, x);
    } else {
      MoveKeeps(s.pc, t, Idle, x);
      WakeKeeps(Dequeued(s, t), woken, x);
    }
  }

  lemma KeptThen(es: seq<Event>, s: State, e: Event, x: Task)
    requires TaskKept(es, s, x) && PopsKept(es, s) && Enabled(s, e)
    ensures TaskKept(es + [e], Apply(s, e), x) && PopsKept(es + [e], Apply(s, e))
  {
    CallsThen(es, e, e.t);
    match e
    case Push(t, task, woken) => PushKeeps(s, t, task, woken, x);
    case Pop(t, woken) => PopKeeps(s, t, woken, x);
    case Retest(t, woken) =>
      if s.pc[t].PushNotified? {
        PushKeeps(s, t, s.pc[t].task, woken, x);
      } else {
        PopKeeps(s, t, woken, x);
      }
    case Spurious(t) => MoveKeeps(s.pc, t, Notified(s.pc[t]), x);
  }

  /** A step moves its own thread, and may notify another. */
  lemma OthersStay(s: State, e: Event, t: Thread)
    requires Enabled(s, e) && t < |s.pc| && t != e.t
    ensures t < |Apply(s, e).pc| && (Apply(s, e).pc[t] == s.pc[t] || Apply(s, e).pc[t] == Notified(s.pc[t]))
  {
  }

  lemma PlacedThen(es: seq<Event>, s: State, e: Event)
    requires Placed(es, s) && Enabled(s, e)
    ensures Placed(es + [e], Apply(s, e))
  {
    forall t | 0 <= t < |s.pc|
      ensures LastCall(es + [e], t) == if e.t == t && e.Push? then Some(Pushing(e.task))
                                       else if e.t == t && e.Pop? then Some(Popping)
                                       else LastCall(es, t)
      ensures t != e.t ==> t < |Apply(s, e).pc|
                           && (Apply(s, e).pc[t] == s.pc[t] || Apply(s, e).pc[t] == Notified(s.pc[t]))
    {
      CallsThen(es, e, t);
      if t != e.t {
        OthersStay(s, e, t);
      }
    }
  }

  ghost predicate Accounted(es: seq<Event>, s: State)
  {
    Placed(es, s) && PopsKept(es, s) && forall x: Task :: TaskKept(es, s, x)
  }

  lemma AccountedThen(es: seq<Event>, s: State, e: Event)
    requires Accounted(es, s) && Enabled(s, e)
    ensures Accounted(es + [e], Apply(s, e))
  {
    PlacedThen(es, s, e);
    KeptThen(es, s, e, 0);
    forall x: Task
      ensures TaskKept(es + [e], Apply(s, e), x)
    {
      KeptThen(es, s, e, x);
    }
  }

  lemma NothingYet(threads: nat, max: nat)
    ensures Accounted([], Init(threads, max))
  {
    var init := Init(threads, max);
    NoneOf(init.pc, OnNotEmpty, Is);
    NoneOf(init.pc, Consuming, Is);
    forall x: Task
      ensures TaskKept([], init, x)
    {
      NoneOf(init.pc, x, Carries);
    }
  }

  /** In every run: each task that Push was called with went in once, or waits with the producer that called; each Pop
      took one task out, or waits; and whoever waits does so in its last call. */
  lemma ByCalls(threads: nat, max: nat, es: seq<Event>, s: State)
    requires Run(Next, Init(threads, max), es, s)
    ensures Accounted(es, s)
  {
    forall h, m, e | Accounted(h, m) && Next(m, e).Some?
      ensures Accounted(h + [e], Next(m, e).value)
    {
      AccountedThen(h, m, e);
    }
    NothingYet(threads, max);
    RunRecords(Next, Accounted, Init(threads, max), es, s);
  }

  // ---------------------------------------------------------------- every run that takes no new calls settles

  predicate Asleep(p: Pc)
  {
    p.PushAsleep? || p.PopAsleep?
  }

  /** All calls still open wait for something that is really missing: consumers for a task, or producers for room. */
  ghost predicate Settled(s: State)
  {
    || (s.queue == [] && forall t :: 0 <= t < |s.pc| ==> s.pc[t] == Idle || s.pc[t].PopAsleep?)
    || (|s.queue| == s.max && forall t :: 0 <= t < |s.pc| ==> s.pc[t] == Idle || s.pc[t].PushAsleep?)
    || (forall t :: 0 <= t < |s.pc| ==> s.pc[t] == Idle)
  }

  lemma Choose(s: State, cond: Kind) returns (woken: Option<Thread>)
    ensures MayWake(s, cond, woken)
  {
    NoneOf(s.pc, cond, Is);
    if Count(s.pc, cond, Is) > 0 {
      var t := CountFound(s.pc, cond, Is);
      woken := Some(t);
    } else {
      woken := None;
    }
  }

  /** A notified thread can always take its step. */
  lemma RetestEnabled(s: State, t: Thread) returns (e: Event)
    requires t < |s.pc| && Is(Notifieds, s.pc[t])
    ensures e.Retest? && Enabled(s, e)
  {
    if s.pc[t].PushNotified? {
      if |s.queue| == s.max {
        e := Retest(t, None);
      } else {
        var woken := Choose(Enqueued(s, t, s.pc[t].task), OnNotEmpty);
        e := Retest(t, woken);
      }
    } else {
      if s.queue == [] {
        e := Retest(t, None);
      } else {
        var woken := Choose(Dequeued(s, t), OnNotFull);
        e := Retest(t, woken);
      }
    }
  }

  lemma {:induction false} NotifiedsSplit(pc: seq<Pc>)
    ensures Count(pc, Notifieds, Is) == Count(pc, Producing, Is) + Count(pc, Consuming, Is) <= |pc|
  {
    if pc != [] {
      NotifiedsSplit(pc[1..]);
    }
  }

  /** If nobody was notified, the sleepers are all of one side, and that side has to wait. */
  lemma NobodyNotified(s: State)
    requires Inv(s) && Count(s.pc, Notifieds, Is) == 0
    ensures Settled(s)
  {
    NotifiedsSplit(s.pc);
    NoneOf(s.pc, Notifieds, Is);
    NoneOf(s.pc, OnNotEmpty, Is);
    NoneOf(s.pc, OnNotFull, Is);
  }

  function Measure(s: State): nat
  {
    Count(s.pc, Participants, Is) * (|s.pc| + 1) + Count(s.pc, Notifieds, Is)
  }

  /** A thread that leaves, waking another or not, is one participant less. */
  lemma LeaveCounts(pc: seq<Pc>, t: Thread, woken: Option<Thread>)
    requires t < |pc| && pc[t] != Idle && (woken.Some? ==> woken.value < |pc| && Asleep(pc[t := Idle][woken.value]))
    ensures var m := pc[t := Idle];
            var pc' := if woken.None? then m else m[woken.value := Notified(m[woken.value])];
            Count(pc', Participants, Is) == Count(pc, Participants, Is) - 1
  {
    var m := pc[t := Idle];
    CountSet(pc, t, Idle, Participants, Is);
    if woken.Some? {
      CountSet(m, woken.value, Notified(m[woken.value]), Participants, Is);
    }
  }

  /** A notified thread that goes back to sleep is one notified less. */
  lemma SleepCounts(pc: seq<Pc>, t: Thread, p: Pc)
    requires t < |pc| && Is(Notifieds, pc[t]) && Asleep(p)
    ensures Count(pc[t := p], Participants, Is) == Count(pc, Participants, Is)
    ensures Count(pc[t := p], Notifieds, Is) == Count(pc, Notifieds, Is) - 1
  {
    CountSet(pc, t, p, Participants, Is);
    CountSet(pc, t, p, Notifieds, Is);
  }

  lemma RetestCounts(s: State, e: Event)
    requires e.Retest? && Enabled(s, e)
    ensures var pc, pc' := s.pc, Apply(s, e).pc;
            && |pc'| == |pc| && Count(pc', Notifieds, Is) <= |pc|
            && (|| Count(pc', Participants, Is) < Count(pc, Participants, Is)
                || (&& Count(pc', Participants, Is) == Count(pc, Participants, Is)
                    && Count(pc', Notifieds, Is) < Count(pc, Notifieds, Is)))
  {
    NotifiedsSplit(Apply(s, e).pc);
    var t := e.t;
    if s.pc[t].PushNotified? && |s.queue| == s.max {
      SleepCounts(s.pc, t, PushAsleep(s.pc[t].task));
    } else if s.pc[t] == PopNotified && s.queue == [] {
      SleepCounts(s.pc, t, PopAsleep);
    } else {
      LeaveCounts(s.pc, t, e.woken);
    }
  }

  lemma StepDecreases(s: State, e: Event)
    requires e.Retest? && Enabled(s, e)
    ensures Measure(Apply(s, e)) < Measure(s)
  {
    RetestCounts(s, e);
    var pc, pc' := s.pc, Apply(s, e).pc;
    MeasureDrops(|pc|, Count(pc, Participants, Is), Count(pc, Notifieds, Is),
                 Count(pc', Participants, Is), Count(pc', Notifieds, Is));
  }

  /** Without new calls and spurious wakeups a run is no longer than the measure, and where it ends no wakeup was
      lost: whoever still sleeps has nothing to take, or no room to put. */
  lemma {:induction false} Settles(s: State, es: seq<Event>, s': State)
    requires Inv(s) && Run(Next, s, es, s') && forall i :: 0 <= i < |es| ==> es[i].Retest?
    ensures |es| + Measure(s') <= Measure(s)
    ensures (forall e: Event :: e.Retest? ==> !Enabled(s', e)) ==> Settled(s')
    decreases |es|
  {
    if es == [] {
      if Count(s'.pc, Notifieds, Is) > 0 {
        var t := CountFound(s'.pc, Notifieds, Is);
        var e := RetestEnabled(s', t);
      } else {
        NobodyNotified(s');
      }
    } else {
      StepInv(s, es[0]);
      StepDecreases(s, es[0]);
      Settles(Apply(s, es[0]), es[1..], s');
    }
  }
}
