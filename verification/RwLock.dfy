/** RWLock: a writer-preferring lock on two condition variables, as a step protocol.

    Each step is one stretch of code under the mutex: from taking the mutex to releasing it, either at the end of
    the call or inside a wait. A thread that was notified still has to take the mutex again and repeat its test. */
module RwLocks {
  import opened Bytes
  import opened Runs
  import opened Counting

  const MAX_READER_NUM := 0xFFFF_FFFF

  type Thread = nat

  datatype Pc =
    | Idle
    | ReadAsleep      // in RLock, waiting on cond_w
    | ReadNotified
    | WriteAsleep     // in WLock, waiting on cond_w
    | WriteNotified
    | DrainAsleep     // in WLock, has_writer set, waiting on cond_r
    | DrainNotified
    | Reading
    | Writing

  /** `max` is the largest number of readers the counter admits. */
  datatype State = State(pc: seq<Pc>, hasWriter: bool, readers: int, max: nat)
  {
    function Set(t: Thread, p: Pc): State
      requires t < |pc|
    {
      this.(pc := pc[t := p])
    }
  }

  function Init(threads: nat, max: nat): State
  {
    State(seq(threads, _ => Idle), false, 0, max)
  }

  // ---------------------------------------------------------------- the code between taking and releasing the mutex

  /** The loop of RLock: wait, or enter. */
  function ReadTest(s: State, t: Thread): State
    requires t < |s.pc|
  {
    if s.hasWriter || s.readers == s.max then s.Set(t, ReadAsleep)
    else s.Set(t, Reading).(readers := s.readers + 1)
  }

  /** The second loop of WLock: wait for the readers, or enter. */
  function DrainTest(s: State, t: Thread): State
    requires t < |s.pc|
  {
    if s.readers > 0 then s.Set(t, DrainAsleep) else s.Set(t, Writing)
  }

  /** The first loop of WLock: wait for the other writer, or claim the lock and go on. */
  function WriteTest(s: State, t: Thread): State
    requires t < |s.pc|
  {
    if s.hasWriter then s.Set(t, WriteAsleep) else DrainTest(s.(hasWriter := true), t)
  }

  /** The kinds of threads the invariant counts; an owner is the thread that set has_writer. */
  datatype Kind = Readers | Writers | Owners | OnCondR | OnCondW | Notifieds | Participants

  predicate Is(k: Kind, p: Pc)
  {
    match k
    case Readers => p == Reading
    case Writers => p == Writing
    case Owners => p == Writing || p == DrainAsleep || p == DrainNotified
    case OnCondR => p == DrainAsleep
    case OnCondW => p == ReadAsleep || p == WriteAsleep
    case Notifieds => p == ReadNotified || p == WriteNotified || p == DrainNotified
    case Participants => p != Idle
  }

  function Notified(p: Pc): Pc
  {
    match p
    case ReadAsleep => ReadNotified
    case WriteAsleep => WriteNotified
    case DrainAsleep => DrainNotified
    case _ => p
  }

  /** A notify on a condition wakes one of its sleepers, if there is one. */
  predicate MayWake(s: State, cond: Kind, woken: Option<Thread>)
  {
    match woken
    case None => forall t :: 0 <= t < |s.pc| ==> !Is(cond, s.pc[t])
    case Some(t) => t < |s.pc| && Is(cond, s.pc[t])
  }

  function Wake(s: State, woken: Option<Thread>): State
    requires woken.Some? ==> woken.value < |s.pc|
  {
    if woken.None? then s else s.Set(woken.value, Notified(s.pc[woken.value]))
  }

  function WakeAll(s: State): State
  {
    s.(pc := seq(|s.pc|, i requires 0 <= i < |s.pc| => if Is(OnCondW, s.pc[i]) then Notified(s.pc[i]) else s.pc[i]))
  }

  // ---------------------------------------------------------------- steps and runs

  datatype Event =
    | RLock(t: Thread)
    | WLock(t: Thread)
    | RUnlock(t: Thread, woken: Option<Thread>)
    | WUnlock(t: Thread)
    | Retest(t: Thread)     // a notified thread has the mutex again
    | Spurious(t: Thread)   // a sleeper wakes for no reason

  /** RUnlock before its notify. */
  function Left(s: State, t: Thread): State
    requires t < |s.pc|
  {
    s.Set(t, Idle).(readers := s.readers - 1)
  }

  /** Whom the notify of RUnlock is allowed to wake. */
  predicate LeaveMayWake(s: State, woken: Option<Thread>)
  {
    if s.hasWriter then
      if s.readers == 0 then MayWake(s, OnCondR, woken) else woken.None?
    else
      if s.readers == s.max - 1 then MayWake(s, OnCondW, woken) else woken.None?
  }

  predicate Enabled(s: State, e: Event)
  {
    && e.t < |s.pc|
    && match e
       case RLock(t) => s.pc[t] == Idle
       case WLock(t) => s.pc[t] == Idle
       case RUnlock(t, woken) => s.pc[t] == Reading && LeaveMayWake(Left(s, t), woken)
       case WUnlock(t) => s.pc[t] == Writing
       case Retest(t) => s.pc[t] in {ReadNotified, WriteNotified, DrainNotified}
       case Spurious(t) => Is(OnCondW, s.pc[t]) || Is(OnCondR, s.pc[t])
  }

  function Apply(s: State, e: Event): State
    requires Enabled(s, e)
  {
    match e
    case RLock(t) => ReadTest(s, t)
    case WLock(t) => WriteTest(s, t)
    case RUnlock(t, woken) => Wake(Left(s, t), woken)
    case WUnlock(t) => WakeAll(s.Set(t, Idle).(hasWriter := false))
    case Retest(t) =>
      if s.pc[t] == ReadNotified then ReadTest(s, t)
      else if s.pc[t] == WriteNotified then WriteTest(s, t)
      else DrainTest(s, t)
    case Spurious(t) => s.Set(t, Notified(s.pc[t]))
  }

  function Next(s: State, e: Event): Option<State>
  {
    if Enabled(s, e) then Some(Apply(s, e)) else None
  }

  ghost predicate Reachable(threads: nat, max: nat, s: State)
  {
    exists es :: Run(Next, Init(threads, max), es, s)
  }

  // ---------------------------------------------------------------- the invariant

  /** In any number of threads not above the limit plus one. */
  ghost predicate Inv(s: State)
  {
    && |s.pc| <= s.max + 1 && s.max >= 1
    && s.readers == Count(s.pc, Readers, Is) <= s.max
    && Count(s.pc, Owners, Is) == One(s.hasWriter)
    && (Count(s.pc, Writers, Is) > 0 ==> s.readers == 0)
    && (Count(s.pc, OnCondR, Is) > 0 ==> s.readers > 0)
    && (Count(s.pc, OnCondW, Is) > 0 ==> s.hasWriter || s.readers == s.max)
  }

  lemma InitInv(threads: nat, max: nat)
    requires threads <= max + 1 && max >= 1
    ensures Inv(Init(threads, max))
  {
    forall k
      ensures Count(Init(threads, max).pc, k, Is) == 0
    {
      NoneOf(Init(threads, max).pc, k, Is);
    }
  }

  /** Every participant reads, writes, sleeps on one of the conditions or was notified, and an owner does not read
      and does not sleep on cond_w. */
  lemma {:induction false} Census(pc: seq<Pc>)
    ensures Count(pc, Participants, Is) <= |pc|
    ensures Count(pc, Participants, Is) == Count(pc, Readers, Is) + Count(pc, Writers, Is) + Count(pc, OnCondR, Is)
                                       + Count(pc, OnCondW, Is) + Count(pc, Notifieds, Is)
    ensures Count(pc, Writers, Is) + Count(pc, OnCondR, Is) <= Count(pc, Owners, Is)
    ensures Count(pc, Owners, Is) <= Count(pc, Writers, Is) + Count(pc, OnCondR, Is) + Count(pc, Notifieds, Is)
  {
    if pc != [] {
      Census(pc[1..]);
    }
  }

  /** What a move from one place to another does to a count. */
  function Change(k: Kind, from: Pc, to: Pc): int
  {
    One(Is(k, to)) - One(Is(k, from))
  }

  lemma Tally(pc: seq<Pc>, t: Thread, p: Pc, pc': seq<Pc>)
    requires t < |pc| && pc' == pc[t := p]
    ensures Count(pc', Readers, Is) == Count(pc, Readers, Is) + Change(Readers, pc[t], p)
    ensures Count(pc', Writers, Is) == Count(pc, Writers, Is) + Change(Writers, pc[t], p)
    ensures Count(pc', Owners, Is) == Count(pc, Owners, Is) + Change(Owners, pc[t], p)
    ensures Count(pc', OnCondR, Is) == Count(pc, OnCondR, Is) + Change(OnCondR, pc[t], p)
    ensures Count(pc', OnCondW, Is) == Count(pc, OnCondW, Is) + Change(OnCondW, pc[t], p)
    ensures Count(pc', Notifieds, Is) == Count(pc, Notifieds, Is) + Change(Notifieds, pc[t], p)
    ensures Count(pc', Participants, Is) == Count(pc, Participants, Is) + Change(Participants, pc[t], p)
  {
    CountSet(pc, t, p, Readers, Is);
    CountSet(pc, t, p, Writers, Is);
    CountSet(pc, t, p, Owners, Is);
    CountSet(pc, t, p, OnCondR, Is);
    CountSet(pc, t, p, OnCondW, Is);
    CountSet(pc, t, p, Notifieds, Is);
    CountSet(pc, t, p, Participants, Is);
  }

  lemma ReadTestInv(s: State, t: Thread)
    requires Inv(s) && t < |s.pc| && (s.pc[t] == Idle || s.pc[t] == ReadNotified)
    ensures Inv(ReadTest(s, t))
  {
    Census(s.pc);
    if s.hasWriter || s.readers == s.max {
      Tally(s.pc, t, ReadAsleep, s.pc[t := ReadAsleep]);
    } else {
      Tally(s.pc, t, Reading, s.pc[t := Reading]);
    }
  }

  lemma ClaimInv(s: State, t: Thread)
    requires Inv(s) && t < |s.pc| && (s.pc[t] == Idle || s.pc[t] == WriteNotified) && !s.hasWriter
    ensures Inv(DrainTest(s.(hasWriter := true), t))
  {
    Census(s.pc);
    if s.readers > 0 {
      Tally(s.pc, t, DrainAsleep, s.pc[t := DrainAsleep]);
    } else {
      Tally(s.pc, t, Writing, s.pc[t := Writing]);
    }
  }

  lemma WriteTestInv(s: State, t: Thread)
    requires Inv(s) && t < |s.pc| && (s.pc[t] == Idle || s.pc[t] == WriteNotified)
    ensures Inv(WriteTest(s, t))
  {
    if s.hasWriter {
      Tally(s.pc, t, WriteAsleep, s.pc[t := WriteAsleep]);
    } else {
      ClaimInv(s, t);
    }
  }

  lemma DrainTestInv(s: State, t: Thread)
    requires Inv(s) && t < |s.pc| && s.pc[t] == DrainNotified
    ensures Inv(DrainTest(s, t))
  {
    var s' := DrainTest(s, t);
    Tally(s.pc, t, s'.pc[t], s'.pc);
    CountIn(s.pc, t, Owners, Is);
    Census(s.pc);
    Census(s'.pc);
  }

  /** The invariant between a reader's leaving and its notify: a thread may be asleep that should not be. */
  ghost predicate InvBeforeNotify(s: State)
  {
    && |s.pc| <= s.max + 1 && s.max >= 1
    && s.readers == Count(s.pc, Readers, Is) < s.max
    && Count(s.pc, Owners, Is) == One(s.hasWriter)
    && Count(s.pc, Writers, Is) == 0 && Count(s.pc, OnCondR, Is) <= 1
    && (!s.hasWriter ==> Count(s.pc, OnCondR, Is) == 0 && Count(s.pc, OnCondW, Is) <= One(s.readers == s.max - 1))
  }

  lemma LeftInv(s: State, t: Thread)
    requires Inv(s) && t < |s.pc| && s.pc[t] == Reading
    ensures InvBeforeNotify(Left(s, t))
  {
    var s' := Left(s, t);
    Tally(s.pc, t, Idle, s'.pc);
    CountIn(s.pc, t, Readers, Is);
    Census(s.pc);
    Census(s'.pc);
  }

  /** Leaving wakes the one thread that may now go on, if there is one. */
  lemma LeaveInv(s: State, woken: Option<Thread>)
    requires InvBeforeNotify(s) && LeaveMayWake(s, woken)
    ensures Inv(Wake(s, woken))
  {
    if woken.Some? {
      Tally(s.pc, woken.value, Notified(s.pc[woken.value]), Wake(s, woken).pc);
    } else if s.hasWriter && s.readers == 0 {
      NoneOf(s.pc, OnCondR, Is);
    } else if !s.hasWriter && s.readers == s.max - 1 {
      NoneOf(s.pc, OnCondW, Is);
    }
  }

  lemma {:induction false} WakeAllCount(s: State, k: Kind)
    ensures Count(WakeAll(s).pc, k, Is) == match k
                                       case OnCondW => 0
                                       case Notifieds => Count(s.pc, Notifieds, Is) + Count(s.pc, OnCondW, Is)
                                       case _ => Count(s.pc, k, Is)
    decreases |s.pc|
  {
    if s.pc != [] {
      var rest := s.(pc := s.pc[1..]);
      assert WakeAll(s).pc[1..] == WakeAll(rest).pc;
      WakeAllCount(rest, k);
    }
  }

  /** After the writer has left, before its notify, nobody owns the lock or reads. */
  lemma WriterLeft(s: State, t: Thread)
    requires Inv(s) && t < |s.pc| && s.pc[t] == Writing
    ensures var pc := s.pc[t := Idle];
            Count(pc, Readers, Is) == s.readers == 0
            && Count(pc, Owners, Is) == Count(pc, Writers, Is) == Count(pc, OnCondR, Is) == 0
  {
    Tally(s.pc, t, Idle, s.pc[t := Idle]);
    CountIn(s.pc, t, Writers, Is);
    Census(s.pc[t := Idle]);
  }

  lemma WUnlockInv(s: State, t: Thread)
    requires Inv(s) && t < |s.pc| && s.pc[t] == Writing
    ensures Inv(Apply(s, WUnlock(t)))
  {
    var left := s.Set(t, Idle).(hasWriter := false);
    WriterLeft(s, t);
    WakeAllCount(left, Readers);
    WakeAllCount(left, Owners);
    WakeAllCount(left, Writers);
    WakeAllCount(left, OnCondR);
    WakeAllCount(left, OnCondW);
  }

  lemma SpuriousInv(s: State, t: Thread)
    requires Inv(s) && Enabled(s, Spurious(t))
    ensures Inv(Apply(s, Spurious(t)))
  {
    Tally(s.pc, t, Notified(s.pc[t]), Apply(s, Spurious(t)).pc);
  }

  lemma RetestInv(s: State, t: Thread)
    requires Inv(s) && Enabled(s, Retest(t))
    ensures Inv(Apply(s, Retest(t)))
  {
    if s.pc[t] == ReadNotified {
      ReadTestInv(s, t);
    } else if s.pc[t] == WriteNotified {
      WriteTestInv(s, t);
    } else {
      DrainTestInv(s, t);
    }
  }

  lemma StepThreads(s: State, e: Event)
    requires Enabled(s, e)
    ensures |Apply(s, e).pc| == |s.pc| && Apply(s, e).max == s.max
  {
  }

  lemma StepInv(s: State, e: Event)
    requires Inv(s) && Enabled(s, e)
    ensures Inv(Apply(s, e)) && |Apply(s, e).pc| == |s.pc|
  {
    StepThreads(s, e);
    match e
    case RLock(t) => ReadTestInv(s, t);
    case WLock(t) => WriteTestInv(s, t);
    case RUnlock(t, woken) =>
      LeftInv(s, t);
      LeaveInv(Left(s, t), woken);
    case WUnlock(t) => WUnlockInv(s, t);
    case Retest(t) => RetestInv(s, t);
    case Spurious(t) => SpuriousInv(s, t);
  }

  lemma ReachableInv(threads: nat, max: nat, s: State)
    requires 1 <= max && threads <= max + 1 && Reachable(threads, max, s)
    ensures Inv(s) && |s.pc| == threads && s.max == max
  {
    var es :| Run(Next, Init(threads, max), es, s);
    var inv := (s: State) => Inv(s) && |s.pc| == threads && s.max == max;
    forall s, e | inv(s) && Next(s, e).Some?
      ensures inv(Next(s, e).value)
    {
      StepInv(s, e);
    }
    InitInv(threads, max);
    RunKeeps(Next, inv, Init(threads, max), es, s);
  }

  // ---------------------------------------------------------------- the places of the threads, by their calls

  datatype Mode = Read | Write

  /** The call of thread t that it has not released yet, by the events alone. */
  function Held(es: seq<Event>, t: Thread): Option<Mode>
  {
    if es == [] then None
    else
      match es[|es| - 1]
      case RLock(u) => if u == t then Some(Read) else Held(es[..|es| - 1], t)
      case WLock(u) => if u == t then Some(Write) else Held(es[..|es| - 1], t)
      case RUnlock(u, _) => if u == t then None else Held(es[..|es| - 1], t)
      case WUnlock(u) => if u == t then None else Held(es[..|es| - 1], t)
      case Retest(_) => Held(es[..|es| - 1], t)
      case Spurious(_) => Held(es[..|es| - 1], t)
  }

  /** Where a thread can be that made such a call. */
  predicate Fits(call: Option<Mode>, p: Pc)
  {
    match call
    case None => p == Idle
    case Some(Read) => p == ReadAsleep || p == ReadNotified || p == Reading
    case Some(Write) => p == WriteAsleep || p == WriteNotified || p == DrainAsleep || p == DrainNotified || p == Writing
  }

  ghost predicate Placed(es: seq<Event>, s: State)
  {
    forall t :: 0 <= t < |s.pc| ==> Fits(Held(es, t), s.pc[t])
  }

  /** What a thread may do that holds such a call. */
  predicate Allowed(call: Option<Mode>, e: Event)
  {
    match e
    case RLock(_) => call == None
    case WLock(_) => call == None
    case RUnlock(_, _) => call == Some(Read)
    case WUnlock(_) => call == Some(Write)
    case Retest(_) => call != None
    case Spurious(_) => call != None
  }

  /** Calls and releases of a thread alternate, and each call is released as it was made. */
  ghost predicate Alternate(es: seq<Event>)
  {
    forall i :: 0 <= i < |es| ==> Allowed(Held(es[..i], es[i].t), es[i])
  }

  lemma HeldThen(es: seq<Event>, e: Event, t: Thread)
    ensures Held(es + [e], t) ==
            if e.t != t || e.Retest? || e.Spurious? then Held(es, t)
            else if e.RLock? then Some(Read)
            else if e.WLock? then Some(Write)
            else None
  {
    var all := es + [e];
    assert all[|all| - 1] == e && all[..|all| - 1] == es;
  }

  /** A step moves its own thread, and may notify sleepers. */
  lemma OthersStay(s: State, e: Event, t: Thread)
    requires Enabled(s, e) && t < |s.pc| && t != e.t
    ensures t < |Apply(s, e).pc| && (Apply(s, e).pc[t] == s.pc[t] || Apply(s, e).pc[t] == Notified(s.pc[t]))
  {
  }

  lemma PlacedThen(es: seq<Event>, s: State, e: Event)
    requires Placed(es, s) && Enabled(s, e)
    ensures Placed(es + [e], Apply(s, e))
  {
    StepThreads(s, e);
    forall t | 0 <= t < |s.pc|
      ensures Fits(Held(es + [e], t), Apply(s, e).pc[t])
    {
      HeldThen(es, e, t);
      if t != e.t {
        OthersStay(s, e, t);
      }
    }
  }

  lemma EnabledAllowed(s: State, e: Event, call: Option<Mode>)
    requires Enabled(s, e) && Fits(call, s.pc[e.t])
    ensures Allowed(call, e)
  {
  }

  lemma AlternateThen(es: seq<Event>, s: State, e: Event)
    requires Placed(es, s) && Alternate(es) && Enabled(s, e)
    ensures Alternate(es + [e])
  {
    var all := es + [e];
    forall i | 0 <= i < |all|
      ensures Allowed(Held(all[..i], all[i].t), all[i])
    {
      Earlier(es, e, i);
      if i == |es| {
        assert es[..i] == es;
        EnabledAllowed(s, e, Held(es, e.t));
      }
    }
  }

  /** In every run, however many threads there are, a thread is where its last call put it: a reader sleeps, was
      notified or reads, a writer sleeps, was notified or writes, and the others are outside. */
  lemma ByCalls(threads: nat, max: nat, es: seq<Event>, s: State)
    requires Run(Next, Init(threads, max), es, s)
    ensures |s.pc| == threads && Placed(es, s) && Alternate(es)
  {
    var inv := (h: seq<Event>, s: State) => |s.pc| == threads && Placed(h, s) && Alternate(h);
    forall h, m, e | inv(h, m) && Next(m, e).Some?
      ensures inv(h + [e], Next(m, e).value)
    {
      StepThreads(m, e);
      PlacedThen(h, m, e);
      AlternateThen(h, m, e);
    }
    assert Placed([], Init(threads, max)) && Alternate([]);
    RunRecords(Next, inv, Init(threads, max), es, s);
  }

  // ---------------------------------------------------------------- safety over all runs

  /** A writer shares the lock with nobody. */
  ghost predicate Exclusive(s: State)
  {
    forall t, u :: 0 <= t < |s.pc| && 0 <= u < |s.pc| && t != u && s.pc[t] == Writing ==>
      s.pc[u] != Writing && s.pc[u] != Reading
  }

  /** The call of the thread has returned, and it has not released the lock. */
  predicate Inside(s: State, t: Thread)
  {
    t < |s.pc| && (s.pc[t] == Reading || s.pc[t] == Writing)
  }

  /** A thread that is inside by WLock is alone there. */
  ghost predicate ExclusiveByCalls(es: seq<Event>, s: State)
  {
    forall t, u :: Inside(s, t) && Inside(s, u) && t != u ==> Held(es, t) == Held(es, u) == Some(Read)
  }

  /** Whoever sleeps has a reason to, and somebody else will end it. */
  ghost predicate SleepersJustified(s: State)
  {
    && (forall t :: 0 <= t < |s.pc| && Is(OnCondW, s.pc[t]) ==> s.hasWriter || s.readers == s.max)
    && (forall t :: 0 <= t < |s.pc| && Is(OnCondR, s.pc[t]) ==> s.readers > 0)
    && Count(s.pc, OnCondR, Is) <= 1
  }

  predicate Asleep(p: Pc)
  {
    Is(OnCondW, p) || Is(OnCondR, p)
  }

  /** Somebody takes part, and all who do are asleep. */
  ghost predicate Deadlocked(s: State)
  {
    && (exists t :: 0 <= t < |s.pc| && s.pc[t] != Idle)
    && (forall t :: 0 <= t < |s.pc| && s.pc[t] != Idle ==> Asleep(s.pc[t]))
  }

  lemma InvExclusive(s: State)
    requires Inv(s)
    ensures Exclusive(s)
  {
    forall t, u | 0 <= t < |s.pc| && 0 <= u < |s.pc| && t != u && s.pc[t] == Writing
      ensures s.pc[u] != Writing && s.pc[u] != Reading
    {
      Census(s.pc);
      CountIn(s.pc, t, Writers, Is);
      Tally(s.pc, t, Idle, s.pc[t := Idle]);
      if s.pc[u] == Writing {
        CountIn(s.pc[t := Idle], u, Writers, Is);
      } else if s.pc[u] == Reading {
        CountIn(s.pc, u, Readers, Is);
      }
    }
  }

  lemma CallsExclude(es: seq<Event>, s: State)
    requires Exclusive(s) && Placed(es, s)
    ensures ExclusiveByCalls(es, s)
  {
    forall t: Thread, u: Thread | Inside(s, t) && Inside(s, u) && t != u
      ensures Held(es, t) == Held(es, u) == Some(Read)
    {
      assert Fits(Held(es, t), s.pc[t]) && Fits(Held(es, u), s.pc[u]);
    }
  }

  lemma InvSleepers(s: State)
    requires Inv(s)
    ensures SleepersJustified(s)
  {
    Census(s.pc);
    forall t | 0 <= t < |s.pc| && Asleep(s.pc[t])
      ensures Is(OnCondW, s.pc[t]) ==> s.hasWriter || s.readers == s.max
      ensures Is(OnCondR, s.pc[t]) ==> s.readers > 0
    {
      CountIn(s.pc, t, if Is(OnCondW, s.pc[t]) then OnCondW else OnCondR, Is);
    }
  }

  /** A step of a thread that is inside a call or holds the lock, other than a spurious wakeup. */
  predicate Internal(e: Event)
  {
    e.RUnlock? || e.WUnlock? || e.Retest?
  }

  /** As long as somebody takes part, somebody can leave or test again. */
  lemma Progress(s: State) returns (e: Event)
    requires Inv(s) && Count(s.pc, Participants, Is) > 0
    ensures Internal(e) && Enabled(s, e)
  {
    Census(s.pc);
    if Count(s.pc, Notifieds, Is) > 0 {
      var t := CountFound(s.pc, Notifieds, Is);
      e := Retest(t);
    } else if Count(s.pc, Writers, Is) > 0 {
      var t := CountFound(s.pc, Writers, Is);
      e := WUnlock(t);
    } else {
      var t := CountFound(s.pc, Readers, Is);
      var left := Left(s, t);
      var cond := if left.hasWriter then OnCondR else OnCondW;
      if (if left.hasWriter then left.readers == 0 else left.readers == left.max - 1) && Count(left.pc, cond, Is) > 0 {
        var u := CountFound(left.pc, cond, Is);
        e := RUnlock(t, Some(u));
      } else {
        if Count(left.pc, cond, Is) == 0 {
          NoneOf(left.pc, cond, Is);
        }
        e := RUnlock(t, None);
      }
    }
  }

  lemma InvNotDeadlocked(s: State)
    requires Inv(s)
    ensures !Deadlocked(s)
  {
    if Deadlocked(s) {
      var t :| 0 <= t < |s.pc| && s.pc[t] != Idle;
      CountIn(s.pc, t, Participants, Is);
      var e := Progress(s);
    }
  }

  /** In every run of at most max + 1 threads, a thread inside by WLock excludes everybody else, the counter is the
      number of readers inside, sleepers have a reason, and not all participants sleep. */
  lemma Safety(threads: nat, max: nat, es: seq<Event>, s: State)
    requires 1 <= max && threads <= max + 1 && Run(Next, Init(threads, max), es, s)
    ensures Exclusive(s) && Placed(es, s) && ExclusiveByCalls(es, s)
    ensures s.readers == Count(s.pc, Readers, Is) && SleepersJustified(s) && !Deadlocked(s)
  {
    ByCalls(threads, max, es, s);
    ReachableInv(threads, max, s);
    InvExclusive(s);
    CallsExclude(es, s);
    InvSleepers(s);
    InvNotDeadlocked(s);
  }

  /** Once a writer has claimed the lock, no further thread starts to read. */
  lemma WriterFirst(s: State, e: Event, t: Thread)
    requires Inv(s) && s.hasWriter && Enabled(s, e) && t < |s.pc| && s.pc[t] != Reading
    ensures Apply(s, e).pc[t] != Reading
  {
  }

  // ---------------------------------------------------------------- every run that takes no new requests drains

  function Measure(s: State): nat
  {
    Count(s.pc, Participants, Is) * (|s.pc| + 1) + Count(s.pc, Notifieds, Is)
  }

  lemma LeaveCounts(s: State, t: Thread, woken: Option<Thread>)
    requires t < |s.pc| && s.pc[t] == Reading && LeaveMayWake(Left(s, t), woken)
    ensures Count(Wake(Left(s, t), woken).pc, Participants, Is) == Count(s.pc, Participants, Is) - 1
  {
    CountSet(s.pc, t, Idle, Participants, Is);
    if woken.Some? {
      CountSet(Left(s, t).pc, woken.value, Notified(Left(s, t).pc[woken.value]), Participants, Is);
    }
  }

  lemma WUnlockCounts(s: State, t: Thread)
    requires Enabled(s, WUnlock(t))
    ensures Count(Apply(s, WUnlock(t)).pc, Participants, Is) == Count(s.pc, Participants, Is) - 1
  {
    CountSet(s.pc, t, Idle, Participants, Is);
    WakeAllCount(s.Set(t, Idle).(hasWriter := false), Participants);
  }

  lemma RetestCounts(s: State, t: Thread)
    requires Enabled(s, Retest(t))
    ensures Count(Apply(s, Retest(t)).pc, Participants, Is) == Count(s.pc, Participants, Is)
    ensures Count(Apply(s, Retest(t)).pc, Notifieds, Is) == Count(s.pc, Notifieds, Is) - 1
  {
    var p := Apply(s, Retest(t)).pc[t];
    CountSet(s.pc, t, p, Participants, Is);
    CountSet(s.pc, t, p, Notifieds, Is);
  }

  lemma StepCounts(s: State, e: Event)
    requires Enabled(s, e) && Internal(e)
    ensures var pc, pc' := s.pc, Apply(s, e).pc;
            && |pc'| == |pc| && Count(pc', Notifieds, Is) <= |pc|
            && (|| Count(pc', Participants, Is) < Count(pc, Participants, Is)
                || (&& Count(pc', Participants, Is) == Count(pc, Participants, Is)
                    && Count(pc', Notifieds, Is) < Count(pc, Notifieds, Is)))
  {
    Census(Apply(s, e).pc);
    match e {
      case RUnlock(t, woken) => LeaveCounts(s, t, woken);
      case WUnlock(t) => WUnlockCounts(s, t);
      case Retest(t) => RetestCounts(s, t);
    }
  }

  lemma StepDecreases(s: State, e: Event)
    requires Enabled(s, e) && Internal(e)
    ensures Measure(Apply(s, e)) < Measure(s)
  {
    StepCounts(s, e);
    var pc, pc' := s.pc, Apply(s, e).pc;
    MeasureDrops(|pc|, Count(pc, Participants, Is), Count(pc, Notifieds, Is),
                 Count(pc', Participants, Is), Count(pc', Notifieds, Is));
  }

  /** Without new requests and spurious wakeups, a run is no longer than the measure; and where it cannot be
      continued, nobody is left waiting or holding the lock. */
  lemma {:induction false} Drains(s: State, es: seq<Event>, s': State)
    requires Inv(s) && Run(Next, s, es, s') && forall i :: 0 <= i < |es| ==> Internal(es[i])
    ensures |es| + Measure(s') <= Measure(s)
    ensures (forall e :: Internal(e) ==> !Enabled(s', e)) ==> forall t :: 0 <= t < |s'.pc| ==> s'.pc[t] == Idle
    decreases |es|
  {
    if es == [] {
      if Count(s'.pc, Participants, Is) > 0 {
        var e := Progress(s');
      } else {
        NoneOf(s'.pc, Participants, Is);
      }
    } else {
      StepInv(s, es[0]);
      StepDecreases(s, es[0]);
      Drains(Apply(s, es[0]), es[1..], s');
    }
  }

  /** A run, and then steps without new requests and spurious wakeups until there are none: every call was granted in
      its own mode and released again. */
  lemma AllReleased(threads: nat, max: nat, es: seq<Event>, s: State, fs: seq<Event>, s': State)
    requires 1 <= max && threads <= max + 1 && Run(Next, Init(threads, max), es, s)
    requires Run(Next, s, fs, s') && forall i :: 0 <= i < |fs| ==> Internal(fs[i])
    requires forall e :: Internal(e) ==> !Enabled(s', e)
    ensures Alternate(es + fs) && forall t :: 0 <= t < threads ==> Held(es + fs, t) == None
  {
    ReachableInv(threads, max, s);
    Drains(s, fs, s');
    RunConcat(Next, Init(threads, max), es, s, fs, s');
    ByCalls(threads, max, es + fs, s');
    forall t | 0 <= t < threads
      ensures Held(es + fs, t) == None
    {
      assert Fits(Held(es + fs, t), s'.pc[t]);
    }
  }

  // ---------------------------------------------------------------- the bound on the number of threads is exact

  /** The first k threads read. */
  function Entered(threads: nat, max: nat, k: nat): State
  {
    State(seq(threads, t => if t < k then Reading else Idle), false, k, max)
  }

  lemma {:induction false} Enter(threads: nat, max: nat, k: nat) returns (es: seq<Event>)
    requires k <= max <= threads
    ensures Run(Next, Init(threads, max), es, Entered(threads, max, k))
    decreases k
  {
    if k == 0 {
      assert Init(threads, max).pc == Entered(threads, max, 0).pc;
      es := [];
    } else {
      es := Enter(threads, max, k - 1);
      var m := Entered(threads, max, k - 1);
      RunThen(Next, Init(threads, max), es, m, RLock(k - 1));
      es := es + [RLock(k - 1)];
      assert Apply(m, RLock(k - 1)).pc == Entered(threads, max, k).pc;
    }
  }

  /** The first k of max + 1 readers have left, and thread max + 1 was never notified. */
  function Leaving(threads: nat, max: nat, k: nat): State
  {
    State(seq(threads, t => if t < k then Idle else if t <= max then Reading
                            else if t == max + 1 then ReadAsleep else Idle), false, max + 1 - k, max)
  }

  /** The first max threads read and the next k wait for that. */
  function Parked(threads: nat, max: nat, k: nat): State
  {
    State(seq(threads, t => if t < max then Reading else if t < max + k then ReadAsleep else Idle), false, max, max)
  }

  lemma Park(threads: nat, max: nat, k: nat, es: seq<Event>)
    requires max + k < threads && Run(Next, Init(threads, max), es, Parked(threads, max, k))
    ensures Run(Next, Init(threads, max), es + [RLock(max + k)], Parked(threads, max, k + 1))
  {
    var m := Parked(threads, max, k);
    RunThen(Next, Init(threads, max), es, m, RLock(max + k));
    assert Apply(m, RLock(max + k)).pc == Parked(threads, max, k + 1).pc;
  }

  /** Then the first k readers left, and the first of these notified thread max. */
  function Woken(threads: nat, max: nat, k: nat): State
    requires k <= max
  {
    State(seq(threads, t => if t < k then Idle else if t < max then Reading
                            else if t == max then ReadNotified
                            else if t == max + 1 then ReadAsleep else Idle), false, max - k, max)
  }

  lemma FirstLeaves(threads: nat, max: nat)
    requires 2 <= max && max + 2 <= threads
    ensures Next(Parked(threads, max, 2), RUnlock(0, Some(max))) == Some(Woken(threads, max, 1))
  {
    assert Apply(Parked(threads, max, 2), RUnlock(0, Some(max))).pc == Woken(threads, max, 1).pc;
  }

  lemma SecondLeaves(threads: nat, max: nat)
    requires 2 <= max && max + 2 <= threads
    ensures Next(Woken(threads, max, 1), RUnlock(1, None)) == Some(Woken(threads, max, 2))
  {
    assert Apply(Woken(threads, max, 1), RUnlock(1, None)).pc == Woken(threads, max, 2).pc;
  }

  lemma WokenEnters(threads: nat, max: nat)
    requires 2 <= max && max + 2 <= threads
    ensures Next(Woken(threads, max, 2), Retest(max)) == Some(Leaving(threads, max, 2))
  {
    assert Apply(Woken(threads, max, 2), Retest(max)).pc == Leaving(threads, max, 2).pc;
  }

  /** Two readers too many fall asleep, and one of them is never notified. */
  lemma Strand(threads: nat, max: nat) returns (es: seq<Event>)
    requires 2 <= max && max + 2 <= threads
    ensures Run(Next, Init(threads, max), es, Leaving(threads, max, 2))
  {
    es := Enter(threads, max, max);
    assert Entered(threads, max, max).pc == Parked(threads, max, 0).pc;
    Park(threads, max, 0, es);
    es := es + [RLock(max + 0)];
    Park(threads, max, 1, es);
    es := es + [RLock(max + 1)];
    var init, e0, e1, e2 := Init(threads, max), RUnlock(0, Some(max)), RUnlock(1, None), Retest(max);
    FirstLeaves(threads, max);
    RunThen(Next, init, es, Parked(threads, max, 2), e0);
    SecondLeaves(threads, max);
    RunThen(Next, init, es + [e0], Woken(threads, max, 1), e1);
    WokenEnters(threads, max);
    RunThen(Next, init, es + [e0] + [e1], Woken(threads, max, 2), e2);
    es := es + [e0] + [e1] + [e2];
  }

  lemma {:induction false} LeaveAll(threads: nat, max: nat, k: nat) returns (es: seq<Event>)
    requires 2 <= max && max + 2 <= threads && 2 <= k <= max + 1
    ensures Run(Next, Init(threads, max), es, Leaving(threads, max, k))
    decreases k
  {
    if k == 2 {
      es := Strand(threads, max);
    } else {
      es := LeaveAll(threads, max, k - 1);
      var m, e := Leaving(threads, max, k - 1), RUnlock(k - 1, None);
      RunThen(Next, Init(threads, max), es, m, e);
      es := es + [e];
      assert Apply(m, e).pc == Leaving(threads, max, k).pc;
    }
  }

  /** No run deadlocks if and only if there are at most max + 1 threads. */
  lemma ThreadBound(threads: nat, max: nat)
    requires max >= 2
    ensures (forall s :: Reachable(threads, max, s) ==> !Deadlocked(s)) <==> threads <= max + 1
  {
    if threads <= max + 1 {
      forall s | Reachable(threads, max, s)
        ensures !Deadlocked(s)
      {
        ReachableInv(threads, max, s);
        InvNotDeadlocked(s);
      }
    } else {
      var es := LeaveAll(threads, max, max + 1);
      var s := Leaving(threads, max, max + 1);
      assert Reachable(threads, max, s);
      assert s.pc[max + 1] != Idle;
    }
  }

  /** What this says of RWLock itself. */
  lemma BelowUintMax(threads: nat, es: seq<Event>, s: State)
    requires threads < MAX_READER_NUM && Run(Next, Init(threads, MAX_READER_NUM), es, s)
    ensures ExclusiveByCalls(es, s) && s.readers == Count(s.pc, Readers, Is) && SleepersJustified(s) && !Deadlocked(s)
    ensures forall t :: 0 <= t < |s.pc| && Is(OnCondW, s.pc[t]) ==> s.hasWriter
  {
    Safety(threads, MAX_READER_NUM, es, s);
    ReachableInv(threads, MAX_READER_NUM, s);
    Census(s.pc);
  }
}
