/** AsyncLog: front threads fill buffers, a back thread swaps them out and writes them, as a step protocol.

    A buffer is modelled as the list of messages put into it; the bytes it holds are their concatenation. A step is
    one stretch under the mutex, or one piece of work of the back thread on what it alone owns. */
module AsyncLogs {
  import opened Bytes
  import opened Runs
  import opened Sequences

  const BUFFER_SIZE := 4096 * 1024
  const BUFFER_BOUND := 16

  type Message = seq<byte>
  type Buffer = seq<Message>

  function Length(b: Buffer): nat
  {
    |Flatten(b)|
  }

  /** What FixedBuffer::Append, with its 32-bit length, puts of a message into an empty buffer. */
  function Stored(data: Message): Message
  {
    var len := |data| % WORD;
    if len < BUFFER_SIZE then data[..len] else []
  }

  /** What goes to the file, in order; `Dropped` marks, for the account, where a buffer was thrown away. */
  datatype Entry = Data(buffer: Buffer) | Notice(discarded: nat) | Dropped(buffer: Buffer)

  datatype Phase = Top | Waiting | Discarding | Writing(done: nat) | Refilling | Crashed

  /** `current`, `next` and `buffers` are behind the mutex; the rest is the back thread's, and `doomed` are the
      buffers of this batch that will not be written. `submitted` is every message in the order of the mutex. */
  datatype State = State(current: Buffer, next: Option<Buffer>, buffers: seq<Buffer>,
                         phase: Phase, buffer1: Option<Buffer>, buffer2: Option<Buffer>, dup: seq<Buffer>,
                         doomed: seq<Buffer>, log: seq<Entry>, submitted: seq<Message>)

  function Init(): State
  {
    State([], Some([]), [], Top, Some([]), Some([]), [], [], [], [])
  }

  // ---------------------------------------------------------------- steps

  datatype Event = Append(data: Message) | Wait | Swap | Discard | WriteNext | WriteEnd | Refill

  predicate Enabled(s: State, e: Event)
  {
    match e
    case Append(_) => true
    case Wait => s.phase == Top && s.buffers == []
    case Swap => (s.phase == Top && s.buffers != []) || s.phase == Waiting
    case Discard => s.phase == Discarding
    case WriteNext => s.phase.Writing? && s.phase.done < |s.dup|
    case WriteEnd => s.phase.Writing? && s.phase.done >= |s.dup|
    case Refill => s.phase == Refilling
  }

  /** A message that the buffer refuses leaves an empty entry, which adds no bytes. */
  function Appended(s: State, data: Message): State
  {
    var s := s.(submitted := s.submitted + [data]);
    if |data| < BUFFER_SIZE - Length(s.current) then
      s.(current := s.current + [data])
    else
      var empty := if s.next.None? then [] else s.next.value;
      var len := |data| % WORD;
      var filled := if len < BUFFER_SIZE - Length(empty) then empty + [data[..len]] else empty + [[]];
      s.(buffers := s.buffers + [s.current], current := filled, next := None)
  }

  /** The spare buffers must be there to be moved from, and empty. */
  function SwappedOut(s: State): State
  {
    if s.buffer1 != Some([]) || s.buffer2 != Some([]) || s.dup != [] then s.(phase := Crashed)
    else
      s.(dup := s.buffers + [s.current], buffers := [], current := s.buffer1.value, buffer1 := None,
         next := if s.next.None? then s.buffer2 else s.next,
         buffer2 := if s.next.None? then None else s.buffer2,
         phase := Discarding)
  }

  function Discarded(s: State): State
  {
    if |s.dup| > BUFFER_BOUND then
      s.(log := s.log + [Notice(|s.dup| - BUFFER_BOUND)], doomed := s.dup[BUFFER_BOUND..], dup := s.dup[..BUFFER_BOUND],
         phase := Writing(0))
    else s.(phase := Writing(0))
  }

  function Drops(buffers: seq<Buffer>): seq<Entry>
  {
    seq(|buffers|, i requires 0 <= i < |buffers| => Dropped(buffers[i]))
  }

  /** Buffers taken from the back of the batch, which must not be empty then. */
  function Refilled(s: State): State
  {
    var kept := if |s.dup| > 2 then s.dup[..2] else s.dup;
    if s.buffer1.None? && kept == [] then s.(phase := Crashed)
    else
      var kept := if s.buffer1.None? then kept[..|kept| - 1] else kept;
      if s.buffer2.None? && kept == [] then s.(phase := Crashed)
      else
        s.(buffer1 := if s.buffer1.None? then Some([]) else s.buffer1,
           buffer2 := if s.buffer2.None? then Some([]) else s.buffer2,
           dup := [], log := s.log + Drops(s.doomed), doomed := [], phase := Top)
  }

  function Apply(s: State, e: Event): State
    requires Enabled(s, e)
  {
    match e
    case Append(data) => Appended(s, data)
    case Wait => s.(phase := Waiting)
    case Swap => SwappedOut(s)
    case Discard => Discarded(s)
    case WriteNext => s.(log := s.log + [Data(s.dup[s.phase.done])], phase := Writing(s.phase.done + 1))
    case WriteEnd => s.(phase := Refilling)
    case Refill => Refilled(s)
  }

  function Next(s: State, e: Event): Option<State>
  {
    if Enabled(s, e) then Some(Apply(s, e)) else None
  }

  ghost predicate Reachable(s: State)
  {
    exists es :: Run(Next, Init(), es, s)
  }

  // ---------------------------------------------------------------- the account

  function StoredAll(messages: seq<Message>): seq<Message>
  {
    seq(|messages|, i requires 0 <= i < |messages| => Stored(messages[i]))
  }

  /** The messages that the log accounts for, written or dropped. */
  function Accounted(log: seq<Entry>): seq<Message>
  {
    if log == [] then []
    else (if log[0].Notice? then [] else log[0].buffer) + Accounted(log[1..])
  }

  /** The messages in the file. */
  function Written(log: seq<Entry>): seq<Message>
  {
    if log == [] then []
    else (if log[0].Data? then log[0].buffer else []) + Written(log[1..])
  }

  function DroppedCount(log: seq<Entry>): nat
  {
    if log == [] then 0 else (if log[0].Dropped? then 1 else 0) + DroppedCount(log[1..])
  }

  /** How many buffers the notices in the file own up to. */
  function NoticeSum(log: seq<Entry>): nat
  {
    if log == [] then 0 else (if log[0].Notice? then log[0].discarded else 0) + NoticeSum(log[1..])
  }

  /** The buffers of the batch that are still to be written. */
  function Unwritten(s: State): seq<Buffer>
  {
    match s.phase
    case Discarding => s.dup
    case Writing(done) => if done <= |s.dup| then s.dup[done..] else []
    case _ => []
  }

  /** Everything accepted so far is somewhere, once, and in order. */
  ghost predicate Conserved(s: State)
  {
    Accounted(s.log) + Flatten(Unwritten(s)) + Flatten(s.doomed) + Flatten(s.buffers) + s.current
    == StoredAll(s.submitted)
  }

  /** While a batch is written, it holds as many buffers as are missing from the spares. */
  ghost predicate SparesOut(s: State)
  {
    s.buffer1 == None && s.dup != [] && (s.buffer2 == Some([]) || (s.buffer2 == None && |s.dup| >= 2))
  }

  ghost predicate SparesOk(s: State)
  {
    && (s.next.None? ==> s.buffers != []) && (s.next.Some? ==> s.next.value == [])
    && match s.phase
       case Top => s.buffer1 == s.buffer2 == Some([]) && s.dup == [] && s.doomed == []
       case Waiting => s.buffer1 == s.buffer2 == Some([]) && s.dup == [] && s.doomed == []
       case Crashed => false
       case Discarding => SparesOut(s) && s.doomed == []
       case Writing(done) => SparesOut(s) && done <= |s.dup|
       case Refilling => SparesOut(s)
  }

  ghost predicate Inv(s: State)
  {
    && SparesOk(s) && Conserved(s) && Length(s.current) < BUFFER_SIZE
    && NoticeSum(s.log) == DroppedCount(s.log) + |s.doomed|
  }

  // ---------------------------------------------------------------- lemmas about logs

  lemma {:induction false} LogConcat(a: seq<Entry>, b: seq<Entry>)
    ensures Accounted(a + b) == Accounted(a) + Accounted(b)
    ensures DroppedCount(a + b) == DroppedCount(a) + DroppedCount(b)
    ensures NoticeSum(a + b) == NoticeSum(a) + NoticeSum(b)
  {
    if a == [] {
      assert a + b == b;
    } else {
      FirstOfBoth(a, b);
      LogConcat(a[1..], b);
      Assoc(if a[0].Notice? then [] else a[0].buffer, Accounted(a[1..]), Accounted(b));
    }
  }

  lemma {:induction false} DropsAccount(buffers: seq<Buffer>)
    ensures Accounted(Drops(buffers)) == Flatten(buffers)
    ensures DroppedCount(Drops(buffers)) == |buffers| && NoticeSum(Drops(buffers)) == 0
  {
    if buffers != [] {
      assert Drops(buffers)[1..] == Drops(buffers[1..]);
      DropsAccount(buffers[1..]);
    }
  }

  lemma One(e: Entry)
    ensures Accounted([e]) == (if e.Notice? then [] else e.buffer)
    ensures DroppedCount([e]) == (if e.Dropped? then 1 else 0)
    ensures NoticeSum([e]) == (if e.Notice? then e.discarded else 0)
  {
    assert [e][1..] == [];
  }

  // ---------------------------------------------------------------- every step keeps the invariant

  lemma StoredNext(messages: seq<Message>, data: Message)
    ensures StoredAll(messages + [data]) == StoredAll(messages) + [Stored(data)]
  {
  }

  /** Short messages are stored whole, and only those. */
  lemma StoredExact(data: Message)
    ensures Stored(data) == data <==> |data| < BUFFER_SIZE
    ensures |Stored(data)| < BUFFER_SIZE && Stored(data) <= data
    ensures |Stored(data)| == if |data| % WORD < BUFFER_SIZE then |data| % WORD else 0
  {
    if |data| < BUFFER_SIZE {
      assert |data| % WORD == |data|;
    }
  }

  lemma AppendInv(s: State, data: Message)
    requires Inv(s)
    ensures Inv(Appended(s, data))
  {
    StoredNext(s.submitted, data);
    StoredExact(data);
    var front := Accounted(s.log) + Flatten(Unwritten(s)) + Flatten(s.doomed);
    if |data| < BUFFER_SIZE - Length(s.current) {
      FlattenSnoc(s.current, data);
      Assoc(front + Flatten(s.buffers), s.current, [data]);
    } else {
      FlattenSnoc(s.buffers, s.current);
      FlattenSingle(Stored(data));
      var s' := Appended(s, data);
      assert s'.current == [Stored(data)];
      Assoc(front, Flatten(s.buffers), s.current);
    }
  }

  lemma Gather<T>(a: seq<T>, b: seq<T>, c: seq<T>)
    ensures a + [] + [] + b + c == a + (b + c) + [] + [] + []
  {
  }

  lemma SwapInv(s: State)
    requires Inv(s) && Enabled(s, Swap)
    ensures Inv(SwappedOut(s))
  {
    FlattenSnoc(s.buffers, s.current);
    Gather(Accounted(s.log), Flatten(s.buffers), s.current);
  }

  lemma Halve<T>(a: seq<T>, b: seq<T>, c: seq<T>)
    ensures a + [] + b + c == a + (b + c) + []
  {
  }

  lemma DiscardInv(s: State)
    requires Inv(s) && Enabled(s, Discard)
    ensures Inv(Discarded(s))
  {
    if |s.dup| > BUFFER_BOUND {
      var kept, doomed := s.dup[..BUFFER_BOUND], s.dup[BUFFER_BOUND..];
      assert s.dup == kept + doomed && kept[0..] == kept;
      FlattenConcat(kept, doomed);
      LogConcat(s.log, [Notice(|doomed|)]);
      One(Notice(|doomed|));
      Halve(Accounted(s.log), Flatten(kept), Flatten(doomed));
    } else {
      assert s.dup[0..] == s.dup;
    }
  }

  lemma WriteInv(s: State)
    requires Inv(s) && Enabled(s, WriteNext)
    ensures Inv(Apply(s, WriteNext))
  {
    var k := s.phase.done;
    var e := Data(s.dup[k]);
    LogConcat(s.log, [e]);
    One(e);
    assert s.dup[k..][0] == s.dup[k] && s.dup[k..][1..] == s.dup[k + 1..];
    Assoc(Accounted(s.log), s.dup[k], Flatten(s.dup[k + 1..]));
  }

  lemma Regroup<T>(a: seq<T>, b: seq<T>)
    ensures a + [] + b == a + b + [] + []
  {
  }

  lemma RefillInv(s: State)
    requires Inv(s) && Enabled(s, Refill)
    ensures Inv(Refilled(s))
  {
    LogConcat(s.log, Drops(s.doomed));
    DropsAccount(s.doomed);
    Regroup(Accounted(s.log), Flatten(s.doomed));
  }

  lemma StepInv(s: State, e: Event)
    requires Inv(s) && Enabled(s, e)
    ensures Inv(Apply(s, e))
  {
    match e
    case Append(data) => AppendInv(s, data);
    case Wait =>
    case Swap => SwapInv(s);
    case Discard => DiscardInv(s);
    case WriteNext => WriteInv(s);
    case WriteEnd =>
      assert s.dup[s.phase.done..] == [];
    case Refill => RefillInv(s);
  }

  // ---------------------------------------------------------------- what holds in every run

  lemma ReachableInv(s: State)
    requires Reachable(s)
    ensures Inv(s)
  {
    var es :| Run(Next, Init(), es, s);
    forall s, e | Inv(s) && Next(s, e).Some?
      ensures Inv(Next(s, e).value)
    {
      StepInv(s, e);
    }
    RunKeeps(Next, Inv, Init(), es, s);
  }

  /** Nothing is lost, duplicated or reordered but what the log marks as dropped; the back thread always finds its
      two spare buffers; and the notices in the file own up to exactly the buffers that were dropped. */
  lemma Account(s: State)
    requires Reachable(s)
    ensures Conserved(s) && s.phase != Crashed && (s.next.None? ==> s.buffers != [])
    ensures NoticeSum(s.log) == DroppedCount(s.log) + |s.doomed|
  {
    ReachableInv(s);
  }

  predicate AllShort(messages: seq<Message>)
  {
    forall i :: 0 <= i < |messages| ==> |messages[i]| < BUFFER_SIZE
  }

  lemma AllStored(messages: seq<Message>)
    ensures StoredAll(messages) == messages <==> AllShort(messages)
  {
    forall i | 0 <= i < |messages|
      ensures StoredAll(messages)[i] == messages[i] <==> |messages[i]| < BUFFER_SIZE
    {
      StoredExact(messages[i]);
    }
    if StoredAll(messages) == messages {
      assert forall i :: 0 <= i < |messages| ==> StoredAll(messages)[i] == messages[i];
    }
  }

  // ---------------------------------------------------------------- exactly when nothing is lost

  /** The file, then the rest of the batch, then the filled buffers, then the current one, are what was submitted. */
  ghost predicate InFull(s: State)
  {
    Written(s.log) + Flatten(Unwritten(s)) + Flatten(s.buffers) + s.current == s.submitted
  }

  predicate NoneEmpty(buffers: seq<Buffer>)
  {
    forall i :: 0 <= i < |buffers| ==> buffers[i] != []
  }

  predicate DropsMessages(log: seq<Entry>)
  {
    forall i :: 0 <= i < |log| && log[i].Dropped? ==> log[i].buffer != []
  }

  /** While all messages are short, a buffer that is full, dropped or about to be dropped holds a message. */
  ghost predicate Substantial(s: State)
  {
    && NoneEmpty(s.buffers) && NoneEmpty(s.doomed) && DropsMessages(s.log)
    && (|s.dup| >= 2 ==> NoneEmpty(s.dup)) && (s.buffers != [] ==> s.current != [])
  }

  lemma AppendSubstantial(s: State, data: Message)
    requires SparesOk(s) && Substantial(s) && |data| < BUFFER_SIZE
    ensures Substantial(Appended(s, data))
  {
    if |data| >= BUFFER_SIZE - Length(s.current) {
      assert s.current != [];
    }
  }

  lemma SwapSubstantial(s: State)
    requires SparesOk(s) && Substantial(s)
    ensures Substantial(SwappedOut(s))
  {
    if s.buffers != [] {
      assert NoneEmpty(s.buffers + [s.current]);
    }
  }

  lemma DiscardSubstantial(s: State)
    requires SparesOk(s) && s.phase == Discarding && Substantial(s)
    ensures Substantial(Discarded(s))
  {
    if |s.dup| > BUFFER_BOUND {
      assert NoneEmpty(s.dup[..BUFFER_BOUND]) && NoneEmpty(s.dup[BUFFER_BOUND..]);
    }
  }

  lemma RefillSubstantial(s: State)
    requires Substantial(s)
    ensures Substantial(Refilled(s))
  {
    assert DropsMessages(Drops(s.doomed));
    assert DropsMessages(s.log + Drops(s.doomed));
  }

  lemma StepSubstantial(s: State, e: Event)
    requires SparesOk(s) && Enabled(s, e) && AllShort(Apply(s, e).submitted) && Substantial(s)
    ensures Substantial(Apply(s, e))
  {
    match e
    case Append(data) =>
      var all := Apply(s, e).submitted;
      assert all[|all| - 1] == data;
      AppendSubstantial(s, data);
    case Swap => SwapSubstantial(s);
    case Discard => DiscardSubstantial(s);
    case Refill => RefillSubstantial(s);
    case _ =>
  }

  lemma StepShort(s: State, e: Event)
    requires Enabled(s, e) && AllShort(Apply(s, e).submitted)
    ensures AllShort(s.submitted)
  {
    var all := Apply(s, e).submitted;
    assert forall i :: 0 <= i < |s.submitted| ==> s.submitted[i] == all[i];
  }

  lemma ReachableSubstantial(s: State)
    requires Reachable(s) && AllShort(s.submitted)
    ensures Inv(s) && Substantial(s)
  {
    var es :| Run(Next, Init(), es, s);
    var inv := (s: State) => Inv(s) && (AllShort(s.submitted) ==> Substantial(s));
    forall s, e | inv(s) && Next(s, e).Some?
      ensures inv(Next(s, e).value)
    {
      StepInv(s, e);
      if AllShort(Apply(s, e).submitted) {
        StepShort(s, e);
        StepSubstantial(s, e);
      }
    }
    RunKeeps(Next, inv, Init(), es, s);
  }

  /** How many messages the dropped buffers held. */
  function LostCount(log: seq<Entry>): nat
  {
    if log == [] then 0 else (if log[0].Dropped? then |log[0].buffer| else 0) + LostCount(log[1..])
  }

  lemma {:induction false} LostIsMissing(log: seq<Entry>)
    ensures |Accounted(log)| == |Written(log)| + LostCount(log)
    ensures LostCount(log) == 0 ==> Accounted(log) == Written(log)
    ensures DroppedCount(log) == 0 ==> LostCount(log) == 0
    ensures DropsMessages(log) ==> DroppedCount(log) <= LostCount(log)
  {
    if log != [] {
      LostIsMissing(log[1..]);
    }
  }

  lemma {:induction false} AtLeastOneEach(buffers: seq<Buffer>)
    requires NoneEmpty(buffers)
    ensures |Flatten(buffers)| >= |buffers|
  {
    if buffers != [] {
      AtLeastOneEach(buffers[1..]);
    }
  }

  /** Messages are missing exactly if dropped or doomed buffers held some. */
  lemma MissingCount(s: State)
    requires Inv(s)
    ensures |s.submitted| == |Written(s.log) + Flatten(Unwritten(s)) + Flatten(s.buffers) + s.current|
                             + LostCount(s.log) + |Flatten(s.doomed)|
  {
    LostIsMissing(s.log);
  }

  /** Without a message lost, the account is the file and what is still to be written. */
  lemma NoneMissing(s: State)
    requires Inv(s) && LostCount(s.log) == 0 && Flatten(s.doomed) == []
    ensures InFull(s) <==> AllShort(s.submitted)
  {
    LostIsMissing(s.log);
    AllStored(s.submitted);
    var front := Written(s.log) + Flatten(Unwritten(s));
    assert front + [] == front;
  }

  /** In every state of every run, nothing is lost if and only if all messages are short and no notice was written. */
  lemma InFullExact(s: State)
    requires Reachable(s)
    ensures InFull(s) <==> AllShort(s.submitted) && NoticeSum(s.log) == 0
  {
    ReachableInv(s);
    LostIsMissing(s.log);
    MissingCount(s);
    if InFull(s) {
      NoneMissing(s);
      ReachableSubstantial(s);
      AtLeastOneEach(s.doomed);
    } else if NoticeSum(s.log) == 0 {
      assert s.doomed == [];
      NoneMissing(s);
    }
  }

  lemma NoticeStep(s: State, e: Event)
    requires Enabled(s, e)
    ensures NoticeSum(Apply(s, e).log) == 0 <==> NoticeSum(s.log) == 0 && (e.Discard? ==> |s.dup| <= BUFFER_BOUND)
  {
    match e {
      case Discard =>
        if |s.dup| > BUFFER_BOUND {
          LogConcat(s.log, [Notice(|s.dup| - BUFFER_BOUND)]);
          One(Notice(|s.dup| - BUFFER_BOUND));
        }
      case WriteNext =>
        LogConcat(s.log, [Data(s.dup[s.phase.done])]);
        One(Data(s.dup[s.phase.done]));
      case Refill =>
        LogConcat(s.log, Drops(s.doomed));
        DropsAccount(s.doomed);
      case _ =>
    }
  }

  // ---------------------------------------------------------------- batches, by the messages between two swaps

  /** The messages of the Append events, in order. */
  function SubmittedBy(es: seq<Event>): seq<Message>
  {
    if es == [] then []
    else
      var e := es[|es| - 1];
      SubmittedBy(es[..|es| - 1]) + if e.Append? then [e.data] else []
  }

  /** Those since the last swap. */
  function Since(es: seq<Event>): seq<Message>
  {
    if es == [] then []
    else
      match es[|es| - 1]
      case Swap => []
      case Append(data) => Since(es[..|es| - 1]) + [data]
      case _ => Since(es[..|es| - 1])
  }

  /** Those between the last two swaps. */
  function Batch(es: seq<Event>): seq<Message>
  {
    if es == [] then []
    else if es[|es| - 1].Swap? then Since(es[..|es| - 1])
    else Batch(es[..|es| - 1])
  }

  lemma EventsThen(es: seq<Event>, e: Event)
    ensures SubmittedBy(es + [e]) == SubmittedBy(es) + if e.Append? then [e.data] else []
    ensures Since(es + [e]) == if e.Swap? then [] else Since(es) + if e.Append? then [e.data] else []
    ensures Batch(es + [e]) == if e.Swap? then Since(es) else Batch(es)
  {
    var all := es + [e];
    assert all[|all| - 1] == e && all[..|all| - 1] == es;
  }

  predicate GivenUp(full: Buffer, next: Buffer)
  {
    next != [] && Length(full) + |next[0]| >= BUFFER_SIZE
  }

  /** A buffer is given up exactly when the next message does not fit. */
  ghost predicate Divided(buffers: seq<Buffer>, messages: seq<Message>)
  {
    && buffers != [] && Flatten(buffers) == messages
    && (forall i :: 0 <= i < |buffers| ==> Length(buffers[i]) < BUFFER_SIZE)
    && (forall i :: 0 < i < |buffers| ==> GivenUp(buffers[i - 1], buffers[i]))
  }

  /** However they are divided so, they take no more buffers than that. */
  ghost predicate Small(messages: seq<Message>, bound: nat)
  {
    forall buffers :: Divided(buffers, messages) ==> |buffers| <= bound
  }

  lemma LengthOfPrefix(b: Buffer, k: nat)
    requires k <= |b|
    ensures Length(b[..k]) <= Length(b)
  {
    FlattenConcat(b[..k], b[k..]);
    assert b == b[..k] + b[k..];
  }

  lemma NextMessage<T>(all: seq<T>, a: seq<T>, next: seq<T>, more: seq<T>, b: seq<T>, rest: seq<T>)
    requires all == a + (next + more) && all == b + rest && next != [] && |a| < |b|
    ensures b[..|a| + 1] == a + [next[0]]
  {
    assert all[..|a| + 1] == a + [next[0]] && all[..|a| + 1] == b[..|a| + 1];
  }

  /** A first buffer cannot end before the other's does. */
  lemma FirstNotShorter(a: seq<Buffer>, b: seq<Buffer>, messages: seq<Message>)
    requires Divided(a, messages) && Divided(b, messages)
    ensures |a[0]| >= |b[0]|
  {
    assert messages == a[0] + Flatten(a[1..]) && messages == b[0] + Flatten(b[1..]);
    if |a| == 1 {
      assert a[1..] == [];
    } else if |a[0]| < |b[0]| {
      assert GivenUp(a[0], a[1]);
      NextMessage(messages, a[0], a[1], Flatten(a[1..][1..]), b[0], Flatten(b[1..]));
      FlattenSnoc(a[0], a[1][0]);
      LengthOfPrefix(b[0], |a[0]| + 1);
    }
  }

  lemma DividedRest(a: seq<Buffer>, messages: seq<Message>)
    requires Divided(a, messages) && |a| > 1
    ensures |a[0]| < |messages| && Divided(a[1..], messages[|a[0]|..])
  {
    assert GivenUp(a[0], a[1]);
    assert messages == a[0] + Flatten(a[1..]) && Flatten(a[1..]) == a[1] + Flatten(a[1..][1..]);
    forall i | 0 < i < |a[1..]|
      ensures GivenUp(a[1..][i - 1], a[1..][i])
    {
      assert GivenUp(a[i], a[i + 1]);
    }
  }

  /** There is only one way to divide them. */
  lemma {:induction false} DividedOnce(a: seq<Buffer>, b: seq<Buffer>, messages: seq<Message>)
    requires Divided(a, messages) && Divided(b, messages)
    ensures a == b
    decreases |a|
  {
    FirstNotShorter(a, b, messages);
    FirstNotShorter(b, a, messages);
    var k := |a[0]|;
    assert messages == a[0] + Flatten(a[1..]) && messages == b[0] + Flatten(b[1..]);
    assert a[0] == messages[..k] == b[0];
    if |a| > 1 {
      DividedRest(a, messages);
    }
    if |b| > 1 {
      DividedRest(b, messages);
    }
    if |a| > 1 && |b| > 1 {
      DividedOnce(a[1..], b[1..], messages[k..]);
      assert a == [a[0]] + a[1..] && b == [b[0]] + b[1..];
    }
  }

  lemma SmallIs(buffers: seq<Buffer>, messages: seq<Message>, bound: nat)
    requires Divided(buffers, messages)
    ensures Small(messages, bound) <==> |buffers| <= bound
  {
    forall others | Divided(others, messages)
      ensures others == buffers
    {
      DividedOnce(others, buffers, messages);
    }
  }

  /** A message that fits goes into the last buffer. */
  lemma DividedFits(buffers: seq<Buffer>, last: Buffer, messages: seq<Message>, data: Message)
    requires Divided(buffers + [last], messages) && |data| < BUFFER_SIZE - Length(last)
    ensures Divided(buffers + [last + [data]], messages + [data])
  {
    var a, b, n := buffers + [last], buffers + [last + [data]], |buffers|;
    FlattenSnoc(buffers, last);
    FlattenSnoc(buffers, last + [data]);
    Assoc(Flatten(buffers), last, [data]);
    FlattenSnoc(last, data);
    forall i | 0 <= i < |b|
      ensures Length(b[i]) < BUFFER_SIZE
    {
      assert i < n ==> b[i] == a[i];
    }
    forall i | 0 < i < |b|
      ensures GivenUp(b[i - 1], b[i])
    {
      assert GivenUp(a[i - 1], a[i]) && a[i - 1] == b[i - 1];
      assert i < n ==> a[i] == b[i];
    }
  }

  /** And one that does not opens the next. */
  lemma DividedFull(buffers: seq<Buffer>, last: Buffer, messages: seq<Message>, data: Message)
    requires Divided(buffers + [last], messages) && BUFFER_SIZE - Length(last) <= |data| < BUFFER_SIZE
    ensures Divided(buffers + [last] + [[data]], messages + [data])
  {
    var a := buffers + [last];
    var b := a + [[data]];
    FlattenSnoc(a, [data]);
    FlattenSingle(data);
    forall i | 0 < i < |b|
      ensures GivenUp(b[i - 1], b[i])
    {
      assert b[i - 1] == a[i - 1];
      if i < |a| {
        assert GivenUp(a[i - 1], a[i]) && b[i] == a[i];
      }
    }
  }

  /** Two adjacent buffers hold a buffer's worth of bytes. */
  lemma FirstTwoFull(buffers: seq<Buffer>, messages: seq<Message>) returns (tail: seq<Message>)
    requires Divided(buffers, messages) && |buffers| >= 2
    ensures Length(messages) >= BUFFER_SIZE + Length(tail)
    ensures |buffers| > 2 ==> Divided(buffers[1..][1..], tail)
  {
    DividedRest(buffers, messages);
    var a, b, rest := buffers[0], buffers[1], messages[|buffers[0]|..];
    assert GivenUp(a, b) && messages == a + rest;
    FlattenConcat(a, rest);
    tail := rest[|b|..];
    assert rest == b + Flatten(buffers[1..][1..]) && rest == b + tail;
    FlattenConcat(b, tail);
    LengthOfPrefix(b, 1);
    FlattenSingle(b[0]);
    assert b[..1] == [b[0]];
    if |buffers| > 2 {
      DividedRest(buffers[1..], rest);
    }
  }

  /** So k pairs of buffers hold at least k times that. */
  lemma {:induction false} PairsFull(buffers: seq<Buffer>, messages: seq<Message>, k: nat)
    requires Divided(buffers, messages) && |buffers| >= 2 * k
    ensures Length(messages) >= k * BUFFER_SIZE
    decreases k
  {
    if k > 0 {
      var tail := FirstTwoFull(buffers, messages);
      if k > 1 {
        PairsFull(buffers[1..][1..], tail, k - 1);
      }
    }
  }

  lemma LightBatch(messages: seq<Message>)
    requires Length(messages) < 8 * BUFFER_SIZE
    ensures Small(messages, BUFFER_BOUND)
  {
    forall buffers | Divided(buffers, messages)
      ensures |buffers| <= BUFFER_BOUND
    {
      if |buffers| > BUFFER_BOUND {
        PairsFull(buffers, messages, 8);
      }
    }
  }

  // ---------------------------------------------------------------- exactly when nothing is lost, by the events

  /** Every discarding step finds a batch that takes at most sixteen buffers. */
  ghost predicate BatchesFit(es: seq<Event>)
  {
    forall i :: 0 <= i < |es| && es[i].Discard? ==> Small(Batch(es[..i]), BUFFER_BOUND)
  }

  lemma BatchesFitThen(es: seq<Event>, e: Event)
    ensures BatchesFit(es + [e]) <==> BatchesFit(es) && (e.Discard? ==> Small(Batch(es), BUFFER_BOUND))
  {
    var all := es + [e];
    forall i | 0 <= i < |all|
      ensures all[..i] == es[..i] && all[i] == if i < |es| then es[i] else e
    {
      Earlier(es, e, i);
    }
    assert es[..|es|] == es;
    if BatchesFit(all) {
      assert forall i :: 0 <= i < |es| ==> all[i] == es[i];
      assert all[|es|] == e;
    }
  }

  /** The buffers are the division of what was appended since the swap, and a batch that of what was before. */
  ghost predicate Packed(es: seq<Event>, s: State)
  {
    && Divided(s.buffers + [s.current], Since(es))
    && (s.phase == Discarding ==> Divided(s.dup, Batch(es)))
    && (NoticeSum(s.log) == 0 <==> BatchesFit(es))
  }

  lemma InitPacked()
    ensures Packed([], Init())
  {
    var s := Init();
    FlattenSingle(s.current);
    assert s.buffers + [s.current] == [s.current];
  }

  lemma AppendPacked(es: seq<Event>, s: State, data: Message)
    requires SparesOk(s) && Packed(es, s) && |data| < BUFFER_SIZE
    ensures Packed(es + [Append(data)], Appended(s, data))
  {
    var e, s' := Append(data), Appended(s, data);
    EventsThen(es, e);
    BatchesFitThen(es, e);
    if |data| < BUFFER_SIZE - Length(s.current) {
      DividedFits(s.buffers, s.current, Since(es), data);
    } else {
      StoredExact(data);
      assert s'.current == [Stored(data)];
      DividedFull(s.buffers, s.current, Since(es), data);
    }
  }

  lemma SwapPacked(es: seq<Event>, s: State)
    requires SparesOk(s) && Enabled(s, Swap) && Packed(es, s)
    ensures Packed(es + [Swap], SwappedOut(s))
  {
    EventsThen(es, Swap);
    BatchesFitThen(es, Swap);
    InitPacked();
  }

  lemma DiscardPacked(es: seq<Event>, s: State)
    requires Enabled(s, Discard) && Packed(es, s)
    ensures Packed(es + [Discard], Discarded(s))
  {
    EventsThen(es, Discard);
    BatchesFitThen(es, Discard);
    NoticeStep(s, Discard);
    SmallIs(s.dup, Batch(es), BUFFER_BOUND);
  }

  lemma PackedThen(es: seq<Event>, s: State, e: Event)
    requires SparesOk(s) && Enabled(s, e) && Packed(es, s) && (e.Append? ==> |e.data| < BUFFER_SIZE)
    ensures Packed(es + [e], Apply(s, e))
  {
    match e
    case Append(data) => AppendPacked(es, s, data);
    case Swap => SwapPacked(es, s);
    case Discard => DiscardPacked(es, s);
    case _ =>
      EventsThen(es, e);
      BatchesFitThen(es, e);
      NoticeStep(s, e);
  }

  lemma ShortThen(es: seq<Event>, e: Event)
    requires AllShort(SubmittedBy(es + [e]))
    ensures AllShort(SubmittedBy(es)) && (e.Append? ==> |e.data| < BUFFER_SIZE)
  {
    EventsThen(es, e);
    var all := SubmittedBy(es + [e]);
    assert forall i :: 0 <= i < |SubmittedBy(es)| ==> SubmittedBy(es)[i] == all[i];
    if e.Append? {
      assert all[|all| - 1] == e.data;
    }
  }

  ghost predicate Recorded(es: seq<Event>, s: State)
  {
    Inv(s) && s.submitted == SubmittedBy(es) && (AllShort(SubmittedBy(es)) ==> Packed(es, s))
  }

  lemma SubmittedThen(es: seq<Event>, s: State, e: Event)
    requires s.submitted == SubmittedBy(es) && Enabled(s, e)
    ensures Apply(s, e).submitted == SubmittedBy(es + [e])
  {
    EventsThen(es, e);
    assert s.submitted + [] == s.submitted;
  }

  lemma RecordedThen(es: seq<Event>, s: State, e: Event)
    requires Recorded(es, s) && Enabled(s, e)
    ensures Recorded(es + [e], Apply(s, e))
  {
    StepInv(s, e);
    SubmittedThen(es, s, e);
    if AllShort(SubmittedBy(es + [e])) {
      ShortThen(es, e);
      PackedThen(es, s, e);
    }
  }

  /** In every run, `submitted` is what the Append events put in; and while all messages are short, a buffer is given
      up exactly when the next message does not fit, so that the buffers are determined by the messages since the
      last swap. */
  lemma History(es: seq<Event>, s: State)
    requires Run(Next, Init(), es, s)
    ensures Recorded(es, s)
  {
    forall h, m, e | Recorded(h, m) && Next(m, e).Some?
      ensures Recorded(h + [e], Next(m, e).value)
    {
      RecordedThen(h, m, e);
    }
    InitPacked();
    RunRecords(Next, Recorded, Init(), es, s);
  }

  /** For every run: nothing is lost, duplicated or reordered if and only if every message is shorter than a buffer
      and the messages between two swaps never take more than sixteen buffers when it comes to discarding. */
  lemma NothingLost(es: seq<Event>, s: State)
    requires Run(Next, Init(), es, s)
    ensures s.submitted == SubmittedBy(es)
    ensures InFull(s) <==> AllShort(SubmittedBy(es)) && BatchesFit(es)
  {
    History(es, s);
    InFullExact(s);
  }

  /** In particular nothing is lost while less than eight buffers' worth of bytes arrive between two swaps. */
  lemma LightLoad(es: seq<Event>, s: State)
    requires Run(Next, Init(), es, s) && AllShort(SubmittedBy(es))
    requires forall i :: 0 <= i < |es| && es[i].Discard? ==> Length(Batch(es[..i])) < 8 * BUFFER_SIZE
    ensures InFull(s)
  {
    forall i | 0 <= i < |es| && es[i].Discard?
      ensures Small(Batch(es[..i]), BUFFER_BOUND)
    {
      LightBatch(Batch(es[..i]));
    }
    NothingLost(es, s);
  }

  // ---------------------------------------------------------------- the back thread gets everything out

  /** The step of the back thread that comes next. */
  function BackStep(s: State): Event
  {
    match s.phase
    case Top => if s.buffers == [] then Wait else Swap
    case Waiting => Swap
    case Discarding => Discard
    case Writing(done) => if done < |s.dup| then WriteNext else WriteEnd
    case Refilling => Refill
    case Crashed => Refill
  }

  /** In every state that is reached, the back thread can do that and nothing else. */
  lemma OnlyBackStep(s: State, e: Event)
    requires SparesOk(s) && !e.Append?
    ensures Enabled(s, e) <==> e == BackStep(s)
  {
  }

  predicate Waits(s: State)
  {
    s.buffers != [] || s.current != []
  }

  predicate Flushed(s: State)
  {
    s.phase == Top && !Waits(s)
  }

  /** How far the back thread is from the next swap of something, or from having nothing to do. */
  function Distance(s: State): nat
  {
    match s.phase
    case Discarding => |s.dup| + 10
    case Writing(done) => (if done < |s.dup| then |s.dup| - done else 0) + 6
    case Refilling => 5
    case Top => 2
    case Waiting => if Waits(s) then 1 else 12
    case Crashed => 0
  }

  lemma BackStepNearer(s: State)
    requires SparesOk(s) && !Flushed(s)
    ensures Enabled(s, BackStep(s))
    ensures var s' := Apply(s, BackStep(s));
            && s'.submitted == s.submitted
            && ((Waits(s) && !Waits(s')) || (Waits(s') == Waits(s) && Distance(s') < Distance(s)))
  {
  }

  lemma AllAccounted(s: State)
    requires Inv(s) && Flushed(s)
    ensures Accounted(s.log) == StoredAll(s.submitted)
  {
    assert Accounted(s.log) + [] + [] + [] + [] == Accounted(s.log);
  }

  /** From every state that is reached, the back thread alone comes to where nothing is left to write, and then every
      message is written or marked as dropped, short ones that fill no buffer included. */
  lemma {:induction false} Flush(s: State) returns (es: seq<Event>, s': State)
    requires Inv(s)
    ensures Run(Next, s, es, s') && forall i :: 0 <= i < |es| ==> !es[i].Append?
    ensures Inv(s') && Flushed(s') && s'.submitted == s.submitted && Accounted(s'.log) == StoredAll(s.submitted)
    decreases if Waits(s) then 1 else 0, Distance(s)
  {
    if Flushed(s) {
      es, s' := [], s;
      AllAccounted(s);
    } else {
      var e := BackStep(s);
      BackStepNearer(s);
      StepInv(s, e);
      var rest;
      rest, s' := Flush(Apply(s, e));
      es := [e] + rest;
      assert es[1..] == rest;
    }
  }

  /** After a run that loses nothing, that is the whole file. */
  lemma FlushWrites(es: seq<Event>, s: State) returns (fs: seq<Event>, s': State)
    requires Run(Next, Init(), es, s)
    ensures Run(Next, Init(), es + fs, s') && forall i :: 0 <= i < |fs| ==> !fs[i].Append?
    ensures Flushed(s') && s'.submitted == SubmittedBy(es)
    ensures AllShort(SubmittedBy(es)) && BatchesFit(es + fs) <==> Written(s'.log) == SubmittedBy(es)
  {
    History(es, s);
    fs, s' := Flush(s);
    RunConcat(Next, Init(), es, s, fs, s');
    NothingLost(es + fs, s');
    assert Written(s'.log) + [] + [] + [] == Written(s'.log);
  }

  // ---------------------------------------------------------------- a batch that is too long does lose messages

  /** After k messages that fill a buffer each. */
  function Filled(m: Message, k: nat): State
    requires k >= 1
  {
    Init().(current := [m], buffers := seq(k - 1, _ => [m]), next := if k == 1 then Some([]) else None,
            submitted := seq(k, _ => m))
  }

  lemma FillStep(m: Message, k: nat)
    requires k >= 1 && |m| == BUFFER_SIZE - 1
    ensures Apply(Filled(m, k), Append(m)) == Filled(m, k + 1)
  {
    FlattenSingle(m);
    assert m[..|m| % WORD] == m;
    var s, s' := Apply(Filled(m, k), Append(m)), Filled(m, k + 1);
    assert s.buffers == s'.buffers && s.submitted == s'.submitted;
  }

  lemma FillFirst(m: Message)
    requires |m| == BUFFER_SIZE - 1
    ensures Run(Next, Init(), [Append(m)], Filled(m, 1))
  {
    var s, s' := Apply(Init(), Append(m)), Filled(m, 1);
    assert s.buffers == s'.buffers && s.submitted == s'.submitted && s.current == s'.current;
    RunThen(Next, Init(), [], Init(), Append(m));
    assert [] + [Append(m)] == [Append(m)];
  }

  lemma {:induction false} FillUp(m: Message, k: nat) returns (es: seq<Event>)
    requires k >= 1 && |m| == BUFFER_SIZE - 1
    ensures Run(Next, Init(), es, Filled(m, k))
    decreases k
  {
    var e := Append(m);
    if k == 1 {
      es := [e];
      FillFirst(m);
    } else {
      es := FillUp(m, k - 1);
      RunThen(Next, Init(), es, Filled(m, k - 1), e);
      FillStep(m, k - 1);
      es := es + [e];
    }
  }

  /** Any number of full buffers above the bound that pile up before a swap are thrown away, the newest ones. */
  lemma OverfullBatch(m: Message, k: nat) returns (s: State)
    requires |m| == BUFFER_SIZE - 1 && k > BUFFER_BOUND
    ensures Reachable(s) && s.submitted == seq(k, _ => m)
    ensures |s.dup| == BUFFER_BOUND && s.doomed == seq(k - BUFFER_BOUND, _ => [m])
    ensures NoticeSum(s.log) == k - BUFFER_BOUND && !InFull(s)
  {
    var es := FillUp(m, k);
    var s0 := Filled(m, k);
    RunThen(Next, Init(), es, s0, Swap);
    var s1 := Apply(s0, Swap);
    RunThen(Next, Init(), es + [Swap], s1, Discard);
    s := Apply(s1, Discard);
    assert s1.dup == seq(k, _ => [m]);
    assert s.log == [Notice(k - BUFFER_BOUND)];
    One(s.log[0]);
    InFullExact(s);
  }
}
