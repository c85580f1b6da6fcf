/** The cross-thread message pump as atomic steps: any number of senders, one receiver, a lock and an eventfd. */
module MessagePump {
  import opened Common

  /** The eventfd counter is read into 64 bits and counted down in an unsigned int. */
  const UINT_RANGE := 0x1_0000_0000

  datatype Thread = Sender(id: nat) | Receiver

  /** Where a sender is inside send(): at the lock, holding it, after the push, or about to trigger. */
  datatype SenderPc<T> = Idle | Entering(msg: T) | Locked(msg: T) | Pushed | Triggering

  /** Where the receiver is inside do_recv(), with the events left to count down. */
  datatype ReceiverPc<T> =
    | Waiting
    | Counting(count: nat)
    | Checking(count: nat)
    | Taken(count: nat, msg: T)
    | Emitting(count: nat, msg: T)
    | Fatal

  /** The shared state, and the history of pushes, deliveries and events that were read but not counted. */
  datatype State<T> = State(
    senders: seq<SenderPc<T>>,
    receiver: ReceiverPc<T>,
    lock: Option<Thread>,
    queue: seq<T>,
    eventfd: nat,
    pushed: seq<T>,
    delivered: seq<T>,
    lost: nat)

  datatype Action<T> =
    | Call(s: nat, msg: T) | Acquire(s: nat) | Push(s: nat) | Release(s: nat) | Trigger(s: nat)
    | Read | Lock | Take | Unlock | Emit

  predicate Enabled<T>(st: State<T>, a: Action<T>) {
    match a
    case Call(s, _) => s < |st.senders| && st.senders[s].Idle?
    case Acquire(s) => s < |st.senders| && st.senders[s].Entering? && st.lock.None?
    case Push(s) => s < |st.senders| && st.senders[s].Locked?
    case Release(s) => s < |st.senders| && st.senders[s].Pushed?
    case Trigger(s) => s < |st.senders| && st.senders[s].Triggering?
    case Read => st.receiver.Waiting? && st.eventfd > 0
    case Lock => st.receiver.Counting? && st.lock.None?
    case Take => st.receiver.Checking?
    case Unlock => st.receiver.Taken?
    case Emit => st.receiver.Emitting?
  }

  function CountFrom<T>(count: nat): ReceiverPc<T> { if count == 0 then Waiting else Counting(count) }

  function Next<T>(st: State<T>, a: Action<T>): State<T>
    requires Enabled(st, a)
  {
    match a
    case Call(s, msg) => st.(senders := st.senders[s := Entering(msg)])
    case Acquire(s) => st.(senders := st.senders[s := Locked(st.senders[s].msg)], lock := Some(Sender(s)))
    case Push(s) =>
      var msg := st.senders[s].msg;
      st.(senders := st.senders[s := Pushed], queue := st.queue + [msg], pushed := st.pushed + [msg])
    case Release(s) => st.(senders := st.senders[s := Triggering], lock := None)
    case Trigger(s) => st.(senders := st.senders[s := Idle], eventfd := st.eventfd + 1)
    case Read =>
      var count := st.eventfd % UINT_RANGE;
      st.(receiver := CountFrom(count), eventfd := 0, lost := st.lost + (st.eventfd - count))
    case Lock => st.(receiver := Checking(st.receiver.count), lock := Some(Receiver))
    case Take =>
      if st.queue == [] then st.(receiver := Fatal, lock := None)
      else st.(receiver := Taken(st.receiver.count, st.queue[0]), queue := st.queue[1..])
    case Unlock => st.(receiver := Emitting(st.receiver.count, st.receiver.msg), lock := None)
    case Emit =>
      var count := (st.receiver.count - 1) % UINT_RANGE;
      st.(receiver := CountFrom(count), delivered := st.delivered + [st.receiver.msg])
  }

  function Start<T>(n: nat): State<T> {
    State(seq(n, i => Idle), Waiting, None, [], 0, [], [], 0)
  }

  /** A run is a list of actions, each enabled where it is taken. */
  ghost predicate Runs<T>(st: State<T>, run: seq<Action<T>>)
    decreases |run|
  {
    run == [] || (Enabled(st, run[0]) && Runs(Next(st, run[0]), run[1..]))
  }

  ghost function Reached<T>(st: State<T>, run: seq<Action<T>>): State<T>
    requires Runs(st, run)
    decreases |run|
  {
    if run == [] then st else Reached(Next(st, run[0]), run[1..])
  }

  // ----- The invariant -----

  /** Senders whose message is in the queue but whose event is not yet in the eventfd. */
  function Untriggered<T>(senders: seq<SenderPc<T>>): nat {
    if senders == [] then 0
    else (if senders[0].Pushed? || senders[0].Triggering? then 1 else 0) + Untriggered(senders[1..])
  }

  /** Events the receiver still has to take a message for. */
  function Left<T>(r: ReceiverPc<T>): nat {
    match r
    case Counting(count) => count
    case Checking(count) => count
    case Taken(count, _) => if count == 0 then 0 else count - 1
    case Emitting(count, _) => if count == 0 then 0 else count - 1
    case _ => 0
  }

  function InFlight<T>(r: ReceiverPc<T>): seq<T> {
    match r
    case Taken(_, msg) => [msg]
    case Emitting(_, msg) => [msg]
    case _ => []
  }

  /** Every message in the queue is accounted for by one event somewhere. */
  ghost predicate Accounted<T>(st: State<T>) {
    && |st.queue| == st.eventfd + Untriggered(st.senders) + Left(st.receiver) + st.lost
    && st.lost % UINT_RANGE == 0
  }

  ghost predicate InOrder<T>(st: State<T>) {
    st.pushed == st.delivered + InFlight(st.receiver) + st.queue
  }

  /** The lock is held exactly by the thread inside its critical section. */
  ghost predicate Excluded<T>(st: State<T>) {
    && (forall s :: 0 <= s < |st.senders| ==>
          (st.senders[s].Locked? || st.senders[s].Pushed? <==> st.lock == Some(Sender(s))))
    && (st.receiver.Checking? || st.receiver.Taken? <==> st.lock == Some(Receiver))
    && (st.lock.Some? && st.lock.value.Sender? ==> st.lock.value.id < |st.senders|)
  }

  ghost predicate CountsUp<T>(st: State<T>) {
    && !st.receiver.Fatal?
    && (!st.receiver.Waiting? ==> 0 < st.receiver.count < UINT_RANGE)
  }

  ghost predicate Inv<T>(st: State<T>) {
    Accounted(st) && InOrder(st) && Excluded(st) && CountsUp(st)
  }

  lemma {:induction false} UntriggeredUpdate<T>(senders: seq<SenderPc<T>>, s: nat, pc: SenderPc<T>)
    requires s < |senders|
    ensures Untriggered(senders[s := pc]) ==
            Untriggered(senders) - (if senders[s].Pushed? || senders[s].Triggering? then 1 else 0)
            + (if pc.Pushed? || pc.Triggering? then 1 else 0)
  {
    if s > 0 {
      assert senders[s := pc][1..] == senders[1..][s-1 := pc];
      UntriggeredUpdate(senders[1..], s - 1, pc);
    }
  }

  lemma {:induction false} UntriggeredIdle<T>(senders: seq<SenderPc<T>>)
    requires forall s :: 0 <= s < |senders| ==> senders[s].Idle?
    ensures Untriggered(senders) == 0
  {
    if senders != [] { UntriggeredIdle(senders[1..]); }
  }

  lemma StartHolds<T>(n: nat)
    ensures Inv(Start<T>(n))
  {
    UntriggeredIdle(Start<T>(n).senders);
  }

  lemma ModAdds(a: nat, b: nat)
    requires a % UINT_RANGE == 0 && b % UINT_RANGE == 0
    ensures (a + b) % UINT_RANGE == 0
  {
  }

  lemma NextAccounted<T>(st: State<T>, a: Action<T>)
    requires Inv(st) && Enabled(st, a)
    ensures Accounted(Next(st, a)) && CountsUp(Next(st, a))
  {
    hide Excluded, InOrder, Untriggered;
    if a.Call? || a.Acquire? || a.Push? || a.Release? || a.Trigger? {
      UntriggeredUpdate(st.senders, a.s, Next(st, a).senders[a.s]);
    }
    if a.Read? {
      ModAdds(st.lost, st.eventfd - st.eventfd % UINT_RANGE);
    }
  }

  lemma NextInOrder<T>(st: State<T>, a: Action<T>)
    requires Inv(st) && Enabled(st, a)
    ensures InOrder(Next(st, a))
  {
    hide Accounted, Excluded;
    if a.Take? && st.queue != [] {
      assert st.queue == [st.queue[0]] + st.queue[1..];
    }
  }

  lemma NextExcluded<T>(st: State<T>, a: Action<T>)
    requires Inv(st) && Enabled(st, a)
    ensures Excluded(Next(st, a))
  {
    hide Accounted, InOrder;
  }

  /** Every step of every thread keeps the invariant. */
  lemma NextHolds<T>(st: State<T>, a: Action<T>)
    requires Inv(st) && Enabled(st, a)
    ensures Inv(Next(st, a))
  {
    hide Accounted, Excluded, InOrder, CountsUp, Next;
    NextAccounted(st, a);
    NextInOrder(st, a);
    NextExcluded(st, a);
  }

  lemma {:induction false} RunHolds<T>(st: State<T>, run: seq<Action<T>>)
    requires Inv(st) && Runs(st, run)
    ensures Inv(Reached(st, run))
    decreases |run|
  {
    hide Inv, Next, Enabled;
    if run != [] {
      NextHolds(st, run[0]);
      RunHolds(Next(st, run[0]), run[1..]);
    }
  }

  // ----- What the invariant gives, over every run of every number of senders -----

  /** The receiver never finds the queue empty after an event. */
  lemma NeverFatal<T>(n: nat, run: seq<Action<T>>)
    requires Runs(Start(n), run)
    ensures !Reached(Start(n), run).receiver.Fatal?
    ensures Reached(Start(n), run).receiver.Checking? ==> Reached(Start(n), run).queue != []
  {
    hide Runs, Reached, Next, Enabled, InOrder, Excluded, Untriggered;
    StartHolds<T>(n);
    RunHolds(Start(n), run);
  }

  /** Messages are delivered in the order of the pushes, each once. */
  lemma DeliveredInPushOrder<T>(n: nat, run: seq<Action<T>>)
    requires Runs(Start(n), run)
    ensures var st := Reached(Start(n), run);
            st.pushed == st.delivered + InFlight(st.receiver) + st.queue
  {
    hide Runs, Reached, Next, Enabled, Accounted, Excluded, CountsUp;
    StartHolds<T>(n);
    RunHolds(Start(n), run);
  }

  /** No two threads are in their critical sections at once, and no message is emitted inside one. */
  lemma MutualExclusion<T>(n: nat, run: seq<Action<T>>, i: nat, j: nat)
    requires Runs(Start(n), run)
    requires i != j && i < |Reached(Start(n), run).senders| && j < |Reached(Start(n), run).senders|
    ensures var st := Reached(Start(n), run);
            && (st.senders[i].Locked? || st.senders[i].Pushed? ==> st.lock == Some(Sender(i)) && !st.senders[j].Locked? && !st.senders[j].Pushed?)
            && (st.receiver.Checking? || st.receiver.Taken? ==> st.lock == Some(Receiver) && !st.senders[i].Locked? && !st.senders[i].Pushed?)
            && (st.receiver.Emitting? ==> st.lock != Some(Receiver))
  {
    hide Runs, Reached, Next, Enabled, Accounted, InOrder, CountsUp;
    StartHolds<T>(n);
    RunHolds(Start(n), run);
  }

  /** No event is anywhere on its way. */
  predicate Quiet<T>(st: State<T>) {
    st.eventfd == 0 && Untriggered(st.senders) == 0 && Left(st.receiver) == 0
  }

  /** With nothing on its way, messages are stuck in the queue exactly if a read lost events to truncation. */
  lemma QuietIsDrained<T>(n: nat, run: seq<Action<T>>)
    requires Runs(Start(n), run)
    ensures var st := Reached(Start(n), run);
            && (Quiet(st) ==> (st.queue == [] <==> st.lost == 0))
            && (|st.queue| < 0x1_0000_0000 ==> st.lost == 0)
  {
    hide Runs, Reached, Next, Enabled, Untriggered, Left, InOrder, Excluded, CountsUp;
    StartHolds<T>(n);
    RunHolds(Start(n), run);
    var st := Reached(Start(n), run);
    assert st.lost <= |st.queue|;
  }

  /** Events are lost exactly by a read that finds 2^32 of them or more. */
  lemma {:induction false} LostByBigRead<T>(st: State<T>, run: seq<Action<T>>)
    requires Runs(st, run)
    ensures Reached(st, run).lost == st.lost <==> SmallReads(st, run)
    ensures Reached(st, run).lost >= st.lost
    decreases |run|
  {
    hide Enabled;
    if run != [] {
      ReadLoses(st, run[0]);
      hide Next;
      LostByBigRead(Next(st, run[0]), run[1..]);
    }
  }

  lemma ReadLoses<T>(st: State<T>, a: Action<T>)
    requires Enabled(st, a)
    ensures Next(st, a).lost >= st.lost
    ensures Next(st, a).lost == st.lost <==> (a.Read? ==> st.eventfd < UINT_RANGE)
  {
  }

  /** No read of the run finds 2^32 events or more. */
  ghost predicate SmallReads<T>(st: State<T>, run: seq<Action<T>>)
    requires Runs(st, run)
    decreases |run|
  {
    run == [] || ((run[0].Read? ==> st.eventfd < 0x1_0000_0000) && SmallReads(Next(st, run[0]), run[1..]))
  }

  /** The whole condition: when nothing is on its way, everything pushed was delivered iff all reads were small. */
  lemma DrainedIffSmallReads<T>(n: nat, run: seq<Action<T>>)
    requires Runs(Start(n), run) && Quiet(Reached(Start(n), run))
    ensures var st := Reached(Start(n), run);
            st.pushed == st.delivered + InFlight(st.receiver) <==> SmallReads(Start(n), run)
  {
    hide Next, Enabled, Runs, Reached, SmallReads;
    DeliveredInPushOrder(n, run);
    QuietIsDrained(n, run);
    LostByBigRead(Start(n), run);
    var st := Reached(Start(n), run);
    if st.queue != [] {
      assert |st.pushed| > |st.delivered + InFlight(st.receiver)|;
    }
  }

  // ----- Draining -----

  predicate Internal<T>(a: Action<T>) { !a.Call? }

  function SenderWork<T>(pc: SenderPc<T>): nat {
    match pc
    case Idle => 0
    case Entering(_) => 9
    case Locked(_) => 8
    case Pushed => 7
    case Triggering => 6
  }

  function SendersWork<T>(senders: seq<SenderPc<T>>): nat {
    if senders == [] then 0 else SenderWork(senders[0]) + SendersWork(senders[1..])
  }

  function ReceiverWork<T>(r: ReceiverPc<T>): int {
    match r
    case Counting(count) => 4 * count
    case Checking(count) => 4 * count - 1
    case Taken(count, _) => 4 * count - 2
    case Emitting(count, _) => 4 * count - 3
    case _ => 0
  }

  /** Bound on the steps before everything comes to rest. */
  function Work<T>(st: State<T>): int {
    SendersWork(st.senders) + 5 * st.eventfd + ReceiverWork(st.receiver)
  }

  lemma {:induction false} SendersWorkUpdate<T>(senders: seq<SenderPc<T>>, s: nat, pc: SenderPc<T>)
    requires s < |senders|
    ensures SendersWork(senders[s := pc]) == SendersWork(senders) - SenderWork(senders[s]) + SenderWork(pc)
  {
    hide SenderWork;
    if s > 0 {
      assert senders[s := pc][1..] == senders[1..][s-1 := pc];
      SendersWorkUpdate(senders[1..], s - 1, pc);
    }
  }

  /** Every step but a new call brings the pump nearer to rest, so it comes to rest when the calls stop. */
  lemma StepDrains<T>(st: State<T>, a: Action<T>)
    requires Inv(st) && Enabled(st, a) && Internal(a)
    ensures 0 <= Work(Next(st, a)) < Work(st)
  {
    hide Excluded, InOrder, SendersWork;
    if a.Acquire? || a.Push? || a.Release? || a.Trigger? {
      SendersWorkUpdate(st.senders, a.s, Next(st, a).senders[a.s]);
    }
  }

  predicate AtRest<T>(st: State<T>) {
    (forall s :: 0 <= s < |st.senders| ==> st.senders[s].Idle?) && st.receiver.Waiting? && st.eventfd == 0
  }

  /** A thread waits for nothing but the lock, and for an event in the case of the receiver. */
  lemma BlockedOnlyBy<T>(st: State<T>, s: nat, msg: T)
    ensures Enabled(st, Read) || Enabled(st, Lock) || Enabled(st, Take) || Enabled(st, Unlock) || Enabled(st, Emit) <==>
              !(st.receiver.Waiting? && st.eventfd == 0) && !(st.receiver.Counting? && st.lock.Some?) && !st.receiver.Fatal?
    ensures s < |st.senders| ==>
              (Enabled(st, Call(s, msg)) || Enabled(st, Acquire(s)) || Enabled(st, Push(s)) || Enabled(st, Release(s)) || Enabled(st, Trigger(s)) <==>
               !(st.senders[s].Entering? && st.lock.Some?))
  {
  }

  /** No deadlock: unless everything is at rest, some thread inside a call can move. */
  lemma SomeoneMoves<T>(st: State<T>) returns (a: Action<T>)
    requires Inv(st) && !AtRest(st)
    ensures Enabled(st, a) && Internal(a)
  {
    hide Accounted, InOrder;
    if st.lock.Some? {
      match st.lock.value
      case Receiver => a := if st.receiver.Checking? then Take else Unlock;
      case Sender(s) => a := if st.senders[s].Locked? then Push(s) else Release(s);
    } else if !st.receiver.Waiting? {
      a := if st.receiver.Counting? then Lock else Emit;
    } else if st.eventfd > 0 {
      a := Read;
    } else {
      var s :| 0 <= s < |st.senders| && !st.senders[s].Idle?;
      a := if st.senders[s].Entering? then Acquire(s) else Trigger(s);
    }
  }

  /** At rest nothing is on its way, so all messages have been delivered when no read lost events. */
  lemma RestIsDelivered<T>(n: nat, run: seq<Action<T>>)
    requires Runs(Start(n), run) && AtRest(Reached(Start(n), run))
    ensures Reached(Start(n), run).delivered == Reached(Start(n), run).pushed <==> SmallReads(Start(n), run)
  {
    hide Next, Enabled, Runs, Reached, SmallReads;
    UntriggeredIdle(Reached(Start(n), run).senders);
    DrainedIffSmallReads(n, run);
    var st := Reached(Start(n), run);
    assert st.delivered + InFlight(st.receiver) == st.delivered;
  }

  // ----- The run that loses its events -----

  function Repeat<T>(msg: T, n: nat): seq<T> { seq(n, i => msg) }

  /** One sender between calls, with n messages in the queue and n events in the eventfd. */
  function Filled<T>(msg: T, n: nat): State<T> {
    State([Idle], Waiting, None, Repeat(msg, n), n, Repeat(msg, n), [], 0)
  }

  function OneSend<T>(msg: T): seq<Action<T>> { [Call(0, msg), Acquire(0), Push(0), Release(0), Trigger(0)] }

  lemma SendFills<T>(msg: T, n: nat, rest: seq<Action<T>>)
    requires Runs(Filled(msg, n + 1), rest)
    ensures Runs(Filled(msg, n), OneSend(msg) + rest)
    ensures Reached(Filled(msg, n), OneSend(msg) + rest) == Reached(Filled(msg, n + 1), rest)
  {
    hide Runs, Reached;
    var s0 := Filled(msg, n);
    var s1 := Next(s0, Call(0, msg));
    var s2 := Next(s1, Acquire(0));
    var s3 := Next(s2, Push(0));
    var s4 := Next(s3, Release(0));
    var s5 := Next(s4, Trigger(0));
    assert Repeat(msg, n) + [msg] == Repeat(msg, n + 1);
    assert s5.senders == [Idle];
    assert s5 == Filled(msg, n + 1);
    Prefix(s4, Trigger(0), rest);
    Prefix(s3, Release(0), [Trigger(0)] + rest);
    Prefix(s2, Push(0), [Release(0)] + ([Trigger(0)] + rest));
    Prefix(s1, Acquire(0), [Push(0)] + ([Release(0)] + ([Trigger(0)] + rest)));
    Prefix(s0, Call(0, msg), [Acquire(0)] + ([Push(0)] + ([Release(0)] + ([Trigger(0)] + rest))));
    assert OneSend(msg) + rest ==
           [Call(0, msg)] + ([Acquire(0)] + ([Push(0)] + ([Release(0)] + ([Trigger(0)] + rest))));
  }

  lemma Prefix<T>(st: State<T>, a: Action<T>, rest: seq<Action<T>>)
    requires Enabled(st, a) && Runs(Next(st, a), rest)
    ensures Runs(st, [a] + rest) && Reached(st, [a] + rest) == Reached(Next(st, a), rest)
  {
    hide Enabled, Next;
    assert ([a] + rest)[1..] == rest;
  }

  /** From m messages on, sends and one read at the end. */
  lemma {:induction false} FillAndRead<T>(msg: T, m: nat, n: nat) returns (run: seq<Action<T>>)
    requires m <= n && n > 0
    ensures Runs(Filled(msg, m), run) && Reached(Filled(msg, m), run) == Next(Filled(msg, n), Read)
    decreases n - m
  {
    hide Runs, Reached, Filled;
    if m == n {
      ReadFilled(msg, n);
      run := [Read] + [];
    } else {
      run := FillAndRead(msg, m + 1, n);
      SendFills(msg, m, run);
      run := OneSend(msg) + run;
    }
  }

  lemma ReadFilled<T>(msg: T, n: nat)
    requires n > 0
    ensures Enabled(Filled(msg, n), Read)
    ensures Runs(Filled(msg, n), [Read] + []) && Reached(Filled(msg, n), [Read] + []) == Next(Filled(msg, n), Read)
  {
    Prefix(Filled(msg, n), Read, []);
  }

  /** 2^32 sends before the receiver reads: its count is 0, and all the messages stay behind with no event. */
  lemma Stranded<T>(msg: T) returns (run: seq<Action<T>>)
    ensures Runs(Start(1), run)
    ensures var st := Reached(Start(1), run); AtRest(st) && st.delivered == [] && |st.queue| == 0x1_0000_0000
  {
    hide Runs, Reached;
    assert Start<T>(1) == Filled(msg, 0);
    run := FillAndRead(msg, 0, UINT_RANGE);
  }

  // ----- The object itself -----

  /** The receiving side's view: other threads act only between its critical sections. */
  class FixedMessagePump<T> {
    var queue: seq<T>
    var eventfd: nat
    ghost var untriggered: nat
    ghost var received: seq<T>

    /** The queue holds at least a message for each event, in the eventfd or still to come. */
    ghost predicate Valid()
      reads this
    {
      |queue| >= eventfd + untriggered
    }

    constructor ()
      ensures Valid() && queue == [] && eventfd == 0 && untriggered == 0 && received == []
    {
      queue, eventfd, untriggered, received := [], 0, 0, [];
    }

    /** The locked part of send. */
    method Push(msg: T)
      requires Valid()
      modifies this
      ensures Valid() && queue == old(queue) + [msg] && untriggered == old(untriggered) + 1
      ensures eventfd == old(eventfd) && received == old(received)
    {
      queue := queue + [msg];
      untriggered := untriggered + 1;
    }

    method TriggerEvent()
      requires Valid() && untriggered > 0
      modifies this
      ensures Valid() && eventfd == old(eventfd) + 1 && untriggered == old(untriggered) - 1
      ensures queue == old(queue) && received == old(received)
    {
      eventfd := eventfd + 1;
      untriggered := untriggered - 1;
    }

    method Send(msg: T)
      requires Valid()
      modifies this
      ensures Valid() && queue == old(queue) + [msg] && eventfd == old(eventfd) + 1
      ensures untriggered == old(untriggered) && received == old(received)
    {
      Push(msg);
      TriggerEvent();
    }

    /**
     * One call of do_recv. Before it takes its k-th message, other threads push others[k]. It takes
     * exactly as many messages as there were events (modulo 2^32), the oldest ones, in order, and never fails.
     */
    method DoRecv(others: seq<seq<T>>) returns (fatal: bool)
      requires Valid() && eventfd > 0 && |others| >= eventfd % 0x1_0000_0000
      modifies this
      ensures Valid() && !fatal && eventfd == 0
      ensures var n := old(eventfd) % 0x1_0000_0000;
              && n <= old(|queue|)
              && received == old(received) + old(queue)[..n]
              && queue == old(queue)[n..] + Joined(others[..n])
    {
      var data := eventfd;
      eventfd := 0;
      var count := data % UINT_RANGE;
      var n := count;
      assert n <= data <= |queue|;
      while count != 0
        invariant 0 <= count <= n <= |old(queue)|
        invariant eventfd == 0 && |queue| >= count + untriggered
        invariant received == old(received) + old(queue)[..n - count]
        invariant queue == old(queue)[n - count..] + Joined(others[..n - count])
      {
        ghost var k, before := n - count, queue;
        PushAll(others[n - count]);
        JoinedNext(others, k);
        if queue == [] {
          return true;
        }
        var msg := queue[0];
        TakeOne(old(queue), before, Joined(others[..k]), others[k], k);
        queue := queue[1..];
        received := received + [msg];
        count := count - 1;
      }
      return false;
    }

    /** What other threads do in between: pushes whose events come later. */
    method PushAll(msgs: seq<T>)
      modifies this
      ensures queue == old(queue) + msgs && untriggered == old(untriggered) + |msgs|
      ensures eventfd == old(eventfd) && received == old(received)
    {
      queue := queue + msgs;
      untriggered := untriggered + |msgs|;
    }
  }

  /** Taking the oldest message after more were pushed. */
  lemma TakeOne<T>(first: seq<T>, before: seq<T>, joined: seq<T>, more: seq<T>, k: nat)
    requires k < |first| && before == first[k..] + joined
    ensures before + more != [] && (before + more)[0] == first[k]
    ensures (before + more)[1..] == first[k+1..] + (joined + more)
    ensures first[..k+1] == first[..k] + [first[k]]
  {
  }
}
