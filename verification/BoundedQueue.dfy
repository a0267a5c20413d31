/** The bounded blocking queue: one step per critical section, condition variables as explicit sets of sleeping and
    woken threads, spurious wake-ups allowed. */
module BoundedQueue {
  type Tid = nat

  /** Threads waiting in cv_not_full_ (producers) and cv_not_empty_ (consumers), unnotified or notified; the value each
      waiting producer wants to push; and the histories of pushed and popped values. */
  datatype State = State(q: seq<int>, shutdown: bool,
                         sleepingProducers: set<Tid>, wokenProducers: set<Tid>,
                         sleepingConsumers: set<Tid>, wokenConsumers: set<Tid>,
                         wanted: map<Tid, int>, pushed: seq<int>, popped: seq<int>)

  /** notify is the thread a notify_one would pick. */
  datatype Step =
    | Push(v: int, notify: Tid)
    | PushWake(notify: Tid)
    | TryPush(v: int, notify: Tid)
    | Pop(notify: Tid)
    | PopWake(notify: Tid)
    | PopTimeout(notify: Tid)
    | TryPop(notify: Tid)
    | Shutdown

  ghost predicate Waiting(s: State, t: Tid) {
    t in s.sleepingProducers || t in s.wokenProducers || t in s.sleepingConsumers || t in s.wokenConsumers
  }

  /** notify_one wakes some sleeping thread when there is one. */
  ghost predicate Picks(sleeping: set<Tid>, notify: Tid) {
    sleeping != {} ==> notify in sleeping
  }

  ghost predicate Enabled(s: State, t: Tid, step: Step) {
    match step
    case Push(_, n) => !Waiting(s, t) && Picks(s.sleepingConsumers, n)
    case PushWake(n) =>
      && (t in s.sleepingProducers || t in s.wokenProducers) && t in s.wanted
      && Picks(s.sleepingConsumers, n)
    case TryPush(_, n) => !Waiting(s, t) && Picks(s.sleepingConsumers, n)
    case Pop(n) => !Waiting(s, t) && Picks(s.sleepingProducers, n)
    case PopWake(n) => (t in s.sleepingConsumers || t in s.wokenConsumers) && Picks(s.sleepingProducers, n)
    case PopTimeout(n) => (t in s.sleepingConsumers || t in s.wokenConsumers) && Picks(s.sleepingProducers, n)
    case TryPop(n) => !Waiting(s, t) && Picks(s.sleepingProducers, n)
    case Shutdown => !Waiting(s, t)
  }

  function NotifyConsumer(s: State, n: Tid): State {
    if n in s.sleepingConsumers
    then s.(sleepingConsumers := s.sleepingConsumers - {n}, wokenConsumers := s.wokenConsumers + {n})
    else s
  }

  function NotifyProducer(s: State, n: Tid): State {
    if n in s.sleepingProducers
    then s.(sleepingProducers := s.sleepingProducers - {n}, wokenProducers := s.wokenProducers + {n})
    else s
  }

  /** A waiting thread holds the mutex again and has left the wait set. */
  function ProducerAwake(s: State, t: Tid): State {
    s.(sleepingProducers := s.sleepingProducers - {t}, wokenProducers := s.wokenProducers - {t})
  }

  function ConsumerAwake(s: State, t: Tid): State {
    s.(sleepingConsumers := s.sleepingConsumers - {t}, wokenConsumers := s.wokenConsumers - {t})
  }

  /** push after its wait has been entered or woken: sleep, give up, or append and notify a consumer. */
  function PushSection(cap: nat, s: State, t: Tid, v: int, n: Tid): State {
    if !(|s.q| < cap || s.shutdown) then s.(sleepingProducers := s.sleepingProducers + {t}, wanted := s.wanted[t := v])
    else if s.shutdown then s
    else NotifyConsumer(s.(q := s.q + [v], pushed := s.pushed + [v]), n)
  }

  /** pop after its wait has been entered or woken. */
  function PopSection(s: State, t: Tid, n: Tid): State {
    if s.q == [] && !s.shutdown then s.(sleepingConsumers := s.sleepingConsumers + {t})
    else TakeFront(s, n)
  }

  function TakeFront(s: State, n: Tid): State {
    if s.q == [] then s
    else NotifyProducer(s.(q := s.q[1..], popped := s.popped + [s.q[0]]), n)
  }

  ghost function Next(cap: nat, s: State, t: Tid, step: Step): State
    requires Enabled(s, t, step)
  {
    match step
    case Push(v, n) => PushSection(cap, s, t, v, n)
    case PushWake(n) => PushSection(cap, ProducerAwake(s, t), t, s.wanted[t], n)
    case TryPush(v, n) => if s.shutdown || |s.q| >= cap then s else PushSection(cap, s, t, v, n)
    case Pop(n) => PopSection(s, t, n)
    case PopWake(n) => PopSection(ConsumerAwake(s, t), t, n)
    case PopTimeout(n) => TakeFront(ConsumerAwake(s, t), n)
    case TryPop(n) => TakeFront(s, n)
    case Shutdown =>
      s.(shutdown := true,
         sleepingProducers := {}, wokenProducers := s.wokenProducers + s.sleepingProducers,
         sleepingConsumers := {}, wokenConsumers := s.wokenConsumers + s.sleepingConsumers)
  }

  function Init(): State {
    State([], false, {}, {}, {}, {}, map[], [], [])
  }

  // ---- The invariant --------------------------------------------------------------------------------

  ghost predicate Inv(cap: nat, s: State) {
    Fifo(cap, s) && WaitSets(s) && NoLostWakeUp(cap, s)
  }

  ghost predicate Fifo(cap: nat, s: State) {
    s.popped + s.q == s.pushed && |s.q| <= cap
  }

  ghost predicate WaitSets(s: State) {
    && s.sleepingProducers !! s.wokenProducers && s.sleepingConsumers !! s.wokenConsumers
    && (forall t | t in s.sleepingProducers || t in s.wokenProducers :: t in s.wanted)
    && (s.shutdown ==> s.sleepingProducers == {} && s.sleepingConsumers == {})
  }

  /** A sleeping consumer means that every queued item already has a notified consumer coming for it, and a sleeping
      producer that every free slot has a notified producer coming. */
  ghost predicate NoLostWakeUp(cap: nat, s: State) {
    Covered(cap, s, 0, 0)
  }

  /** ... where `consumers` and `producers` more are on their way, holding the mutex. */
  ghost predicate Covered(cap: nat, s: State, producers: nat, consumers: nat) {
    && (s.sleepingConsumers != {} ==> |s.q| <= |s.wokenConsumers| + consumers)
    && (s.sleepingProducers != {} ==> cap - |s.q| <= |s.wokenProducers| + producers)
  }

  lemma ProducerRuns(cap: nat, s: State, t: Tid)
    requires Inv(cap, s)
    ensures WaitSets(ProducerAwake(s, t)) && Covered(cap, ProducerAwake(s, t), 1, 0)
  {
  }

  lemma ConsumerRuns(cap: nat, s: State, t: Tid)
    requires Inv(cap, s)
    ensures WaitSets(ConsumerAwake(s, t)) && Covered(cap, ConsumerAwake(s, t), 0, 1)
  {
  }

  lemma Leaves(threads: set<Tid>, t: Tid)
    ensures |threads - {t}| >= |threads| - 1
  {
  }

  lemma ConsumerNotified(cap: nat, s: State, n: Tid, producers: nat)
    requires WaitSets(s) && Picks(s.sleepingConsumers, n)
    requires s.sleepingConsumers != {} ==> |s.q| <= |s.wokenConsumers| + 1
    requires s.sleepingProducers != {} ==> cap - |s.q| <= |s.wokenProducers| + producers
    ensures WaitSets(NotifyConsumer(s, n)) && Covered(cap, NotifyConsumer(s, n), producers, 0)
  {
  }

  lemma ProducerNotified(cap: nat, s: State, n: Tid)
    requires WaitSets(s) && Picks(s.sleepingProducers, n) && Covered(cap, s, 1, 0)
    ensures WaitSets(NotifyProducer(s, n)) && Covered(cap, NotifyProducer(s, n), 0, 0)
  {
  }

  lemma PushSectionKeeps(cap: nat, s: State, t: Tid, v: int, n: Tid)
    requires Fifo(cap, s) && WaitSets(s) && Covered(cap, s, 1, 0) && t !in s.wokenProducers
             && Picks(s.sleepingConsumers, n)
    ensures Inv(cap, PushSection(cap, s, t, v, n))
  {
    if |s.q| < cap && !s.shutdown {
      ConsumerNotified(cap, s.(q := s.q + [v], pushed := s.pushed + [v]), n, 0);
      assert s.popped + (s.q + [v]) == s.popped + s.q + [v];
    }
  }

  lemma TakeFrontKeeps(cap: nat, s: State, n: Tid)
    requires Fifo(cap, s) && WaitSets(s) && Covered(cap, s, 0, 1) && Picks(s.sleepingProducers, n)
    ensures Inv(cap, TakeFront(s, n))
  {
    if s.q != [] {
      var taken := s.(q := s.q[1..], popped := s.popped + [s.q[0]]);
      assert s.popped + [s.q[0]] + s.q[1..] == s.popped + s.q;
      ProducerNotified(cap, taken, n);
    }
  }

  lemma PopSectionKeeps(cap: nat, s: State, t: Tid, n: Tid)
    requires Fifo(cap, s) && WaitSets(s) && Covered(cap, s, 0, 1) && t !in s.wokenConsumers
             && Picks(s.sleepingProducers, n)
    ensures Inv(cap, PopSection(s, t, n))
  {
    TakeFrontKeeps(cap, s, n);
  }

  /** Any one critical section of any thread keeps the invariant. */
  lemma StepKeeps(cap: nat, s: State, t: Tid, step: Step)
    requires Inv(cap, s) && Enabled(s, t, step)
    ensures Inv(cap, Next(cap, s, t, step))
  {
    hide PushSection, PopSection, TakeFront, WaitSets, Fifo;
    match step
    case Push(v, n) => PushSectionKeeps(cap, s, t, v, n);
    case PushWake(n) =>
      ProducerRuns(cap, s, t);
      FifoAwake(cap, s, t);
      PushSectionKeeps(cap, ProducerAwake(s, t), t, s.wanted[t], n);
    case TryPush(v, n) => PushSectionKeeps(cap, s, t, v, n);
    case Pop(n) => PopSectionKeeps(cap, s, t, n);
    case PopWake(n) =>
      ConsumerRuns(cap, s, t);
      FifoAwake(cap, s, t);
      PopSectionKeeps(cap, ConsumerAwake(s, t), t, n);
    case PopTimeout(n) =>
      ConsumerRuns(cap, s, t);
      FifoAwake(cap, s, t);
      TakeFrontKeeps(cap, ConsumerAwake(s, t), n);
    case TryPop(n) => TakeFrontKeeps(cap, s, n);
    case Shutdown => ShutdownKeeps(cap, s, t);
  }

  lemma FifoAwake(cap: nat, s: State, t: Tid)
    requires Fifo(cap, s)
    ensures Fifo(cap, ProducerAwake(s, t)) && Fifo(cap, ConsumerAwake(s, t))
  {
  }

  lemma ShutdownKeeps(cap: nat, s: State, t: Tid)
    requires Inv(cap, s) && Enabled(s, t, Shutdown)
    ensures Inv(cap, Next(cap, s, t, Shutdown))
  {
  }

  /** Where a step leaves the thread that takes it: waiting to push, with its value kept, exactly when it pushes into a
      full queue, waiting to pop exactly when it pops from an empty one; never after a try, a timeout or shutdown. */
  lemma StepOfCaller(cap: nat, s: State, t: Tid, step: Step)
    requires WaitSets(s) && OneSide(s, t) && Enabled(s, t, step)
    ensures OneSide(Next(cap, s, t, step), t)
    ensures var s' := Next(cap, s, t, step);
            match step {
              case Push(v, _) => if |s.q| >= cap && !s.shutdown then SleepsToPush(s', t, v) else !Waiting(s', t)
              case PushWake(_) =>
                if |s.q| >= cap && !s.shutdown then SleepsToPush(s', t, s.wanted[t]) else !Waiting(s', t)
              case Pop(_) | PopWake(_) =>
                if s.q == [] && !s.shutdown then t in s'.sleepingConsumers else !Waiting(s', t)
              case _ => !Waiting(s', t)
            }
  {
  }

  ghost predicate SleepsToPush(s: State, t: Tid, v: int) {
    t in s.sleepingProducers && t in s.wanted && s.wanted[t] == v
  }

  /** The thread does not wait on both sides. */
  ghost predicate OneSide(s: State, t: Tid) {
    !((t in s.sleepingProducers || t in s.wokenProducers) && (t in s.sleepingConsumers || t in s.wokenConsumers))
  }

  /** No step changes whether another thread waits to push or to pop, nor the value it waits to push. */
  lemma StepOfOthers(cap: nat, s: State, t: Tid, step: Step, u: Tid)
    requires Inv(cap, s) && Enabled(s, t, step) && u != t
    ensures var s' := Next(cap, s, t, step);
            && (u in s'.sleepingProducers || u in s'.wokenProducers <==>
                  u in s.sleepingProducers || u in s.wokenProducers)
            && (u in s'.sleepingConsumers || u in s'.wokenConsumers <==>
                  u in s.sleepingConsumers || u in s.wokenConsumers)
            && (u in s'.wanted <==> u in s.wanted) && (u in s.wanted ==> s'.wanted[u] == s.wanted[u])
  {
  }

  // ---- Runs -----------------------------------------------------------------------------------------

  ghost predicate Run(cap: nat, states: seq<State>, moves: seq<(Tid, Step)>) {
    && |states| == |moves| + 1 && states[0] == Init()
    && forall i: nat | i < |moves| :: Moves(cap, states, moves, i)
  }

  ghost predicate Moves(cap: nat, states: seq<State>, moves: seq<(Tid, Step)>, i: nat)
    requires i < |moves| && |states| == |moves| + 1
  {
    Enabled(states[i], moves[i].0, moves[i].1) && states[i + 1] == Next(cap, states[i], moves[i].0, moves[i].1)
  }

  lemma {:induction false} RunKeeps(cap: nat, states: seq<State>, moves: seq<(Tid, Step)>, i: nat)
    requires Run(cap, states, moves) && i < |states|
    ensures Inv(cap, states[i])
  {
    if i > 0 {
      RunKeeps(cap, states, moves, i - 1);
      assert Moves(cap, states, moves, i - 1);
      StepKeeps(cap, states[i - 1], moves[i - 1].0, moves[i - 1].1);
    }
  }

  lemma {:induction false} RunOneSide(cap: nat, states: seq<State>, moves: seq<(Tid, Step)>, i: nat, u: Tid)
    requires Run(cap, states, moves) && i < |states|
    ensures OneSide(states[i], u)
  {
    if i > 0 {
      var s, t, step := states[i - 1], moves[i - 1].0, moves[i - 1].1;
      RunOneSide(cap, states, moves, i - 1, u);
      RunKeeps(cap, states, moves, i - 1);
      assert Moves(cap, states, moves, i - 1);
      if u == t {
        StepOfCaller(cap, s, t, step);
      } else {
        StepOfOthers(cap, s, t, step, u);
      }
    }
  }

  ghost predicate Reachable(cap: nat, s: State) {
    exists states, moves :: Run(cap, states, moves) && states[|moves|] == s
  }

  /** Somebody waits on each side and nobody has been notified: only a spurious wake-up could help, and it would not. */
  ghost predicate AllAsleep(s: State) {
    s.sleepingProducers != {} && s.sleepingConsumers != {} && s.wokenProducers == {} && s.wokenConsumers == {}
  }

  /** Producers and consumers are never all asleep if and only if the queue has room for anything at all. */
  lemma NeverAllAsleepIff(cap: nat)
    ensures (forall s | Reachable(cap, s) :: !AllAsleep(s)) <==> cap >= 1
  {
    if cap >= 1 {
      forall s | Reachable(cap, s)
        ensures !AllAsleep(s)
      {
        var states, moves :| Run(cap, states, moves) && states[|moves|] == s;
        RunKeeps(cap, states, moves, |moves|);
      }
    } else {
      var s := CapacityZeroStalls();
      assert Reachable(cap, s) && AllAsleep(s);
    }
  }

  /** With capacity 0 a producer and a consumer fall asleep for good. */
  lemma CapacityZeroStalls() returns (s: State)
    ensures Reachable(0, s) && AllAsleep(s)
  {
    var s0 := Init();
    var s1 := Next(0, s0, 1, Push(7, 0));
    s := Next(0, s1, 2, Pop(1));
    var states, moves := [s0, s1, s], [(1, Push(7, 0)), (2, Pop(1))];
    forall i: nat | i < |moves|
      ensures Moves(0, states, moves, i)
    {
    }
    assert Run(0, states, moves) && states[|moves|] == s;
  }

  /** In every run, what was popped followed by what is queued is what was pushed; an item waiting while a consumer
      sleeps has a notified consumer, and a free slot while a producer sleeps has a notified producer. */
  lemma EveryRunIsFifo(cap: nat, states: seq<State>, moves: seq<(Tid, Step)>, i: nat)
    requires Run(cap, states, moves) && i < |states|
    ensures var s := states[i];
            && s.popped + s.q == s.pushed && |s.q| <= cap && NoLostWakeUp(cap, s)
            && (s.q != [] && s.sleepingConsumers != {} ==> s.wokenConsumers != {})
            && (|s.q| < cap && s.sleepingProducers != {} ==> s.wokenProducers != {})
  {
    RunKeeps(cap, states, moves, i);
  }

  // ---- Shutdown -------------------------------------------------------------------------------------

  /** After shutdown nobody sleeps again, nothing more is pushed, and a pop comes back empty-handed only when everything
      pushed has been popped. */
  lemma AfterShutdown(cap: nat, s: State, t: Tid, step: Step)
    requires Inv(cap, s) && Enabled(s, t, step) && s.shutdown
    ensures var s' := Next(cap, s, t, step);
            && s'.shutdown && s'.pushed == s.pushed && s'.sleepingProducers == {} && s'.sleepingConsumers == {}
            && (step.Pop? || step.PopWake? || step.PopTimeout? || step.TryPop? ==>
                  if s.popped == s.pushed then s'.popped == s.popped
                  else s.q != [] && s'.popped == s.popped + [s.q[0]])
  {
  }

  /** The state after t pops n more times. */
  ghost function Drained(cap: nat, s: State, t: Tid, n: nat): State
    requires Inv(cap, s) && s.shutdown && !Waiting(s, t)
    ensures Drained(cap, s, t, n).shutdown && !Waiting(Drained(cap, s, t, n), t) && Inv(cap, Drained(cap, s, t, n))
    decreases n
  {
    if n == 0 then s
    else
      var before := Drained(cap, s, t, n - 1);
      StepKeeps(cap, before, t, Pop(0));
      Next(cap, before, t, Pop(0))
  }

  /** One idle thread popping as often as there are items drains the queue completely. */
  lemma {:induction false} ShutdownDrains(cap: nat, s: State, t: Tid, n: nat)
    requires Inv(cap, s) && s.shutdown && !Waiting(s, t) && n <= |s.q|
    ensures var s' := Drained(cap, s, t, n);
            && s'.pushed == s.pushed && s'.q == s.q[n..]
            && (n == |s.q| ==> s'.popped == s.pushed)
  {
    if n > 0 {
      ShutdownDrains(cap, s, t, n - 1);
      assert s.q[n - 1..][1..] == s.q[n..];
    }
  }

  // ---- The queue object -----------------------------------------------------------------------------

  /** How a critical section ends. */
  datatype Outcome = Asleep | Refused | Pushed | Popped(v: int)

  /** The queue as it is updated in place, one method per critical section. The condition variables are the wait
      sets. */
  class BoundedQueue {
    const cap: nat
    var q: seq<int>
    var shutdown: bool
    var sleepingProducers: set<Tid>
    var wokenProducers: set<Tid>
    var sleepingConsumers: set<Tid>
    var wokenConsumers: set<Tid>
    var wanted: map<Tid, int>
    ghost var pushed: seq<int>
    ghost var popped: seq<int>

    ghost function View(): State
      reads this
    {
      State(q, shutdown, sleepingProducers, wokenProducers, sleepingConsumers, wokenConsumers, wanted, pushed, popped)
    }

    ghost predicate Valid()
      reads this
    {
      Inv(cap, View())
    }

    constructor (cap: nat)
      ensures Valid() && View() == Init() && this.cap == cap
    {
      this.cap := cap;
      q, shutdown, wanted, pushed, popped := [], false, map[], [], [];
      sleepingProducers, wokenProducers, sleepingConsumers, wokenConsumers := {}, {}, {}, {};
    }

    method NotifyOneConsumer(n: Tid)
      modifies this
      ensures View() == NotifyConsumer(old(View()), n)
    {
      if n in sleepingConsumers {
        sleepingConsumers := sleepingConsumers - {n};
        wokenConsumers := wokenConsumers + {n};
      }
    }

    method NotifyOneProducer(n: Tid)
      modifies this
      ensures View() == NotifyProducer(old(View()), n)
    {
      if n in sleepingProducers {
        sleepingProducers := sleepingProducers - {n};
        wokenProducers := wokenProducers + {n};
      }
    }

    /** push from the evaluation of its wait predicate on: the thread falls asleep, is refused, or pushes. */
    method PushLocked(t: Tid, v: int, n: Tid) returns (r: Outcome)
      modifies this
      ensures View() == PushSection(cap, old(View()), t, v, n)
      ensures r == if |old(q)| >= cap && !old(shutdown) then Asleep else if old(shutdown) then Refused else Pushed
      ensures q == old(q) + (if r == Pushed then [v] else [])
      ensures pushed == old(pushed) + if r == Pushed then [v] else []
      ensures sleepingConsumers == (if r == Pushed then old(sleepingConsumers) - {n} else old(sleepingConsumers))
      ensures wokenConsumers ==
              if r == Pushed && n in old(sleepingConsumers) then old(wokenConsumers) + {n} else old(wokenConsumers)
      ensures popped == old(popped) && shutdown == old(shutdown)
    {
      if !(|q| < cap || shutdown) {
        sleepingProducers := sleepingProducers + {t};
        wanted := wanted[t := v];
        return Asleep;
      }
      if shutdown {
        return Refused;
      }
      q := q + [v];
      pushed := pushed + [v];
      NotifyOneConsumer(n);
      return Pushed;
    }

    /** The end of every pop: refused when the queue is empty, else the front item. */
    method PopLocked(n: Tid) returns (r: Outcome)
      modifies this
      ensures View() == TakeFront(old(View()), n)
      ensures r == if old(q) == [] then Refused else Popped(old(q)[0])
      ensures if r.Popped? then q == old(q)[1..] && popped == old(popped) + [old(q)[0]]
              else q == old(q) && popped == old(popped)
      ensures sleepingProducers == (if r.Popped? then old(sleepingProducers) - {n} else old(sleepingProducers))
      ensures wokenProducers ==
              if r.Popped? && n in old(sleepingProducers) then old(wokenProducers) + {n} else old(wokenProducers)
      ensures pushed == old(pushed) && shutdown == old(shutdown)
    {
      if q == [] {
        return Refused;
      }
      var v := q[0];
      q := q[1..];
      popped := popped + [v];
      NotifyOneProducer(n);
      return Popped(v);
    }

    method Push(t: Tid, v: int, n: Tid) returns (r: Outcome)
      requires Valid() && Enabled(View(), t, Step.Push(v, n))
      modifies this
      ensures Valid() && View() == Next(cap, old(View()), t, Step.Push(v, n))
      ensures r == if old(shutdown) then Refused else if |old(q)| >= cap then Asleep else Pushed
      ensures q == old(q) + (if r == Pushed then [v] else [])
      ensures pushed == old(pushed) + if r == Pushed then [v] else []
      ensures sleepingConsumers == (if r == Pushed then old(sleepingConsumers) - {n} else old(sleepingConsumers))
      ensures wokenConsumers ==
              if r == Pushed && n in old(sleepingConsumers) then old(wokenConsumers) + {n} else old(wokenConsumers)
      ensures popped == old(popped) && shutdown == old(shutdown)
      ensures r == Asleep ==> t in sleepingProducers && t in wanted && wanted[t] == v
      ensures r != Asleep ==> t !in sleepingProducers && t !in wokenProducers
    {
      StepKeeps(cap, View(), t, Step.Push(v, n));
      r := PushLocked(t, v, n);
    }

    method PushWake(t: Tid, n: Tid) returns (r: Outcome)
      requires Valid() && Enabled(View(), t, Step.PushWake(n))
      modifies this
      ensures Valid() && View() == Next(cap, old(View()), t, Step.PushWake(n))
      ensures r == if old(shutdown) then Refused else if |old(q)| >= cap then Asleep else Pushed
      ensures q == old(q) + (if r == Pushed then [old(wanted)[t]] else [])
      ensures pushed == old(pushed) + if r == Pushed then [old(wanted)[t]] else []
      ensures sleepingConsumers == (if r == Pushed then old(sleepingConsumers) - {n} else old(sleepingConsumers))
      ensures wokenConsumers ==
              if r == Pushed && n in old(sleepingConsumers) then old(wokenConsumers) + {n} else old(wokenConsumers)
      ensures popped == old(popped) && shutdown == old(shutdown)
      ensures r == Asleep ==> t in sleepingProducers && t in wanted && wanted[t] == old(wanted)[t]
      ensures r != Asleep ==> t !in sleepingProducers && t !in wokenProducers
    {
      hide Inv;
      StepKeeps(cap, View(), t, Step.PushWake(n));
      sleepingProducers := sleepingProducers - {t};
      wokenProducers := wokenProducers - {t};
      r := PushLocked(t, wanted[t], n);
    }

    method TryPush(t: Tid, v: int, n: Tid) returns (ok: bool)
      requires Valid() && Enabled(View(), t, Step.TryPush(v, n))
      modifies this
      ensures Valid() && View() == Next(cap, old(View()), t, Step.TryPush(v, n))
      ensures ok <==> !old(shutdown) && |old(q)| < cap
      ensures q == old(q) + (if ok then [v] else [])
      ensures pushed == old(pushed) + if ok then [v] else []
      ensures sleepingConsumers == (if ok then old(sleepingConsumers) - {n} else old(sleepingConsumers))
      ensures wokenConsumers ==
              if ok && n in old(sleepingConsumers) then old(wokenConsumers) + {n} else old(wokenConsumers)
      ensures popped == old(popped) && shutdown == old(shutdown)
    {
      StepKeeps(cap, View(), t, Step.TryPush(v, n));
      if shutdown || |q| >= cap {
        return false;
      }
      q := q + [v];
      pushed := pushed + [v];
      NotifyOneConsumer(n);
      return true;
    }

    method Pop(t: Tid, n: Tid) returns (r: Outcome)
      requires Valid() && Enabled(View(), t, Step.Pop(n))
      modifies this
      ensures Valid() && View() == Next(cap, old(View()), t, Step.Pop(n))
      ensures r == if old(q) == [] then (if old(shutdown) then Refused else Asleep) else Popped(old(q)[0])
      ensures if r.Popped? then q == old(q)[1..] && popped == old(popped) + [old(q)[0]]
              else q == old(q) && popped == old(popped)
      ensures sleepingProducers == (if r.Popped? then old(sleepingProducers) - {n} else old(sleepingProducers))
      ensures wokenProducers ==
              if r.Popped? && n in old(sleepingProducers) then old(wokenProducers) + {n} else old(wokenProducers)
      ensures pushed == old(pushed) && shutdown == old(shutdown)
      ensures if r == Asleep then t in sleepingConsumers else t !in sleepingConsumers && t !in wokenConsumers
    {
      StepKeeps(cap, View(), t, Step.Pop(n));
      if q == [] && !shutdown {
        sleepingConsumers := sleepingConsumers + {t};
        return Asleep;
      }
      r := PopLocked(n);
    }

    /** A woken pop; a timed pop that has run out returns instead of going back to sleep. */
    method PopWake(t: Tid, timedOut: bool, n: Tid) returns (r: Outcome)
      requires Valid() && Enabled(View(), t, if timedOut then Step.PopTimeout(n) else Step.PopWake(n))
      modifies this
      ensures Valid() && View() == Next(cap, old(View()), t, if timedOut then Step.PopTimeout(n) else Step.PopWake(n))
      ensures r == if old(q) == [] then (if old(shutdown) || timedOut then Refused else Asleep) else Popped(old(q)[0])
      ensures if r.Popped? then q == old(q)[1..] && popped == old(popped) + [old(q)[0]]
              else q == old(q) && popped == old(popped)
      ensures sleepingProducers == (if r.Popped? then old(sleepingProducers) - {n} else old(sleepingProducers))
      ensures wokenProducers ==
              if r.Popped? && n in old(sleepingProducers) then old(wokenProducers) + {n} else old(wokenProducers)
      ensures pushed == old(pushed) && shutdown == old(shutdown)
      ensures if r == Asleep then t in sleepingConsumers else t !in sleepingConsumers && t !in wokenConsumers
    {
      hide Inv;
      StepKeeps(cap, View(), t, if timedOut then Step.PopTimeout(n) else Step.PopWake(n));
      sleepingConsumers := sleepingConsumers - {t};
      wokenConsumers := wokenConsumers - {t};
      if q == [] && !shutdown && !timedOut {
        sleepingConsumers := sleepingConsumers + {t};
        return Asleep;
      }
      r := PopLocked(n);
    }

    method TryPop(t: Tid, n: Tid) returns (r: Outcome)
      requires Valid() && Enabled(View(), t, Step.TryPop(n))
      modifies this
      ensures Valid() && View() == Next(cap, old(View()), t, Step.TryPop(n))
      ensures r == if old(q) == [] then Refused else Popped(old(q)[0])
      ensures if r.Popped? then q == old(q)[1..] && popped == old(popped) + [old(q)[0]]
              else q == old(q) && popped == old(popped)
      ensures sleepingProducers == (if r.Popped? then old(sleepingProducers) - {n} else old(sleepingProducers))
      ensures wokenProducers ==
              if r.Popped? && n in old(sleepingProducers) then old(wokenProducers) + {n} else old(wokenProducers)
      ensures pushed == old(pushed) && shutdown == old(shutdown)
    {
      StepKeeps(cap, View(), t, Step.TryPop(n));
      r := PopLocked(n);
    }

    method ShutDown(t: Tid)
      requires Valid() && Enabled(View(), t, Step.Shutdown)
      modifies this
      ensures Valid() && View() == Next(cap, old(View()), t, Step.Shutdown)
      ensures shutdown && q == old(q) && pushed == old(pushed) && popped == old(popped)
      ensures sleepingProducers == {} && wokenProducers == old(wokenProducers + sleepingProducers)
      ensures sleepingConsumers == {} && wokenConsumers == old(wokenConsumers + sleepingConsumers)
    {
      hide Inv;
      StepKeeps(cap, View(), t, Step.Shutdown);
      shutdown := true;
      wokenConsumers := wokenConsumers + sleepingConsumers;
      sleepingConsumers := {};
      wokenProducers := wokenProducers + sleepingProducers;
      sleepingProducers := {};
    }
  }
}
