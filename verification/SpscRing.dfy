/** The single-producer single-consumer ring with cached indices as a step system: one step per atomic access or buffer
    access, the two sides interleaved at will, the cached indices arbitrarily stale. */
module SpscRing {
  import opened Modular
  import opened Prelude

  datatype Producer =
    | Resting
    | Refreshing(v: int, pos: nat, next: nat)
    | Writing(v: int, pos: nat, next: nat)
    | Publishing(v: int, next: nat)

  datatype Consumer =
    | Waiting
    | Reloading(pos: nat)
    | Reading(pos: nat)
    | Advancing(pos: nat, v: int)

  /** Shared indices, the two cached ones, the buffer of cap + 1 slots (None until first written), the two sides'
      progress, and ghosts: published and popped values and the true counts behind the cached indices. */
  datatype State = State(head: nat, tail: nat, cachedHead: nat, cachedTail: nat, buffer: seq<Option<int>>,
                         producer: Producer, consumer: Consumer,
                         pushed: seq<int>, popped: seq<int>, seenPops: nat, seenPushes: nat)

  datatype Step =
    | PushStart(v: int) | PushRefresh | PushWrite | PushPublish
    | PopStart | PopReload | PopRead | PopAdvance

  ghost predicate Enabled(cap: nat, s: State, step: Step) {
    match step
    case PushStart(_) => s.producer.Resting?
    case PushRefresh => s.producer.Refreshing?
    case PushWrite => s.producer.Writing? && s.producer.pos < |s.buffer|
    case PushPublish => s.producer.Publishing?
    case PopStart => s.consumer.Waiting?
    case PopReload => s.consumer.Reloading?
    case PopRead => s.consumer.Reading? && s.consumer.pos < |s.buffer| && s.buffer[s.consumer.pos].Some?
    case PopAdvance => s.consumer.Advancing?
  }

  ghost function Next(cap: nat, s: State, step: Step): State
    requires Enabled(cap, s, step)
  {
    match step
    case PushStart(v) =>
      var next := (s.tail + 1) % (cap + 1);
      s.(producer := if next == s.cachedHead then Refreshing(v, s.tail, next) else Writing(v, s.tail, next))
    case PushRefresh =>
      var p := s.producer;
      s.(cachedHead := s.head, seenPops := |s.popped|,
         producer := if p.next == s.head then Resting else Writing(p.v, p.pos, p.next))
    case PushWrite =>
      var p := s.producer;
      s.(buffer := s.buffer[p.pos := Some(p.v)], producer := Publishing(p.v, p.next))
    case PushPublish =>
      s.(tail := s.producer.next, pushed := s.pushed + [s.producer.v], producer := Resting)
    case PopStart =>
      s.(consumer := if s.head == s.cachedTail then Reloading(s.head) else Reading(s.head))
    case PopReload =>
      var pos := s.consumer.pos;
      s.(cachedTail := s.tail, seenPushes := |s.pushed|, consumer := if pos == s.tail then Waiting else Reading(pos))
    case PopRead =>
      var pos := s.consumer.pos;
      s.(consumer := Advancing(pos, s.buffer[pos].value))
    case PopAdvance =>
      s.(head := (s.consumer.pos + 1) % (cap + 1), popped := s.popped + [s.consumer.v], consumer := Waiting)
  }

  function Init(cap: nat): State {
    State(0, 0, 0, 0, seq(cap + 1, _ => None), Resting, Waiting, [], [], 0, 0)
  }

  // ---- Slots ----------------------------------------------------------------------------------------

  function Slot(cap: nat, k: nat): (slot: nat)
    ensures slot <= cap
  {
    k % (cap + 1)
  }

  /** Counts at most one lap apart share a slot only when equal or exactly one lap apart. */
  lemma SameSlot(cap: nat, a: nat, b: nat)
    requires a <= b <= a + cap + 1
    ensures Slot(cap, a) == Slot(cap, b) <==> b == a || b == a + cap + 1
  {
    if b < a + cap + 1 {
      SlotAfter(a, b - a, cap + 1);
    } else {
      ModUnique(b, cap + 1, a / (cap + 1) + 1, a % (cap + 1));
    }
  }

  lemma NextSlot(cap: nat, k: nat)
    ensures (Slot(cap, k) + 1) % (cap + 1) == Slot(cap, k + 1)
  {
    if cap > 0 {
      SlotAfter(k, 1, cap + 1);
      var at := Slot(cap, k);
      ModUnique(at + 1, cap + 1, if at < cap then 0 else 1, if at < cap then at + 1 else 0);
    }
  }

  // ---- The invariant --------------------------------------------------------------------------------

  /** Behind the indices: cached head <= popped <= cached tail <= pushed <= cached head + cap, modulo cap + 1. */
  ghost predicate Indices(cap: nat, s: State) {
    && s.seenPops <= |s.popped| <= s.seenPushes <= |s.pushed| <= s.seenPops + cap
    && s.tail == Slot(cap, |s.pushed|) && s.head == Slot(cap, |s.popped|)
    && s.cachedHead == Slot(cap, s.seenPops) && s.cachedTail == Slot(cap, s.seenPushes)
  }

  /** Every published, unpopped value is in its slot. */
  ghost predicate Slots(cap: nat, s: State) {
    && |s.buffer| == cap + 1
    && (forall k: nat {:trigger Slot(cap, k)} | |s.popped| <= k < |s.pushed| ::
        s.buffer[Slot(cap, k)] == Some(s.pushed[k]))
    && s.popped <= s.pushed
  }

  ghost predicate Sides(cap: nat, s: State) {
    && (match s.producer
        case Resting => true
        case Refreshing(_, pos, next) => pos == s.tail && next == Slot(cap, |s.pushed| + 1)
        case Writing(_, pos, next) =>
          && pos == s.tail && next == Slot(cap, |s.pushed| + 1)
          && |s.pushed| < s.seenPops + cap
        case Publishing(v, next) =>
          next == Slot(cap, |s.pushed| + 1) && |s.pushed| < s.seenPops + cap && s.tail < |s.buffer|
              && s.buffer[s.tail] == Some(v))
    && (match s.consumer
        case Waiting => true
        case Reloading(pos) => pos == s.head
        case Reading(pos) => pos == s.head && |s.popped| < s.seenPushes
        case Advancing(pos, v) =>
          pos == s.head && |s.popped| < s.seenPushes && |s.popped| < |s.pushed| && v == s.pushed[|s.popped|])
  }

  ghost predicate Inv(cap: nat, s: State) {
    Indices(cap, s) && Slots(cap, s) && Sides(cap, s)
  }

  /** The producer's step keeps the invariant. */
  lemma PushStartKeeps(cap: nat, s: State, v: int)
    requires Inv(cap, s) && Enabled(cap, s, PushStart(v))
    ensures Inv(cap, Next(cap, s, PushStart(v)))
  {
    NextSlot(cap, |s.pushed|);
    SameSlot(cap, s.seenPops, |s.pushed| + 1);
  }

  lemma PushRefreshKeeps(cap: nat, s: State)
    requires Inv(cap, s) && Enabled(cap, s, PushRefresh)
    ensures Inv(cap, Next(cap, s, PushRefresh))
  {
    NextSlot(cap, |s.pushed|);
    SameSlot(cap, |s.popped|, |s.pushed| + 1);
  }

  /** The slot written is not one that still holds an unpopped value. */
  lemma WriteIsClear(cap: nat, s: State, k: nat)
    requires Inv(cap, s) && Enabled(cap, s, PushWrite) && |s.popped| <= k < |s.pushed|
    ensures s.producer.pos != Slot(cap, k)
  {
    SameSlot(cap, k, |s.pushed|);
  }

  lemma PushWriteKeeps(cap: nat, s: State)
    requires Inv(cap, s) && Enabled(cap, s, PushWrite)
    ensures Inv(cap, Next(cap, s, PushWrite))
  {
    var s' := Next(cap, s, PushWrite);
    forall k: nat | |s.popped| <= k < |s.pushed|
      ensures s'.buffer[Slot(cap, k)] == Some(s.pushed[k])
    {
      WriteIsClear(cap, s, k);
    }
  }

  lemma PushPublishKeeps(cap: nat, s: State)
    requires Inv(cap, s) && Enabled(cap, s, PushPublish)
    ensures Inv(cap, Next(cap, s, PushPublish))
  {
  }

  lemma PopStartKeeps(cap: nat, s: State, step: Step)
    requires Inv(cap, s) && Enabled(cap, s, step) && (step.PopStart? || step.PopReload?)
    ensures Inv(cap, Next(cap, s, step))
  {
  }

  lemma PopReadKeeps(cap: nat, s: State)
    requires Inv(cap, s) && Enabled(cap, s, PopRead)
    ensures Inv(cap, Next(cap, s, PopRead))
  {
  }

  lemma PopAdvanceKeeps(cap: nat, s: State)
    requires Inv(cap, s) && Enabled(cap, s, PopAdvance)
    ensures Inv(cap, Next(cap, s, PopAdvance))
  {
    NextSlot(cap, |s.popped|);
  }

  /** A side that has passed its check can go on. */
  lemma ReadyToGo(cap: nat, s: State)
    requires Inv(cap, s)
    ensures s.producer.Writing? ==>
            Enabled(cap, s, PushWrite) && s.producer.pos == s.tail && |s.pushed| - |s.popped| < cap
    ensures s.consumer.Reading? ==> Enabled(cap, s, PopRead) && |s.popped| < |s.pushed| && s.consumer.pos == s.head
    ensures s.consumer.Reading? ==> s.buffer[s.consumer.pos] == Some(s.pushed[|s.popped|])
  {
  }

  lemma StepKeeps(cap: nat, s: State, step: Step)
    requires Inv(cap, s) && Enabled(cap, s, step)
    ensures Inv(cap, Next(cap, s, step))
  {
    hide *;
    match step
    case PushStart(v) => PushStartKeeps(cap, s, v);
    case PushRefresh => PushRefreshKeeps(cap, s);
    case PushWrite => PushWriteKeeps(cap, s);
    case PushPublish => PushPublishKeeps(cap, s);
    case PopStart => PopStartKeeps(cap, s, step);
    case PopReload => PopStartKeeps(cap, s, step);
    case PopRead => PopReadKeeps(cap, s);
    case PopAdvance => PopAdvanceKeeps(cap, s);
  }

  /** Each side writes its own index and history only: a step of push leaves pop where it is, with its index, its
      cached index and the values popped, and the other way round. Each side publishes the value it has set out with. */
  lemma SidesApart(cap: nat, s: State, step: Step)
    requires Inv(cap, s) && Enabled(cap, s, step)
    ensures var s' := Next(cap, s, step);
            if step.PushStart? || step.PushRefresh? || step.PushWrite? || step.PushPublish?
            then && s'.consumer == s.consumer && s'.head == s.head && s'.cachedTail == s.cachedTail
                 && s'.popped == s.popped
                 && s'.pushed == (if step.PushPublish? then s.pushed + [s.producer.v] else s.pushed)
                 && (!s'.producer.Resting? ==> s'.producer.v == if step.PushStart? then step.v else s.producer.v)
                 && (s'.producer.Resting? ==> step.PushPublish? || |s.pushed| - |s.popped| == cap)
            else && s'.producer == s.producer && s'.tail == s.tail && s'.cachedHead == s.cachedHead
                 && s'.buffer == s.buffer && s'.pushed == s.pushed
                 && (if step.PopAdvance? then s'.popped == s.popped + [s.consumer.v] else s'.popped == s.popped)
                 && (s'.consumer.Waiting? ==> step.PopAdvance? || s.pushed == s.popped)
  {
    FailuresAreReal(cap, s);
  }

  // ---- Runs -----------------------------------------------------------------------------------------

  ghost predicate Run(cap: nat, states: seq<State>, steps: seq<Step>) {
    && |states| == |steps| + 1 && states[0] == Init(cap)
    && forall i: nat | i < |steps| :: Moves(cap, states, steps, i)
  }

  ghost predicate Moves(cap: nat, states: seq<State>, steps: seq<Step>, i: nat)
    requires i < |steps| && |states| == |steps| + 1
  {
    Enabled(cap, states[i], steps[i]) && states[i + 1] == Next(cap, states[i], steps[i])
  }

  lemma {:induction false} RunKeeps(cap: nat, states: seq<State>, steps: seq<Step>, i: nat)
    requires Run(cap, states, steps) && i < |states|
    ensures Inv(cap, states[i])
  {
    if i > 0 {
      RunKeeps(cap, states, steps, i - 1);
      assert Moves(cap, states, steps, i - 1);
      StepKeeps(cap, states[i - 1], steps[i - 1]);
    }
  }

  /** In every interleaving the popped values are a prefix of the pushed ones and at most cap are under way; a write
      never hits an unread slot; and a read always finds the slot written, with the value that is due. */
  lemma EveryRunIsFifo(cap: nat, states: seq<State>, steps: seq<Step>, i: nat)
    requires Run(cap, states, steps) && i < |states|
    ensures var s := states[i];
            && s.popped <= s.pushed && |s.pushed| - |s.popped| <= cap
            && (s.producer.Writing? ==>
                  Enabled(cap, s, PushWrite)
                      && forall k: nat | |s.popped| <= k < |s.pushed| :: s.producer.pos != Slot(cap, k))
            && (s.consumer.Reading? ==>
                  Enabled(cap, s, PopRead) && |s.popped| < |s.pushed|
                      && s.buffer[s.consumer.pos] == Some(s.pushed[|s.popped|]))
  {
    RunKeeps(cap, states, steps, i);
    var s := states[i];
    if s.producer.Writing? {
      forall k: nat | |s.popped| <= k < |s.pushed|
        ensures s.producer.pos != Slot(cap, k)
      {
        WriteIsClear(cap, s, k);
      }
    }
    ReadyToGo(cap, s);
  }

  /** push fails only when the ring was full, and pop only when it was empty, at the moment the index was reloaded. */
  lemma FailuresAreReal(cap: nat, s: State)
    requires Inv(cap, s)
    ensures s.producer.Refreshing? ==> (Next(cap, s, PushRefresh).producer.Resting? <==> |s.pushed| - |s.popped| == cap)
    ensures s.consumer.Reloading? ==> (Next(cap, s, PopReload).consumer.Waiting? <==> |s.pushed| == |s.popped|)
  {
    NextSlot(cap, |s.pushed|);
    SameSlot(cap, |s.popped|, |s.pushed| + 1);
    SameSlot(cap, |s.popped|, |s.pushed|);
  }

  // ---- size() ---------------------------------------------------------------------------------------

  /** size() from a tail and a head that were loaded one after the other. */
  function Size(cap: nat, tail: nat, head: nat): nat
    requires head <= cap
  {
    (tail - head + cap + 1) % (cap + 1)
  }

  lemma SizeOfCounts(cap: nat, pushes: nat, pops: nat)
    requires pops <= pushes <= pops + cap
    ensures Slot(cap, pops) <= cap && Size(cap, Slot(cap, pushes), Slot(cap, pops)) == pushes - pops
  {
    var n, k := cap + 1, pushes - pops;
    SlotAfter(pops, k, n);
    if Slot(cap, pushes) >= Slot(cap, pops) {
      ModUnique(k + n, n, 1, k);
    } else {
      ModUnique(k, n, 0, k);
    }
  }

  /** Behind the slots, size() is the later pops taken from the earlier pushes, modulo cap + 1. */
  lemma SizeIsDifference(cap: nat, pushes: nat, pops: nat)
    ensures Size(cap, Slot(cap, pushes), Slot(cap, pops)) == (pushes - pops) % (cap + 1)
  {
    var n := cap + 1;
    var d := Slot(cap, pushes) - Slot(cap, pops) + n;
    var laps := pushes / n - pops / n - 1;
    assert pushes - pops == n * laps + d by {
      assert pushes == n * (pushes / n) + Slot(cap, pushes) && pops == n * (pops / n) + Slot(cap, pops);
      assert n * laps == n * (pushes / n) - n * (pops / n) - n;
    }
    assert pushes - pops == n * (laps + d / n) + d % n by {
      assert d == n * (d / n) + d % n;
    }
    ModUnique(pushes - pops, n, laps + d / n, d % n);
  }

  /** Two numbers have the same remainder exactly when they differ by whole laps. */
  lemma SameRemainder(a: int, b: int, n: nat)
    requires n > 0
    ensures a % n == b % n <==> (b - a) % n == 0
  {
    var qa, qb, q, r := a / n, b / n, (b - a) / n, (b - a) % n;
    assert a == n * qa + a % n && b == n * qb + b % n && b - a == n * q + r;
    if a % n == b % n {
      assert b - a == n * (qb - qa);
      ModUnique(b - a, n, qb - qa, 0);
    } else if r == 0 {
      assert b == n * (q + qa) + a % n;
      ModUnique(b, n, q + qa, a % n);
    }
  }

  /** size() from a tail loaded in one state and a head loaded in another, in either order: it is the exact size at the
      head's load if and only if the pushes in between are whole laps of the ring, and the exact size at the tail's load
      if and only if the pops in between are. */
  lemma SizeIsExactIff(cap: nat, first: State, second: State)
    requires Inv(cap, first) && Inv(cap, second)
    ensures second.head <= cap
    ensures Size(cap, first.tail, second.head) == |second.pushed| - |second.popped| <==>
            (|second.pushed| - |first.pushed|) % (cap + 1) == 0
    ensures Size(cap, first.tail, second.head) == |first.pushed| - |first.popped| <==>
            (|second.popped| - |first.popped|) % (cap + 1) == 0
  {
    var n, p, c := cap + 1, |first.pushed|, |second.popped|;
    SizeIsDifference(cap, p, c);
    SameRemainder(p - c, |second.pushed| - c, n);
    ModUnique(|second.pushed| - c, n, 0, |second.pushed| - c);
    SameRemainder(p - c, p - |first.popped|, n);
    ModUnique(p - |first.popped|, n, 0, p - |first.popped|);
  }

  /** With the tail loaded first, and no more pops by the second load than pushes by the first, the answer is those
      pushes less those pops. In particular it is exact when either side is quiescent between the loads. */
  lemma SizeWithoutALap(cap: nat, first: State, second: State)
    requires Inv(cap, first) && Inv(cap, second)
    requires |first.pushed| <= |second.pushed| && |first.popped| <= |second.popped|
    ensures second.head <= cap
    ensures |second.popped| <= |first.pushed| ==> Size(cap, first.tail, second.head) == |first.pushed| - |second.popped|
    ensures second.pushed == first.pushed ==> Size(cap, first.tail, second.head) == |second.pushed| - |second.popped|
    ensures second.popped == first.popped ==> Size(cap, first.tail, second.head) == |first.pushed| - |first.popped|
  {
    if |second.popped| <= |first.pushed| {
      SizeOfCounts(cap, |first.pushed|, |second.popped|);
    }
  }

  /** Pushed and popped values only ever grow, so SizeWithoutALap applies to any two states of a run in their order. */
  lemma {:induction false} CountsGrow(cap: nat, states: seq<State>, steps: seq<Step>, i: nat, j: nat)
    requires Run(cap, states, steps) && i <= j < |states|
    ensures states[i].pushed <= states[j].pushed && states[i].popped <= states[j].popped
  {
    if i < j {
      CountsGrow(cap, states, steps, i, j - 1);
      assert Moves(cap, states, steps, j - 1);
    }
  }

  /** In every run, whatever happens between the two loads of size(). */
  lemma SizeInEveryRun(cap: nat, states: seq<State>, steps: seq<Step>, i: nat, j: nat)
    requires Run(cap, states, steps) && i < |states| && j < |states|
    ensures var first, second := states[i], states[j];
            && second.head <= cap
            && (Size(cap, first.tail, second.head) == |second.pushed| - |second.popped| <==>
                  (|second.pushed| - |first.pushed|) % (cap + 1) == 0)
            && (Size(cap, first.tail, second.head) == |first.pushed| - |first.popped| <==>
                  (|second.popped| - |first.popped|) % (cap + 1) == 0)
  {
    RunKeeps(cap, states, steps, i);
    RunKeeps(cap, states, steps, j);
    SizeIsExactIff(cap, states[i], states[j]);
  }

  /** The ring never holds more than one value. */
  ghost predicate AtMostOne(states: seq<State>) {
    forall i | 0 <= i < |states| :: |states[i].pushed| - |states[i].popped| <= 1
  }

  lemma OneMore(cap: nat, states: seq<State>, steps: seq<Step>, step: Step, s': State)
    returns (states': seq<State>, steps': seq<Step>)
    requires Run(cap, states, steps) && AtMostOne(states)
    requires var s := states[|states| - 1]; Enabled(cap, s, step) && s' == Next(cap, s, step)
    requires |s'.pushed| - |s'.popped| <= 1
    ensures Run(cap, states', steps') && AtMostOne(states') && |steps'| == |steps| + 1
    ensures states'[0] == states[0] && states'[|states'| - 1] == s'
  {
    states', steps' := states + [s'], steps + [step];
    forall i: nat | i < |steps'|
      ensures Moves(cap, states', steps', i)
    {
      if i < |steps| {
        assert Moves(cap, states, steps, i);
      }
    }
  }

  /** With both sides moving it can be wrong: here it reports 2 although the ring never held more than one value. */
  lemma SizeCanBeWrong() returns (states: seq<State>, steps: seq<Step>)
    ensures Run(2, states, steps) && |steps| == 7 && AtMostOne(states)
    ensures states[7].head <= 2 && Size(2, states[0].tail, states[7].head) == 2
  {
    var s0 := Init(2);
    states, steps := [s0], [];
    hide Run, AtMostOne;
    var s := s0.(producer := Writing(5, 0, 1));
    states, steps := OneMore(2, states, steps, PushStart(5), s);
    s := s.(buffer := s.buffer[0 := Some(5)], producer := Publishing(5, 1));
    states, steps := OneMore(2, states, steps, PushWrite, s);
    s := s.(tail := 1, pushed := [5], producer := Resting);
    states, steps := OneMore(2, states, steps, PushPublish, s);
    s := s.(consumer := Reloading(0));
    states, steps := OneMore(2, states, steps, PopStart, s);
    s := s.(cachedTail := 1, seenPushes := 1, consumer := Reading(0));
    states, steps := OneMore(2, states, steps, PopReload, s);
    s := s.(consumer := Advancing(0, 5));
    states, steps := OneMore(2, states, steps, PopRead, s);
    s := s.(head := 1, popped := [5], consumer := Waiting);
    states, steps := OneMore(2, states, steps, PopAdvance, s);
  }

  // ---- The queue object -----------------------------------------------------------------------------

  /** The ring as it is updated in place. A call runs the micro-steps of its side in order; calls may alternate at
      will. */
  class SpscQueue {
    const cap: nat
    var head: nat
    var tail: nat
    var cachedHead: nat
    var cachedTail: nat
    const buffer: array<Option<int>>
    ghost var pushed: seq<int>
    ghost var popped: seq<int>
    ghost var seenPops: nat
    ghost var seenPushes: nat

    ghost function View(): State
      reads this, buffer
    {
      State(head, tail, cachedHead, cachedTail, buffer[..], Resting, Waiting, pushed, popped, seenPops, seenPushes)
    }

    ghost predicate Valid()
      reads this, buffer
    {
      Inv(cap, View())
    }

    constructor (cap: nat)
      ensures Valid() && fresh(buffer) && this.cap == cap && View() == Init(cap)
    {
      this.cap := cap;
      head, tail, cachedHead, cachedTail := 0, 0, 0, 0;
      buffer := new Option<int>[cap + 1](_ => None);
      pushed, popped, seenPops, seenPushes := [], [], 0, 0;
    }

    /** Fails exactly when cap values are under way. */
    method Push(v: int) returns (ok: bool)
      requires Valid()
      modifies this, buffer
      ensures Valid() && popped == old(popped) && head == old(head)
      ensures ok <==> |old(pushed)| - |popped| < cap
      ensures pushed == if ok then old(pushed) + [v] else old(pushed)
    {
      hide Inv, Slot, Init;
      ghost var s := View();
      PushStartKeeps(cap, s, v);
      s := Next(cap, s, PushStart(v));
      var pos := tail;
      var next := (pos + 1) % (cap + 1);
      if next == cachedHead {
        FailuresAreReal(cap, s);
        PushRefreshKeeps(cap, s);
        s := Next(cap, s, PushRefresh);
        cachedHead, seenPops := head, |popped|;
        if next == cachedHead {
          return false;
        }
      }
      Store(v, pos, next);
      return true;
    }

    /** The rest of push, with room found: write the slot, then publish it. */
    method Store(v: int, pos: nat, next: nat)
      requires Inv(cap, View().(producer := Writing(v, pos, next)))
      modifies this`tail, this`pushed, buffer
      ensures Valid() && |old(pushed)| - |popped| < cap && pushed == old(pushed) + [v]
    {
      hide Inv, Slot, Init;
      ghost var s := View().(producer := Writing(v, pos, next));
      ReadyToGo(cap, s);
      PushWriteKeeps(cap, s);
      s := Next(cap, s, PushWrite);
      buffer[pos] := Some(v);
      PushPublishKeeps(cap, s);
      s := Next(cap, s, PushPublish);
      tail, pushed := next, pushed + [v];
      assert View() == s;
    }

    /** Takes the oldest value under way, and fails exactly when there is none. */
    method Pop() returns (r: Option<int>)
      requires Valid()
      modifies this
      ensures Valid() && pushed == old(pushed) && tail == old(tail)
      ensures r == if |pushed| > |old(popped)| then Some(pushed[|old(popped)|]) else None
      ensures popped == if r.Some? then old(popped) + [r.value] else old(popped)
    {
      hide Inv, Slot, Init;
      ghost var s := View();
      PopStartKeeps(cap, s, PopStart);
      s := Next(cap, s, PopStart);
      var pos := head;
      if pos == cachedTail {
        FailuresAreReal(cap, s);
        PopStartKeeps(cap, s, PopReload);
        s := Next(cap, s, PopReload);
        cachedTail, seenPushes := tail, |pushed|;
        if pos == cachedTail {
          return None;
        }
      }
      var v := Fetch(pos);
      return Some(v);
    }

    /** The rest of pop, with a value found: read the slot, then give it back. */
    method Fetch(pos: nat) returns (v: int)
      requires Inv(cap, View().(consumer := Reading(pos)))
      modifies this`head, this`popped
      ensures Valid() && |old(popped)| < |pushed| && v == pushed[|old(popped)|] && popped == old(popped) + [v]
    {
      hide Inv, Slot, Init;
      ghost var s := View().(consumer := Reading(pos));
      ReadyToGo(cap, s);
      PopReadKeeps(cap, s);
      s := Next(cap, s, PopRead);
      v := buffer[pos].value;
      PopAdvanceKeeps(cap, s);
      s := Next(cap, s, PopAdvance);
      var next := (pos + 1) % (cap + 1);
      head, popped := next, popped + [v];
      assert View() == s;
    }

    /** Exact when both sides are quiescent. */
    method GetSize() returns (n: nat)
      requires Valid()
      ensures n == |pushed| - |popped|
    {
      SizeOfCounts(cap, |pushed|, |popped|);
      n := Size(cap, tail, head);
    }
  }
}
