/** Hierarchical mutexes as a step system: any number of threads and mutexes, lock split into its hierarchy check and
    the acquisition of the internal mutex. A client that passes unlock's own check holds the mutex. */
module HierarchicalMutex {
  import opened Prelude

  type Tid = nat
  type Mid = nat

  const ULONG_MAX := 0xFFFF_FFFF_FFFF_FFFF

  /** Per mutex: owner and previous_hierarchy_level_. Per thread: this_thread_hierarchy_value_ and the mutex it has been
      cleared to lock and is waiting for. The stack of held mutexes, outermost first, is bookkeeping. */
  datatype State = State(owner: map<Mid, Tid>, previous: map<Mid, nat>, value: map<Tid, nat>, wanting: map<Tid, Mid>,
                         held: map<Tid, seq<Mid>>)

  function Value(s: State, t: Tid): nat {
    if t in s.value then s.value[t] else ULONG_MAX
  }

  function Held(s: State, t: Tid): seq<Mid> {
    if t in s.held then s.held[t] else []
  }

  datatype Step = Check(m: Mid) | Acquire | TryLock(m: Mid) | Unlock(m: Mid)

  ghost predicate Enabled(s: State, level: Mid -> nat, t: Tid, step: Step) {
    match step
    case Check(_) => t !in s.wanting
    case Acquire => t in s.wanting && s.wanting[t] !in s.owner
    case TryLock(_) => t !in s.wanting
    case Unlock(m) =>
      && t !in s.wanting
      && (Value(s, t) == level(m) ==> m in s.owner && s.owner[m] == t && m in s.previous)
  }

  /** check_for_hierarchy_violation: true when it throws. */
  predicate Violates(s: State, level: Mid -> nat, t: Tid, m: Mid) {
    Value(s, t) <= level(m)
  }

  /** Taking the internal mutex and update_hierarchy_value. */
  function Taken(s: State, level: Mid -> nat, t: Tid, m: Mid): State {
    s.(owner := s.owner[m := t], previous := s.previous[m := Value(s, t)], value := s.value[t := level(m)],
       held := s.held[t := Held(s, t) + [m]])
  }

  /** Restoring the previous level and letting go of the internal mutex. */
  function Released(s: State, t: Tid, m: Mid): State
    requires m in s.previous
  {
    var h := Held(s, t);
    s.(owner := s.owner - {m}, value := s.value[t := s.previous[m]],
       held := s.held[t := if h == [] then [] else h[..|h| - 1]])
  }

  ghost function Next(s: State, level: Mid -> nat, t: Tid, step: Step): State
    requires Enabled(s, level, t, step)
  {
    match step
    case Check(m) => if Violates(s, level, t, m) then s else s.(wanting := s.wanting[t := m])
    case Acquire => Taken(s.(wanting := s.wanting - {t}), level, t, s.wanting[t])
    case TryLock(m) => if Violates(s, level, t, m) || m in s.owner then s else Taken(s, level, t, m)
    case Unlock(m) =>
      if Value(s, t) != level(m) then s else Released(s, t, m)
  }

  function Init(): State {
    State(map[], map[], map[], map[], map[])
  }

  // ---- The invariant --------------------------------------------------------------------------------

  /** Mutex number i of a thread's stack: owned by it, strictly below the one before, which it chains back to. */
  ghost predicate HoldsAt(s: State, level: Mid -> nat, t: Tid, i: nat)
    requires i < |Held(s, t)|
  {
    var h := Held(s, t);
    && h[i] in s.owner && s.owner[h[i]] == t && h[i] in s.previous
    && s.previous[h[i]] == (if i == 0 then ULONG_MAX else level(h[i - 1]))
    && level(h[i]) < s.previous[h[i]]
  }

  ghost predicate ThreadOk(s: State, level: Mid -> nat, t: Tid) {
    var h := Held(s, t);
    && (forall i: nat | i < |h| :: HoldsAt(s, level, t, i))
    && Value(s, t) == (if h == [] then ULONG_MAX else level(h[|h| - 1]))
    && (t in s.wanting ==> level(s.wanting[t]) < Value(s, t))
  }

  ghost predicate Inv(s: State, level: Mid -> nat) {
    && (forall t :: ThreadOk(s, level, t))
    && (forall m | m in s.owner :: m in Held(s, s.owner[m]))
  }

  /** Held levels strictly decrease inwards. */
  lemma {:induction false} LevelsDecrease(s: State, level: Mid -> nat, t: Tid, i: nat, j: nat)
    requires ThreadOk(s, level, t) && i < j < |Held(s, t)|
    ensures level(Held(s, t)[j]) < level(Held(s, t)[i])
    decreases j - i
  {
    assert HoldsAt(s, level, t, j);
    if i + 1 < j {
      LevelsDecrease(s, level, t, i, j - 1);
    }
  }

  /** The thread-local value is the innermost, hence lowest, level held. */
  lemma ValueIsLowest(s: State, level: Mid -> nat, t: Tid, m: Mid)
    requires Inv(s, level) && m in s.owner && s.owner[m] == t
    ensures Held(s, t) != [] && Value(s, t) <= level(m) < ULONG_MAX
    ensures Value(s, t) == level(m) <==> m == Held(s, t)[|Held(s, t)| - 1]
  {
    assert ThreadOk(s, level, t);
    var h := Held(s, t);
    var i :| 0 <= i < |h| && h[i] == m;
    assert HoldsAt(s, level, t, i);
    BelowTop(s, level, t, i);
    if i + 1 < |h| {
      LevelsDecrease(s, level, t, i, |h| - 1);
    }
  }

  ghost predicate Innermost(s: State, t: Tid, m: Mid) {
    Held(s, t) != [] && m == Held(s, t)[|Held(s, t)| - 1]
  }

  /** unlock's own check accepts exactly the innermost held mutex. */
  lemma InnermostIff(s: State, level: Mid -> nat, t: Tid, m: Mid)
    requires Inv(s, level) && Enabled(s, level, t, Unlock(m))
    ensures Value(s, t) == level(m) <==> Innermost(s, t, m)
  {
    assert ThreadOk(s, level, t);
    if Innermost(s, t, m) {
      assert HoldsAt(s, level, t, |Held(s, t)| - 1);
    } else if Value(s, t) == level(m) {
      ValueIsLowest(s, level, t, m);
    }
  }

  lemma {:induction false} BelowTop(s: State, level: Mid -> nat, t: Tid, i: nat)
    requires ThreadOk(s, level, t) && i < |Held(s, t)|
    ensures level(Held(s, t)[i]) < ULONG_MAX
  {
    assert HoldsAt(s, level, t, i);
    if i > 0 {
      BelowTop(s, level, t, i - 1);
    }
  }

  /** The level lies below that of every mutex the thread holds. */
  ghost predicate Below(s: State, level: Mid -> nat, t: Tid, l: nat) {
    forall i | 0 <= i < |Held(s, t)| :: l < level(Held(s, t)[i])
  }

  /** The hierarchy check compares with one number and thereby with all the held levels. */
  lemma BelowIff(s: State, level: Mid -> nat, t: Tid, l: nat)
    requires Inv(s, level)
    ensures l < Value(s, t) <==> l < ULONG_MAX && Below(s, level, t, l)
  {
    var h := Held(s, t);
    assert ThreadOk(s, level, t);
    if h != [] {
      BelowTop(s, level, t, |h| - 1);
      assert Below(s, level, t, l) ==> l < level(h[|h| - 1]);
      forall i | 0 <= i < |h| && l < Value(s, t)
        ensures l < level(h[i])
      {
        if i + 1 < |h| {
          LevelsDecrease(s, level, t, i, |h| - 1);
        }
      }
    }
  }

  /** Taking a free mutex below everything held keeps the invariant. */
  lemma TakenKeeps(s: State, level: Mid -> nat, t: Tid, m: Mid)
    requires Inv(s, level) && m !in s.owner && level(m) < Value(s, t) && t !in s.wanting
    ensures Inv(Taken(s, level, t, m), level)
  {
    var s', h := Taken(s, level, t, m), Held(s, t);
    forall u
      ensures ThreadOk(s', level, u)
    {
      assert ThreadOk(s, level, u);
      TakenKeepsThread(s, level, t, m, u);
    }
    hide ThreadOk, HoldsAt;
    forall x | x in s'.owner
      ensures x in Held(s', s'.owner[x])
    {
      if x == m {
        assert Held(s', t)[|h|] == m;
      } else {
        var i :| 0 <= i < |Held(s, s.owner[x])| && Held(s, s.owner[x])[i] == x;
        assert Held(s', s.owner[x])[i] == x;
      }
    }
  }

  lemma TakenKeepsThread(s: State, level: Mid -> nat, t: Tid, m: Mid, u: Tid)
    requires ThreadOk(s, level, t) && ThreadOk(s, level, u) && m !in s.owner && level(m) < Value(s, t)
             && t !in s.wanting
    ensures ThreadOk(Taken(s, level, t, m), level, u)
  {
    var s' := Taken(s, level, t, m);
    forall i: nat | i < |Held(s', u)|
      ensures HoldsAt(s', level, u, i)
    {
      if i < |Held(s, u)| {
        assert HoldsAt(s, level, u, i);
      }
    }
  }

  /** unlock of the innermost mutex undoes its lock. */
  lemma ReleasedKeeps(s: State, level: Mid -> nat, t: Tid, m: Mid)
    requires Inv(s, level) && Innermost(s, t, m) && t !in s.wanting && m in s.previous
    ensures Inv(Released(s, t, m), level)
  {
    var s', h := Released(s, t, m), Held(s, t);
    assert ThreadOk(s, level, t);
    assert HoldsAt(s, level, t, |h| - 1);
    forall u
      ensures ThreadOk(s', level, u)
    {
      if u == t {
        ReleasedKeepsOwn(s, level, t, m);
      } else {
        ReleasedKeepsOther(s, level, t, m, u);
      }
    }
    hide ThreadOk, HoldsAt;
    forall x | x in s'.owner
      ensures x in Held(s', s'.owner[x])
    {
      var i :| 0 <= i < |Held(s, s.owner[x])| && Held(s, s.owner[x])[i] == x;
      assert s.owner[x] == t ==> i < |h| - 1 && Held(s', t)[i] == x;
    }
  }

  lemma ReleasedKeepsOther(s: State, level: Mid -> nat, t: Tid, m: Mid, u: Tid)
    requires ThreadOk(s, level, u) && u != t && m in s.owner && s.owner[m] == t && m in s.previous
    ensures ThreadOk(Released(s, t, m), level, u)
  {
    var s' := Released(s, t, m);
    forall i: nat | i < |Held(s', u)|
      ensures HoldsAt(s', level, u, i)
    {
      assert HoldsAt(s, level, u, i);
    }
  }

  lemma ReleasedKeepsOwn(s: State, level: Mid -> nat, t: Tid, m: Mid)
    requires ThreadOk(s, level, t) && Innermost(s, t, m) && t !in s.wanting && m in s.previous
    ensures ThreadOk(Released(s, t, m), level, t)
  {
    var s', h := Released(s, t, m), Held(s, t);
    assert Held(s', t) == h[..|h| - 1];
    assert HoldsAt(s, level, t, |h| - 1);
    forall i: nat | i < |h| - 1
      ensures HoldsAt(s', level, t, i)
    {
      assert HoldsAt(s, level, t, i);
      LevelsDecrease(s, level, t, i, |h| - 1);
    }
  }

  lemma StepKeeps(s: State, level: Mid -> nat, t: Tid, step: Step)
    requires Inv(s, level) && Enabled(s, level, t, step)
    ensures Inv(Next(s, level, t, step), level)
  {
    assert ThreadOk(s, level, t);
    match step
    case Check(m) => WantingKeeps(s, level, s.wanting[t := m], t);
    case Acquire =>
      WantingKeeps(s, level, s.wanting - {t}, t);
      TakenKeeps(s.(wanting := s.wanting - {t}), level, t, s.wanting[t]);
    case TryLock(m) =>
      if !Violates(s, level, t, m) && m !in s.owner {
        TakenKeeps(s, level, t, m);
      }
    case Unlock(m) =>
      if Value(s, t) == level(m) {
        InnermostIff(s, level, t, m);
        ReleasedKeeps(s, level, t, m);
      }
  }

  lemma WantingKeeps(s: State, level: Mid -> nat, wanting: map<Tid, Mid>, t: Tid)
    requires Inv(s, level) && forall u | u in wanting && u != t :: u in s.wanting && wanting[u] == s.wanting[u]
    ensures (t in wanting ==> level(wanting[t]) < Value(s, t)) ==> Inv(s.(wanting := wanting), level)
  {
    if t in wanting ==> level(wanting[t]) < Value(s, t) {
      var s' := s.(wanting := wanting);
      forall u
        ensures ThreadOk(s', level, u)
      {
        assert ThreadOk(s, level, u);
        forall i: nat | i < |Held(s', u)|
          ensures HoldsAt(s', level, u, i)
        {
          assert HoldsAt(s, level, u, i);
        }
      }
    }
  }

  // ---- What a step does to owners and stacks ----------------------------------------------------------

  /** Locking, with or without waiting: the free mutex gets that owner, goes onto its stack and gives its level to the
      thread's value. A failed try_lock does nothing. Other mutexes keep their owner, other threads their stack. */
  lemma LockTakes(s: State, level: Mid -> nat, t: Tid, m: Mid, step: Step)
    requires Enabled(s, level, t, step) && (step == TryLock(m) || (step == Acquire && s.wanting[t] == m))
    ensures var s' := Next(s, level, t, step);
            if step == Acquire || (level(m) < Value(s, t) && m !in s.owner)
            then && m !in s.owner && m in s'.owner && s'.owner[m] == t
                 && Held(s', t) == Held(s, t) + [m] && Value(s', t) == level(m) && t !in s'.wanting
            else s' == s
    ensures var s' := Next(s, level, t, step);
            && (forall x: Mid | x != m :: (x in s'.owner <==> x in s.owner)
                                          && (x in s.owner ==> s'.owner[x] == s.owner[x]))
            && (forall u: Tid | u != t :: Held(s', u) == Held(s, u) && Value(s', u) == Value(s, u))
  {
  }

  /** unlock of the innermost mutex: it is free, off the stack, and the value is the level of the next one outwards;
      of another mutex: nothing. Other mutexes keep their owner, other threads their stack. */
  lemma UnlockFrees(s: State, level: Mid -> nat, t: Tid, m: Mid)
    requires Inv(s, level) && Enabled(s, level, t, Unlock(m))
    ensures var s' := Next(s, level, t, Unlock(m));
            var h := Held(s, t);
            if h != [] && m == h[|h| - 1]
            then && m !in s'.owner && Held(s', t) == h[..|h| - 1]
                 && Value(s', t) == if |h| == 1 then ULONG_MAX else level(h[|h| - 2])
            else s' == s
    ensures var s' := Next(s, level, t, Unlock(m));
            && (forall x: Mid | x != m :: (x in s'.owner <==> x in s.owner)
                                          && (x in s.owner ==> s'.owner[x] == s.owner[x]))
            && (forall u: Tid | u != t :: Held(s', u) == Held(s, u) && Value(s', u) == Value(s, u))
  {
    InnermostIff(s, level, t, m);
    if Innermost(s, t, m) {
      assert ThreadOk(s, level, t);
      assert HoldsAt(s, level, t, |Held(s, t)| - 1);
    }
  }

  // ---- Runs -----------------------------------------------------------------------------------------

  ghost predicate Run(level: Mid -> nat, states: seq<State>, moves: seq<(Tid, Step)>) {
    && |states| == |moves| + 1 && states[0] == Init()
    && forall i: nat | i < |moves| :: Moves(level, states, moves, i)
  }

  ghost predicate Moves(level: Mid -> nat, states: seq<State>, moves: seq<(Tid, Step)>, i: nat)
    requires i < |moves| && |states| == |moves| + 1
  {
    Enabled(states[i], level, moves[i].0, moves[i].1) && states[i + 1] == Next(states[i], level, moves[i].0, moves[i].1)
  }

  lemma {:induction false} RunKeeps(level: Mid -> nat, states: seq<State>, moves: seq<(Tid, Step)>, i: nat)
    requires Run(level, states, moves) && i < |states|
    ensures Inv(states[i], level)
  {
    if i > 0 {
      RunKeeps(level, states, moves, i - 1);
      assert Moves(level, states, moves, i - 1);
      StepKeeps(states[i - 1], level, moves[i - 1].0, moves[i - 1].1);
    }
  }

  /** In every run: held levels strictly decrease, the thread-local value is the innermost one, and a waiting thread
      waits for a level below all it holds. */
  lemma EveryRunDescends(level: Mid -> nat, states: seq<State>, moves: seq<(Tid, Step)>, n: nat, t: Tid)
    requires Run(level, states, moves) && n < |states|
    ensures var s := states[n];
            var h := Held(s, t);
            && (forall i, j | 0 <= i < j < |h| :: level(h[j]) < level(h[i]))
            && Value(s, t) == (if h == [] then ULONG_MAX else level(h[|h| - 1]))
            && (forall i: nat | i < |h| :: HoldsAt(s, level, t, i))
            && (t in s.wanting ==> forall i | 0 <= i < |h| :: level(s.wanting[t]) < level(h[i]))
  {
    RunKeeps(level, states, moves, n);
    var s := states[n];
    var h := Held(s, t);
    assert ThreadOk(s, level, t);
    forall i, j | 0 <= i < j < |h|
      ensures level(h[j]) < level(h[i])
    {
      LevelsDecrease(s, level, t, i, j);
    }
    forall i | 0 <= i < |h| && t in s.wanting
      ensures level(s.wanting[t]) < level(h[i])
    {
      if i + 1 < |h| {
        LevelsDecrease(s, level, t, i, |h| - 1);
      }
    }
  }

  /** Once a thread owns a mutex it goes on owning it until it unlocks it itself. */
  lemma {:induction false} OwnerStays(level: Mid -> nat, states: seq<State>, moves: seq<(Tid, Step)>, i: nat, j: nat,
          m: Mid)
    requires Run(level, states, moves) && i <= j < |states| && m in states[i].owner
    requires forall k | i <= k < j :: moves[k] != (states[i].owner[m], Unlock(m))
    ensures m in states[j].owner && states[j].owner[m] == states[i].owner[m]
  {
    if i < j {
      OwnerStays(level, states, moves, i, j - 1, m);
      var s, t, step := states[j - 1], moves[j - 1].0, moves[j - 1].1;
      assert Moves(level, states, moves, j - 1);
      RunKeeps(level, states, moves, j - 1);
      match step
      case Check(_) =>
      case Acquire => LockTakes(s, level, t, s.wanting[t], step);
      case TryLock(x) => LockTakes(s, level, t, x, step);
      case Unlock(x) =>
        UnlockFrees(s, level, t, x);
        InnermostIff(s, level, t, x);
    }
  }

  /** Mutual exclusion over runs: from the step in which a thread locks a mutex until it unlocks it, that thread owns
      it, nobody else has it on its stack, and no other lock or try_lock takes it. */
  lemma LockExcludes(level: Mid -> nat, states: seq<State>, moves: seq<(Tid, Step)>, i: nat, j: nat, t: Tid, m: Mid)
    requires Run(level, states, moves) && i < j < |states| && moves[i].0 == t
    requires (moves[i].1 == Acquire && t in states[i].wanting && states[i].wanting[t] == m)
             || (moves[i].1 == TryLock(m) && level(m) < Value(states[i], t) && m !in states[i].owner)
    requires forall k | i < k < j :: moves[k] != (t, Unlock(m))
    ensures m in states[j].owner && states[j].owner[m] == t && m in Held(states[j], t)
    ensures forall u | u != t :: m !in Held(states[j], u)
    ensures j < |moves| && moves[j].1 == Acquire ==>
              moves[j].0 in states[j].wanting && states[j].wanting[moves[j].0] != m
    ensures j < |moves| && moves[j].1 == TryLock(m) ==> states[j + 1] == states[j]
  {
    assert Moves(level, states, moves, i);
    LockTakes(states[i], level, t, m, moves[i].1);
    OwnerStays(level, states, moves, i + 1, j, m);
    RunKeeps(level, states, moves, j);
    forall u | u != t
      ensures m !in Held(states[j], u)
    {
      assert ThreadOk(states[j], level, u);
      forall x: nat | x < |Held(states[j], u)|
        ensures Held(states[j], u)[x] != m
      {
        assert HoldsAt(states[j], level, u, x);
      }
    }
    if j < |moves| {
      assert Moves(level, states, moves, j);
    }
  }

  // ---- Deadlock freedom -----------------------------------------------------------------------------

  /** t waits for a mutex that u holds. */
  ghost predicate WaitsFor(s: State, t: Tid, u: Tid) {
    t in s.wanting && s.wanting[t] in s.owner && s.owner[s.wanting[t]] == u
  }

  ghost predicate WaitPath(s: State, ts: seq<Tid>) {
    forall i: nat | i + 1 < |ts| :: WaitsFor(s, ts[i], ts[i + 1])
  }

  /** What a thread wants lies strictly below what the thread before it on a wait path wants. */
  lemma {:induction false} WantsDescend(s: State, level: Mid -> nat, ts: seq<Tid>, i: nat)
    requires Inv(s, level) && WaitPath(s, ts) && 0 < i && i + 1 < |ts|
    ensures ts[0] in s.wanting && ts[i] in s.wanting && level(s.wanting[ts[i]]) < level(s.wanting[ts[0]])
  {
    assert WaitsFor(s, ts[i - 1], ts[i - 1 + 1]) && WaitsFor(s, ts[i], ts[i + 1]);
    ValueIsLowest(s, level, ts[i], s.wanting[ts[i - 1]]);
    assert ThreadOk(s, level, ts[i]);
    if i > 1 {
      WantsDescend(s, level, ts, i - 1);
    }
  }

  /** The wait-for graph has no cycle, of any length. */
  lemma WaitForIsAcyclic(level: Mid -> nat, states: seq<State>, moves: seq<(Tid, Step)>, n: nat, ts: seq<Tid>)
    requires Run(level, states, moves) && n < |states| && |ts| >= 2 && WaitPath(states[n], ts)
    ensures ts[0] != ts[|ts| - 1]
  {
    RunKeeps(level, states, moves, n);
    var s, k := states[n], |ts| - 2;
    if ts[0] == ts[k + 1] {
      assert WaitsFor(s, ts[k], ts[k + 1]);
      assert WaitsFor(s, ts[0], ts[0 + 1]);
      ValueIsLowest(s, level, ts[0], s.wanting[ts[k]]);
      assert ThreadOk(s, level, ts[0]);
      if k > 0 {
        WantsDescend(s, level, ts, k);
      }
    }
  }

  /** From any waiting thread the chain of owners leads to a thread that can go on: one whose wanted mutex is free, or
      one that is not waiting at all. */
  lemma {:induction false} SomebodyCanGoOn(s: State, level: Mid -> nat, t: Tid) returns (ts: seq<Tid>)
    requires Inv(s, level) && t in s.wanting
    ensures ts != [] && ts[0] == t && WaitPath(s, ts)
    ensures var last := ts[|ts| - 1]; last !in s.wanting || Enabled(s, level, last, Acquire)
    decreases level(s.wanting[t])
  {
    var m := s.wanting[t];
    if m !in s.owner {
      ts := [t];
    } else {
      var u := s.owner[m];
      if u in s.wanting {
        ValueIsLowest(s, level, u, m);
        assert ThreadOk(s, level, u);
        var rest := SomebodyCanGoOn(s, level, u);
        ts := [t] + rest;
        forall i: nat | i + 1 < |ts|
          ensures WaitsFor(s, ts[i], ts[i + 1])
        {
          assert i > 0 ==> WaitsFor(s, rest[i - 1], rest[i - 1 + 1]);
        }
      } else {
        ts := [t, u];
      }
    }
  }

  // ---- The mutex and thread-local objects -----------------------------------------------------------

  class ThreadLocal {
    var value: nat

    constructor ()
      ensures value == ULONG_MAX
    {
      value := ULONG_MAX;
    }
  }

  /** hierarchical_mutex: the internal mutex is free or has an owner. */
  class Mutex {
    const level: nat
    var previous: nat
    var owner: Option<Tid>

    constructor (level: nat)
      ensures this.level == level && previous == 0 && owner == None
    {
      this.level, previous, owner := level, 0, None;
    }
  }

  /** The mutexes and thread-local values of a program, updated in place by any of its threads in any order. What a
      thread waits for and which mutexes it holds is bookkeeping; the view is a state of the step system. */
  class Program {
    const mutexes: seq<Mutex>
    const locals: seq<ThreadLocal>
    ghost var wanting: map<Tid, Mid>
    ghost var held: map<Tid, seq<Mid>>

    constructor (mutexes: seq<Mutex>, locals: seq<ThreadLocal>)
      requires forall i, j | 0 <= i < j < |mutexes| :: mutexes[i] != mutexes[j]
      requires forall i, j | 0 <= i < j < |locals| :: locals[i] != locals[j]
      requires forall i | 0 <= i < |mutexes| :: mutexes[i].owner == None
      requires forall i | 0 <= i < |locals| :: locals[i].value == ULONG_MAX
      ensures this.mutexes == mutexes && this.locals == locals && Valid()
      ensures wanting == map[] && held == map[]
    {
      this.mutexes, this.locals, wanting, held := mutexes, locals, map[], map[];
    }

    ghost function LevelOf(): Mid -> nat {
      (m: Mid) => if m < |mutexes| then mutexes[m].level else 0
    }

    ghost function Owners(): map<Mid, Tid>
      reads mutexes`owner
    {
      map m: Mid | m < |mutexes| && mutexes[m].owner.Some? :: mutexes[m].owner.value
    }

    ghost function Previous(): map<Mid, nat>
      reads mutexes`previous
    {
      map m: Mid | m < |mutexes| :: mutexes[m].previous
    }

    ghost function Values(): map<Tid, nat>
      reads locals`value
    {
      map t: Tid | t < |locals| :: locals[t].value
    }

    ghost function View(): State
      reads this, mutexes, locals
    {
      State(Owners(), Previous(), Values(), wanting, held)
    }

    ghost predicate Distinct() {
      && (forall i, j | 0 <= i < j < |mutexes| :: mutexes[i] != mutexes[j])
      && (forall i, j | 0 <= i < j < |locals| :: locals[i] != locals[j])
    }

    ghost predicate Valid()
      reads this, mutexes, locals
    {
      Distinct() && Inv(View(), LevelOf())
    }

    /** check_for_hierarchy_violation: false when it throws, which it does unless the mutex is below every mutex the
        thread holds. Else the thread goes on to wait for the internal mutex. */
    method Check(t: Tid, m: Mid) returns (ok: bool)
      requires Valid() && t < |locals| && m < |mutexes| && t !in wanting
      modifies this
      ensures Valid() && View() == Next(old(View()), LevelOf(), t, Step.Check(m))
      ensures ok == !Violates(old(View()), LevelOf(), t, m)
      ensures wanting == (if ok then old(wanting)[t := m] else old(wanting)) && held == old(held)
      ensures ok <==> mutexes[m].level < ULONG_MAX && Below(old(View()), LevelOf(), t, mutexes[m].level)
    {
      hide Inv, Below, Owners, Previous;
      ok := locals[t].value > mutexes[m].level;
      BelowIff(View(), LevelOf(), t, mutexes[m].level);
      StepKeeps(View(), LevelOf(), t, Step.Check(m));
      if ok {
        wanting := wanting[t := m];
      }
    }

    /** The internal mutex changes hands. */
    method SetOwner(m: Mid, owner: Option<Tid>)
      requires Distinct() && m < |mutexes|
      modifies {mutexes[m]}`owner
      ensures mutexes[m].owner == owner
      ensures Owners() == if owner == None then old(Owners()) - {m} else old(Owners())[m := owner.value]
    {
      mutexes[m].owner := owner;
    }

    method SetValue(t: Tid, value: nat)
      requires Distinct() && t < |locals|
      modifies locals[t]
      ensures locals[t].value == value && Values() == old(Values())[t := value]
    {
      locals[t].value := value;
    }

    method UpdateHierarchyValue(t: Tid, m: Mid)
      requires Distinct() && t < |locals| && m < |mutexes|
      modifies {mutexes[m]}`previous, locals[t]
      ensures mutexes[m].previous == old(locals[t].value) && locals[t].value == mutexes[m].level
      ensures Previous() == old(Previous())[m := old(Values())[t]]
      ensures Values() == old(Values())[t := mutexes[m].level]
    {
      mutexes[m].previous := locals[t].value;
      SetValue(t, mutexes[m].level);
    }

    /** The internal mutex is locked and update_hierarchy_value runs. */
    method Take(t: Tid, m: Mid)
      requires Distinct() && t < |locals| && m < |mutexes|
      modifies this, mutexes[m], locals[t]
      ensures View() == Taken(old(View()), LevelOf(), t, m)
      ensures mutexes[m].owner == Some(t) && mutexes[m].previous == old(locals[t].value)
      ensures locals[t].value == mutexes[m].level && held == old(held)[t := old(Held(View(), t)) + [m]]
      ensures wanting == old(wanting)
    {
      hide Distinct, Owners, Previous;
      held := held[t := Held(View(), t) + [m]];
      SetOwner(m, Some(t));
      UpdateHierarchyValue(t, m);
    }

    /** The rest of lock, once the internal mutex is free. */
    method Acquire(t: Tid, m: Mid)
      requires Valid() && t < |locals| && m < |mutexes| && t in wanting && wanting[t] == m && mutexes[m].owner == None
      modifies this, mutexes[m], locals[t]
      ensures Valid() && View() == Next(old(View()), LevelOf(), t, Step.Acquire)
      ensures mutexes[m].owner == Some(t) && locals[t].value == mutexes[m].level && t !in wanting
      ensures Held(View(), t) == old(Held(View(), t)) + [m]
      ensures forall x | 0 <= x < |mutexes| && x != m :: mutexes[x].owner == old(mutexes[x].owner)
      ensures forall u | 0 <= u < |locals| && u != t :: locals[u].value == old(locals[u].value)
      ensures forall u: Tid | u != t :: Held(View(), u) == old(Held(View(), u))
    {
      hide Inv, Previous, Values, Taken;
      assert m !in Owners();
      StepKeeps(View(), LevelOf(), t, Step.Acquire);
      wanting := wanting - {t};
      Take(t, m);
    }

    /** A call of lock up to where it returns, throws, or starts to wait: true exactly when the mutex is taken. A call
        that waits goes on with Acquire. */
    method Lock(t: Tid, m: Mid) returns (taken: bool)
      requires Valid() && t < |locals| && m < |mutexes| && t !in wanting
      modifies this, mutexes[m], locals[t]
      ensures Valid()
      ensures var s := old(View());
        var checked := Next(s, LevelOf(), t, Step.Check(m));
        View() == if Violates(s, LevelOf(), t, m) || m in s.owner then checked
                  else Next(checked, LevelOf(), t, Step.Acquire)
      ensures taken <==> mutexes[m].level < ULONG_MAX && Below(old(View()), LevelOf(), t, mutexes[m].level)
                         && m !in old(View()).owner
      ensures t in wanting <==> mutexes[m].level < ULONG_MAX && Below(old(View()), LevelOf(), t, mutexes[m].level)
                                && m in old(View()).owner
      ensures taken ==> mutexes[m].owner == Some(t) && locals[t].value == mutexes[m].level
                        && Held(View(), t) == old(Held(View(), t)) + [m]
      ensures !taken ==> mutexes[m].owner == old(mutexes[m].owner) && locals[t].value == old(locals[t].value)
                         && held == old(held)
      ensures forall x | 0 <= x < |mutexes| && x != m :: mutexes[x].owner == old(mutexes[x].owner)
      ensures forall u | 0 <= u < |locals| && u != t :: locals[u].value == old(locals[u].value)
      ensures forall u: Tid | u != t :: Held(View(), u) == old(Held(View(), u))
    {
      hide Inv, Below, Previous, Values;
      assert m in Owners() <==> mutexes[m].owner.Some?;
      taken := Check(t, m);
      if taken {
        taken := mutexes[m].owner == None;
        if taken {
          Acquire(t, m);
        }
      }
    }

    /** None when the hierarchy check throws, else whether the mutex was taken. */
    method TryLock(t: Tid, m: Mid) returns (r: Option<bool>)
      requires Valid() && t < |locals| && m < |mutexes| && t !in wanting
      modifies this, mutexes[m], locals[t]
      ensures Valid() && View() == Next(old(View()), LevelOf(), t, Step.TryLock(m))
      ensures r == None <==> !(mutexes[m].level < ULONG_MAX && Below(old(View()), LevelOf(), t, mutexes[m].level))
      ensures r != None ==> r.value == (m !in old(View()).owner)
      ensures r == Some(true) ==> mutexes[m].owner == Some(t) && locals[t].value == mutexes[m].level
                                  && Held(View(), t) == old(Held(View(), t)) + [m]
      ensures r != Some(true) ==> mutexes[m].owner == old(mutexes[m].owner) && held == old(held)
                                  && locals[t].value == old(locals[t].value)
      ensures forall x | 0 <= x < |mutexes| && x != m :: mutexes[x].owner == old(mutexes[x].owner)
      ensures forall u | 0 <= u < |locals| && u != t :: locals[u].value == old(locals[u].value)
      ensures forall u: Tid | u != t :: Held(View(), u) == old(Held(View(), u))
    {
      hide Inv, Previous, Taken;
      BelowIff(View(), LevelOf(), t, mutexes[m].level);
      StepKeeps(View(), LevelOf(), t, Step.TryLock(m));
      if locals[t].value <= mutexes[m].level {
        return None;
      }
      if mutexes[m].owner.Some? {
        return Some(false);
      }
      Take(t, m);
      return Some(true);
    }

    /** The previous level is restored and the internal mutex unlocked. */
    method Release(t: Tid, m: Mid)
      requires Distinct() && t < |locals| && m < |mutexes|
      modifies this, mutexes[m], locals[t]
      ensures View() == Released(old(View()), t, m)
      ensures mutexes[m].owner == None && locals[t].value == old(mutexes[m].previous) && wanting == old(wanting)
      ensures forall u: Tid | u != t :: Held(View(), u) == old(Held(View(), u))
    {
      hide Distinct, Owners;
      held := held[t := if Held(View(), t) == [] then [] else Held(View(), t)[..|Held(View(), t)| - 1]];
      SetValue(t, mutexes[m].previous);
      SetOwner(m, None);
    }

    /** False when it throws: the mutex is not the innermost one the thread holds. */
    method Unlock(t: Tid, m: Mid) returns (ok: bool)
      requires Valid() && t < |locals| && m < |mutexes| && Enabled(View(), LevelOf(), t, Step.Unlock(m))
      modifies this, mutexes[m], locals[t]
      ensures Valid() && View() == Next(old(View()), LevelOf(), t, Step.Unlock(m))
      ensures ok <==> Innermost(old(View()), t, m)
      ensures ok ==> var h := old(Held(View(), t));
        && mutexes[m].owner == None && Held(View(), t) == h[..|h| - 1]
        && locals[t].value == if |h| == 1 then ULONG_MAX else LevelOf()(h[|h| - 2])
      ensures !ok ==> mutexes[m].owner == old(mutexes[m].owner) && held == old(held)
                      && locals[t].value == old(locals[t].value)
      ensures forall x | 0 <= x < |mutexes| && x != m :: mutexes[x].owner == old(mutexes[x].owner)
      ensures forall u | 0 <= u < |locals| && u != t :: locals[u].value == old(locals[u].value)
      ensures forall u: Tid | u != t :: Held(View(), u) == old(Held(View(), u))
    {
      hide Inv, Owners, Previous;
      InnermostIff(View(), LevelOf(), t, m);
      UnlockFrees(View(), LevelOf(), t, m);
      StepKeeps(View(), LevelOf(), t, Step.Unlock(m));
      if locals[t].value != mutexes[m].level {
        return false;
      }
      Release(t, m);
      return true;
    }
  }
}
