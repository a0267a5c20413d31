/** The tagged lock-free stack as a step system: any number of threads, one step per atomic access, nodes never
    freed. */
module LockFreeStack {
  type Tid = nat
  type Ptr = nat // 0 is null

  datatype Node = Node(val: int, next: Ptr)

  datatype Tagged = Tagged(ptr: Ptr, tag: nat)

  /** Where a thread is inside push or pop, with its locals. */
  datatype Pc =
    | Idle
    | PushReady(v: int, node: Ptr, h: Tagged)
    | PushDone
    | PopLoaded(h: Tagged)
    | PopReady(h: Tagged, next: Ptr)
    | PopTaken(ptr: Ptr)
    | PopEmpty

  datatype Op = Push(v: int) | Pop

  datatype Result = Done | Value(v: int) | Empty

  /** History: an operation is called, takes effect, and returns. */
  datatype Event = Call(t: Tid, op: Op) | Effect(t: Tid, op: Op, result: Result) | Return(t: Tid, result: Result)

  /** Shared memory, thread-local states, and two ghosts: the chain of nodes from head and the history. */
  datatype State = State(nodes: map<Ptr, Node>, head: Tagged, pcs: map<Tid, Pc>, chain: seq<Ptr>,
          published: set<Ptr>, log: seq<Event>)

  function PcOf(s: State, t: Tid): Pc {
    if t in s.pcs then s.pcs[t] else Idle
  }

  // ---- Steps ----------------------------------------------------------------------------------------

  datatype Step =
    | PushBegin(v: int, node: Ptr)
    | PushCas(spurious: bool)
    | PushReturn
    | PopBegin
    | PopReadNext
    | PopCas(spurious: bool)
    | PopReturn

  function Set(s: State, t: Tid, pc: Pc): map<Tid, Pc> {
    s.pcs[t := pc]
  }

  ghost predicate Enabled(s: State, t: Tid, step: Step) {
    match step
    case PushBegin(_, p) => PcOf(s, t).Idle? && p != 0 && p !in s.nodes
    case PushCas(_) => PcOf(s, t).PushReady? && PcOf(s, t).node in s.nodes
    case PushReturn => PcOf(s, t).PushDone?
    case PopBegin => PcOf(s, t).Idle?
    case PopReadNext => PcOf(s, t).PopLoaded? && PcOf(s, t).h.ptr in s.nodes
    case PopCas(_) => PcOf(s, t).PopReady? && PcOf(s, t).h.ptr in s.nodes
    case PopReturn => PcOf(s, t).PopEmpty? || (PcOf(s, t).PopTaken? && PcOf(s, t).ptr in s.nodes)
  }

  /** A pop that has just loaded h from head: an empty stack is reported at once. */
  function AfterPopLoad(s: State, t: Tid, h: Tagged, log: seq<Event>): State {
    if h.ptr == 0 then s.(pcs := Set(s, t, PopEmpty), log := log + [Effect(t, Pop, Empty)])
    else s.(pcs := Set(s, t, PopLoaded(h)), log := log)
  }

  ghost function Next(s: State, t: Tid, step: Step): State
    requires Enabled(s, t, step)
  {
    match step
    case PushBegin(v, p) =>
      s.(nodes := s.nodes[p := Node(v, s.head.ptr)], pcs := Set(s, t, PushReady(v, p, s.head)),
         log := s.log + [Call(t, Push(v))])
    case PushCas(spurious) =>
      var pc := PcOf(s, t);
      if s.head == pc.h && !spurious then
        s.(head := Tagged(pc.node, pc.h.tag + 1), pcs := Set(s, t, PushDone),
           chain := [pc.node] + s.chain, published := s.published + {pc.node},
           log := s.log + [Effect(t, Push(pc.v), Done)])
      else
        s.(nodes := s.nodes[pc.node := s.nodes[pc.node].(next := s.head.ptr)],
           pcs := Set(s, t, PushReady(pc.v, pc.node, s.head)))
    case PushReturn =>
      s.(pcs := Set(s, t, Idle), log := s.log + [Return(t, Done)])
    case PopBegin =>
      AfterPopLoad(s, t, s.head, s.log + [Call(t, Pop)])
    case PopReadNext =>
      var h := PcOf(s, t).h;
      s.(pcs := Set(s, t, PopReady(h, s.nodes[h.ptr].next)))
    case PopCas(spurious) =>
      var pc := PcOf(s, t);
      if s.head == pc.h && !spurious then
        s.(head := Tagged(pc.next, pc.h.tag + 1), pcs := Set(s, t, PopTaken(pc.h.ptr)),
           chain := if s.chain == [] then [] else s.chain[1..],
           log := s.log + [Effect(t, Pop, Value(s.nodes[pc.h.ptr].val))])
      else AfterPopLoad(s, t, s.head, s.log)
    case PopReturn =>
      var pc := PcOf(s, t);
      s.(pcs := Set(s, t, Idle), log := s.log + [Return(t, if pc.PopEmpty? then Empty else Value(s.nodes[pc.ptr].val))])
  }

  ghost predicate Init(s: State) {
    s == State(map[], Tagged(0, 0), map[], [], {}, [])
  }

  // ---- The sequential stack -------------------------------------------------------------------------

  /** What an operation does to, and returns from, a sequential stack whose top is element 0. */
  function Apply(stack: seq<int>, op: Op): (seq<int>, Result) {
    match op
    case Push(v) => ([v] + stack, Done)
    case Pop => if stack == [] then (stack, Empty) else (stack[1..], Value(stack[0]))
  }

  /** The effects of a history, in order, are a run of the sequential stack. */
  ghost predicate Legal(log: seq<Event>) {
    log == [] ||
    var before, e := log[..|log| - 1], log[|log| - 1];
    Legal(before) && (e.Effect? ==> e.result == Apply(Content(before), e.op).1)
  }

  function Content(log: seq<Event>): seq<int> {
    if log == [] then []
    else
      var before, e := log[..|log| - 1], log[|log| - 1];
      if e.Effect? then Apply(Content(before), e.op).0 else Content(before)
  }

  /** What thread t is in the middle of, read off the history. */
  datatype Phase = Outside | Called(op: Op) | Effected(op: Op, result: Result) | Broken

  function PhaseOf(log: seq<Event>, t: Tid): Phase {
    if log == [] then Outside
    else
      var p, e := PhaseOf(log[..|log| - 1], t), log[|log| - 1];
      if e.t != t then p
      else match e
        case Call(_, op) => if p.Outside? then Called(op) else Broken
        case Effect(_, op, result) => if p == Called(op) then Effected(op, result) else Broken
        case Return(_, result) => if p.Effected? && p.result == result then Outside else Broken
  }

  /** Every operation takes effect exactly once, between its call and its return, returns what its effect returned,
      and the effects in order are a run of the sequential stack. */
  ghost predicate Linearizable(log: seq<Event>) {
    Legal(log) && forall t :: PhaseOf(log, t) != Broken
  }

  lemma Extend(log: seq<Event>, e: Event)
    ensures (log + [e])[..|log + [e]| - 1] == log && (log + [e])[|log + [e]| - 1] == e
  {
  }

  // ---- The invariant --------------------------------------------------------------------------------

  /** The chain from head is acyclic: distinct published nodes, each linked to the next, the last to null. */
  ghost predicate ChainOk(s: State) {
    && s.head.ptr == (if s.chain == [] then 0 else s.chain[0])
    && (forall i: nat | i < |s.chain| :: LinkOk(s, i))
    && (forall i: nat, j: nat | i < j < |s.chain| :: s.chain[i] != s.chain[j])
  }

  ghost predicate LinkOk(s: State, i: nat)
    requires i < |s.chain|
  {
    && s.chain[i] != 0 && s.chain[i] in s.nodes && s.chain[i] in s.published
    && s.nodes[s.chain[i]].next == if i + 1 < |s.chain| then s.chain[i + 1] else 0
  }

  function ValueAt(s: State, p: Ptr): int {
    if p in s.nodes then s.nodes[p].val else 0
  }

  /** The abstract stack: the values along the chain, top first. */
  function Values(s: State): seq<int> {
    seq(|s.chain|, i requires 0 <= i < |s.chain| => ValueAt(s, s.chain[i]))
  }

  ghost predicate ThreadOk(s: State, t: Tid) {
    var phase := PhaseOf(s.log, t);
    match PcOf(s, t)
    case Idle => phase.Outside?
    case PushReady(v, p, h) =>
      phase == Called(Push(v)) && p != 0 && p in s.nodes && p !in s.published && s.nodes[p] == Node(v, h.ptr)
    case PushDone => phase.Effected? && phase.result == Done
    case PopLoaded(h) => phase == Called(Pop) && h.ptr != 0 && h.ptr in s.nodes && h.ptr in s.published
    case PopReady(h, next) =>
      phase == Called(Pop) && h.ptr != 0 && h.ptr in s.nodes && h.ptr in s.published && next == s.nodes[h.ptr].next
    case PopTaken(p) => p in s.nodes && p in s.published && phase == Effected(Pop, Value(s.nodes[p].val))
    case PopEmpty => phase == Effected(Pop, Empty)
  }

  /** A node being pushed is private to its thread. */
  ghost predicate Private(s: State, t: Tid, u: Tid) {
    PcOf(s, t).PushReady? && PcOf(s, u).PushReady? && t != u ==> PcOf(s, t).node != PcOf(s, u).node
  }

  ghost predicate Inv(s: State) {
    && ChainOk(s)
    && (forall t :: ThreadOk(s, t))
    && (forall t, u :: Private(s, t, u))
    && (forall p | p in s.published :: p in s.nodes)
    && Legal(s.log) && Content(s.log) == Values(s)
  }

  lemma InitKeeps(s: State)
    requires Init(s)
    ensures Inv(s)
  {
  }

  /** How a step changes the history, seen by every thread. */
  lemma PhaseAfter(log: seq<Event>, e: Event, t: Tid)
    ensures PhaseOf(log + [e], t) ==
      var p := PhaseOf(log, t);
      if e.t != t then p
      else match e
        case Call(_, op) => if p.Outside? then Called(op) else Broken
        case Effect(_, op, result) => if p == Called(op) then Effected(op, result) else Broken
        case Return(_, result) => if p.Effected? && p.result == result then Outside else Broken
  {
  }

  lemma LegalAfter(log: seq<Event>, e: Event)
    requires Legal(log) && (e.Effect? ==> e.result == Apply(Content(log), e.op).1)
    ensures Legal(log + [e]) && Content(log + [e]) == if e.Effect? then Apply(Content(log), e.op).0 else Content(log)
  {
  }

  /** Any one step of any thread keeps the invariant. */
  lemma StepKeeps(s: State, t: Tid, step: Step)
    requires Inv(s) && Enabled(s, t, step)
    ensures Inv(Next(s, t, step))
  {
    var s' := Next(s, t, step);
    assert ThreadOk(s, t);
    match step
    case PushBegin(v, p) => PushBeginKeeps(s, t, v, p);
    case PushCas(spurious) => PushCasKeeps(s, t, spurious);
    case PushReturn => ReturnKeeps(s, t, step);
    case PopBegin => PopBeginKeeps(s, t);
    case PopReadNext => PopReadNextKeeps(s, t);
    case PopCas(spurious) => PopCasKeeps(s, t, spurious);
    case PopReturn => ReturnKeeps(s, t, step);
  }

  lemma PushBeginKeeps(s: State, t: Tid, v: int, p: Ptr)
    requires Inv(s) && Enabled(s, t, PushBegin(v, p))
    ensures Inv(Next(s, t, PushBegin(v, p)))
  {
    var s' := Next(s, t, PushBegin(v, p));
    LegalAfter(s.log, Call(t, Push(v)));
    SameChain(s, s');
    forall u
      ensures ThreadOk(s', u)
    {
      assert ThreadOk(s, u);
      PhaseAfter(s.log, Call(t, Push(v)), u);
    }
    forall u, w
      ensures Private(s', u, w)
    {
      assert Private(s, u, w) && ThreadOk(s, u) && ThreadOk(s, w);
    }
  }

  /** Published nodes are never written, so the chain stays as it is. */
  lemma SameChain(s: State, s': State)
    requires ChainOk(s) && s'.chain == s.chain && s'.head.ptr == s.head.ptr && s'.published == s.published
    requires forall p | p in s.published && p in s.nodes :: p in s'.nodes && s'.nodes[p] == s.nodes[p]
    ensures ChainOk(s') && Values(s') == Values(s)
  {
    forall i: nat | i < |s.chain|
      ensures LinkOk(s', i) && ValueAt(s', s.chain[i]) == ValueAt(s, s.chain[i])
    {
      assert LinkOk(s, i);
    }
  }

  lemma ReturnKeeps(s: State, t: Tid, step: Step)
    requires Inv(s) && Enabled(s, t, step) && (step.PushReturn? || step.PopReturn?)
    ensures Inv(Next(s, t, step))
  {
    var s' := Next(s, t, step);
    var e := s'.log[|s.log|];
    assert ThreadOk(s, t);
    LegalAfter(s.log, e);
    SameChain(s, s');
    forall u
      ensures ThreadOk(s', u)
    {
      assert ThreadOk(s, u);
      PhaseAfter(s.log, e, u);
    }
    forall u, w
      ensures Private(s', u, w)
    {
      assert Private(s, u, w);
    }
  }

  lemma PopReadNextKeeps(s: State, t: Tid)
    requires Inv(s) && Enabled(s, t, PopReadNext)
    ensures Inv(Next(s, t, PopReadNext))
  {
    var s' := Next(s, t, PopReadNext);
    SameChain(s, s');
    forall u
      ensures ThreadOk(s', u)
    {
      assert ThreadOk(s, u);
    }
    forall u, w
      ensures Private(s', u, w)
    {
      assert Private(s, u, w);
    }
  }

  lemma HeadIsNull(s: State)
    requires ChainOk(s)
    ensures s.head.ptr == 0 <==> s.chain == []
  {
    if s.chain != [] {
      assert LinkOk(s, 0);
    }
  }

  /** Loading head inside pop: an empty chain is this pop's effect, otherwise the loaded node is published. */
  lemma PopLoadKeeps(s: State, t: Tid, log: seq<Event>)
    requires ChainOk(s) && (forall u | u != t :: ThreadOk(s.(log := log), u)) && (forall u, w :: Private(s, u, w))
    requires Legal(log) && Content(log) == Values(s) && PhaseOf(log, t) == Called(Pop) && !PcOf(s, t).PushReady?
    requires forall p | p in s.published :: p in s.nodes
    ensures Inv(AfterPopLoad(s, t, s.head, log))
  {
    var s' := AfterPopLoad(s, t, s.head, log);
    SameChain(s, s');
    var e := Effect(t, Pop, Empty);
    if s.head.ptr == 0 {
      HeadIsNull(s);
      LegalAfter(log, e);
    } else {
      assert LinkOk(s, 0);
    }
    forall u
      ensures ThreadOk(s', u)
    {
      if u != t {
        assert ThreadOk(s.(log := log), u);
      }
      PhaseAfter(log, e, u);
    }
    forall u, w
      ensures Private(s', u, w)
    {
      assert Private(s, u, w);
    }
  }

  lemma PopBeginKeeps(s: State, t: Tid)
    requires Inv(s) && Enabled(s, t, PopBegin)
    ensures Inv(Next(s, t, PopBegin))
  {
    var e := Call(t, Pop);
    LegalAfter(s.log, e);
    assert ThreadOk(s, t);
    forall u
      ensures u != t ==> ThreadOk(s.(log := s.log + [e]), u)
      ensures u == t ==> PhaseOf(s.log + [e], t) == Called(Pop)
    {
      assert ThreadOk(s, u);
      PhaseAfter(s.log, e, u);
    }
    PopLoadKeeps(s, t, s.log + [e]);
  }

  /** A successful pop takes the node that is the head right now; its next was read earlier but cannot have changed. */
  lemma PopCasKeeps(s: State, t: Tid, spurious: bool)
    requires Inv(s) && Enabled(s, t, PopCas(spurious))
    ensures Inv(Next(s, t, PopCas(spurious)))
  {
    var s' := Next(s, t, PopCas(spurious));
    var pc := PcOf(s, t);
    assert ThreadOk(s, t);
    if s.head == pc.h && !spurious {
      var e := Effect(t, Pop, Value(s.nodes[pc.h.ptr].val));
      assert LinkOk(s, 0);
      assert Values(s)[0] == s.nodes[pc.h.ptr].val && Values(s') == Values(s)[1..];
      LegalAfter(s.log, e);
      forall i: nat | i < |s'.chain|
        ensures LinkOk(s', i)
      {
        assert LinkOk(s, i + 1);
      }
      forall u
        ensures ThreadOk(s', u)
      {
        assert ThreadOk(s, u);
        PhaseAfter(s.log, e, u);
      }
      forall u, w
        ensures Private(s', u, w)
      {
        assert Private(s, u, w);
      }
    } else {
      assert s.(log := s.log) == s;
      PopLoadKeeps(s, t, s.log);
    }
  }

  lemma PushCasKeeps(s: State, t: Tid, spurious: bool)
    requires Inv(s) && Enabled(s, t, PushCas(spurious))
    ensures Inv(Next(s, t, PushCas(spurious)))
  {
    if s.head == PcOf(s, t).h && !spurious {
      PushedKeeps(s, t);
    } else {
      PushRetryKeeps(s, t, spurious);
    }
  }

  /** A successful push makes the private node the first of the chain. */
  lemma PushedKeeps(s: State, t: Tid)
    requires Inv(s) && Enabled(s, t, PushCas(false)) && s.head == PcOf(s, t).h
    ensures Inv(Next(s, t, PushCas(false)))
  {
    var s' := Next(s, t, PushCas(false));
    var pc := PcOf(s, t);
    assert ThreadOk(s, t);
    var e := Effect(t, Push(pc.v), Done);
    PushedChain(s, s', pc.node, pc.v);
    LegalAfter(s.log, e);
    hide ChainOk, Values, Legal, PhaseOf;
    forall u
      ensures ThreadOk(s', u)
    {
      assert ThreadOk(s, u) && Private(s, t, u);
      PhaseAfter(s.log, e, u);
    }
    forall u, w
      ensures Private(s', u, w)
    {
      assert Private(s, u, w);
    }
  }

  lemma PushedChain(s: State, s': State, p: Ptr, v: int)
    requires ChainOk(s) && p != 0 && p in s.nodes && p !in s.published && s.nodes[p] == Node(v, s.head.ptr)
    requires s'.nodes == s.nodes && s'.head.ptr == p && s'.chain == [p] + s.chain && s'.published == s.published + {p}
    ensures ChainOk(s') && Values(s') == [v] + Values(s)
  {
    forall i: nat | i < |s'.chain|
      ensures LinkOk(s', i)
    {
      if i > 0 {
        assert LinkOk(s, i - 1);
      }
    }
    forall i: nat, j: nat | i < j < |s'.chain|
      ensures s'.chain[i] != s'.chain[j]
    {
      assert LinkOk(s, j - 1);
    }
  }

  /** A failed one relinks the private node to the head it has just seen. */
  lemma PushRetryKeeps(s: State, t: Tid, spurious: bool)
    requires Inv(s) && Enabled(s, t, PushCas(spurious)) && !(s.head == PcOf(s, t).h && !spurious)
    ensures Inv(Next(s, t, PushCas(spurious)))
  {
    var s' := Next(s, t, PushCas(spurious));
    assert ThreadOk(s, t);
    SameChain(s, s');
    forall u
      ensures ThreadOk(s', u)
    {
      assert ThreadOk(s, u) && Private(s, t, u);
    }
    forall u, w
      ensures Private(s', u, w)
    {
      assert Private(s, u, w);
    }
  }

  /** No step reads a cell that does not exist: each state inside push or pop can take its next step. */
  lemma NoStepFaults(s: State, t: Tid)
    requires Inv(s)
    ensures match PcOf(s, t)
            case Idle => Enabled(s, t, PopBegin)
            case PushReady(_, _, _) => forall spurious :: Enabled(s, t, PushCas(spurious))
            case PushDone => Enabled(s, t, PushReturn)
            case PopLoaded(_) => Enabled(s, t, PopReadNext)
            case PopReady(_, _) => forall spurious :: Enabled(s, t, PopCas(spurious))
            case _ => Enabled(s, t, PopReturn)
  {
    assert ThreadOk(s, t);
  }

  // ---- Runs -----------------------------------------------------------------------------------------

  /** A finite interleaving: states and the thread and step between each two. */
  ghost predicate Run(states: seq<State>, moves: seq<(Tid, Step)>) {
    && |states| == |moves| + 1 && Init(states[0])
    && forall i: nat | i < |moves| :: Moves(states, moves, i)
  }

  ghost predicate Moves(states: seq<State>, moves: seq<(Tid, Step)>, i: nat)
    requires i < |moves| && |states| == |moves| + 1
  {
    Enabled(states[i], moves[i].0, moves[i].1) && states[i + 1] == Next(states[i], moves[i].0, moves[i].1)
  }

  lemma {:induction false} RunKeeps(states: seq<State>, moves: seq<(Tid, Step)>, i: nat)
    requires Run(states, moves) && i < |states|
    ensures Inv(states[i])
  {
    if i == 0 {
      InitKeeps(states[0]);
    } else {
      RunKeeps(states, moves, i - 1);
      assert Moves(states, moves, i - 1);
      StepKeeps(states[i - 1], moves[i - 1].0, moves[i - 1].1);
    }
  }

  /** Every execution is linearizable to the sequential stack, whose content is the chain from head. */
  lemma EveryRunIsLinearizable(states: seq<State>, moves: seq<(Tid, Step)>, i: nat)
    requires Run(states, moves) && i < |states|
    ensures Linearizable(states[i].log) && Content(states[i].log) == Values(states[i]) && ChainOk(states[i])
  {
    RunKeeps(states, moves, i);
    forall t
      ensures PhaseOf(states[i].log, t) != Broken
    {
      assert ThreadOk(states[i], t);
    }
  }

  /** The abstract stack changes only at a successful CAS, and then by one element at the top. */
  lemma OnlyCasChanges(s: State, t: Tid, step: Step)
    requires Inv(s) && Enabled(s, t, step)
    ensures var s', pc := Next(s, t, step), PcOf(s, t);
            if step.PushCas? && s.head == pc.h && !step.spurious then Values(s') == [pc.v] + Values(s)
            else if step.PopCas? && s.head == pc.h && !step.spurious then
              Values(s) != [] && Values(s') == Values(s)[1..] && s.nodes[pc.h.ptr].val == Values(s)[0]
            else Values(s') == Values(s)
  {
    var s' := Next(s, t, step);
    assert ThreadOk(s, t);
    if step.PopCas? && s.head == PcOf(s, t).h && !step.spurious {
      assert LinkOk(s, 0);
    } else if step.PushCas? && s.head == PcOf(s, t).h && !step.spurious {
    } else {
      SameChain(s, s');
    }
  }

  /** A step is its own thread's: other threads stay where they are, and published nodes as they are. */
  lemma StepOfOthers(s: State, t: Tid, step: Step, u: Tid)
    requires Inv(s) && Enabled(s, t, step) && u != t
    ensures PcOf(Next(s, t, step), u) == PcOf(s, u)
    ensures forall p | p in s.published :: p in s.nodes && p in Next(s, t, step).nodes
                                           && Next(s, t, step).nodes[p] == s.nodes[p]
  {
    assert ThreadOk(s, t);
  }

  /** A push left alone: three steps, and the value is on top. */
  lemma SoloPush(s: State, t: Tid, v: int, p: Ptr)
    requires Inv(s) && Enabled(s, t, PushBegin(v, p))
    ensures var s1 := Next(s, t, PushBegin(v, p));
            && Enabled(s1, t, PushCas(false))
            && var s2 := Next(s1, t, PushCas(false));
               && Enabled(s2, t, PushReturn)
               && var s3 := Next(s2, t, PushReturn);
                  && Values(s3) == [v] + Values(s) && PcOf(s3, t) == Idle
                  && s3.log == s.log + [Call(t, Push(v)), Effect(t, Push(v), Done), Return(t, Done)]
  {
    hide Values, Inv;
    var s1 := Next(s, t, PushBegin(v, p));
    StepKeeps(s, t, PushBegin(v, p));
    OnlyCasChanges(s, t, PushBegin(v, p));
    OnlyCasChanges(s1, t, PushCas(false));
    var s2 := Next(s1, t, PushCas(false));
    StepKeeps(s1, t, PushCas(false));
    OnlyCasChanges(s2, t, PushReturn);
  }

  /** A pop left alone: an empty stack is reported in two steps, else four take the top and return its value. */
  lemma SoloPop(s: State, t: Tid)
    requires Inv(s) && PcOf(s, t) == Idle
    ensures var s1 := Next(s, t, PopBegin);
            if Values(s) == [] then
              && Enabled(s1, t, PopReturn)
              && var s2 := Next(s1, t, PopReturn);
                 && Values(s2) == [] && PcOf(s2, t) == Idle
                 && s2.log == s.log + [Call(t, Pop), Effect(t, Pop, Empty), Return(t, Empty)]
            else
              && Enabled(s1, t, PopReadNext)
              && var s2 := Next(s1, t, PopReadNext);
                 && Enabled(s2, t, PopCas(false))
                 && var s3 := Next(s2, t, PopCas(false));
                    && Enabled(s3, t, PopReturn)
                    && var s4, top := Next(s3, t, PopReturn), Values(s)[0];
                       && Values(s4) == Values(s)[1..] && PcOf(s4, t) == Idle
                       && s4.log == s.log + [Call(t, Pop), Effect(t, Pop, Value(top)), Return(t, Value(top))]
  {
    HeadIsNull(s);
    hide Inv, ChainOk, ThreadOk;
    var s1 := Next(s, t, PopBegin);
    StepKeeps(s, t, PopBegin);
    OnlyCasChanges(s, t, PopBegin);
    NoStepFaults(s1, t);
    if Values(s) == [] {
      OnlyCasChanges(s1, t, PopReturn);
    } else {
      SoloTake(s1, t);
    }
  }

  lemma SoloTake(s: State, t: Tid)
    requires Inv(s) && PcOf(s, t) == PopLoaded(s.head)
    ensures Enabled(s, t, PopReadNext)
    ensures var s2 := Next(s, t, PopReadNext);
            && Enabled(s2, t, PopCas(false))
            && var s3 := Next(s2, t, PopCas(false));
               && Enabled(s3, t, PopReturn) && Values(s) != []
               && var s4, top := Next(s3, t, PopReturn), Values(s)[0];
                  && Values(s4) == Values(s)[1..] && PcOf(s4, t) == Idle
                  && s4.log == s.log + [Effect(t, Pop, Value(top)), Return(t, Value(top))]
  {
    hide Inv, ThreadOk, Values;
    NoStepFaults(s, t);
    var s2 := Next(s, t, PopReadNext);
    StepKeeps(s, t, PopReadNext);
    OnlyCasChanges(s, t, PopReadNext);
    NoStepFaults(s2, t);
    OnlyCasChanges(s2, t, PopCas(false));
    var s3 := Next(s2, t, PopCas(false));
    StepKeeps(s2, t, PopCas(false));
    NoStepFaults(s3, t);
    OnlyCasChanges(s3, t, PopReturn);
  }

  // ---- No ABA, and progress -------------------------------------------------------------------------

  /** The step is an exchange on head that succeeds. */
  ghost predicate Exchanges(s: State, t: Tid, step: Step)
    requires Enabled(s, t, step)
  {
    (step.PushCas? || step.PopCas?) && !step.spurious && s.head == PcOf(s, t).h
  }

  /** Move k of a run is an exchange that succeeds. */
  ghost predicate ExchangedAt(states: seq<State>, moves: seq<(Tid, Step)>, k: nat)
    requires k < |moves| && |states| == |moves| + 1
  {
    Moves(states, moves, k) && Exchanges(states[k], moves[k].0, moves[k].1)
  }

  /** The tag of head grows with every successful exchange and with nothing else: at two points of a run with the same
      head nothing has been exchanged in between, and the stack is the same. */
  lemma {:induction false} NoAba(states: seq<State>, moves: seq<(Tid, Step)>, i: nat, j: nat)
    requires Run(states, moves) && i <= j < |states|
    ensures states[i].head.tag <= states[j].head.tag
    ensures states[i].head.tag == states[j].head.tag <==> forall k: nat | i <= k < j :: !ExchangedAt(states, moves, k)
    ensures states[i].head.tag == states[j].head.tag ==>
            states[i].head == states[j].head && Values(states[i]) == Values(states[j])
  {
    if i < j {
      NoAba(states, moves, i, j - 1);
      RunKeeps(states, moves, j - 1);
      assert Moves(states, moves, j - 1);
      hide Inv, Values, Next, Exchanges, Enabled;
      TagCounts(states[j - 1], moves[j - 1].0, moves[j - 1].1);
      assert ExchangedAt(states, moves, j - 1) <==> Exchanges(states[j - 1], moves[j - 1].0, moves[j - 1].1);
    }
  }

  lemma TagCounts(s: State, t: Tid, step: Step)
    requires Inv(s) && Enabled(s, t, step)
    ensures var s' := Next(s, t, step);
            if Exchanges(s, t, step) then s'.head.tag == s.head.tag + 1
            else s'.head == s.head && Values(s') == Values(s)
  {
    OnlyCasChanges(s, t, step);
  }

  /** The thread has loaded h from head and goes on to exchange it. */
  ghost predicate HasLoaded(pc: Pc, h: Tagged) {
    (pc.PushReady? || pc.PopLoaded? || pc.PopReady?) && pc.h == h
  }

  /** What a thread expects to find in head it has found there, and since then it has exchanged nothing. */
  lemma {:induction false} LoadedEarlier(states: seq<State>, moves: seq<(Tid, Step)>, j: nat, t: Tid, h: Tagged)
    returns (i: nat)
    requires Run(states, moves) && j < |states| && HasLoaded(PcOf(states[j], t), h)
    ensures i <= j && states[i].head == h
    ensures forall k | i <= k < j && moves[k].0 == t :: moves[k].1 == PopReadNext
  {
    i := j;
    if j > 0 {
      assert Moves(states, moves, j - 1);
      if HasLoaded(PcOf(states[j - 1], t), h) && (moves[j - 1].0 != t || moves[j - 1].1 == PopReadNext) {
        i := LoadedEarlier(states, moves, j - 1, t, h);
      }
    }
  }

  /** Lock-freedom: an exchange that fails for a reason fails because another thread's has succeeded since this thread
      loaded head; and one that succeeds finds the stack as it was then, whatever happened in between. */
  lemma ExchangeIffUndisturbed(states: seq<State>, moves: seq<(Tid, Step)>, j: nat, t: Tid)
    returns (i: nat)
    requires Run(states, moves) && j < |moves| && moves[j].0 == t
    requires moves[j].1 == PushCas(false) || moves[j].1 == PopCas(false)
    ensures i <= j && Enabled(states[j], t, moves[j].1) && states[i].head == PcOf(states[j], t).h
    ensures Exchanges(states[j], t, moves[j].1) <==>
            forall k: nat | i <= k < j && moves[k].0 != t :: !ExchangedAt(states, moves, k)
    ensures Exchanges(states[j], t, moves[j].1) ==> Values(states[i]) == Values(states[j])
  {
    assert Moves(states, moves, j);
    hide Values;
    i := LoadedEarlier(states, moves, j, t, PcOf(states[j], t).h);
    NoAba(states, moves, i, j);
  }

  function PushedValues(log: seq<Event>): multiset<int> {
    if log == [] then multiset{}
    else
      var e := log[|log| - 1];
      PushedValues(log[..|log| - 1]) + if e.Effect? && e.op.Push? then multiset{e.op.v} else multiset{}
  }

  function PoppedValues(log: seq<Event>): multiset<int> {
    if log == [] then multiset{}
    else
      var e := log[|log| - 1];
      PoppedValues(log[..|log| - 1]) + if e.Effect? && e.result.Value? then multiset{e.result.v} else multiset{}
  }

  /** Nothing is lost or made up: what was pushed is what was popped and what remains. */
  lemma {:induction false} PushedIsPoppedAndRemaining(log: seq<Event>)
    requires Legal(log)
    ensures PushedValues(log) == PoppedValues(log) + multiset(Content(log))
    decreases |log|
  {
    if log != [] {
      var before, e := log[..|log| - 1], log[|log| - 1];
      PushedIsPoppedAndRemaining(before);
      if e.Effect? {
        Balance(Content(before), e.op);
        var added := if e.op.Push? then multiset{e.op.v} else multiset{};
        var taken := if e.result.Value? then multiset{e.result.v} else multiset{};
        assert PushedValues(log) == PoppedValues(before) + (multiset(Content(before)) + added);
        assert PoppedValues(log) + multiset(Content(log)) == PoppedValues(before) + (multiset(Content(log)) + taken);
      }
    }
  }

  /** What one operation adds and takes away. */
  lemma Balance(stack: seq<int>, op: Op)
    ensures var (after, r) := Apply(stack, op);
            multiset(after) + (if r.Value? then multiset{r.v} else multiset{}) ==
            multiset(stack) + if op.Push? then multiset{op.v} else multiset{}
  {
    if op.Pop? && stack != [] {
      assert stack == [stack[0]] + stack[1..];
    }
  }

  // ---- The stack object -----------------------------------------------------------------------------

  /** The stack as any number of threads update it in place, each call of a method being one atomic access of one of
      them. `pcs` holds the threads' local variables; the rest of the view is bookkeeping. */
  class Stack {
    var nodes: map<Ptr, Node>
    var head: Tagged
    var pcs: map<Tid, Pc>
    ghost var chain: seq<Ptr>
    ghost var published: set<Ptr>
    ghost var log: seq<Event>

    ghost function View(): State
      reads this
    {
      State(nodes, head, pcs, chain, published, log)
    }

    ghost predicate Valid()
      reads this
    {
      Inv(View())
    }

    ghost function Content(): seq<int>
      reads this
    {
      Values(View())
    }

    constructor ()
      ensures Valid() && Init(View()) && Content() == []
    {
      nodes, head, pcs, chain, published, log := map[], Tagged(0, 0), map[], [], {}, [];
    }

    /** push loads head and fills its new node. */
    method PushBegin(t: Tid, v: int, cell: Ptr)
      requires Valid() && Enabled(View(), t, Step.PushBegin(v, cell))
      modifies this`nodes, this`pcs, this`log
      ensures Valid() && View() == Next(old(View()), t, Step.PushBegin(v, cell)) && Content() == old(Content())
      ensures pcs == old(pcs)[t := PushReady(v, cell, head)] && nodes == old(nodes)[cell := Node(v, head.ptr)]
      ensures log == old(log) + [Call(t, Op.Push(v))]
    {
      hide Inv, Values, ThreadOk;
      StepKeeps(View(), t, Step.PushBegin(v, cell));
      OnlyCasChanges(View(), t, Step.PushBegin(v, cell));
      nodes := nodes[cell := Node(v, head.ptr)];
      pcs := pcs[t := PushReady(v, cell, head)];
      log := log + [Call(t, Op.Push(v))];
    }

    /** compare_exchange_weak on head. */
    method CompareExchange(expected: Tagged, desired: Tagged, spurious: bool) returns (ok: bool)
      modifies this`head
      ensures ok <==> old(head) == expected && !spurious
      ensures head == if ok then desired else old(head)
    {
      ok := head == expected && !spurious;
      if ok {
        head := desired;
      }
    }

    /** One turn of push's loop: the new node becomes the top, or links to the head just seen. */
    method PushCas(t: Tid, spurious: bool) returns (ok: bool)
      requires Valid() && Enabled(View(), t, Step.PushCas(spurious))
      modifies this
      ensures Valid() && View() == Next(old(View()), t, Step.PushCas(spurious))
      ensures Content() == if ok then [old(PcOf(View(), t)).v] + old(Content()) else old(Content())
      ensures ok <==> old(head) == old(PcOf(View(), t)).h && !spurious
      ensures ok ==> pcs == old(pcs)[t := PushDone] && log == old(log) + [Effect(t, Op.Push(old(pcs)[t].v), Done)]
      ensures !ok ==>
        var pc := old(pcs)[t];
        && head == old(head) && pcs == old(pcs)[t := PushReady(pc.v, pc.node, head)] && log == old(log)
        && pc.node in nodes && nodes[pc.node] == Node(pc.v, head.ptr)
    {
      assert ThreadOk(View(), t);
      hide Inv, Values;
      StepKeeps(View(), t, Step.PushCas(spurious));
      OnlyCasChanges(View(), t, Step.PushCas(spurious));
      var pc := pcs[t];
      ok := CompareExchange(pc.h, Tagged(pc.node, pc.h.tag + 1), spurious);
      if ok {
        pcs := pcs[t := PushDone];
        chain, published, log := [pc.node] + chain, published + {pc.node}, log + [Effect(t, Op.Push(pc.v), Done)];
      } else {
        nodes := nodes[pc.node := nodes[pc.node].(next := head.ptr)];
        pcs := pcs[t := PushReady(pc.v, pc.node, head)];
      }
    }

    method PushReturn(t: Tid)
      requires Valid() && Enabled(View(), t, Step.PushReturn)
      modifies this`pcs, this`log
      ensures Valid() && View() == Next(old(View()), t, Step.PushReturn) && Content() == old(Content())
      ensures pcs == old(pcs)[t := Idle] && log == old(log) + [Return(t, Done)]
    {
      hide Inv, Values, ThreadOk;
      StepKeeps(View(), t, Step.PushReturn);
      OnlyCasChanges(View(), t, Step.PushReturn);
      pcs := pcs[t := Idle];
      log := log + [Return(t, Done)];
    }

    /** What pop does with the head it has just loaded. */
    method PopLoaded(t: Tid)
      modifies this`pcs, this`log
      ensures View() == AfterPopLoad(old(View()), t, head, old(log))
    {
      if head.ptr == 0 {
        pcs, log := pcs[t := PopEmpty], log + [Effect(t, Op.Pop, Empty)];
      } else {
        pcs := pcs[t := Pc.PopLoaded(head)];
      }
    }

    /** pop loads head; it is on its way to false exactly when the stack is empty at that moment. */
    method PopBegin(t: Tid)
      requires Valid() && Enabled(View(), t, Step.PopBegin)
      modifies this`pcs, this`log
      ensures Valid() && View() == Next(old(View()), t, Step.PopBegin) && Content() == old(Content())
      ensures pcs == old(pcs)[t := if Content() == [] then PopEmpty else Pc.PopLoaded(head)]
      ensures log == old(log) + [Call(t, Op.Pop)] + if Content() == [] then [Effect(t, Op.Pop, Empty)] else []
    {
      HeadIsNull(View());
      hide Inv, ThreadOk, ChainOk;
      StepKeeps(View(), t, Step.PopBegin);
      OnlyCasChanges(View(), t, Step.PopBegin);
      log := log + [Call(t, Op.Pop)];
      PopLoaded(t);
    }

    /** The next pointer that the exchange will write, read from the node before. */
    method PopReadNext(t: Tid)
      requires Valid() && Enabled(View(), t, Step.PopReadNext)
      modifies this`pcs
      ensures Valid() && View() == Next(old(View()), t, Step.PopReadNext) && Content() == old(Content())
      ensures var h := old(pcs)[t].h; pcs == old(pcs)[t := PopReady(h, nodes[h.ptr].next)]
    {
      hide Inv, Values, ThreadOk;
      StepKeeps(View(), t, Step.PopReadNext);
      OnlyCasChanges(View(), t, Step.PopReadNext);
      pcs := pcs[t := PopReady(pcs[t].h, nodes[pcs[t].h.ptr].next)];
    }

    /** One turn of pop's loop: the top is taken, or head is loaded again. */
    method PopCas(t: Tid, spurious: bool) returns (ok: bool)
      requires Valid() && Enabled(View(), t, Step.PopCas(spurious))
      modifies this
      ensures Valid() && View() == Next(old(View()), t, Step.PopCas(spurious))
      ensures ok ==> old(Content()) != [] && Content() == old(Content())[1..] && pcs[t].PopTaken?
      ensures ok ==> pcs[t].ptr in nodes && nodes[pcs[t].ptr].val == old(Content())[0]
      ensures ok <==> old(head) == old(PcOf(View(), t)).h && !spurious
      ensures ok ==> log == old(log) + [Effect(t, Op.Pop, Value(old(Content())[0]))]
      ensures !ok ==>
        && Content() == old(Content()) && head == old(head)
        && pcs == old(pcs)[t := if Content() == [] then PopEmpty else Pc.PopLoaded(head)]
        && log == old(log) + if Content() == [] then [Effect(t, Op.Pop, Empty)] else []
    {
      HeadIsNull(View());
      hide Inv, ThreadOk, ChainOk;
      StepKeeps(View(), t, Step.PopCas(spurious));
      OnlyCasChanges(View(), t, Step.PopCas(spurious));
      var pc := pcs[t];
      ok := CompareExchange(pc.h, Tagged(pc.next, pc.h.tag + 1), spurious);
      if ok {
        pcs := pcs[t := PopTaken(pc.h.ptr)];
        chain, log := if chain == [] then [] else chain[1..], log + [Effect(t, Op.Pop, Value(nodes[pc.h.ptr].val))];
      } else {
        PopLoaded(t);
      }
    }

    /** The value is read only now, long after the node left the stack, and is still the one of the operation's
        effect. */
    method PopReturn(t: Tid) returns (r: Result)
      requires Valid() && Enabled(View(), t, Step.PopReturn)
      modifies this`pcs, this`log
      ensures Valid() && View() == Next(old(View()), t, Step.PopReturn) && Content() == old(Content())
      ensures PhaseOf(old(log), t) == Effected(Op.Pop, r)
      ensures pcs == old(pcs)[t := Idle] && log == old(log) + [Return(t, r)]
    {
      hide Values, PhaseOf, ChainOk, Legal;
      assert ThreadOk(View(), t);
      StepKeeps(View(), t, Step.PopReturn);
      OnlyCasChanges(View(), t, Step.PopReturn);
      r := if pcs[t].PopEmpty? then Empty else Value(nodes[pcs[t].ptr].val);
      pcs := pcs[t := Idle];
      log := log + [Return(t, r)];
    }
  }
}
