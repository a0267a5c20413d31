/** Reference counting of SharedPtr and WeakPtr as a step system: any number of threads, handles and control blocks,
    one step per atomic access. Clients keep a handle alive while they copy or lock it. */
module SharedPtr {
  type Tid = nat
  type Handle = nat
  type Cb = nat

  /** Who is tearing the object down: nobody while it is owned, then the last owner, step by step. */
  datatype Teardown = Owned | Last(t: Tid) | Deleted(t: Tid) | Dropped

  datatype Status = Live | Doomed(t: Tid) | Freed

  /** A control block with its two counters. The rest is bookkeeping: the handles that exist, how far teardown has come,
      and how often the object and the block have been deleted. */
  datatype Block = Block(strong: nat, weak: nat, owners: set<Handle>, weaks: set<Handle>,
                         teardown: Teardown, status: Status, objectDeletes: nat, blockDeletes: nat)

  datatype Pc =
    | Idle
    | DeletingObject(c: Cb)
    | DroppingWeak(c: Cb)
    | DeletingBlock(c: Cb)
    | Locking(c: Cb, w: Handle, count: nat)

  datatype State = State(blocks: map<Cb, Block>, pcs: map<Tid, Pc>)

  function PcOf(s: State, t: Tid): Pc {
    if t in s.pcs then s.pcs[t] else Idle
  }

  // ---- Steps ----------------------------------------------------------------------------------------

  datatype Step =
    | Make(c: Cb, h: Handle)
    | CopyShared(c: Cb, from: Handle, h: Handle)
    | ReleaseShared(c: Cb, h: Handle)
    | DeleteObject
    | DropWeak
    | DeleteBlock
    | WeakFromShared(c: Cb, from: Handle, w: Handle)
    | CopyWeak(c: Cb, from: Handle, w: Handle)
    | ReleaseWeak(c: Cb, w: Handle)
    | LockLoad(c: Cb, w: Handle)
    | LockCas(spurious: bool, h: Handle)

  ghost predicate Unused(b: Block, h: Handle) {
    h !in b.owners && h !in b.weaks
  }

  /** A weak handle that some thread is locking is not released under it. */
  ghost predicate Borrowed(s: State, c: Cb, w: Handle) {
    exists t :: PcOf(s, t).Locking? && PcOf(s, t).c == c && PcOf(s, t).w == w
  }

  /** What the clients may do next: only the handle discipline, nothing about the counters. A thread that deletes an
      object is busy until the teardown is done; releases of handles that lie inside the object are steps of another
      thread. */
  ghost predicate Enabled(s: State, t: Tid, step: Step) {
    match step
    case Make(c, h) => PcOf(s, t).Idle? && c !in s.blocks
    case CopyShared(c, from, h) =>
      && PcOf(s, t).Idle? && c in s.blocks && from in s.blocks[c].owners
      && Unused(s.blocks[c], h)
    case ReleaseShared(c, h) => PcOf(s, t).Idle? && c in s.blocks && h in s.blocks[c].owners
    case DeleteObject => PcOf(s, t).DeletingObject? && PcOf(s, t).c in s.blocks
    case DropWeak => PcOf(s, t).DroppingWeak? && PcOf(s, t).c in s.blocks
    case DeleteBlock => PcOf(s, t).DeletingBlock? && PcOf(s, t).c in s.blocks
    case WeakFromShared(c, from, w) =>
      && PcOf(s, t).Idle? && c in s.blocks && from in s.blocks[c].owners
      && Unused(s.blocks[c], w)
    case CopyWeak(c, from, w) =>
      && PcOf(s, t).Idle? && c in s.blocks && from in s.blocks[c].weaks
      && Unused(s.blocks[c], w)
    case ReleaseWeak(c, w) => PcOf(s, t).Idle? && c in s.blocks && w in s.blocks[c].weaks && !Borrowed(s, c, w)
    case LockLoad(c, w) => PcOf(s, t).Idle? && c in s.blocks && w in s.blocks[c].weaks
    case LockCas(_, h) => PcOf(s, t).Locking? && PcOf(s, t).c in s.blocks && Unused(s.blocks[PcOf(s, t).c], h)
  }

  /** fetch_sub in size_t; the result is never used below zero, which NoUseAfterFree shows. */
  function Minus1(n: nat): nat {
    if n == 0 then 0xFFFF_FFFF_FFFF_FFFF else n - 1
  }

  /** strong_count.fetch_add(1) for a new owner. */
  function AddOwner(b: Block, h: Handle): Block {
    b.(strong := b.strong + 1, owners := b.owners + {h})
  }

  /** strong_count.fetch_sub(1) by thread t, which starts the teardown when it saw 1. */
  function DropOwner(b: Block, h: Handle, t: Tid): Block {
    b.(strong := Minus1(b.strong), owners := b.owners - {h}, teardown := if b.strong == 1 then Last(t) else b.teardown)
  }

  function ObjectDeleted(b: Block, t: Tid): Block {
    b.(objectDeletes := b.objectDeletes + 1, teardown := Deleted(t))
  }

  /** weak_count.fetch_add(1) for a new weak handle. */
  function AddWeak(b: Block, w: Handle): Block {
    b.(weak := b.weak + 1, weaks := b.weaks + {w})
  }

  /** weak_count.fetch_sub(1) by thread t, which deletes the block when it saw 1. */
  function SubWeak(b: Block, t: Tid): Block {
    b.(weak := Minus1(b.weak), status := if b.weak == 1 then Doomed(t) else b.status)
  }

  /** ... on behalf of a weak handle, or of the owners together. */
  function DropWeakHandle(b: Block, w: Handle, t: Tid): Block {
    SubWeak(b, t).(weaks := b.weaks - {w})
  }

  function DropOwnersWeak(b: Block, t: Tid): Block {
    SubWeak(b, t).(teardown := Dropped)
  }

  function BlockDeleted(b: Block): Block {
    b.(blockDeletes := b.blockDeletes + 1, status := Freed)
  }

  function AfterSubWeak(b: Block, c: Cb): Pc {
    if b.weak == 1 then DeletingBlock(c) else Idle
  }

  /** lock() having read `count`: give up at zero, else try to install count + 1. */
  function AfterLockLoad(c: Cb, w: Handle, count: nat): Pc {
    if count == 0 then Idle else Locking(c, w, count)
  }

  function Put(s: State, t: Tid, pc: Pc, c: Cb, b: Block): State {
    State(s.blocks[c := b], s.pcs[t := pc])
  }

  ghost function Next(s: State, t: Tid, step: Step): State
    requires Enabled(s, t, step)
  {
    match step
    case Make(c, h) => Put(s, t, Idle, c, Block(1, 1, {h}, {}, Owned, Live, 0, 0))
    case CopyShared(c, from, h) => Put(s, t, Idle, c, AddOwner(s.blocks[c], h))
    case ReleaseShared(c, h) =>
      Put(s, t, if s.blocks[c].strong == 1 then DeletingObject(c) else Idle, c, DropOwner(s.blocks[c], h, t))
    case DeleteObject =>
      var c := PcOf(s, t).c;
      Put(s, t, DroppingWeak(c), c, ObjectDeleted(s.blocks[c], t))
    case DropWeak =>
      var c := PcOf(s, t).c;
      Put(s, t, AfterSubWeak(s.blocks[c], c), c, DropOwnersWeak(s.blocks[c], t))
    case DeleteBlock =>
      var c := PcOf(s, t).c;
      Put(s, t, Idle, c, BlockDeleted(s.blocks[c]))
    case WeakFromShared(c, from, w) => Put(s, t, Idle, c, AddWeak(s.blocks[c], w))
    case CopyWeak(c, from, w) => Put(s, t, Idle, c, AddWeak(s.blocks[c], w))
    case ReleaseWeak(c, w) => Put(s, t, AfterSubWeak(s.blocks[c], c), c, DropWeakHandle(s.blocks[c], w, t))
    case LockLoad(c, w) => Put(s, t, AfterLockLoad(c, w, s.blocks[c].strong), c, s.blocks[c])
    case LockCas(spurious, h) =>
      var pc := PcOf(s, t);
      var b := s.blocks[pc.c];
      if b.strong == pc.count && !spurious then Put(s, t, Idle, pc.c, AddOwner(b, h))
      else Put(s, t, AfterLockLoad(pc.c, pc.w, b.strong), pc.c, b)
  }

  /** The block a step accesses or deletes. */
  function Touched(s: State, t: Tid, step: Step): Cb
    requires PcOf(s, t).Idle? ==> !step.DeleteObject? && !step.DropWeak? && !step.DeleteBlock? && !step.LockCas?
  {
    match step
    case DeleteObject => PcOf(s, t).c
    case DropWeak => PcOf(s, t).c
    case DeleteBlock => PcOf(s, t).c
    case LockCas(_, _) => PcOf(s, t).c
    case _ => step.c
  }

  // ---- The invariant --------------------------------------------------------------------------------

  /** strong_count is the number of owning handles; weak_count is the number of weak handles plus the one that the
      owners hold together until the last of them drops it. */
  ghost predicate CountsOk(b: Block) {
    && b.strong == |b.owners| && b.owners !! b.weaks
    && b.weak == |b.weaks| + (if b.teardown.Dropped? then 0 else 1)
    && (b.teardown.Owned? <==> b.strong > 0)
    && (b.status.Live? <==> b.weak > 0)
    && b.objectDeletes == (if b.teardown.Deleted? || b.teardown.Dropped? then 1 else 0)
    && b.blockDeletes == (if b.status.Freed? then 1 else 0)
  }

  /** A thread is at work on every teardown that has begun. */
  ghost predicate Tended(s: State, c: Cb)
    requires c in s.blocks
  {
    var b := s.blocks[c];
    && (b.teardown.Last? ==> PcOf(s, b.teardown.t) == DeletingObject(c))
    && (b.teardown.Deleted? ==> PcOf(s, b.teardown.t) == DroppingWeak(c))
    && (b.status.Doomed? ==> PcOf(s, b.status.t) == DeletingBlock(c))
  }

  ghost predicate BlockOk(s: State, c: Cb)
    requires c in s.blocks
  {
    CountsOk(s.blocks[c]) && Tended(s, c)
  }

  ghost predicate ThreadOk(s: State, t: Tid) {
    match PcOf(s, t)
    case Idle => true
    case DeletingObject(c) => c in s.blocks && s.blocks[c].teardown == Last(t)
    case DroppingWeak(c) => c in s.blocks && s.blocks[c].teardown == Deleted(t)
    case DeletingBlock(c) => c in s.blocks && s.blocks[c].status == Doomed(t)
    case Locking(c, w, count) => c in s.blocks && w in s.blocks[c].weaks && count > 0
  }

  ghost predicate Inv(s: State) {
    (forall c | c in s.blocks :: BlockOk(s, c)) && forall t :: ThreadOk(s, t)
  }

  ghost predicate Init(s: State) {
    s == State(map[], map[])
  }

  /** Owners come and go with the strong count, and the last one starts the teardown. */
  lemma OwnersCount(b: Block, h: Handle, t: Tid)
    requires CountsOk(b)
    ensures b.owners != {} && Unused(b, h) ==> CountsOk(AddOwner(b, h))
    ensures h in b.owners ==>
      CountsOk(DropOwner(b, h, t)) && b.teardown.Owned? && (b.strong == 1 <==> DropOwner(b, h, t).teardown.Last?)
  {
  }

  /** Weak handles come and go with the weak count, and whoever takes it to zero deletes the block. */
  lemma WeaksCount(b: Block, w: Handle, t: Tid)
    requires CountsOk(b)
    ensures (b.owners != {} || b.weaks != {}) && Unused(b, w) ==> CountsOk(AddWeak(b, w))
    ensures w in b.weaks ==>
      CountsOk(DropWeakHandle(b, w, t)) && b.status.Live? && (b.weak == 1 <==> DropWeakHandle(b, w, t).status.Doomed?)
  {
  }

  /** The teardown deletes the object, drops the owners' weak count and, at zero, the block. */
  lemma TeardownCounts(b: Block, t: Tid)
    requires CountsOk(b)
    ensures b.teardown.Last? ==> CountsOk(ObjectDeleted(b, t))
    ensures b.teardown.Deleted? ==>
      CountsOk(DropOwnersWeak(b, t)) && b.status.Live? && (b.weak == 1 <==> DropOwnersWeak(b, t).status.Doomed?)
    ensures b.status.Doomed? ==> CountsOk(BlockDeleted(b))
  {
  }

  /** The block a handle operation accesses stays consistent. */
  lemma HandleBlockKept(s: State, t: Tid, step: Step)
    requires Inv(s) && Enabled(s, t, step) && !step.Make? && PcOf(s, t).Idle?
    ensures step.c in Next(s, t, step).blocks && BlockOk(Next(s, t, step), step.c)
  {
    hide CountsOk, Tended;
    var c, b := step.c, s.blocks[step.c];
    assert BlockOk(s, c);
    match step
    case CopyShared(_, _, h) =>
      OwnersCount(b, h, t);
      StillTended(s, t, Idle, c, AddOwner(b, h));
    case ReleaseShared(_, h) =>
      OwnersCount(b, h, t);
      StillTended(s, t, if b.strong == 1 then DeletingObject(c) else Idle, c, DropOwner(b, h, t));
    case WeakFromShared(_, _, w) =>
      WeaksCount(b, w, t);
      StillTended(s, t, Idle, c, AddWeak(b, w));
    case CopyWeak(_, _, w) =>
      WeaksCount(b, w, t);
      StillTended(s, t, Idle, c, AddWeak(b, w));
    case ReleaseWeak(_, w) =>
      WeaksCount(b, w, t);
      StillTended(s, t, AfterSubWeak(b, c), c, DropWeakHandle(b, w, t));
    case LockLoad(_, w) => StillTended(s, t, AfterLockLoad(c, w, b.strong), c, b);
  }

  /** A step of an idle thread leaves every teardown tended: those under way by other threads, a new one by this one. */
  lemma StillTended(s: State, t: Tid, pc: Pc, c: Cb, b: Block)
    requires c in s.blocks && Tended(s, c) && PcOf(s, t).Idle?
    requires b.teardown == s.blocks[c].teardown || (b.teardown == Last(t) && pc == DeletingObject(c))
    requires b.status == s.blocks[c].status || (b.status == Doomed(t) && pc == DeletingBlock(c))
    ensures Tended(Put(s, t, pc, c, b), c)
  {
  }

  /** The block that is being torn down stays consistent. */
  lemma TornBlockKept(s: State, t: Tid, step: Step)
    requires Inv(s) && Enabled(s, t, step) && (step.DeleteObject? || step.DropWeak? || step.DeleteBlock?)
    ensures PcOf(s, t).c in Next(s, t, step).blocks && BlockOk(Next(s, t, step), PcOf(s, t).c)
  {
    hide CountsOk;
    var c := PcOf(s, t).c;
    assert ThreadOk(s, t) && BlockOk(s, c);
    TeardownCounts(s.blocks[c], t);
  }

  lemma LockedBlockKept(s: State, t: Tid, spurious: bool, h: Handle)
    requires Inv(s) && Enabled(s, t, LockCas(spurious, h))
    ensures BlockOk(Next(s, t, LockCas(spurious, h)), PcOf(s, t).c)
  {
    assert ThreadOk(s, t) && BlockOk(s, PcOf(s, t).c);
  }

  /** The block a step is about, new ones included. */
  function About(s: State, t: Tid, step: Step): Cb {
    if step.Make? then step.c
    else match PcOf(s, t)
      case DeletingObject(c) => c
      case DroppingWeak(c) => c
      case DeletingBlock(c) => c
      case Locking(c, _, _) => c
      case Idle => if step.DeleteObject? || step.DropWeak? || step.DeleteBlock? || step.LockCas? then 0 else step.c
  }

  lemma OtherBlockKept(s: State, t: Tid, step: Step, c: Cb)
    requires Inv(s) && Enabled(s, t, step) && c in s.blocks && c != About(s, t, step)
    ensures var s' := Next(s, t, step); c in s'.blocks && s'.blocks[c] == s.blocks[c] && BlockOk(s', c)
  {
    hide CountsOk;
    assert BlockOk(s, c);
  }

  lemma OwnThreadKept(s: State, t: Tid, step: Step)
    requires Inv(s) && Enabled(s, t, step)
    ensures ThreadOk(Next(s, t, step), t)
  {
    assert ThreadOk(s, t);
    if !step.Make? {
      hide Tended;
      assert BlockOk(s, Touched(s, t, step));
    }
  }

  lemma OtherThreadKept(s: State, t: Tid, step: Step, u: Tid)
    requires Inv(s) && Enabled(s, t, step) && u != t
    ensures ThreadOk(Next(s, t, step), u)
  {
    hide CountsOk, Tended;
    assert ThreadOk(s, u) && ThreadOk(s, t);
    if PcOf(s, t).Idle? && !PcOf(s, u).Idle? && !step.Make? && PcOf(s, u).c == step.c {
      HandlesLeaveWork(s, t, step, u);
    } else if !PcOf(s, t).Idle? && !PcOf(s, u).Idle? && PcOf(s, u).c == PcOf(s, t).c {
      assert BlockOk(s, PcOf(s, u).c);
      WorkLeavesWork(s, t, step, u);
    }
  }

  /** Two threads in the middle of something on one block do not take each other's work away. */
  lemma WorkLeavesWork(s: State, t: Tid, step: Step, u: Tid)
    requires Enabled(s, t, step) && u != t && !PcOf(s, t).Idle? && !PcOf(s, u).Idle? && PcOf(s, u).c == PcOf(s, t).c
    requires ThreadOk(s, u) && ThreadOk(s, t) && BlockOk(s, PcOf(s, t).c)
    ensures ThreadOk(Next(s, t, step), u)
  {
    hide Tended;
  }

  /** Handle operations leave a teardown that another thread works on, and a handle it borrows, alone. */
  lemma HandlesLeaveWork(s: State, t: Tid, step: Step, u: Tid)
    requires Inv(s) && Enabled(s, t, step) && u != t && PcOf(s, t).Idle? && !step.Make?
    requires !PcOf(s, u).Idle? && PcOf(s, u).c == step.c
    ensures ThreadOk(Next(s, t, step), u)
  {
    hide Tended, CountsOk;
    assert ThreadOk(s, u) && BlockOk(s, step.c);
    if step.ReleaseShared? {
      OwnersCount(s.blocks[step.c], step.h, t);
    } else if step.ReleaseWeak? {
      WeaksCount(s.blocks[step.c], step.w, t);
      if PcOf(s, u).Locking? && PcOf(s, u).w == step.w {
        assert false;
      }
    }
  }

  /** Any one step of any thread keeps the invariant. */
  lemma StepKeeps(s: State, t: Tid, step: Step)
    requires Inv(s) && Enabled(s, t, step)
    ensures Inv(Next(s, t, step))
  {
    var s' := Next(s, t, step);
    assert ThreadOk(s, t);
    forall c | c in s'.blocks
      ensures BlockOk(s', c)
    {
      if c != About(s, t, step) {
        OtherBlockKept(s, t, step, c);
      } else if step.LockCas? {
        LockedBlockKept(s, t, step.spurious, step.h);
      } else if step.DeleteObject? || step.DropWeak? || step.DeleteBlock? {
        TornBlockKept(s, t, step);
      } else if !step.Make? {
        HandleBlockKept(s, t, step);
      }
    }
    forall u
      ensures ThreadOk(s', u)
    {
      if u == t {
        OwnThreadKept(s, t, step);
      } else {
        OtherThreadKept(s, t, step, u);
      }
    }
  }

  /** No step touches a freed block, deletes an object or a block twice, or takes a counter below zero. */
  lemma NoUseAfterFree(s: State, t: Tid, step: Step)
    requires Inv(s) && Enabled(s, t, step) && !step.Make?
    ensures var b := s.blocks[Touched(s, t, step)];
            && b.blockDeletes == 0
            && (step.DeleteObject? ==> b.objectDeletes == 0 && b.owners == {})
            && (step.DeleteBlock? ==> b.owners == {} && b.weaks == {} && b.objectDeletes == 1)
            && (step.ReleaseShared? ==> b.strong > 0)
            && (step.DropWeak? || step.ReleaseWeak? ==> b.weak > 0)
  {
    assert ThreadOk(s, t);
    var c := Touched(s, t, step);
    assert BlockOk(s, c);
    var b := s.blocks[c];
    if step.ReleaseWeak? || step.CopyWeak? || step.LockLoad? {
      assert |b.weaks| > 0;
    } else if step.LockCas? {
      assert PcOf(s, t).w in b.weaks && |b.weaks| > 0;
    } else if step.ReleaseShared? || step.CopyShared? || step.WeakFromShared? {
      assert |b.owners| > 0;
    }
  }

  /** While anyone owns the object it has not been deleted, and the block is there for every handle. */
  lemma OwnersSeeTheObject(s: State, c: Cb, h: Handle)
    requires Inv(s) && c in s.blocks && (h in s.blocks[c].owners || h in s.blocks[c].weaks)
    ensures s.blocks[c].blockDeletes == 0
    ensures h in s.blocks[c].owners ==> s.blocks[c].objectDeletes == 0
  {
  }

  /** A strong count that has reached zero stays there: neither lock() nor anything else revives the object. */
  lemma ZeroIsFinal(s: State, t: Tid, step: Step, c: Cb)
    requires Inv(s) && Enabled(s, t, step) && c in s.blocks && s.blocks[c].strong == 0
    ensures c in Next(s, t, step).blocks && Next(s, t, step).blocks[c].strong == 0
    ensures step.LockCas? && PcOf(s, t).c == c ==>
            Next(s, t, step).blocks[c].owners == {} && PcOf(Next(s, t, step), t) == Idle
  {
    assert BlockOk(s, c) && ThreadOk(s, t);
  }

  /** lock() succeeds only on an object that is still owned, and then adds exactly one owner. */
  lemma LockAddsAnOwner(s: State, t: Tid, spurious: bool, h: Handle)
    requires Inv(s) && Enabled(s, t, LockCas(spurious, h))
    ensures var c, s' := PcOf(s, t).c, Next(s, t, LockCas(spurious, h));
            if s.blocks[c].strong == PcOf(s, t).count && !spurious
            then s.blocks[c].owners != {} && s.blocks[c].objectDeletes == 0
                && s'.blocks[c].owners == s.blocks[c].owners + {h}
            else s'.blocks[c] == s.blocks[c]
  {
    assert ThreadOk(s, t);
    assert BlockOk(s, PcOf(s, t).c);
  }

  /** What a step does to the owning handles of any block: a new pointer, a copy and a successful lock add theirs, a
      release takes its own away, and nothing else changes them. A lock succeeds unless it fails spuriously or the
      strong count is no longer the one it loaded. */
  lemma OwnersAfter(s: State, t: Tid, step: Step, d: Cb, x: Handle)
    requires Inv(s) && Enabled(s, t, step)
    ensures Owns(Next(s, t, step), d, x) <==>
      match step {
        case Make(c, h) => Owns(s, d, x) || (d, x) == (c, h)
        case CopyShared(c, _, h) => Owns(s, d, x) || (d, x) == (c, h)
        case ReleaseShared(c, h) => Owns(s, d, x) && (d, x) != (c, h)
        case LockCas(spurious, h) =>
          var pc := PcOf(s, t);
          Owns(s, d, x) || ((d, x) == (pc.c, h) && !spurious && s.blocks[pc.c].strong == pc.count)
        case _ => Owns(s, d, x)
      }
  {
    hide CountsOk, Tended;
    assert ThreadOk(s, t);
  }

  /** The same for weak handles. */
  lemma WeaksAfter(s: State, t: Tid, step: Step, d: Cb, x: Handle)
    requires Inv(s) && Enabled(s, t, step)
    ensures HoldsWeakly(Next(s, t, step), d, x) <==>
      match step {
        case WeakFromShared(c, _, w) => HoldsWeakly(s, d, x) || (d, x) == (c, w)
        case CopyWeak(c, _, w) => HoldsWeakly(s, d, x) || (d, x) == (c, w)
        case ReleaseWeak(c, w) => HoldsWeakly(s, d, x) && (d, x) != (c, w)
        case _ => HoldsWeakly(s, d, x)
      }
  {
    hide CountsOk, Tended;
    assert ThreadOk(s, t);
  }

  ghost predicate HoldsWeakly(s: State, d: Cb, x: Handle) {
    d in s.blocks && x in s.blocks[d].weaks
  }

  /** Where a step leaves its thread, in terms of handles: it starts to delete the object exactly when it has released
      the last owner, to delete the block exactly when nobody is left who holds it, and lock() goes on trying exactly
      while there is an owner. Other threads stay where they are. */
  lemma ThreadAfter(s: State, t: Tid, step: Step)
    requires Inv(s) && Enabled(s, t, step)
    ensures var s', pc := Next(s, t, step), PcOf(Next(s, t, step), t);
      match step {
        case ReleaseShared(c, _) => pc == if s'.blocks[c].owners == {} then DeletingObject(c) else Idle
        case DeleteObject => pc == DroppingWeak(PcOf(s, t).c)
        case DropWeak => var c := PcOf(s, t).c; pc == if s'.blocks[c].weaks == {} then DeletingBlock(c) else Idle
        case ReleaseWeak(c, _) =>
          pc == if s'.blocks[c].weaks == {} && s'.blocks[c].teardown.Dropped? then DeletingBlock(c) else Idle
        case LockLoad(c, w) => if s.blocks[c].owners == {} then pc == Idle else pc == Locking(c, w, s.blocks[c].strong)
        case LockCas(spurious, _) =>
          var was := PcOf(s, t);
          var b := s.blocks[was.c];
          if b.owners == {} || (b.strong == was.count && !spurious) then pc == Idle
          else pc == Locking(was.c, was.w, b.strong)
        case _ => pc == Idle
      }
    ensures forall u | u != t :: PcOf(Next(s, t, step), u) == PcOf(s, u)
  {
    hide Tended, CountsOk;
    assert ThreadOk(s, t);
    if !step.Make? {
      var c, s' := Touched(s, t, step), Next(s, t, step);
      assert BlockOk(s, c);
      StepKeeps(s, t, step);
      assert BlockOk(s', c);
      ZeroMeans(s.blocks[c]);
      ZeroMeans(s'.blocks[c]);
    }
  }

  /** The counters are zero when there is nobody to count. */
  lemma ZeroMeans(b: Block)
    requires CountsOk(b)
    ensures b.strong == 0 <==> b.owners == {}
    ensures b.weak == 0 <==> b.weaks == {} && b.teardown.Dropped?
  {
  }

  // ---- Runs -----------------------------------------------------------------------------------------

  ghost predicate Run(states: seq<State>, moves: seq<(Tid, Step)>) {
    && |states| == |moves| + 1 && Init(states[0])
    && forall i: nat | i < |moves| :: Moves(states, moves, i)
  }

  ghost predicate Moves(states: seq<State>, moves: seq<(Tid, Step)>, i: nat)
    requires i < |moves| && |states| == |moves| + 1
  {
    Enabled(states[i], moves[i].0, moves[i].1) && states[i + 1] == Next(states[i], moves[i].0, moves[i].1)
  }

  lemma {:induction false} RunKeeps(states: seq<State>, moves: seq<(Tid, Step)>, i: nat)
    requires Run(states, moves) && i < |states|
    ensures Inv(states[i])
  {
    if i > 0 {
      RunKeeps(states, moves, i - 1);
      assert Moves(states, moves, i - 1);
      StepKeeps(states[i - 1], moves[i - 1].0, moves[i - 1].1);
    }
  }

  /** In every run, once all handles of a block are gone and no thread is inside an operation, the object and the block
      have each been deleted exactly once; before that, never more than once. */
  lemma DeletedExactlyOnce(states: seq<State>, moves: seq<(Tid, Step)>, i: nat, c: Cb)
    requires Run(states, moves) && i < |states| && c in states[i].blocks
    ensures var b := states[i].blocks[c];
            && b.objectDeletes <= 1 && b.blockDeletes <= 1
            && (b.owners == {} && b.weaks == {} && (forall t :: PcOf(states[i], t) == Idle) ==>
                  b.objectDeletes == 1 && b.blockDeletes == 1)
  {
    RunKeeps(states, moves, i);
    assert BlockOk(states[i], c);
  }

  // ---- Copy assignment ------------------------------------------------------------------------------

  /** operator= resets its target before it reads its source. The copy can follow at once if and only if the target was
      not the only owner; otherwise the object's destructor comes in between. */
  lemma AssignmentResetsFirst(s: State, t: Tid, c: Cb, h: Handle, d: Cb, from: Handle)
    requires Inv(s) && Enabled(s, t, ReleaseShared(c, h))
    requires d in s.blocks && from in s.blocks[d].owners && (d, from) != (c, h) && (d != c ==> Unused(s.blocks[d], h))
    ensures var s' := Next(s, t, ReleaseShared(c, h));
            && from in s'.blocks[d].owners
            && (Enabled(s', t, CopyShared(d, from, h)) <==> s.blocks[c].owners != {h})
            && (PcOf(s', t) == DeletingObject(c) <==> s.blocks[c].owners == {h})
  {
    assert BlockOk(s, c);
    var b := s.blocks[c];
    assert b.owners == {h} + (b.owners - {h}) && |b.owners| == 1 + |b.owners - {h}|;
    assert b.owners - {h} == {} <==> b.owners == {h};
  }

  ghost predicate Owns(s: State, d: Cb, x: Handle) {
    d in s.blocks && x in s.blocks[d].owners
  }

  /** An owner stays one through every step but its own release. */
  lemma OwnerStays(s: State, t: Tid, step: Step, d: Cb, x: Handle)
    requires Enabled(s, t, step) && Owns(s, d, x)
    ensures Owns(Next(s, t, step), d, x) <==> step != ReleaseShared(d, x)
  {
  }

  /** Steps of any threads from any state on. */
  ghost predicate Steps(states: seq<State>, moves: seq<(Tid, Step)>) {
    |states| == |moves| + 1 && forall i: nat | i < |moves| :: Moves(states, moves, i)
  }

  /** The handle x of block d is released by one of the first n moves. */
  ghost predicate ReleasedBy(moves: seq<(Tid, Step)>, n: nat, d: Cb, x: Handle)
    requires n <= |moves|
  {
    exists i | 0 <= i < n :: moves[i].1 == ReleaseShared(d, x)
  }

  /** A released handle's name is given to a new owner of the same block. */
  ghost predicate Reused(states: seq<State>, d: Cb, x: Handle) {
    exists i | 0 < i < |states| :: !Owns(states[i - 1], d, x) && Owns(states[i], d, x)
  }

  /** Unless its name is given away again, a handle still owns its block if and only if nobody has released it. */
  lemma {:induction false} OwnsIffNotReleased(states: seq<State>, moves: seq<(Tid, Step)>, n: nat, d: Cb, x: Handle)
    requires Steps(states, moves) && n <= |moves| && Owns(states[0], d, x) && !Reused(states, d, x)
    ensures Owns(states[n], d, x) <==> !ReleasedBy(moves, n, d, x)
  {
    if n > 0 {
      OwnsIffNotReleased(states, moves, n - 1, d, x);
      assert Moves(states, moves, n - 1);
      if Owns(states[n - 1], d, x) {
        OwnerStays(states[n - 1], moves[n - 1].0, moves[n - 1].1, d, x);
        assert ReleasedBy(moves, n, d, x) <==> moves[n - 1].1 == ReleaseShared(d, x);
      } else {
        var i :| 0 <= i < n - 1 && moves[i].1 == ReleaseShared(d, x);
        assert !Owns(states[n], d, x);
      }
    }
  }

  /** operator= resets its target h and, when its thread is through with that, copies its source. The copy is then a
      legal step, on a block that is still there, if and only if nobody has released the source handle meanwhile:
      neither another thread nor the destructor of an object that the handle lies in. */
  lemma AssignmentIsSafeIff(states: seq<State>, moves: seq<(Tid, Step)>, t: Tid, c: Cb, h: Handle, d: Cb, from: Handle)
    requires Steps(states, moves) && Inv(states[0]) && moves != [] && moves[0] == (t, ReleaseShared(c, h))
    requires Owns(states[0], d, from) && (d, from) != (c, h) && !Reused(states, d, from)
    requires var last := states[|moves|]; PcOf(last, t).Idle? && (d in last.blocks ==> Unused(last.blocks[d], h))
    ensures var last := states[|moves|];
            && (Enabled(last, t, CopyShared(d, from, h)) <==> !ReleasedBy(moves, |moves|, d, from))
            && (Enabled(last, t, CopyShared(d, from, h)) ==>
                  last.blocks[d].blockDeletes == 0 && last.blocks[d].objectDeletes == 0)
  {
    hide Unused;
    OwnsIffNotReleased(states, moves, |moves|, d, from);
    StepsKeep(states, moves, |moves|);
    if Owns(states[|moves|], d, from) {
      OwnersSeeTheObject(states[|moves|], d, from);
    }
  }

  lemma {:induction false} StepsKeep(states: seq<State>, moves: seq<(Tid, Step)>, n: nat)
    requires Steps(states, moves) && Inv(states[0]) && n <= |moves|
    ensures Inv(states[n])
  {
    if n > 0 {
      StepsKeep(states, moves, n - 1);
      assert Moves(states, moves, n - 1);
      StepKeeps(states[n - 1], moves[n - 1].0, moves[n - 1].1);
    }
  }

  lemma OneMore(states: seq<State>, moves: seq<(Tid, Step)>, t: Tid, step: Step, s': State)
    returns (states': seq<State>, moves': seq<(Tid, Step)>)
    requires Run(states, moves)
    requires var s := states[|states| - 1]; Enabled(s, t, step) && s' == Next(s, t, step)
    ensures Run(states', moves') && states' == states + [s'] && moves' == moves + [(t, step)]
  {
    states', moves' := states + [s'], moves + [(t, step)];
    forall i: nat | i < |moves'|
      ensures Moves(states', moves', i)
    {
      if i < |moves| {
        assert Moves(states, moves, i);
      }
    }
  }

  const OWNED := Block(1, 1, {1}, {}, Owned, Live, 0, 0)
  const INNER := Block(1, 1, {2}, {}, Owned, Live, 0, 0)
  const DELETED := Block(0, 0, {}, {}, Dropped, Freed, 1, 1)

  /** head = head->next for the only owner of a list node: thread 0 resets handle 1, the node's destructor releases
      handle 2 that lies in the node (as thread 1, see Enabled), and the block that the copy would have counted is
      gone. */
  lemma SourceInsideDies() returns (states: seq<State>, moves: seq<(Tid, Step)>)
    ensures Run(states, moves)
    ensures var last := states[|states| - 1];
            && PcOf(last, 0).Idle? && last.blocks == map[1 := DELETED, 2 := DELETED]
            && !Enabled(last, 0, CopyShared(2, 2, 1))
    ensures |moves| > 2 && moves[2] == (0, ReleaseShared(1, 1)) && Owns(states[2], 2, 2)
  {
    states, moves := NodeIsReset();
    states, moves := TearDown(states, moves, 1, 2);
    states, moves := TearDown(states, moves, 0, 1);
    var s := states[|states| - 1];
    assert s.blocks == map[1 := DELETED, 2 := DELETED];
  }

  lemma NodeIsReset() returns (states: seq<State>, moves: seq<(Tid, Step)>)
    ensures Run(states, moves) && |moves| == 4 && moves[2] == (0, ReleaseShared(1, 1)) && Owns(states[2], 2, 2)
    ensures states[4].blocks ==
            map[1 := Block(0, 1, {}, {}, Last(0), Live, 0, 0), 2 := Block(0, 1, {}, {}, Last(1), Live, 0, 0)]
    ensures states[4].pcs == map[0 := DeletingObject(1), 1 := DeletingObject(2)]
  {
    states, moves := [State(map[], map[])], [];
    hide Run, Init;
    var s := Put(State(map[], map[]), 0, Idle, 1, OWNED);
    states, moves := OneMore(states, moves, 0, Make(1, 1), s);
    s := Put(s, 0, Idle, 2, INNER);
    states, moves := OneMore(states, moves, 0, Make(2, 2), s);
    s := Put(s, 0, DeletingObject(1), 1, DropOwner(OWNED, 1, 0));
    states, moves := OneMore(states, moves, 0, ReleaseShared(1, 1), s);
    s := Put(s, 1, DeletingObject(2), 2, DropOwner(INNER, 2, 1));
    states, moves := OneMore(states, moves, 1, ReleaseShared(2, 2), s);
    assert DropOwner(OWNED, 1, 0) == Block(0, 1, {}, {}, Last(0), Live, 0, 0);
    assert DropOwner(INNER, 2, 1) == Block(0, 1, {}, {}, Last(1), Live, 0, 0);
  }

  /** The rest of a teardown whose block nobody else holds. */
  lemma TearDown(states: seq<State>, moves: seq<(Tid, Step)>, t: Tid, c: Cb)
    returns (states': seq<State>, moves': seq<(Tid, Step)>)
    requires Run(states, moves)
    requires var s := states[|states| - 1];
      PcOf(s, t) == DeletingObject(c) && c in s.blocks && s.blocks[c] == Block(0, 1, {}, {}, Last(t), Live, 0, 0)
    ensures Run(states', moves') && states <= states' && moves <= moves'
    ensures states'[|states'| - 1] == Put(states[|states| - 1], t, Idle, c, DELETED)
  {
    assert states != [];
    hide Run;
    var s, b := states[|states| - 1], Block(0, 1, {}, {}, Deleted(t), Live, 1, 0);
    var s1 := Put(s, t, DroppingWeak(c), c, b);
    states', moves' := OneMore(states, moves, t, DeleteObject, s1);
    var s2 := Put(s, t, DeletingBlock(c), c, b.(weak := 0, status := Doomed(t), teardown := Dropped));
    states', moves' := OneMore(states', moves', t, DropWeak, s2);
    states', moves' := OneMore(states', moves', t, DeleteBlock, Put(s, t, Idle, c, DELETED));
  }

  // ---- The control block object ---------------------------------------------------------------------

  /** A control block as it is updated in place by whole calls of the pointers that share it. */
  class ControlBlock {
    var strong: nat
    var weak: nat
    ghost var owners: set<Handle>
    ghost var weaks: set<Handle>
    ghost var teardown: Teardown
    ghost var status: Status
    ghost var objectDeletes: nat
    ghost var blockDeletes: nat

    ghost function View(): Block
      reads this
    {
      Block(strong, weak, owners, weaks, teardown, status, objectDeletes, blockDeletes)
    }

    /** Counters right, and no teardown half done. */
    ghost predicate Valid()
      reads this
    {
      CountsOk(View()) && (teardown.Owned? || teardown.Dropped?) && (status.Live? || status.Freed?)
    }

    /** Between calls the object is gone exactly when nobody owns it, and the block when nobody holds it at all. */
    lemma DeletedWhenUnused()
      requires Valid()
      ensures objectDeletes == if owners == {} then 1 else 0
      ensures blockDeletes == if owners == {} && weaks == {} then 1 else 0
    {
      assert owners != {} ==> |owners| > 0;
      assert weaks != {} ==> |weaks| > 0;
    }

    /** SharedPtr(T *): one owner, and its weak count. */
    constructor (h: Handle)
      ensures Valid() && owners == {h} && weaks == {}
    {
      strong, weak := 1, 1;
      owners, weaks, teardown, status, objectDeletes, blockDeletes := {h}, {}, Owned, Live, 0, 0;
    }

    method CopyShared(from: Handle, h: Handle)
      requires Valid() && from in owners && Unused(View(), h)
      modifies this
      ensures Valid() && owners == old(owners) + {h} && weaks == old(weaks)
    {
      OwnersCount(View(), h, 0);
      strong, owners := strong + 1, owners + {h};
      assert View() == AddOwner(old(View()), h);
    }

    /** fetch_sub(1) on weak_count, which deletes the block when it saw 1. */
    method SubtractWeak(t: Tid)
      requires weak > 0 && status.Live?
      modifies this`weak, this`status, this`blockDeletes
      ensures weak == old(weak) - 1
      ensures status == (if old(weak) == 1 then Freed else Live)
      ensures blockDeletes == old(blockDeletes) + if old(weak) == 1 then 1 else 0
    {
      var seen := weak;
      weak := weak - 1;
      if seen == 1 {
        status, blockDeletes := Freed, blockDeletes + 1;
      }
    }

    /** ~SharedPtr and reset: the last owner deletes the object and drops the weak count of the owners. */
    method ReleaseShared(t: Tid, h: Handle)
      requires Valid() && h in owners
      modifies this
      ensures Valid() && owners == old(owners) - {h} && weaks == old(weaks)
    {
      OwnersCount(View(), h, t);
      var seen := strong;
      strong, owners := strong - 1, owners - {h};
      if seen == 1 {
        teardown := Last(t);
        assert View() == DropOwner(old(View()), h, t);
        TeardownCounts(View(), t);
        objectDeletes, teardown := objectDeletes + 1, Deleted(t);
        ghost var deleted := View();
        TeardownCounts(deleted, t);
        SubtractWeak(t);
        teardown := Dropped;
        TeardownCounts(DropOwnersWeak(deleted, t), t);
        assert View() == if deleted.weak == 1 then BlockDeleted(DropOwnersWeak(deleted, t))
            else DropOwnersWeak(deleted, t);
      } else {
        assert View() == DropOwner(old(View()), h, t);
      }
    }

    /** WeakPtr(const SharedPtr &) and WeakPtr(const WeakPtr &). */
    method CopyWeak(from: Handle, w: Handle)
      requires Valid() && (from in owners || from in weaks) && Unused(View(), w)
      modifies this
      ensures Valid() && weaks == old(weaks) + {w} && owners == old(owners)
    {
      WeaksCount(View(), w, 0);
      weak, weaks := weak + 1, weaks + {w};
      assert View() == AddWeak(old(View()), w);
    }

    /** ~WeakPtr and reset. */
    method ReleaseWeak(t: Tid, w: Handle)
      requires Valid() && w in weaks
      modifies this
      ensures Valid() && weaks == old(weaks) - {w} && owners == old(owners)
    {
      ghost var before := View();
      WeaksCount(before, w, t);
      SubtractWeak(t);
      weaks := weaks - {w};
      ghost var dropped := DropWeakHandle(before, w, t);
      TeardownCounts(dropped, t);
      assert View() == if before.weak == 1 then BlockDeleted(dropped) else dropped;
    }

    /** lock: succeeds exactly while the object is owned, however often the compare-exchange fails spuriously. */
    method Lock(w: Handle, h: Handle, spurious: nat) returns (ok: bool)
      requires Valid() && w in weaks && Unused(View(), h)
      modifies this
      ensures Valid() && weaks == old(weaks) && (ok <==> old(owners) != {})
      ensures owners == if ok then old(owners) + {h} else old(owners)
    {
      var left, count := spurious, strong;
      while count > 0
        invariant View() == old(View()) && count == strong
        decreases left
      {
        if strong == count && left == 0 {
          OwnersCount(View(), h, 0);
          strong, owners := count + 1, owners + {h};
          assert View() == AddOwner(old(View()), h);
          return true;
        }
        count, left := strong, left - 1;
      }
      return false;
    }
  }
}
