/** The writer-priority shared mutex: one step per critical section, condition variables as explicit sets of sleeping
    and woken threads, spurious wake-ups allowed. Clients unlock only what they hold. */
module WriterPriorityLock {
  type Tid = nat

  datatype State = State(readers: int, waitingWriters: int, writer: bool,
                         reading: set<Tid>, writing: set<Tid>,
                         sleepingReaders: set<Tid>, wokenReaders: set<Tid>,
                         sleepingWriters: set<Tid>, wokenWriters: set<Tid>)

  /** notify is the thread a notify_one on writer_cv_ would pick. */
  datatype Step =
    | LockShared
    | ReaderWake
    | UnlockShared(notify: Tid)
    | Lock
    | WriterWake
    | Unlock(notify: Tid)

  ghost predicate Outside(s: State, t: Tid) {
    && t !in s.reading && t !in s.writing && t !in s.sleepingReaders && t !in s.wokenReaders
    && t !in s.sleepingWriters && t !in s.wokenWriters
  }

  ghost predicate Picks(sleeping: set<Tid>, notify: Tid) {
    sleeping != {} ==> notify in sleeping
  }

  ghost predicate Enabled(s: State, t: Tid, step: Step) {
    match step
    case LockShared => Outside(s, t)
    case ReaderWake => t in s.sleepingReaders || t in s.wokenReaders
    case UnlockShared(n) => t in s.reading && Picks(s.sleepingWriters, n)
    case Lock => Outside(s, t)
    case WriterWake => t in s.sleepingWriters || t in s.wokenWriters
    case Unlock(n) => t in s.writing && Picks(s.sleepingWriters, n)
  }

  function NotifyWriter(s: State, n: Tid): State {
    if n in s.sleepingWriters
    then s.(sleepingWriters := s.sleepingWriters - {n}, wokenWriters := s.wokenWriters + {n})
    else s
  }

  /** lock_shared from the evaluation of its wait predicate on. */
  function ReaderSection(s: State, t: Tid): State {
    if !s.writer && s.waitingWriters == 0
    then s.(readers := s.readers + 1, reading := s.reading + {t})
    else s.(sleepingReaders := s.sleepingReaders + {t})
  }

  /** lock from the evaluation of its wait predicate on; the writer is already counted as waiting. */
  function WriterSection(s: State, t: Tid): State {
    if !s.writer && s.readers == 0
    then s.(waitingWriters := s.waitingWriters - 1, writer := true, writing := s.writing + {t})
    else s.(sleepingWriters := s.sleepingWriters + {t})
  }

  function ReaderAwake(s: State, t: Tid): State {
    s.(sleepingReaders := s.sleepingReaders - {t}, wokenReaders := s.wokenReaders - {t})
  }

  function WriterAwake(s: State, t: Tid): State {
    s.(sleepingWriters := s.sleepingWriters - {t}, wokenWriters := s.wokenWriters - {t})
  }

  ghost function Next(s: State, t: Tid, step: Step): State
    requires Enabled(s, t, step)
  {
    match step
    case LockShared => ReaderSection(s, t)
    case ReaderWake => ReaderSection(ReaderAwake(s, t), t)
    case UnlockShared(n) =>
      var s1 := s.(readers := s.readers - 1, reading := s.reading - {t});
      if s1.readers == 0 then NotifyWriter(s1, n) else s1
    case Lock => WriterSection(s.(waitingWriters := s.waitingWriters + 1), t)
    case WriterWake => WriterSection(WriterAwake(s, t), t)
    case Unlock(n) =>
      var s1 := s.(writer := false, writing := s.writing - {t});
      if s1.waitingWriters > 0 then NotifyWriter(s1, n)
      else s1.(sleepingReaders := {}, wokenReaders := s1.wokenReaders + s1.sleepingReaders)
  }

  function Init(): State {
    State(0, 0, false, {}, {}, {}, {}, {}, {})
  }

  // ---- The invariant --------------------------------------------------------------------------------

  /** The three counters say who holds the lock and how many writers wait; `arriving` writers are counted but hold the
      mutex. */
  ghost predicate Counts(s: State, arriving: nat) {
    && s.readers == |s.reading| && s.writing !! s.reading
    && s.sleepingWriters !! s.wokenWriters && s.sleepingReaders !! s.wokenReaders
    && s.waitingWriters == |s.sleepingWriters| + |s.wokenWriters| + arriving
    && |s.writing| == if s.writer then 1 else 0
  }

  /** A writer excludes readers and other writers. */
  ghost predicate Exclusive(s: State) {
    |s.writing| <= 1 && (s.writing != {} ==> s.reading == {})
  }

  /** A free lock with writers waiting has one of them notified; a reader sleeps on only because of a writer. */
  ghost predicate NoLostWakeUp(s: State) {
    && (!s.writer && s.readers == 0 && s.waitingWriters > 0 ==> s.wokenWriters != {})
    && (s.sleepingReaders != {} ==> s.writer || s.waitingWriters > 0)
  }

  ghost predicate Inv(s: State) {
    Counts(s, 0) && Exclusive(s) && NoLostWakeUp(s)
  }

  lemma Leaves(threads: set<Tid>, t: Tid)
    ensures t in threads ==> |threads - {t}| == |threads| - 1
    ensures t !in threads ==> threads - {t} == threads
    ensures t !in threads ==> |threads + {t}| == |threads| + 1
  {
  }

  lemma ReaderSectionKeeps(s: State, t: Tid)
    requires Inv(s) && t !in s.reading && t !in s.writing && t !in s.wokenReaders
    ensures Inv(ReaderSection(s, t))
  {
  }

  lemma WriterSectionKeeps(s: State, t: Tid)
    requires Counts(s, 1) && Exclusive(s) && t !in s.reading && t !in s.writing && t !in s.sleepingWriters
        && t !in s.wokenWriters
    ensures Inv(WriterSection(s, t))
  {
  }

  lemma NotifyWriterKeeps(s: State, n: Tid)
    requires Counts(s, 0) && Exclusive(s) && Picks(s.sleepingWriters, n)
        && (s.sleepingReaders != {} ==> s.writer || s.waitingWriters > 0)
    ensures Inv(NotifyWriter(s, n))
  {
  }

  lemma WriterAwakeCounts(s: State, t: Tid)
    requires Inv(s) && (t in s.sleepingWriters || t in s.wokenWriters)
    ensures Counts(WriterAwake(s, t), 1)
  {
  }

  /** Threads wait or hold in one place only. */
  ghost predicate OnePlace(s: State) {
    && (s.sleepingReaders + s.wokenReaders) !! (s.sleepingWriters + s.wokenWriters)
    && forall t | t in s.sleepingReaders || t in s.wokenReaders || t in s.sleepingWriters || t in s.wokenWriters ::
      t !in s.reading && t !in s.writing
  }

  /** Any one critical section of any thread keeps the invariant. */
  lemma StepKeeps(s: State, t: Tid, step: Step)
    requires Inv(s) && OnePlace(s) && Enabled(s, t, step)
    ensures Inv(Next(s, t, step)) && OnePlace(Next(s, t, step))
  {
    Places(s, t, step);
    match step
    case LockShared => ReaderSectionKeeps(s, t);
    case ReaderWake => ReaderSectionKeeps(ReaderAwake(s, t), t);
    case UnlockShared(n) =>
      Leaves(s.reading, t);
      var s1 := s.(readers := s.readers - 1, reading := s.reading - {t});
      if s1.readers == 0 {
        NotifyWriterKeeps(s1, n);
      }
    case Lock => WriterSectionKeeps(s.(waitingWriters := s.waitingWriters + 1), t);
    case WriterWake =>
      WriterAwakeCounts(s, t);
      WriterSectionKeeps(WriterAwake(s, t), t);
    case Unlock(n) =>
      Leaves(s.writing, t);
      var s1 := s.(writer := false, writing := s.writing - {t});
      if s1.waitingWriters > 0 {
        NotifyWriterKeeps(s1, n);
      }
  }

  lemma Places(s: State, t: Tid, step: Step)
    requires OnePlace(s) && Enabled(s, t, step)
    ensures OnePlace(Next(s, t, step))
  {
  }

  lemma ArrivesOutside(s: State, t: Tid, step: Step)
    requires OnePlace(s) && Enabled(s, t, step) && !step.UnlockShared? && !step.Unlock?
    ensures t !in s.reading && t !in s.writing
  {
  }

  ghost predicate WaitsToRead(s: State, t: Tid) {
    t in s.sleepingReaders || t in s.wokenReaders
  }

  ghost predicate WaitsToWrite(s: State, t: Tid) {
    t in s.sleepingWriters || t in s.wokenWriters
  }

  /** What a step does to the thread that takes it: a locking call or wake-up gets in when nothing is in its way and
      else waits, an unlock leaves the thread with nothing. */
  lemma StepOfCaller(s: State, t: Tid, step: Step)
    requires Inv(s) && OnePlace(s) && Enabled(s, t, step)
    ensures var s' := Next(s, t, step);
            match step {
              case LockShared | ReaderWake =>
                && (t in s'.reading <==> s.writing == {} && forall u :: !WaitsToWrite(s, u))
                && (t !in s'.reading ==> t in s'.sleepingReaders)
                && t !in s'.wokenReaders && t !in s'.writing && !WaitsToWrite(s', t)
              case Lock | WriterWake =>
                && (t in s'.writing <==> s.writing == {} && s.reading == {})
                && (t !in s'.writing ==> t in s'.sleepingWriters)
                && t !in s'.wokenWriters && t !in s'.reading && !WaitsToRead(s', t)
              case UnlockShared(_) | Unlock(_) =>
                t !in s'.reading && t !in s'.writing && !WaitsToRead(s', t) && !WaitsToWrite(s', t)
            }
  {
    hide Inv;
    InvParts(s);
    NoWriterWaits(s);
  }

  lemma InvParts(s: State)
    requires Inv(s)
    ensures s.writing !! s.reading
    ensures s.writer <==> s.writing != {}
    ensures s.readers == 0 <==> s.reading == {}
    ensures s.waitingWriters >= 0
  {
  }

  lemma NoWriterWaits(s: State)
    requires Inv(s)
    ensures s.waitingWriters >= 0
    ensures s.waitingWriters == 0 <==> s.sleepingWriters == {} && s.wokenWriters == {}
    ensures s.waitingWriters == 0 <==> forall u :: !WaitsToWrite(s, u)
  {
    if s.waitingWriters != 0 {
      var u :| u in s.sleepingWriters + s.wokenWriters;
      assert WaitsToWrite(s, u);
    } else {
      assert s.sleepingWriters == {} && s.wokenWriters == {};
    }
  }

  /** No step changes what another thread holds or whether it waits. */
  lemma StepOfOthers(s: State, t: Tid, step: Step, u: Tid)
    requires Enabled(s, t, step) && u != t
    ensures var s' := Next(s, t, step);
            && (u in s'.reading <==> u in s.reading) && (u in s'.writing <==> u in s.writing)
            && (WaitsToRead(s', u) <==> WaitsToRead(s, u)) && (WaitsToWrite(s', u) <==> WaitsToWrite(s, u))
  {
  }

  // ---- Runs -----------------------------------------------------------------------------------------

  ghost predicate Run(states: seq<State>, moves: seq<(Tid, Step)>) {
    && |states| == |moves| + 1 && states[0] == Init()
    && forall i: nat | i < |moves| :: Moves(states, moves, i)
  }

  ghost predicate Moves(states: seq<State>, moves: seq<(Tid, Step)>, i: nat)
    requires i < |moves| && |states| == |moves| + 1
  {
    Enabled(states[i], moves[i].0, moves[i].1) && states[i + 1] == Next(states[i], moves[i].0, moves[i].1)
  }

  lemma {:induction false} RunKeeps(states: seq<State>, moves: seq<(Tid, Step)>, i: nat)
    requires Run(states, moves) && i < |states|
    ensures Inv(states[i]) && OnePlace(states[i])
  {
    if i > 0 {
      RunKeeps(states, moves, i - 1);
      assert Moves(states, moves, i - 1);
      StepKeeps(states[i - 1], moves[i - 1].0, moves[i - 1].1);
    }
  }

  /** In every run: at most one writer and never together with readers, and no wake-up is lost. */
  lemma EveryRunExcludes(states: seq<State>, moves: seq<(Tid, Step)>, i: nat)
    requires Run(states, moves) && i < |states|
    ensures Exclusive(states[i]) && NoLostWakeUp(states[i])
    ensures forall t, u | t in states[i].writing && u in states[i].writing :: t == u
  {
    RunKeeps(states, moves, i);
    var s := states[i];
    forall t, u | t in s.writing && u in s.writing
      ensures t == u
    {
      Leaves(s.writing, t);
    }
  }

  /** In every run a reader gets in only while no writer writes or waits. */
  lemma WritersComeFirst(states: seq<State>, moves: seq<(Tid, Step)>, i: nat, u: Tid)
    requires Run(states, moves) && i < |moves| && u !in states[i].reading && u in states[i + 1].reading
    ensures u == moves[i].0 && states[i].writing == {} && states[i].sleepingWriters == {}
            && states[i].wokenWriters == {}
  {
    RunKeeps(states, moves, i);
    assert Moves(states, moves, i);
  }

  /** Whenever the lock is free and anybody waits for it, somebody who waits is awake and gets it. */
  lemma FreeLockIsTaken(s: State)
    requires Inv(s) && OnePlace(s) && s.reading == {} && s.writing == {}
    requires s.sleepingReaders + s.wokenReaders + s.sleepingWriters + s.wokenWriters != {}
    ensures (exists t :: t in s.wokenWriters && Enabled(s, t, WriterWake) && t in Next(s, t, WriterWake).writing)
         || (exists t :: t in s.wokenReaders && Enabled(s, t, ReaderWake) && t in Next(s, t, ReaderWake).reading)
  {
    if s.waitingWriters > 0 {
      var t :| t in s.wokenWriters;
      assert Enabled(s, t, WriterWake) && t in Next(s, t, WriterWake).writing;
    } else {
      assert s.sleepingWriters == {} && s.wokenWriters == {} && s.sleepingReaders == {};
      var t :| t in s.wokenReaders;
      assert Enabled(s, t, ReaderWake) && t in Next(s, t, ReaderWake).reading;
    }
  }

  /** A holder that unlocks, or a notified waiter that runs again: nobody new, and no spurious wake-up. */
  ghost predicate Inside(s: State, t: Tid, step: Step) {
    match step
    case UnlockShared(_) => t in s.reading
    case Unlock(_) => t in s.writing
    case ReaderWake => t in s.wokenReaders
    case WriterWake => t in s.wokenWriters
    case _ => false
  }

  /** In every run, every thread that waits can still get the lock: by unlocks of the holders and by notified waiters
      going on, without any spurious wake-up and without anybody new. */
  lemma {:induction false} EveryWaiterCanGetIn(states: seq<State>, moves: seq<(Tid, Step)>, t: Tid)
      returns (states': seq<State>, moves': seq<(Tid, Step)>)
    requires Run(states, moves) && (WaitsToRead(states[|moves|], t) || WaitsToWrite(states[|moves|], t))
    ensures Run(states', moves') && states <= states' && moves < moves'
    ensures forall i | |moves| <= i < |moves'| :: Inside(states'[i], moves'[i].0, moves'[i].1)
    ensures if WaitsToRead(states[|moves|], t) then t in states'[|moves'|].reading else t in states'[|moves'|].writing
    decreases states[|moves|].waitingWriters, |states[|moves|].reading| + |states[|moves|].writing|
  {
    hide Inv, OnePlace, Next, Moves;
    RunKeeps(states, moves, |moves|);
    var s := states[|moves|];
    var u, step := InsideMove(s, t);
    var s' := Next(s, u, step);
    states', moves' := states + [s'], moves + [(u, step)];
    RunExtends(states, moves, u, step);
    StepKeeps(s, u, step);
    StepOfCaller(s, u, step);
    if t != u {
      StepOfOthers(s, u, step, t);
      InsideDecreases(s, u, step);
      var states1, moves1 := states', moves';
      states', moves' := EveryWaiterCanGetIn(states1, moves1, t);
      assert states'[|moves|] == states1[|moves|] == s;
      assert moves'[|moves|] == moves1[|moves|];
    }
  }

  lemma RunExtends(states: seq<State>, moves: seq<(Tid, Step)>, u: Tid, step: Step)
    requires Run(states, moves) && Enabled(states[|moves|], u, step)
    ensures Run(states + [Next(states[|moves|], u, step)], moves + [(u, step)])
  {
    var states', moves' := states + [Next(states[|moves|], u, step)], moves + [(u, step)];
    forall i: nat | i < |moves'|
      ensures Moves(states', moves', i)
    {
      assert i < |moves| ==> Moves(states, moves, i);
    }
  }

  /** Who goes next: a holder unlocks, else a notified writer goes on, else t itself, a reader. */
  lemma InsideMove(s: State, t: Tid) returns (u: Tid, step: Step)
    requires Inv(s) && OnePlace(s) && (WaitsToRead(s, t) || WaitsToWrite(s, t))
    ensures Enabled(s, u, step) && Inside(s, u, step)
    ensures step.WriterWake? || step.ReaderWake? ==> s.reading == {} && s.writing == {}
    ensures step.ReaderWake? ==> u == t && forall w :: !WaitsToWrite(s, w)
    ensures u == t ==> step.WriterWake? || step.ReaderWake?
  {
    var n := 0;
    if s.sleepingWriters != {} {
      n :| n in s.sleepingWriters;
    }
    if s.reading != {} {
      u :| u in s.reading;
      step := UnlockShared(n);
    } else if s.writing != {} {
      u :| u in s.writing;
      step := Unlock(n);
    } else if s.waitingWriters > 0 {
      u :| u in s.wokenWriters;
      step := WriterWake;
    } else {
      NoWriterWaits(s);
      u, step := t, ReaderWake;
    }
  }

  lemma InsideDecreases(s: State, u: Tid, step: Step)
    requires Inv(s) && Enabled(s, u, step) && Inside(s, u, step)
    requires step.WriterWake? ==> s.reading == {} && s.writing == {}
    requires !step.ReaderWake?
    ensures var s' := Next(s, u, step);
            if step.WriterWake? then s'.waitingWriters < s.waitingWriters
            else s'.waitingWriters == s.waitingWriters && |s'.reading| + |s'.writing| < |s.reading| + |s.writing|
    ensures s.waitingWriters >= 0
  {
    InvParts(s);
    Leaves(s.reading, u);
    Leaves(s.writing, u);
  }

  // ---- The mutex object -----------------------------------------------------------------------------

  /** The mutex as it is updated in place, one method per critical section; the wait sets are its condition
      variables. */
  class SharedMutex {
    var readers: int
    var waitingWriters: int
    var writer: bool
    var sleepingReaders: set<Tid>
    var wokenReaders: set<Tid>
    var sleepingWriters: set<Tid>
    var wokenWriters: set<Tid>
    ghost var reading: set<Tid>
    ghost var writing: set<Tid>

    ghost function View(): State
      reads this
    {
      State(readers, waitingWriters, writer, reading, writing, sleepingReaders, wokenReaders, sleepingWriters,
          wokenWriters)
    }

    ghost predicate Valid()
      reads this
    {
      Inv(View()) && OnePlace(View())
    }

    constructor ()
      ensures Valid() && View() == Init()
    {
      readers, waitingWriters, writer, reading, writing := 0, 0, false, {}, {};
      sleepingReaders, wokenReaders, sleepingWriters, wokenWriters := {}, {}, {}, {};
    }

    /** lock_shared, on entry or after a wake-up; ok when the thread is in, else it sleeps. */
    method AcquireShared(t: Tid, woken: bool) returns (ok: bool)
      requires Valid() && Enabled(View(), t, if woken then ReaderWake else LockShared)
      modifies this
      ensures Valid() && View() == Next(old(View()), t, if woken then ReaderWake else LockShared)
      ensures ok <==> t in reading
      ensures ok <==> old(!writer && sleepingWriters == {} && wokenWriters == {})
      ensures reading == (if ok then old(reading) + {t} else old(reading)) && writing == old(writing)
      ensures sleepingReaders == if ok then old(sleepingReaders) - {t} else old(sleepingReaders) + {t}
    {
      hide Inv, OnePlace, Outside, Picks;
      StepKeeps(View(), t, if woken then ReaderWake else LockShared);
      ArrivesOutside(View(), t, if woken then ReaderWake else LockShared);
      NoWriterWaits(View());
      if woken {
        sleepingReaders := sleepingReaders - {t};
        wokenReaders := wokenReaders - {t};
      }
      if !writer && waitingWriters == 0 {
        readers := readers + 1;
        reading := reading + {t};
        return true;
      }
      sleepingReaders := sleepingReaders + {t};
      return false;
    }

    method NotifyOneWriter(n: Tid)
      modifies this`sleepingWriters, this`wokenWriters
      ensures View() == NotifyWriter(old(View()), n)
      ensures sleepingWriters == old(sleepingWriters) - {n}
      ensures wokenWriters == if n in old(sleepingWriters) then old(wokenWriters) + {n} else old(wokenWriters)
    {
      if n in sleepingWriters {
        sleepingWriters := sleepingWriters - {n};
        wokenWriters := wokenWriters + {n};
      }
    }

    method ReleaseShared(t: Tid, n: Tid)
      requires Valid() && Enabled(View(), t, UnlockShared(n))
      modifies this
      ensures Valid() && View() == Next(old(View()), t, UnlockShared(n))
      ensures readers == old(readers) - 1 && writer == old(writer)
      ensures reading == old(reading) - {t} && writing == old(writing)
      ensures sleepingWriters == (if readers == 0 then old(sleepingWriters) - {n} else old(sleepingWriters))
      ensures wokenWriters ==
              if readers == 0 && n in old(sleepingWriters) then old(wokenWriters) + {n} else old(wokenWriters)
      ensures sleepingReaders == old(sleepingReaders) && wokenReaders == old(wokenReaders)
    {
      hide Inv, OnePlace, Outside, Picks;
      StepKeeps(View(), t, UnlockShared(n));
      readers := readers - 1;
      reading := reading - {t};
      if readers == 0 {
        NotifyOneWriter(n);
      }
    }

    /** lock, on entry or after a wake-up; ok when the thread is in, else it sleeps. */
    method Acquire(t: Tid, woken: bool) returns (ok: bool)
      requires Valid() && Enabled(View(), t, if woken then WriterWake else Lock)
      modifies this
      ensures Valid() && View() == Next(old(View()), t, if woken then WriterWake else Lock)
      ensures ok <==> t in writing
      ensures ok <==> old(!writer && readers == 0)
      ensures writing == (if ok then old(writing) + {t} else old(writing)) && reading == old(reading)
      ensures sleepingWriters == if ok then old(sleepingWriters) - {t} else old(sleepingWriters) + {t}
    {
      hide Inv, OnePlace, Outside, Picks;
      StepKeeps(View(), t, if woken then WriterWake else Lock);
      ArrivesOutside(View(), t, if woken then WriterWake else Lock);
      if woken {
        sleepingWriters := sleepingWriters - {t};
        wokenWriters := wokenWriters - {t};
      } else {
        waitingWriters := waitingWriters + 1;
      }
      if !writer && readers == 0 {
        waitingWriters := waitingWriters - 1;
        writer := true;
        writing := writing + {t};
        return true;
      }
      sleepingWriters := sleepingWriters + {t};
      return false;
    }

    method Release(t: Tid, n: Tid)
      requires Valid() && Enabled(View(), t, Unlock(n))
      modifies this
      ensures Valid() && View() == Next(old(View()), t, Unlock(n))
      ensures !writer && readers == old(readers)
      ensures writing == old(writing) - {t} && reading == old(reading)
      ensures sleepingWriters == old(sleepingWriters) - {n}
      ensures wokenWriters == if n in old(sleepingWriters) then old(wokenWriters) + {n} else old(wokenWriters)
      ensures if old(sleepingWriters == {} && wokenWriters == {})
              then sleepingReaders == {} && wokenReaders == old(wokenReaders) + old(sleepingReaders)
              else sleepingReaders == old(sleepingReaders) && wokenReaders == old(wokenReaders)
    {
      hide Inv, OnePlace, Outside, Picks, NotifyWriter;
      StepKeeps(View(), t, Unlock(n));
      NoWriterWaits(View());
      writer := false;
      writing := writing - {t};
      if waitingWriters > 0 {
        NotifyOneWriter(n);
      } else {
        wokenReaders := wokenReaders + sleepingReaders;
        sleepingReaders := {};
      }
    }
  }
}
