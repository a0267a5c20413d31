/** Vector over a buffer whose slots are raw memory or hold an object: growth by doubling, in-place shifting, insert,
    erase. */
module Vector {
  /** A slot is raw memory, or a live object that has its value or has been moved from. */
  datatype Slot<T> = Raw | Moved | Holds(value: T)

  predicate Live<T>(s: Slot<T>) {
    !s.Raw?
  }

  // ---- The cost of growing --------------------------------------------------------------------------

  /** Size, capacity and element moves so far. */
  datatype Cost = Cost(size: nat, capacity: nat, moves: nat)

  /** ensure_capacity's new capacity. */
  function Grown(capacity: nat, needed: nat): nat {
    if needed <= capacity then capacity else if needed > capacity * 2 then needed else capacity * 2
  }

  /** One push_back: a full buffer moves every element once. */
  function Pushed(c: Cost): Cost {
    Cost(c.size + 1, Grown(c.capacity, c.size + 1), if c.size + 1 <= c.capacity then c.moves else c.moves + c.size)
  }

  function PushedTimes(n: nat): Cost {
    if n == 0 then Cost(0, 0, 0) else Pushed(PushedTimes(n - 1))
  }

  /** From an empty vector, n push_backs move fewer than 2n elements in all. */
  lemma {:induction false} PushesAreAmortized(n: nat)
    requires n >= 1
    ensures PushedTimes(n).size == n && PushedTimes(n).moves < 2 * n
    ensures PushedTimes(n).moves == PushedTimes(n).capacity - 1 && n <= PushedTimes(n).capacity < 2 * n
  {
    if n > 1 {
      PushesAreAmortized(n - 1);
    } else {
      assert PushedTimes(0) == Cost(0, 0, 0);
    }
  }

  // ---- Contents of a range of slots -----------------------------------------------------------------

  ghost predicate AllHold<T>(slots: seq<Slot<T>>) {
    forall i | 0 <= i < |slots| :: slots[i].Holds?
  }

  function Values<T>(slots: seq<Slot<T>>): (vs: seq<T>)
    requires AllHold(slots)
    ensures |vs| == |slots| && forall i | 0 <= i < |slots| :: vs[i] == slots[i].value
  {
    seq(|slots|, i requires 0 <= i < |slots| => slots[i].value)
  }

  /** Exactly the first `size` slots are live. */
  ghost predicate LiveUpTo<T>(s: seq<Slot<T>>, size: nat) {
    size <= |s| && forall k | 0 <= k < |s| :: Live(s[k]) <==> k < size
  }

  /** s after i elements from `first` on have been moved down to pos; what is not moved over is left moved-from. */
  function ShiftedDown<T>(s: seq<Slot<T>>, first: nat, i: nat, pos: nat): (r: seq<Slot<T>>)
    requires pos < first && first + i <= |s|
    ensures |r| == |s|
  {
    seq(|s|, k requires 0 <= k < |s| =>
      if pos <= k < pos + i then s[first + (k - pos)] else if first <= k < first + i then Moved else s[k])
  }

  /** s after the elements from `last` to `size` have been moved up by d; moved onto themselves they are left
      moved-from. */
  function ShiftedUp<T>(s: seq<Slot<T>>, last: nat, size: nat, d: nat): (r: seq<Slot<T>>)
    requires last <= size && size + d <= |s|
    ensures |r| == |s|
  {
    seq(|s|, k requires 0 <= k < |s| =>
      if d > 0 && last + d <= k < size + d then s[k - d] else if last <= k < size then Moved else s[k])
  }

  lemma ShiftedDownStep<T>(s: seq<Slot<T>>, first: nat, i: nat, pos: nat)
    requires pos < first && first + i < |s|
    ensures ShiftedDown(s, first, i + 1, pos) ==
            ShiftedDown(s, first, i, pos)[pos + i := s[first + i]][first + i := Moved]
    ensures ShiftedDown(s, first, i, pos)[first + i] == s[first + i]
    ensures Live(s[pos + i]) ==> Live(ShiftedDown(s, first, i, pos)[pos + i])
  {
  }

  lemma ShiftedUpStep<T>(s: seq<Slot<T>>, last: nat, size: nat, d: nat)
    requires 0 < last <= size && size + d <= |s| && LiveUpTo(s, size)
    ensures ShiftedUp(s, last - 1, size, d) ==
            ShiftedUp(s, last, size, d)[last - 1 + d := s[last - 1]][last - 1 := Moved]
    ensures var now := ShiftedUp(s, last, size, d);
            now[last - 1] == s[last - 1] && (Live(now[last - 1 + d]) <==> last - 1 + d < size)
  {
  }

  lemma NothingShifted<T>(s: seq<Slot<T>>, first: nat, pos: nat, size: nat, d: nat)
    requires size + d <= |s|
    ensures pos < first <= |s| ==> ShiftedDown(s, first, 0, pos) == s
    ensures ShiftedUp(s, size, size, d) == s
  {
  }

  /** s with count copies of value written from pos on. */
  function Filled<T>(s: seq<Slot<T>>, pos: nat, count: nat, value: T): (r: seq<Slot<T>>)
    requires pos + count <= |s|
    ensures |r| == |s|
  {
    seq(|s|, k requires 0 <= k < |s| => if pos <= k < pos + count then Holds(value) else s[k])
  }

  /** Moving the back down over an erased range leaves the sequence without the range, in slots that are all still
      live. */
  lemma ErasedSlots<T>(s: seq<Slot<T>>, size: nat, first: nat, last: nat)
    requires LiveUpTo(s, size) && AllHold(s[..size]) && first < last <= size
    ensures AllHold(s[last..size])
    ensures var now, newSize := ShiftedDown(s, last, size - last, first), size - (last - first);
            && LiveUpTo(now, size) && AllHold(now[..newSize])
            && Values(now[..newSize]) == Values(s[..size])[..first] + Values(s[..size])[last..]
  {
    assert forall k | 0 <= k < size :: s[..size][k] == s[k];
    assert forall k | 0 <= k < size - last :: s[last..size][k] == s[last + k];
  }

  /** Moving the back up makes room that is live up to the old size, and filling it inserts the copies; without a copy
      to insert, elements that were moved onto themselves are lost. */
  lemma InsertedSlots<T>(s: seq<Slot<T>>, size: nat, pos: nat, count: nat, value: T)
    requires LiveUpTo(s, size) && AllHold(s[..size]) && pos <= size && size + count <= |s|
    ensures var room := ShiftedUp(s, pos, size, count);
            && (forall k | pos <= k < pos + count :: Live(room[k]) <==> k < size)
            && (count == 1 ==> Filled(room, pos, count, value) == room[pos := Holds(value)])
    ensures var now := Filled(ShiftedUp(s, pos, size, count), pos, count, value);
            && LiveUpTo(now, size + count)
            && (AllHold(now[..size + count]) <==> count >= 1 || pos == size)
            && (AllHold(now[..size + count]) ==>
                  Values(now[..size + count]) ==
                      Values(s[..size])[..pos] + seq(count, _ => value) + Values(s[..size])[pos..])
  {
    assert forall k | 0 <= k < size :: s[..size][k] == s[k];
    var now := Filled(ShiftedUp(s, pos, size, count), pos, count, value);
    assert forall k | 0 <= k < size + count :: now[..size + count][k] == now[k];
    if count == 0 && pos < size {
      assert now[..size + count][pos] == Moved;
    }
  }

  /** Inserting no copies of 9 in front of the one element 7 loses it. */
  lemma NoCopiesLoseTheElement()
    ensures var s: seq<Slot<int>> := [Holds(7)];
            && LiveUpTo(s, 1) && AllHold(s[..1])
            && Filled(ShiftedUp(s, 0, 1, 0), 0, 0, 9) == [Moved]
  {
  }

  class Vector<T> {
    var slots: array<Slot<T>>
    var size: nat
    ghost var moves: nat

    /** Exactly [0, size) is live. */
    ghost predicate LiveExactly()
      reads this, slots
    {
      LiveUpTo(slots[..], size)
    }

    /** ... and every element still has its value. */
    ghost predicate Valid()
      reads this, slots
    {
      LiveExactly() && AllHold(slots[..size])
    }

    ghost function Contents(): seq<T>
      reads this, slots
      requires Valid()
    {
      Values(slots[..size])
    }

    ghost function CostNow(): Cost
      reads this
    {
      Cost(size, slots.Length, moves)
    }

    constructor ()
      ensures Valid() && Contents() == [] && CostNow() == Cost(0, 0, 0) && fresh(slots)
    {
      slots := new Slot<T>[0](_ => Raw);
      size, moves := 0, 0;
    }

    // ---- Object lifetime: what each write demands of its slot ---------------------------------------

    /** Placement new. */
    method Construct(i: nat, v: T)
      requires i < slots.Length && slots[i].Raw?
      modifies slots
      ensures slots[..] == old(slots[..])[i := Holds(v)]
    {
      slots[i] := Holds(v);
    }

    /** Copy assignment. */
    method Assign(i: nat, v: T)
      requires i < slots.Length && Live(slots[i])
      modifies slots
      ensures slots[..] == old(slots[..])[i := Holds(v)]
    {
      slots[i] := Holds(v);
    }

    /** The write used throughout: assigned inside the live range, constructed behind it. */
    method Put(i: nat, v: T)
      requires size <= slots.Length && i < slots.Length && if i < size then Live(slots[i]) else slots[i].Raw?
      modifies slots
      ensures slots[..] == old(slots[..])[i := Holds(v)]
      ensures slots[i] == Holds(v) && forall k {:trigger slots[k]} | 0 <= k < slots.Length
          && k != i :: slots[k] == old(slots[k])
    {
      if i < size {
        Assign(i, v);
      } else {
        Construct(i, v);
      }
    }

    /** Move an element to dst. The source is left moved-from, and
        assigning an object to itself leaves it moved-from. */
    method MoveTo(src: nat, dst: nat)
      requires size <= slots.Length && src < size && slots[src].Holds? && dst < slots.Length
      requires if dst < size then Live(slots[dst]) else slots[dst].Raw?
      modifies slots, this`moves
      ensures slots[..] == old(slots[..])[dst := old(slots[src])][src := Moved] && moves == old(moves) + 1
    {
      var v := slots[src].value;
      Put(dst, v);
      slots[src] := Moved;
      moves := moves + 1;
    }

    // ---- Capacity -----------------------------------------------------------------------------------

    method EnsureCapacity(newCapacity: nat)
      requires Valid()
      modifies this, slots
      ensures Valid() && size == old(size) && Contents() == old(Contents())
      ensures slots.Length == Grown(old(slots.Length), newCapacity) >= newCapacity
      ensures var was := old(slots.Length);
              slots.Length == if newCapacity <= was then was else if newCapacity > 2 * was then newCapacity else 2 * was
      ensures moves == if newCapacity <= old(slots.Length) then old(moves) else old(moves) + size
      ensures slots == old(slots) || fresh(slots)
    {
      hide Values;
      if newCapacity <= slots.Length {
        return;
      }
      var capacity := if newCapacity > slots.Length * 2 then newCapacity else slots.Length * 2;
      var grown := new Slot<T>[capacity](_ => Raw);
      var i := 0;
      while i < size
        invariant 0 <= i <= size == old(size) && slots == old(slots) && moves == old(moves) + i
        invariant forall j | 0 <= j < i :: grown[j] == old(slots[j]) && slots[j].Raw?
        invariant forall j | i <= j < capacity :: grown[j].Raw?
        invariant forall j | i <= j < slots.Length :: slots[j] == old(slots[j])
      {
        assert old(slots[..size])[i] == slots[i];
        grown[i] := Holds(slots[i].value);
        slots[i] := Raw;
        moves := moves + 1;
        i := i + 1;
      }
      slots := grown;
      assert slots[..size] == old(slots[..size]);
    }

    method PushBack(v: T)
      requires Valid()
      modifies this, slots
      ensures Valid() && Contents() == old(Contents()) + [v]
      ensures CostNow() == Pushed(old(CostNow()))
      ensures var was := old(slots.Length);
              if old(size) < was then slots.Length == was && moves == old(moves)
              else slots.Length == (if was == 0 then 1 else 2 * was) && moves == old(moves) + old(size)
      ensures slots == old(slots) || fresh(slots)
    {
      EnsureCapacity(size + 1);
      ghost var before := slots[..];
      Construct(size, v);
      size := size + 1;
      assert slots[..size] == before[..size - 1] + [Holds(v)];
    }

    // ---- Shifting -----------------------------------------------------------------------------------

    /** move_range towards lower addresses, front to back. */
    method MoveRange(first: nat, last: nat, pos: nat)
      requires LiveExactly() && pos < first <= last <= size && AllHold(slots[first..last])
      modifies slots, this`moves
      ensures moves == old(moves) + (last - first)
      ensures slots[..] == ShiftedDown(old(slots[..]), first, last - first, pos)
    {
      hide ShiftedDown, Live;
      ghost var s := slots[..];
      var n, i := last - first, 0;
      NothingShifted(s, first, pos, 0, 0);
      while i < n
        invariant 0 <= i <= n && moves == old(moves) + i && slots[..] == ShiftedDown(s, first, i, pos)
      {
        ShiftedDownStep(s, first, i, pos);
        assert slots[..][first + i] == s[first..last][i] && Live(s[pos + i]);
        assert Live(slots[..][pos + i]);
        MoveTo(first + i, pos + i);
        i := i + 1;
      }
    }

    /** move_range_backward towards higher addresses, back to front. */
    method MoveRangeBackward(first: nat, pos: nat)
      requires Valid() && first <= size && first <= pos && pos + (size - first) <= slots.Length
      modifies slots, this`moves
      ensures moves == old(moves) + (size - first)
      ensures slots[..] == ShiftedUp(old(slots[..]), first, size, pos - first)
    {
      hide ShiftedUp;
      ghost var s := slots[..];
      var d: nat := pos - first;
      var last := size;
      NothingShifted(s, 0, 0, size, d);
      while last != first
        invariant first <= last <= size && moves == old(moves) + (size - last)
                  && slots[..] == ShiftedUp(s, last, size, d)
        decreases last - first
      {
        ShiftedUpStep(s, last, size, d);
        assert slots[..][last - 1] == s[..size][last - 1];
        assert slots[..][last - 1 + d] == slots[last - 1 + d];
        MoveTo(last - 1, last - 1 + d);
        last := last - 1;
      }
    }

    // ---- Erase and insert ---------------------------------------------------------------------------

    method EraseOne(pos: nat)
      requires Valid() && pos < size
      modifies slots, this`size, this`moves
      ensures Valid() && Contents() == old(Contents())[..pos] + old(Contents())[pos + 1..]
    {
      Erase(pos, pos + 1);
    }

    method Erase(first: nat, last: nat)
      requires Valid() && last <= size
      modifies slots, this`size, this`moves
      ensures Valid()
      ensures Contents() == if first >= last then old(Contents())
              else old(Contents())[..first] + old(Contents())[last..]
    {
      if first >= last {
        return;
      }
      hide Values, ShiftedDown, AllHold, LiveUpTo;
      ErasedSlots(slots[..], size, first, last);
      MoveRange(last, size, first);
      Destroy(size - (last - first));
    }

    /** Destroy everything from newSize on. */
    method Destroy(newSize: nat)
      requires LiveExactly() && newSize <= size
      modifies slots, this`size
      ensures LiveExactly() && size == newSize && slots[..size] == old(slots[..])[..size]
    {
      var pos := newSize;
      while pos < size
        invariant newSize <= pos <= size <= slots.Length && slots[..newSize] == old(slots[..])[..newSize]
        invariant forall k | 0 <= k < slots.Length :: Live(slots[k]) <==> k < newSize || pos <= k < size
      {
        slots[pos] := Raw;
        pos := pos + 1;
      }
      size := newSize;
    }

    /** The filling loop of insert: assign inside the live range, construct behind it. */
    method Fill(pos: nat, count: nat, value: T)
      requires size <= slots.Length && pos + count <= slots.Length
      requires forall k | pos <= k < pos + count :: Live(slots[..][k]) <==> k < size
      modifies slots
      ensures slots[..] == Filled(old(slots[..]), pos, count, value)
    {
      var i := 0;
      while i < count
        invariant 0 <= i <= count && slots[..] == Filled(old(slots[..]), pos, i, value)
      {
        assert slots[..][pos + i] == old(slots[..])[pos + i] == old(slots[pos + i]);
        Put(pos + i, value);
        i := i + 1;
      }
    }

    /** insert of one element. */
    method InsertOne(pos: nat, value: T)
      requires Valid() && pos <= size
      modifies this, slots
      ensures Valid() && (slots == old(slots) || fresh(slots))
      ensures Contents() == old(Contents())[..pos] + [value] + old(Contents())[pos..]
    {
      EnsureCapacity(size + 1);
      hide Values, ShiftedUp, AllHold, LiveUpTo;
      InsertedSlots(slots[..], size, pos, 1, value);
      MoveRangeBackward(pos, pos + 1);
      assert slots[..][pos] == slots[pos];
      Put(pos, value);
      size := size + 1;
      assert seq(1, _ => value) == [value];
    }

    /** insert of count copies. Shifting by zero assigns every shifted element to itself, which leaves it moved-from. */
    method Insert(pos: nat, count: nat, value: T)
      requires Valid() && pos <= size
      modifies this, slots
      ensures LiveExactly() && (slots == old(slots) || fresh(slots)) && size == old(size) + count
      ensures Valid() <==> count >= 1 || pos == old(size)
      ensures Valid() ==> Contents() == old(Contents())[..pos] + seq(count, _ => value) + old(Contents())[pos..]
    {
      EnsureCapacity(size + count);
      ShiftAndFill(pos, count, value);
    }

    method ShiftAndFill(pos: nat, count: nat, value: T)
      requires Valid() && pos <= size && size + count <= slots.Length
      modifies slots, this`size, this`moves
      ensures LiveExactly() && size == old(size) + count
      ensures Valid() <==> count >= 1 || pos == old(size)
      ensures Valid() ==> Contents() == old(Contents())[..pos] + seq(count, _ => value) + old(Contents())[pos..]
    {
      hide Values, ShiftedUp, AllHold, LiveUpTo, Filled, Live;
      InsertedSlots(slots[..], size, pos, count, value);
      MoveRangeBackward(pos, pos + count);
      Fill(pos, count, value);
      size := size + count;
    }
  }
}
