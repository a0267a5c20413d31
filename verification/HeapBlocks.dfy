/** The heap allocator's block list as values: headers by address, in address order, tiling the sbrk'd range. */
module HeapBlocks {
  const BLOCK_SIZE := 32
  const MIN_BLOCK_SIZE := 16
  const MIN_EXTEND := 4096
  const TWO_TO_THE_64 := 0x1_0000_0000_0000_0000

  datatype Header = Header(size: nat, next: nat, prev: nat, free: bool)

  type Headers = map<nat, Header>

  /** Rounding up to the next multiple of 8. */
  function Align(size: nat): (r: nat)
    ensures size <= r < size + 8 && Aligned(r)
  {
    (size + 7) / 8 * 8
  }

  predicate Aligned(n: nat) {
    n % 8 == 0
  }

  lemma AlignedSums(m: nat, n: nat)
    requires Aligned(m) && Aligned(n)
    ensures Aligned(m + n + BLOCK_SIZE) && (m >= n + BLOCK_SIZE ==> Aligned(m - n - BLOCK_SIZE))
  {
  }

  /** Block i of the list: its links name its list neighbours and it ends where its successor begins. */
  ghost predicate BlockOk(h: Headers, b: seq<nat>, i: nat, brk: nat)
    requires i < |b|
  {
    && b[i] in h && h[b[i]].size > 0 && Aligned(h[b[i]].size)
    && h[b[i]].prev == (if i == 0 then 0 else b[i - 1])
    && h[b[i]].next == (if i + 1 == |b| then 0 else b[i + 1])
    && b[i] + BLOCK_SIZE + h[b[i]].size == (if i + 1 == |b| then brk else b[i + 1])
  }

  /** The list holds exactly the headers and tiles [start, brk). */
  ghost predicate ListOk(h: Headers, b: seq<nat>, start: nat, brk: nat) {
    && b != [] && b[0] == start && start > 0 && Aligned(start)
    && (forall i: nat {:trigger BlockOk(h, b, i, brk)} | i < |b| :: BlockOk(h, b, i, brk))
    && (forall a | a in h :: a in b)
  }

  ghost predicate Free(h: Headers, a: nat) {
    a in h && h[a].free
  }

  ghost predicate Calm(h: Headers, b: seq<nat>, j: nat)
    requires j + 1 < |b|
  {
    !(Free(h, b[j]) && Free(h, b[j + 1]))
  }

  /** No two adjacent free blocks, pairs with block i aside. */
  ghost predicate QuietExcept(h: Headers, b: seq<nat>, i: int) {
    forall j: nat {:trigger Calm(h, b, j)} | j + 1 < |b| && j != i && j + 1 != i :: Calm(h, b, j)
  }

  ghost predicate Quiet(h: Headers, b: seq<nat>) {
    QuietExcept(h, b, -1)
  }

  /** Allocated blocks and their payload sizes. */
  function Used(h: Headers): map<nat, nat> {
    map a | a in h && !h[a].free :: h[a].size
  }

  // ---- Addresses ------------------------------------------------------------------------------------

  /** Blocks lie in address order and do not overlap. */
  lemma {:induction false} InOrder(h: Headers, b: seq<nat>, start: nat, brk: nat, i: nat, j: nat)
    requires ListOk(h, b, start, brk) && i < j < |b|
    ensures b[i] in h && b[i] + BLOCK_SIZE + h[b[i]].size <= b[j]
    decreases j - i
  {
    assert BlockOk(h, b, i, brk);
    if i + 1 < j {
      assert BlockOk(h, b, i + 1, brk);
      InOrder(h, b, start, brk, i + 1, j);
    }
  }

  lemma {:induction false} AddressAligned(h: Headers, b: seq<nat>, start: nat, brk: nat, i: nat)
    requires ListOk(h, b, start, brk) && i < |b|
    ensures b[i] > 0 && Aligned(b[i]) && b[i] >= start
  {
    if i > 0 {
      assert BlockOk(h, b, i - 1, brk);
      AddressAligned(h, b, start, brk, i - 1);
    }
  }

  lemma AllInOrder(h: Headers, b: seq<nat>, start: nat, brk: nat)
    requires ListOk(h, b, start, brk)
    ensures forall i, j | 0 <= i < j < |b| :: b[i] < b[j]
    ensures forall i | 0 <= i < |b| :: b[i] > 0 && b[i] < brk
  {
    forall i, j | 0 <= i < j < |b|
      ensures b[i] < b[j]
    {
      InOrder(h, b, start, brk, i, j);
    }
    forall i | 0 <= i < |b|
      ensures b[i] > 0 && b[i] < brk
    {
      AddressAligned(h, b, start, brk, i);
      assert BlockOk(h, b, |b| - 1, brk);
      if i + 1 < |b| {
        InOrder(h, b, start, brk, i, |b| - 1);
      }
    }
  }

  /** Two different blocks share no byte, headers included. */
  lemma Disjoint(h: Headers, b: seq<nat>, start: nat, brk: nat, a: nat, c: nat)
    requires ListOk(h, b, start, brk) && a in h && c in h && a != c
    ensures a + BLOCK_SIZE + h[a].size <= c || c + BLOCK_SIZE + h[c].size <= a
  {
    var i :| 0 <= i < |b| && b[i] == a;
    var j :| 0 <= j < |b| && b[j] == c;
    InOrder(h, b, start, brk, if i < j then i else j, if i < j then j else i);
  }

  lemma NextStart(h: Headers, b: seq<nat>, start: nat, brk: nat, i: nat)
    requires ListOk(h, b, start, brk) && i < |b|
    ensures b[i] in h && b[i] + BLOCK_SIZE + h[b[i]].size == if i + 1 < |b| then b[i + 1] else brk
  {
    assert BlockOk(h, b, i, brk);
  }

  /** Links follow the addresses: the next block starts where this one ends, the one before ends where it starts. */
  lemma NextBy(h: Headers, b: seq<nat>, start: nat, brk: nat, i: nat)
    requires ListOk(h, b, start, brk) && i < |b|
    ensures b[i] in h && b[i] > 0 && 0 !in h && forall x | x in h :: x < brk
    ensures var a := b[i]; var end := a + BLOCK_SIZE + h[a].size;
            && (if end in h then h[a].next == end && h[end].prev == a else end == brk && h[a].next == 0)
            && (h[a].prev != 0 ==> h[a].prev in h && h[a].prev + BLOCK_SIZE + h[h[a].prev].size == a)
  {
    NextStart(h, b, start, brk, i);
    Neighbours(h, b, start, brk, i);
    if i > 0 {
      NextStart(h, b, start, brk, i - 1);
    }
    if i + 1 < |b| {
      Neighbours(h, b, start, brk, i + 1);
    }
    AllInOrder(h, b, start, brk);
  }

  lemma PlaceOf(h: Headers, b: seq<nat>, start: nat, brk: nat, a: nat) returns (i: nat)
    requires ListOk(h, b, start, brk) && a in h
    ensures i < |b| && b[i] == a
  {
    assert a in b;
    i :| i < |b| && b[i] == a;
  }

  /** What a link of a listed block points to. */
  lemma Neighbours(h: Headers, b: seq<nat>, start: nat, brk: nat, i: nat)
    requires ListOk(h, b, start, brk) && i < |b|
    ensures b[i] in h && BlockOk(h, b, i, brk)
    ensures h[b[i]].next == (if i + 1 < |b| then b[i + 1] else 0) && h[b[i]].prev == (if i > 0 then b[i - 1] else 0)
    ensures i + 1 < |b| ==> b[i + 1] in h && b[i + 1] > b[i] && BlockOk(h, b, i + 1, brk)
    ensures i > 0 ==> b[i - 1] in h && 0 < b[i - 1] < b[i] && BlockOk(h, b, i - 1, brk)
  {
    assert BlockOk(h, b, i, brk);
    assert i + 1 < |b| ==> BlockOk(h, b, i + 1, brk);
    assert i > 0 ==> BlockOk(h, b, i - 1, brk);
    AllInOrder(h, b, start, brk);
  }

  // ---- Splitting ------------------------------------------------------------------------------------

  /** Where splitting block a at `size` puts the new header. */
  function SplitAt(a: nat, size: nat): nat {
    a + BLOCK_SIZE + size
  }

  /** The header writes of split_block, for a remainder of `remaining` bytes. */
  function SplitHeaders(h: Headers, a: nat, size: nat, remaining: nat): Headers
    requires a in h && (h[a].next == 0 || h[a].next in h)
  {
    var n, block := SplitAt(a, size), h[a];
    var h1 := h[n := Header(remaining, block.next, a, true)];
    var h2 := if block.next != 0 then h1[block.next := h1[block.next].(prev := n)] else h1;
    h2[a := block.(size := size, next := n)]
  }

  function SplitList(b: seq<nat>, i: nat, n: nat): seq<nat>
    requires i < |b|
  {
    b[..i + 1] + [n] + b[i + 1..]
  }

  lemma SplitListAt(b: seq<nat>, i: nat, n: nat, j: nat)
    requires i < |b| && j <= |b|
    ensures |SplitList(b, i, n)| == |b| + 1
    ensures SplitList(b, i, n)[j] == if j <= i then b[j] else if j == i + 1 then n else b[j - 1]
  {
  }

  /** The intended test: the remainder, as an integer, can hold a header and a minimal block. */
  predicate Splits(have: nat, size: nat) {
    have - size - BLOCK_SIZE >= MIN_BLOCK_SIZE
  }

  /** The C expression: the remainder as a size_t, which wraps. */
  function CRemaining(have: nat, size: nat): nat {
    (have - size - BLOCK_SIZE) % TWO_TO_THE_64
  }

  predicate CSplits(have: nat, size: nat) {
    CRemaining(have, size) >= MIN_BLOCK_SIZE
  }

  /** What the header writes leave at each address. */
  lemma SplitWrites(h: Headers, a: nat, size: nat, remaining: nat, x: nat)
    requires a in h && (h[a].next == 0 || h[a].next in h) && SplitAt(a, size) !in h && a != h[a].next
    ensures var n, h' := SplitAt(a, size), SplitHeaders(h, a, size, remaining);
            && (x in h' <==> x in h || x == n)
            && (x in h' ==> h'[x] == if x == a then h[a].(size := size, next := n)
                                     else if x == n then Header(remaining, h[a].next, a, true)
                                     else if x != 0 && x == h[a].next then h[x].(prev := n)
                                     else h[x])
  {
  }

  /** Block i can be split at `size`. */
  ghost predicate Splittable(h: Headers, b: seq<nat>, i: nat, size: nat) {
    && i < |b| && b[i] in h && size > 0 && Aligned(size) && Splits(h[b[i]].size, size)
    && (h[b[i]].next == 0 || h[b[i]].next in h) && SplitAt(b[i], size) !in h
  }

  lemma SplitKeepsEarlier(h: Headers, b: seq<nat>, start: nat, brk: nat, i: nat, size: nat, j: nat)
    requires ListOk(h, b, start, brk) && Splittable(h, b, i, size) && j < i
    ensures BlockOk(SplitHeaders(h, b[i], size, h[b[i]].size - size - BLOCK_SIZE), SplitList(b, i, SplitAt(b[i], size)),
            j, brk)
  {
    hide ListOk, SplitList, SplitHeaders, Aligned;
    Neighbours(h, b, start, brk, i);
    Neighbours(h, b, start, brk, j);
    InOrder(h, b, start, brk, j, i);
    SplitListAt(b, i, SplitAt(b[i], size), j);
    SplitListAt(b, i, SplitAt(b[i], size), j + 1);
    SplitListAt(b, i, SplitAt(b[i], size), if j == 0 then 0 else j - 1);
    SplitWrites(h, b[i], size, h[b[i]].size - size - BLOCK_SIZE, b[j]);
  }

  lemma SplitKeepsHere(h: Headers, b: seq<nat>, start: nat, brk: nat, i: nat, size: nat, j: nat)
    requires ListOk(h, b, start, brk) && Splittable(h, b, i, size) && (j == i || j == i + 1)
    ensures BlockOk(SplitHeaders(h, b[i], size, h[b[i]].size - size - BLOCK_SIZE), SplitList(b, i, SplitAt(b[i], size)),
            j, brk)
  {
    hide ListOk, SplitList, SplitHeaders, Aligned;
    AddressAligned(h, b, start, brk, i);
    Neighbours(h, b, start, brk, i);
    AlignedSums(h[b[i]].size, size);
    var n := SplitAt(b[i], size);
    SplitListAt(b, i, n, j);
    SplitListAt(b, i, n, if j == 0 then 0 else j - 1);
    SplitListAt(b, i, n, if j == |b| then j else j + 1);
    SplitWrites(h, b[i], size, h[b[i]].size - size - BLOCK_SIZE, SplitList(b, i, n)[j]);
  }

  lemma SplitKeepsLater(h: Headers, b: seq<nat>, start: nat, brk: nat, i: nat, size: nat, j: nat)
    requires ListOk(h, b, start, brk) && Splittable(h, b, i, size) && i + 1 < j <= |b|
    ensures BlockOk(SplitHeaders(h, b[i], size, h[b[i]].size - size - BLOCK_SIZE), SplitList(b, i, SplitAt(b[i], size)),
            j, brk)
  {
    hide ListOk, SplitList, SplitHeaders, Aligned;
    Neighbours(h, b, start, brk, i);
    Neighbours(h, b, start, brk, j - 1);
    if j - 1 > i + 1 {
      InOrder(h, b, start, brk, i + 1, j - 1);
    }
    SplitListAt(b, i, SplitAt(b[i], size), j);
    SplitListAt(b, i, SplitAt(b[i], size), j - 1);
    SplitListAt(b, i, SplitAt(b[i], size), if j == |b| then j else j + 1);
    SplitWrites(h, b[i], size, h[b[i]].size - size - BLOCK_SIZE, b[j - 1]);
  }

  lemma SplitKeeps(h: Headers, b: seq<nat>, start: nat, brk: nat, i: nat, size: nat)
    requires ListOk(h, b, start, brk) && i < |b| && b[i] in h && size > 0 && Aligned(size) && Splits(h[b[i]].size, size)
    ensures h[b[i]].next == 0 || h[b[i]].next in h
    ensures var n := SplitAt(b[i], size);
            && n !in h
            && ListOk(SplitHeaders(h, b[i], size, h[b[i]].size - size - BLOCK_SIZE), SplitList(b, i, n), start, brk)
  {
    hide SplitList, SplitHeaders, BlockOk, Aligned;
    Neighbours(h, b, start, brk, i);
    var n := SplitAt(b[i], size);
    SplitListAt(b, i, n, 0);
    var h', b' := SplitHeaders(h, b[i], size, h[b[i]].size - size - BLOCK_SIZE), SplitList(b, i, n);
    if n in h {
      Disjoint(h, b, start, brk, b[i], n);
      assert false;
    }
    forall j: nat | j < |b'|
      ensures BlockOk(h', b', j, brk)
    {
      if j < i {
        SplitKeepsEarlier(h, b, start, brk, i, size, j);
      } else if j <= i + 1 {
        SplitKeepsHere(h, b, start, brk, i, size, j);
      } else {
        SplitKeepsLater(h, b, start, brk, i, size, j);
      }
    }
    forall a | a in h'
      ensures a in b'
    {
      SplitWrites(h, b[i], size, h[b[i]].size - size - BLOCK_SIZE, a);
      if a == n {
        SplitListAt(b, i, n, i + 1);
        assert b'[i + 1] == n;
      } else {
        var j :| 0 <= j < |b| && b[j] == a;
        SplitListAt(b, i, n, if j <= i then j else j + 1);
        assert b'[if j <= i then j else j + 1] == a;
      }
    }
  }

  /** The C test agrees with the intended one exactly when the block can hold the request and one more header. */
  lemma CSplitsAgrees(have: nat, size: nat)
    requires size <= have < TWO_TO_THE_64
    ensures (CSplits(have, size) <==> Splits(have, size)) <==> have >= size + BLOCK_SIZE
    ensures have >= size + BLOCK_SIZE ==> CRemaining(have, size) == have - size - BLOCK_SIZE
  {
  }

  /** Headers and list after split_block on block i, its test read as an integer comparison. */
  function AfterSplit(h: Headers, b: seq<nat>, i: nat, size: nat): (Headers, seq<nat>)
    requires i < |b| && b[i] in h && (h[b[i]].next == 0 || h[b[i]].next in h)
  {
    var have := h[b[i]].size;
    if Splits(have, size)
    then (SplitHeaders(h, b[i], size, have - size - BLOCK_SIZE), SplitList(b, i, SplitAt(b[i], size)))
    else (h, b)
  }

  /** The same with the C expression. */
  function AfterCSplit(h: Headers, b: seq<nat>, i: nat, size: nat): (Headers, seq<nat>)
    requires i < |b| && b[i] in h && (h[b[i]].next == 0 || h[b[i]].next in h)
  {
    var have := h[b[i]].size;
    if CSplits(have, size)
    then (SplitHeaders(h, b[i], size, CRemaining(have, size)), SplitList(b, i, SplitAt(b[i], size)))
    else (h, b)
  }

  /** Splitting with the C expression keeps the list tiling the heap if and only if the block has room for a second
      header, and then it is the intended split. */
  lemma CSplitTilesIff(h: Headers, b: seq<nat>, start: nat, brk: nat, i: nat, size: nat)
    requires ListOk(h, b, start, brk) && i < |b| && b[i] in h && (h[b[i]].next == 0 || h[b[i]].next in h)
    requires 0 < size <= h[b[i]].size < TWO_TO_THE_64 && Aligned(size)
    ensures var r := AfterCSplit(h, b, i, size);
            && (ListOk(r.0, r.1, start, brk) <==> h[b[i]].size >= size + BLOCK_SIZE)
            && (h[b[i]].size >= size + BLOCK_SIZE ==> r == AfterSplit(h, b, i, size))
  {
    var have := h[b[i]].size;
    CSplitsAgrees(have, size);
    if have >= size + BLOCK_SIZE {
      if CSplits(have, size) {
        SplitKeeps(h, b, start, brk, i, size);
      }
    } else {
      var n := SplitAt(b[i], size);
      var h', b' := SplitHeaders(h, b[i], size, CRemaining(have, size)), SplitList(b, i, n);
      Neighbours(h, b, start, brk, i);
      CWraps(have, size);
      if ListOk(h', b', start, brk) {
        NextStart(h', b', start, brk, i + 1);
        assert false;
      }
    }
  }

  lemma CWraps(have: nat, size: nat)
    requires size <= have < size + BLOCK_SIZE && have < TWO_TO_THE_64
    ensures CRemaining(have, size) == have - size - BLOCK_SIZE + TWO_TO_THE_64
  {
  }

  /** A first request for all of the initial 64 KiB heap already splits in C and breaks the list. */
  lemma ExactFitBreaksC(start: nat)
    requires start > 0 && Aligned(start)
    ensures var have := 0x1_0000 - BLOCK_SIZE;
            var h, b := map[start := Header(have, 0, 0, true)], [start];
            && ListOk(h, b, start, start + 0x1_0000) && CSplits(have, have)
            && var r := AfterCSplit(h, b, 0, have); !ListOk(r.0, r.1, start, start + 0x1_0000)
  {
    var have := 0x1_0000 - BLOCK_SIZE;
    var h, b := map[start := Header(have, 0, 0, true)], [start];
    var brk := start + 0x1_0000;
    assert BlockOk(h, b, 0, brk);
    CSplitTilesIff(h, b, start, brk, 0, have);
  }

  // ---- Merging a block with its successor -----------------------------------------------------------

  /** The header writes that make block a swallow its successor; the swallowed header is dead. */
  function MergeHeaders(h: Headers, a: nat): Headers
    requires a in h && h[a].next in h && h[a].next != a
    requires var after := h[h[a].next].next; after == 0 || (after in h && after != h[a].next)
  {
    var nx := h[a].next;
    var after := h[nx].next;
    var h1 := (h - {nx})[a := h[a].(size := h[a].size + BLOCK_SIZE + h[nx].size, next := after)];
    if after != 0 then h1[after := h1[after].(prev := a)] else h1
  }

  /** The same, one pointer write at a time. */
  lemma MergeInSteps(h: Headers, a: nat)
    requires a in h && h[a].next in h && h[a].next != a
    requires var after := h[h[a].next].next; after == 0 || (after in h && after != h[a].next && after != a)
    ensures var nx := h[a].next;
            var after := h[nx].next;
            var h1 := h[a := h[a].(size := h[a].size + BLOCK_SIZE + h[nx].size)];
            var h2 := h1[a := h1[a].(next := h1[nx].next)];
            var h3 := if after != 0 then h2[after := h2[after].(prev := a)] else h2;
            h3 - {nx} == MergeHeaders(h, a) && (h3 - {nx}).Keys == h.Keys - {nx} && h3[nx] == h[nx]
  {
  }

  function MergeList(b: seq<nat>, i: nat): seq<nat>
    requires i + 1 < |b|
  {
    b[..i + 1] + b[i + 2..]
  }

  lemma MergeListAt(b: seq<nat>, i: nat, j: nat)
    requires i + 1 < |b| && j + 1 < |b|
    ensures |MergeList(b, i)| == |b| - 1 && MergeList(b, i)[j] == if j <= i then b[j] else b[j + 1]
  {
  }

  lemma MergeWrites(h: Headers, a: nat, x: nat)
    requires a in h && h[a].next in h && h[a].next != a
    requires var after := h[h[a].next].next; after == 0 || (after in h && after != h[a].next && after != a)
    ensures var nx, h' := h[a].next, MergeHeaders(h, a);
            && (x in h' <==> x in h && x != nx)
            && (x in h' ==>
                h'[x] == if x == a then h[a].(size := h[a].size + BLOCK_SIZE + h[nx].size, next := h[nx].next)
                                     else if x != 0 && x == h[nx].next then h[x].(prev := a)
                                     else h[x])
  {
  }

  /** Block i can swallow its successor. */
  ghost predicate Mergeable(h: Headers, b: seq<nat>, i: nat) {
    && i + 1 < |b| && b[i] in h && h[b[i]].next == b[i + 1] && b[i + 1] in h && b[i] < b[i + 1]
    && h[b[i + 1]].next == (if i + 2 < |b| then b[i + 2] else 0)
    && (i + 2 < |b| ==> b[i + 2] in h && b[i + 2] > b[i + 1])
  }

  lemma MergeReady(h: Headers, b: seq<nat>, start: nat, brk: nat, i: nat)
    requires ListOk(h, b, start, brk) && i + 1 < |b|
    ensures Mergeable(h, b, i)
  {
    Neighbours(h, b, start, brk, i);
    Neighbours(h, b, start, brk, i + 1);
  }

  lemma MergeKeepsEarlier(h: Headers, b: seq<nat>, start: nat, brk: nat, i: nat, j: nat)
    requires ListOk(h, b, start, brk) && Mergeable(h, b, i) && j < i
    ensures BlockOk(MergeHeaders(h, b[i]), MergeList(b, i), j, brk)
  {
    hide ListOk, MergeList, MergeHeaders, Aligned;
    Neighbours(h, b, start, brk, j);
    InOrder(h, b, start, brk, j, i);
    MergeListAt(b, i, j);
    MergeListAt(b, i, j + 1);
    MergeListAt(b, i, if j == 0 then 0 else j - 1);
    MergeWrites(h, b[i], b[j]);
  }

  lemma MergeKeepsThis(h: Headers, b: seq<nat>, start: nat, brk: nat, i: nat)
    requires ListOk(h, b, start, brk) && Mergeable(h, b, i)
    ensures BlockOk(MergeHeaders(h, b[i]), MergeList(b, i), i, brk)
  {
    hide ListOk, MergeList, MergeHeaders, Aligned;
    Neighbours(h, b, start, brk, i);
    Neighbours(h, b, start, brk, i + 1);
    AlignedSums(h[b[i]].size, h[b[i + 1]].size);
    MergeListAt(b, i, i);
    MergeListAt(b, i, if i == 0 then 0 else i - 1);
    MergeListAt(b, i, if i + 2 < |b| then i + 1 else i);
    MergeWrites(h, b[i], b[i]);
  }

  lemma MergeKeepsLater(h: Headers, b: seq<nat>, start: nat, brk: nat, i: nat, j: nat)
    requires ListOk(h, b, start, brk) && Mergeable(h, b, i) && i < j && j + 1 < |b|
    ensures BlockOk(MergeHeaders(h, b[i]), MergeList(b, i), j, brk)
  {
    hide ListOk, MergeList, MergeHeaders, Aligned;
    Neighbours(h, b, start, brk, j + 1);
    InOrder(h, b, start, brk, i + 1, j + 1);
    if j > i + 1 {
      InOrder(h, b, start, brk, i + 2, j + 1);
    }
    MergeListAt(b, i, j);
    MergeListAt(b, i, j - 1);
    MergeListAt(b, i, if j + 2 < |b| then j + 1 else j);
    MergeWrites(h, b[i], b[j + 1]);
  }

  lemma MergeKeeps(h: Headers, b: seq<nat>, start: nat, brk: nat, i: nat)
    requires ListOk(h, b, start, brk) && i + 1 < |b|
    ensures b[i] in h && h[b[i]].next == b[i + 1] && b[i + 1] in h && b[i + 1] != b[i]
    ensures var after := h[b[i + 1]].next; after == 0 || (after in h && after != b[i + 1] && after != b[i])
    ensures ListOk(MergeHeaders(h, b[i]), MergeList(b, i), start, brk)
  {
    hide MergeList, MergeHeaders, BlockOk, Aligned;
    MergeReady(h, b, start, brk, i);
    MergeListAt(b, i, 0);
    AddressAligned(h, b, start, brk, i);
    var h', b' := MergeHeaders(h, b[i]), MergeList(b, i);
    forall j: nat | j < |b'|
      ensures BlockOk(h', b', j, brk)
    {
      if j < i {
        MergeKeepsEarlier(h, b, start, brk, i, j);
      } else if j == i {
        MergeKeepsThis(h, b, start, brk, i);
      } else {
        MergeKeepsLater(h, b, start, brk, i, j);
      }
    }
    forall a | a in h'
      ensures a in b'
    {
      MergeWrites(h, b[i], a);
      var j :| 0 <= j < |b| && b[j] == a;
      MergeListAt(b, i, if j <= i then j else j - 1);
      assert b'[if j <= i then j else j - 1] == a;
    }
  }

  // ---- Flags and new blocks -------------------------------------------------------------------------

  function Marked(h: Headers, a: nat, free: bool): Headers
    requires a in h
  {
    h[a := h[a].(free := free)]
  }

  lemma MarkKeeps(h: Headers, b: seq<nat>, start: nat, brk: nat, a: nat, free: bool)
    requires ListOk(h, b, start, brk) && a in h
    ensures ListOk(Marked(h, a, free), b, start, brk)
  {
    forall j: nat | j < |b|
      ensures BlockOk(Marked(h, a, free), b, j, brk)
    {
      assert BlockOk(h, b, j, brk);
    }
  }

  /** A new free block behind the last one. */
  function ExtendHeaders(h: Headers, end: nat, brk: nat, size: nat): Headers
    requires end in h
  {
    h[brk := Header(size, 0, end, true)][end := h[end].(next := brk)]
  }

  lemma ExtendKeeps(h: Headers, b: seq<nat>, start: nat, brk: nat, size: nat)
    requires ListOk(h, b, start, brk) && size > 0 && Aligned(size)
    ensures b[|b| - 1] in h && brk !in h && brk != b[|b| - 1]
    ensures ListOk(ExtendHeaders(h, b[|b| - 1], brk, size), b + [brk], start, brk + BLOCK_SIZE + size)
  {
    var n := |b| - 1;
    AllInOrder(h, b, start, brk);
    Neighbours(h, b, start, brk, n);
    var h', b', brk' := ExtendHeaders(h, b[n], brk, size), b + [brk], brk + BLOCK_SIZE + size;
    forall j: nat | j < |b'|
      ensures BlockOk(h', b', j, brk')
    {
      if j < |b| {
        assert BlockOk(h, b, j, brk);
      }
    }
  }

  /** Payload of the block that extend_heap adds. */
  function ExtendSize(size: nat): nat {
    (if size + BLOCK_SIZE < MIN_EXTEND then MIN_EXTEND else size + BLOCK_SIZE) - BLOCK_SIZE
  }

  /** A request that extend_heap serves: the C split of the new block keeps the list if and only if the request is at
      most 4032 bytes. Every larger one breaks it, and from 4064 bytes on the new block is exactly as large as the
      request. */
  lemma ExtendThenCSplitIff(h: Headers, b: seq<nat>, start: nat, brk: nat, size: nat)
    requires ListOk(h, b, start, brk) && size > 0 && ExtendSize(size) < TWO_TO_THE_64 && Aligned(size)
    ensures b[|b| - 1] in h && brk !in h
    ensures var s := ExtendSize(size);
            var r := AfterCSplit(ExtendHeaders(h, b[|b| - 1], brk, s), b + [brk], |b|, size);
            ListOk(r.0, r.1, start, brk + BLOCK_SIZE + s) <==> size <= MIN_EXTEND - 2 * BLOCK_SIZE
    ensures size >= MIN_EXTEND - BLOCK_SIZE ==> ExtendSize(size) == size
  {
    var s := ExtendSize(size);
    AlignedExtension(brk, size);
    ExtendKeeps(h, b, start, brk, s);
    CSplitTilesIff(ExtendHeaders(h, b[|b| - 1], brk, s), b + [brk], start, brk + BLOCK_SIZE + s, |b|, size);
  }

  lemma AlignedExtension(brk: nat, size: nat)
    requires Aligned(size) && size > 0
    ensures Aligned(ExtendSize(size)) && ExtendSize(size) >= size
    ensures Aligned(brk) ==> Aligned(brk + BLOCK_SIZE + ExtendSize(size))
  {
  }

  // ---- What the writes do to the allocated blocks ---------------------------------------------------

  lemma UsedAfterSplit(h: Headers, a: nat, size: nat, remaining: nat)
    requires a in h && (h[a].next == 0 || h[a].next in h) && SplitAt(a, size) !in h && a != h[a].next
    ensures Used(SplitHeaders(h, a, size, remaining)) == if h[a].free then Used(h) else Used(h)[a := size]
  {
  }

  lemma UsedAfterMerge(h: Headers, a: nat)
    requires a in h && h[a].next in h && h[a].next != a && h[h[a].next].free
    requires var after := h[h[a].next].next; after == 0 || (after in h && after != h[a].next && after != a)
    ensures Used(MergeHeaders(h, a)) ==
            if h[a].free then Used(h) else Used(h)[a := h[a].size + BLOCK_SIZE + h[h[a].next].size]
  {
  }

  lemma UsedAfterMark(h: Headers, a: nat, free: bool)
    requires a in h
    ensures Used(Marked(h, a, free)) == if free then Used(h) - {a} else Used(h)[a := h[a].size]
  {
  }

  lemma UsedAfterExtend(h: Headers, end: nat, brk: nat, size: nat)
    requires end in h && brk !in h && end != brk
    ensures Used(ExtendHeaders(h, end, brk, size)) == Used(h)
  {
  }

  // ---- No two adjacent free blocks ------------------------------------------------------------------

  lemma QuietAfterSplit(h: Headers, b: seq<nat>, start: nat, brk: nat, i: nat, size: nat, remaining: nat)
    requires ListOk(h, b, start, brk) && i < |b| && b[i] in h && (h[b[i]].next == 0 || h[b[i]].next in h)
    requires SplitAt(b[i], size) !in h && QuietExcept(h, b, i) && (i + 1 < |b| ==> !Free(h, b[i + 1]))
    ensures var h', b' := SplitHeaders(h, b[i], size, remaining), SplitList(b, i, SplitAt(b[i], size));
            QuietExcept(h', b', i)
  {
    hide SplitList, SplitHeaders;
    Neighbours(h, b, start, brk, i);
    var n := SplitAt(b[i], size);
    var h', b' := SplitHeaders(h, b[i], size, remaining), SplitList(b, i, n);
    SplitListAt(b, i, n, 0);
    forall j: nat | j + 1 < |b'| && j != i && j + 1 != i
      ensures Calm(h', b', j)
    {
      SplitListAt(b, i, n, j);
      SplitListAt(b, i, n, j + 1);
      SplitWrites(h, b[i], size, remaining, b'[j]);
      SplitWrites(h, b[i], size, remaining, b'[j + 1]);
      Neighbours(h, b, start, brk, if j <= i then j else j - 1);
      assert j < i ==> Calm(h, b, j);
      assert j > i + 1 ==> Calm(h, b, j - 1);
    }
  }

  /** Merging block i with a free successor leaves block i the only possible culprit, and its new successor
      allocated. */
  lemma QuietAfterMerge(h: Headers, b: seq<nat>, start: nat, brk: nat, i: nat, except: nat)
    requires ListOk(h, b, start, brk) && i + 1 < |b| && b[i] in h && h[b[i]].next == b[i + 1] && b[i + 1] in h
        && b[i + 1] != b[i]
    requires var after := h[b[i + 1]].next; after == 0 || (after in h && after != b[i + 1] && after != b[i])
    requires except == i || except == i + 1
    requires QuietExcept(h, b, except) && (i + 2 < |b| ==> !Free(h, b[i + 2]))
    ensures QuietExcept(MergeHeaders(h, b[i]), MergeList(b, i), i)
    ensures i + 1 < |MergeList(b, i)| ==> !Free(MergeHeaders(h, b[i]), MergeList(b, i)[i + 1])
  {
    hide MergeList, MergeHeaders;
    var h', b' := MergeHeaders(h, b[i]), MergeList(b, i);
    MergeListAt(b, i, 0);
    forall j: nat | j + 1 < |b'| && j != i && j + 1 != i
      ensures Calm(h', b', j)
    {
      MergeListAt(b, i, j);
      MergeListAt(b, i, j + 1);
      MergeWrites(h, b[i], b'[j]);
      MergeWrites(h, b[i], b'[j + 1]);
      assert j < i ==> Calm(h, b, j);
      assert j > i ==> Calm(h, b, j + 1);
    }
    if i + 1 < |b'| {
      MergeListAt(b, i, i + 1);
      MergeWrites(h, b[i], b'[i + 1]);
    }
  }

  lemma QuietAfterMark(h: Headers, b: seq<nat>, start: nat, brk: nat, i: nat, free: bool)
    requires ListOk(h, b, start, brk) && i < |b| && b[i] in h && QuietExcept(h, b, i)
    ensures QuietExcept(Marked(h, b[i], free), b, i)
    ensures !free ==> Quiet(Marked(h, b[i], free), b)
  {
    AllInOrder(h, b, start, brk);
    var h' := Marked(h, b[i], free);
    forall j: nat | j + 1 < |b| && (!free || (j != i && j + 1 != i))
      ensures Calm(h', b, j)
    {
      if j != i && j + 1 != i {
        assert Calm(h, b, j);
      }
    }
  }

  lemma QuietAfterExtend(h: Headers, b: seq<nat>, start: nat, brk: nat, size: nat)
    requires ListOk(h, b, start, brk) && Quiet(h, b) && b[|b| - 1] in h && brk !in h && brk != b[|b| - 1]
    ensures QuietExcept(ExtendHeaders(h, b[|b| - 1], brk, size), b + [brk], |b|)
  {
    var h', b' := ExtendHeaders(h, b[|b| - 1], brk, size), b + [brk];
    forall j: nat | j + 1 < |b'| && j != |b| && j + 1 != |b|
      ensures Calm(h', b', j)
    {
      Neighbours(h, b, start, brk, j);
      assert Calm(h, b, j);
    }
  }

  /** Once neither neighbour of block i is free, nothing adjacent is. */
  lemma QuietAll(h: Headers, b: seq<nat>, i: nat)
    requires i < |b| && QuietExcept(h, b, i)
    requires (i + 1 < |b| ==> !Free(h, b[i + 1])) && (i > 0 ==> !Free(h, b[i - 1]))
    ensures Quiet(h, b)
  {
  }

  /** An allocated block cannot be half of a free pair. */
  lemma QuietUsed(h: Headers, b: seq<nat>, i: nat)
    requires i < |b| && QuietExcept(h, b, i) && !Free(h, b[i])
    ensures Quiet(h, b)
  {
  }

  lemma QuietNeighbours(h: Headers, b: seq<nat>, i: nat)
    requires i < |b| && Quiet(h, b)
    ensures QuietExcept(h, b, i)
    ensures Free(h, b[i]) ==> (i + 1 < |b| ==> !Free(h, b[i + 1])) && (i > 0 ==> !Free(h, b[i - 1]))
    ensures i + 2 < |b| && Free(h, b[i + 1]) ==> !Free(h, b[i + 2])
  {
    assert i + 1 < |b| ==> Calm(h, b, i);
    assert i > 0 ==> Calm(h, b, i - 1);
    assert i + 2 < |b| ==> Calm(h, b, i + 1);
    forall j: nat | j + 1 < |b| && j != i && j + 1 != i
      ensures Calm(h, b, j)
    {
    }
  }

  // ---- Accounting -----------------------------------------------------------------------------------

  /** Payload bytes of the first n blocks with the given flag. */
  function Bytes(h: Headers, b: seq<nat>, n: nat, free: bool): nat
    requires n <= |b|
  {
    if n == 0 then 0
    else Bytes(h, b, n - 1, free) + if b[n - 1] in h && h[b[n - 1]].free == free then h[b[n - 1]].size else 0
  }

  /** Used bytes, free bytes and headers add up to the heap. */
  lemma {:induction false} Accounting(h: Headers, b: seq<nat>, start: nat, brk: nat, n: nat)
    requires ListOk(h, b, start, brk) && n <= |b|
    ensures Bytes(h, b, n, false) + Bytes(h, b, n, true) + BLOCK_SIZE * n == (if n == |b| then brk else b[n]) - start
  {
    if n > 0 {
      Accounting(h, b, start, brk, n - 1);
      assert BlockOk(h, b, n - 1, brk);
    }
  }

  /** The sum of a map's values, taken in any order. */
  ghost function Sum(u: map<nat, nat>): nat {
    if u == map[] then 0
    else
      var a :| a in u;
      u[a] + Sum(u - {a})
  }

  lemma {:induction false} SumWithout(u: map<nat, nat>, a: nat)
    requires a in u
    ensures Sum(u) == u[a] + Sum(u - {a})
    decreases |u|
  {
    var c :| c in u && Sum(u) == u[c] + Sum(u - {c});
    if c != a {
      SumWithout(u - {c}, a);
      SumWithout(u - {a}, c);
      assert u - {c} - {a} == u - {a} - {c};
    }
  }

  lemma SumAdds(u: map<nat, nat>, a: nat, v: nat)
    requires a !in u
    ensures Sum(u[a := v]) == Sum(u) + v
  {
    SumWithout(u[a := v], a);
    assert u[a := v] - {a} == u;
  }

  /** The bytes of the blocks that are not free are the sum over the allocated blocks. */
  lemma UsedBytes(h: Headers, b: seq<nat>, start: nat, brk: nat)
    requires ListOk(h, b, start, brk)
    ensures Bytes(h, b, |b|, false) == Sum(Used(h))
  {
    UsedBytesBefore(h, b, start, brk, |b|);
    assert Among(h, b, |b|) == Used(h);
  }

  /** The allocated ones of the first n blocks. */
  ghost function Among(h: Headers, b: seq<nat>, n: nat): map<nat, nat>
    requires n <= |b|
  {
    map a | a in b[..n] && a in h && !h[a].free :: h[a].size
  }

  lemma {:induction false} UsedBytesBefore(h: Headers, b: seq<nat>, start: nat, brk: nat, n: nat)
    requires ListOk(h, b, start, brk) && n <= |b|
    ensures Bytes(h, b, n, false) == Sum(Among(h, b, n))
  {
    if n > 0 {
      UsedBytesBefore(h, b, start, brk, n - 1);
      AllInOrder(h, b, start, brk);
      AmongOneMore(h, b, n);
      if b[n - 1] in h && !h[b[n - 1]].free {
        SumAdds(Among(h, b, n - 1), b[n - 1], h[b[n - 1]].size);
      }
    }
  }

  lemma AmongOneMore(h: Headers, b: seq<nat>, n: nat)
    requires 0 < n <= |b| && forall i, j | 0 <= i < j < |b| :: b[i] < b[j]
    ensures var a, before := b[n - 1], Among(h, b, n - 1);
            && a !in before
            && Among(h, b, n) == if a in h && !h[a].free then before[a := h[a].size] else before
  {
    assert b[..n] == b[..n - 1] + [b[n - 1]];
  }
}
