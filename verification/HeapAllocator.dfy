/** First-fit heap allocator over a contiguous sbrk range: split, coalesce, extend, malloc, realloc and free. */
module HeapAllocator {
  import opened HeapBlocks
  import opened HeapMemory
  import opened Prelude

  const INITIAL_SIZE := 0x1_0000

  // ---- Payloads in memory ---------------------------------------------------------------------------

  /** The payloads listed in `keep`, by header address and length, hold the same bytes. */
  ghost predicate Intact(m: Memory, m': Memory, keep: map<nat, nat>) {
    forall a, x {:trigger a in keep, m'(x)} | a in keep
        && a + BLOCK_SIZE <= x < a + BLOCK_SIZE + keep[a] :: m'(x) == m(x)
  }

  /** A header at w overlaps none of the payloads. */
  ghost predicate Clear(w: nat, keep: map<nat, nat>) {
    forall a | a in keep :: w <= a || a + BLOCK_SIZE + keep[a] <= w
  }

  ghost predicate Within(keep: map<nat, nat>, h: Headers) {
    forall a | a in keep :: a in h && keep[a] <= h[a].size
  }

  lemma ClearHere(h: Headers, b: seq<nat>, start: nat, brk: nat, w: nat, keep: map<nat, nat>)
    requires ListOk(h, b, start, brk) && w in h && Within(keep, h)
    ensures Clear(w, keep)
  {
    forall a | a in keep
      ensures w <= a || a + BLOCK_SIZE + keep[a] <= w
    {
      if a != w {
        Disjoint(h, b, start, brk, a, w);
      }
    }
  }

  lemma StoredIntact(m: Memory, w: nat, hdr: Header, keep: map<nat, nat>)
    requires Clear(w, keep)
    ensures Intact(m, Stored(m, w, hdr), keep)
  {
  }

  lemma IntactTogether(m: Memory, m': Memory, m'': Memory, keep: map<nat, nat>)
    requires Intact(m, m', keep) && Intact(m', m'', keep)
    ensures Intact(m, m'', keep)
  {
  }

  /** No header written by a split touches a payload that is kept. */
  lemma SplitClear(h: Headers, h': Headers, b': seq<nat>, start: nat, brk: nat, p: nat, size: nat, remaining: nat,
          keep: map<nat, nat>)
    requires p in h && (h[p].next == 0 || h[p].next in h) && SplitAt(p, size) !in h && h[p].next != p
    requires h' == SplitHeaders(h, p, size, remaining) && ListOk(h', b', start, brk)
    requires Within(keep, h) && (p in keep ==> keep[p] <= size)
    ensures Within(keep, h')
    ensures Clear(p, keep) && Clear(SplitAt(p, size), keep) && (h[p].next != 0 ==> Clear(h[p].next, keep))
    ensures Apart(p, h'.Keys) && Apart(SplitAt(p, size), h'.Keys) && (h[p].next != 0 ==> Apart(h[p].next, h'.Keys))
    ensures h'.Keys == h.Keys + {SplitAt(p, size)}
  {
    ClearHere(h', b', start, brk, p, keep);
    ClearHere(h', b', start, brk, SplitAt(p, size), keep);
    if h[p].next != 0 {
      ClearHere(h', b', start, brk, h[p].next, keep);
      ApartHere(h', b', start, brk, h[p].next);
    }
    ApartHere(h', b', start, brk, p);
    ApartHere(h', b', start, brk, SplitAt(p, size));
  }

  ghost predicate Fits(h: Headers, a: nat, size: nat) {
    Free(h, a) && h[a].size >= size
  }

  /** No header written by an extension touches a payload or another header. */
  lemma ExtendClear(h: Headers, b: seq<nat>, start: nat, brk: nat, size: nat)
    requires ListOk(h, b, start, brk) && size > 0 && Aligned(size)
    ensures b != []
    ensures var end := b[|b| - 1];
      && end in h && end != 0 && brk != end && brk !in h
      && Clear(brk, Used(h)) && Clear(end, Used(h))
      && var h' := ExtendHeaders(h, end, brk, size);
         Apart(brk, h'.Keys) && Apart(end, h'.Keys) && h.Keys + {brk} == h'.Keys && Fits(h', brk, size)
  {
    ExtendKeeps(h, b, start, brk, size);
    var end := b[|b| - 1];
    var h', b', brk' := ExtendHeaders(h, end, brk, size), b + [brk], brk + BLOCK_SIZE + size;
    AddressAligned(h, b, start, brk, |b| - 1);
    ClearHere(h', b', start, brk', brk, Used(h));
    ClearHere(h', b', start, brk', end, Used(h));
    ApartHere(h', b', start, brk', brk);
    ApartHere(h', b', start, brk', end);
  }

  lemma IntactAtOnce(m: Memory, keep: map<nat, nat>)
    ensures Intact(m, m, keep)
  {
  }

  // ---- What the public functions promise ------------------------------------------------------------

  /** a is the first free block that is large enough, or the old break when there is none. */
  ghost predicate FirstFit(h: Headers, b: seq<nat>, brk: nat, size: nat, a: nat) {
    || (exists i: nat :: i < |b| && b[i] == a && Fits(h, a, size) && forall j: nat | j < i :: !Fits(h, b[j], size))
    || (a == brk && NoFit(h, b, size))
  }

  /** The break after an extension by at least 4 KiB. */
  function GrownBreak(brk: nat, size: nat): (r: nat)
    ensures r >= brk + size + BLOCK_SIZE && r >= brk + 4096
    ensures r == brk + size + BLOCK_SIZE || r == brk + 4096
  {
    brk + BLOCK_SIZE + ExtendSize(size)
  }

  ghost predicate NoFit(h: Headers, b: seq<nat>, size: nat) {
    forall j: nat | j < |b| :: !Fits(h, b[j], size)
  }

  /** Every block but those of `but` keeps its size and flag. */
  ghost predicate OthersKept(h: Headers, h': Headers, but: set<int>) {
    forall x {:trigger h'[x]} {:trigger h[x]} | x in h && x !in but ::
      x in h' && h'[x].size == h[x].size && h'[x].free == h[x].free
  }

  lemma OthersTogether(h: Headers, h': Headers, h'': Headers, but: set<int>, but': set<int>)
    requires OthersKept(h, h', but) && OthersKept(h', h'', but')
    ensures forall both: set<int> | but <= both && but' <= both :: OthersKept(h, h'', both)
  {
    forall x | x in h && x !in but && x !in but'
      ensures x in h'' && h''[x].size == h[x].size && h''[x].free == h[x].free
    {
      assert h'[x].size == h[x].size;
    }
  }

  lemma OthersSame(h: Headers, but: set<int>)
    ensures OthersKept(h, h, but)
  {
  }

  lemma OthersAfterMark(h: Headers, a: nat, free: bool)
    requires a in h
    ensures OthersKept(h, Marked(h, a, free), {a})
  {
  }

  lemma OthersAfterExtend(h: Headers, end: nat, brk: nat, size: nat)
    requires end in h && brk !in h && end != brk
    ensures OthersKept(h, ExtendHeaders(h, end, brk, size), {brk})
  {
  }

  lemma OthersAfterSplit(h: Headers, a: nat, size: nat, remaining: nat)
    requires a in h && (h[a].next == 0 || h[a].next in h) && SplitAt(a, size) !in h && a != h[a].next
    ensures OthersKept(h, SplitHeaders(h, a, size, remaining), {a})
  {
    hide SplitHeaders;
    forall x | x in h && x != a
      ensures var h' := SplitHeaders(h, a, size, remaining);
              x in h' && h'[x].size == h[x].size && h'[x].free == h[x].free
    {
      SplitWrites(h, a, size, remaining, x);
    }
  }

  lemma OthersAfterMerge(h: Headers, a: nat)
    requires a in h && h[a].next in h && h[a].next != a
    requires var after := h[h[a].next].next; after == 0 || (after in h && after != h[a].next && after != a)
    ensures OthersKept(h, MergeHeaders(h, a), {a, h[a].next})
  {
    hide MergeHeaders;
    forall x | x in h && x !in {a, h[a].next}
      ensures var h' := MergeHeaders(h, a); x in h' && h'[x].size == h[x].size && h'[x].free == h[x].free
    {
      MergeWrites(h, a, x);
    }
  }

  /** A block that keeps its size and has not moved keeps the neighbours that were there before. */
  lemma NeighboursStay(h: Headers, b: seq<nat>, start: nat, brk: nat, h': Headers, b': seq<nat>, start': nat, brk': nat,
          a: nat, c: int)
    requires ListOk(h, b, start, brk) && ListOk(h', b', start', brk') && OthersKept(h, h', {c})
    requires a in h && a in h' && a != c
    ensures h'[a].next in h ==> h'[a].next == h[a].next
    ensures h'[a].prev in h && h'[a].prev != c ==> h'[a].prev == h[a].prev
  {
    hide ListOk, OthersKept;
    var i := PlaceOf(h, b, start, brk, a);
    var j := PlaceOf(h', b', start', brk', a);
    SizeKept(h, h', {c}, a);
    NextBy(h, b, start, brk, i);
    NextBy(h', b', start', brk', j);
    var x := h'[a].prev;
    if x in h && x != c {
      SizeKept(h, h', {c}, x);
      var k := PlaceOf(h, b, start, brk, x);
      NextBy(h, b, start, brk, k);
    }
  }

  lemma SizeKept(h: Headers, h': Headers, but: set<int>, a: nat)
    requires OthersKept(h, h', but) && a in h && a !in but
    ensures a in h' && h'[a].size == h[a].size && h'[a].free == h[a].free
  {
  }

  lemma AllKept(h: Headers, h': Headers, but: set<int>)
    requires forall x | x in h && x !in but :: x in h' && h'[x].size == h[x].size && h'[x].free == h[x].free
    ensures OthersKept(h, h', but)
  {
  }

  lemma NotChosen(h: Headers, b: seq<nat>, start: nat, brk: nat, size: nat, a: nat, x: nat)
    requires ListOk(h, b, start, brk) && FirstFit(h, b, brk, size, a) && x in h && h[x].size < size
    ensures x != a
  {
    AllInOrder(h, b, start, brk);
  }

  /** The result p of asking for `size` bytes: one new block, aligned and large enough, nothing else touched. */
  ghost predicate Allocated(h: Headers, m: Memory, h': Headers, m': Memory, size: nat, p: nat) {
    && Intact(m, m', Used(h))
    && (p == 0 ==> Used(h') == Used(h))
    && (p != 0 ==>
          && p > BLOCK_SIZE && Aligned(p)
          && var a := p - BLOCK_SIZE;
             && a !in Used(h) && a in h' && Used(h') == Used(h)[a := h'[a].size] && OthersKept(h, h', {a})
             && size <= Align(size) <= h'[a].size < Align(size) + BLOCK_SIZE + MIN_BLOCK_SIZE)
  }

  /** The n payload bytes behind header address a belong to a free block. */
  ghost predicate CoveredByFree(h: Headers, a: nat, n: nat) {
    exists f | f in h :: h[f].free && f <= a && a + n <= f + h[f].size
  }

  lemma CoversItself(h: Headers, a: nat)
    requires Free(h, a)
    ensures CoveredByFree(h, a, h[a].size)
  {
  }

  /** A block that is swallowed lies within the one that swallows it. */
  lemma MergeCovers(h: Headers, a: nat)
    requires Free(h, a) && h[a].next in h && h[a].next != a && a + BLOCK_SIZE + h[a].size == h[a].next
    requires var after := h[h[a].next].next; after == 0 || (after in h && after != h[a].next && after != a)
    ensures CoveredByFree(MergeHeaders(h, a), h[a].next, h[h[a].next].size)
  {
    MergeWrites(h, a, a);
    assert a in MergeHeaders(h, a);
  }

  /** A free block's header of at least this size still stands in memory at a. */
  ghost predicate StaleAt(m: Memory, a: nat, size: nat) {
    exists header :: HeaderAt(m, a, header) && header.free && header.size >= size
  }

  /** The headers that a merge swallowed still stand in memory. */
  ghost predicate SwallowedStay(h: Headers, h': Headers, m': Memory) {
    forall x | x in h && x !in h' :: StaleAt(m', x, h[x].size)
  }

  /** The block at header address a is given back, nothing else touched. A free block covers it now, and whatever
      headers were swallowed are still there as bytes. */
  ghost predicate Released(h: Headers, m: Memory, h': Headers, m': Memory, a: nat) {
    && Used(h') == Used(h) - {a} && Intact(m, m', Used(h) - {a})
    && a in h && CoveredByFree(h', a, h[a].size) && SwallowedStay(h, h', m')
  }

  /** The block at header address a lives on at payload address q with at least `size` bytes and all its old bytes. */
  ghost predicate Reallocated(h: Headers, m: Memory, h': Headers, m': Memory, a: nat, size: nat, q: nat)
    requires a in Used(h)
  {
    && q > BLOCK_SIZE && Aligned(q)
    && var c := q - BLOCK_SIZE;
       && (c == a || c !in Used(h))
       && c in h' && h'[c].size >= Align(size) && h'[c].size >= h[a].size
       && Used(h') == (Used(h) - {a})[c := h'[c].size]
       && (forall x | q <= x < q + h[a].size :: m'(x) == m(a + BLOCK_SIZE + (x - q)))
       && Intact(m, m', Used(h) - {a})
  }

  /** The successor of the block at a is free and makes up for the missing size. */
  predicate HasRoomBehind(h: Headers, a: nat, size: nat)
    requires a in h
  {
    h[a].next in h && h[h[a].next].free && h[a].size + BLOCK_SIZE + h[h[a].next].size >= size
  }

  /** Growing the block at a to `size` bytes takes no more than it must. With room behind, the block stays, what is too
      much is split off again, and all blocks but these two are as before; else it moves to a new block of about that
      size, and all but the old one, its neighbours and the new one are as before. */
  ghost predicate ResizedTightly(h: Headers, h': Headers, a: nat, size: nat, q: nat)
    requires a in h
  {
    h[a].size < size && q != 0 ==>
      var c := q - BLOCK_SIZE;
      && c in h' && h'[c].size < size + BLOCK_SIZE + MIN_BLOCK_SIZE
      && (q == a + BLOCK_SIZE <==> HasRoomBehind(h, a, size))
      && OthersKept(h, h', if q == a + BLOCK_SIZE then {a, h[a].next} else {a, c, h[a].prev, h[a].next})
  }

  lemma SameSizesStay(h0: Headers, h1: Headers, h2: Headers, m: Memory)
    requires SwallowedStay(h1, h2, m) && h1.Keys == h0.Keys && forall x | x in h0 :: h1[x].size == h0[x].size
    ensures SwallowedStay(h0, h2, m)
  {
    forall x | x in h0 && x !in h2
      ensures StaleAt(m, x, h0[x].size)
    {
      assert x in h1 && StaleAt(m, x, h1[x].size);
    }
  }

  lemma StaysPut(h: Headers, m: Memory, a: nat, size: nat)
    requires a in Used(h) && h[a].size >= Align(size) && a > 0 && Aligned(a)
    ensures Reallocated(h, m, h, m, a, size, a + BLOCK_SIZE)
  {
  }

  lemma Absorbed(h: Headers, m: Memory, h': Headers, m': Memory, a: nat, size: nat)
    requires a in Used(h) && a in h' && h'[a].size >= Align(size) && h'[a].size >= h[a].size && a > 0 && Aligned(a)
    requires Used(h') == Used(h)[a := h'[a].size] && Intact(m, m', Used(h))
    ensures Reallocated(h, m, h', m', a, size, a + BLOCK_SIZE)
  {
  }

  lemma AlignTwice(size: nat)
    ensures Align(Align(size)) == Align(size)
  {
  }

  /** Malloc, memcpy and free together move a payload: the copy lands in the new block only and survives the free. */
  lemma Moved(h0: Headers, m0: Memory, h1: Headers, b1: seq<nat>, start: nat, brk: nat, m1: Memory, m2: Memory,
          h3: Headers, m3: Memory, a: nat, size: nat, q: nat)
    requires a in Used(h0) && h0[a].size < Align(size) && q != 0
    requires Allocated(h0, m0, h1, m1, Align(size), q) && ListOk(h1, b1, start, brk)
    requires m2 == Copied(m1, q, a + BLOCK_SIZE, h0[a].size) && Released(h1, m2, h3, m3, a)
    ensures Reallocated(h0, m0, h3, m3, a, size, q)
  {
    hide ListOk, Align, Aligned, Intact, OthersKept;
    AlignTwice(size);
    var c := q - BLOCK_SIZE;
    assert a in Used(h1) && c in Used(h1) && c in Used(h3) && Used(h3)[c] == Used(h1)[c];
    CopySurvives(Used(h0), m0, Used(h1), m1, m2, m3, a, c);
    CopyMissesOthers(h0, m0, h1, b1, start, brk, m1, m2, m3, a, c);
  }

  /** ... and the blocks that are neither the two nor neighbours of the old one are left alone. */
  lemma MovedKeepsOthers(h0: Headers, m0: Memory, b0: seq<nat>, start0: nat, brk0: nat, h1: Headers, m1: Memory,
          b1: seq<nat>, start1: nat, brk1: nat, m2: Memory, h3: Headers, m3: Memory, a: nat, size: nat, q: nat)
    requires a in Used(h0) && q != 0 && q - BLOCK_SIZE != a && ListOk(h0, b0, start0, brk0)
             && ListOk(h1, b1, start1, brk1)
    requires Allocated(h0, m0, h1, m1, Align(size), q) && Released(h1, m2, h3, m3, a)
    requires OthersKept(h1, h3, {a, h1[a].prev, h1[a].next})
    ensures OthersKept(h0, h3, {a, q - BLOCK_SIZE, h0[a].prev, h0[a].next})
    ensures q - BLOCK_SIZE in h3 && h3[q - BLOCK_SIZE].size < Align(size) + BLOCK_SIZE + MIN_BLOCK_SIZE
  {
    hide ListOk, Align, Aligned, Intact, OthersKept, CoveredByFree, SwallowedStay;
    var c := q - BLOCK_SIZE;
    AlignTwice(size);
    assert c in Used(h1) && c in Used(h3) && Used(h3)[c] == Used(h1)[c];
    NeighboursStay(h0, b0, start0, brk0, h1, b1, start1, brk1, a, c);
    forall x | x in h0 && x !in {a, c, h0[a].prev, h0[a].next}
      ensures x in h3 && h3[x].size == h0[x].size && h3[x].free == h0[x].free
    {
      SizeKept(h0, h1, {c}, x);
      SizeKept(h1, h3, {a, h1[a].prev, h1[a].next}, x);
    }
    AllKept(h0, h3, {a, c, h0[a].prev, h0[a].next});
  }

  lemma CopySurvives(u0: map<nat, nat>, m0: Memory, u1: map<nat, nat>, m1: Memory, m2: Memory, m3: Memory, a: nat,
          c: nat)
    requires a in u0 && a != c && c in u1 && u1[c] >= u0[a] && Intact(m0, m1, u0)
    requires m2 == Copied(m1, c + BLOCK_SIZE, a + BLOCK_SIZE, u0[a]) && Intact(m2, m3, u1 - {a})
    ensures forall x | c + BLOCK_SIZE <= x < c + BLOCK_SIZE + u0[a] ::
            m3(x) == m0(a + BLOCK_SIZE + (x - (c + BLOCK_SIZE)))
  {
    hide Intact, Copied;
    var q, ptr: nat, n := c + BLOCK_SIZE, a + BLOCK_SIZE, u0[a];
    forall x | q <= x < q + n
      ensures m3(x) == m0(ptr + (x - q))
    {
      IntactAt(m2, m3, u1 - {a}, c, x);
      IntactAt(m0, m1, u0, a, ptr + (x - q));
      CopiedAt(m1, q, ptr, n, x);
    }
  }

  lemma IntactAt(m: Memory, m': Memory, keep: map<nat, nat>, a: nat, x: int)
    requires Intact(m, m', keep) && a in keep && a + BLOCK_SIZE <= x < a + BLOCK_SIZE + keep[a]
    ensures m'(x) == m(x)
  {
  }

  lemma CopiedAt(m: Memory, dst: nat, src: nat, n: nat, x: int)
    ensures Copied(m, dst, src, n)(x) == if dst <= x < dst + n then m(src + (x - dst)) else m(x)
  {
  }

  lemma CopyMissesOthers(h0: Headers, m0: Memory, h1: Headers, b1: seq<nat>, start: nat, brk: nat, m1: Memory,
          m2: Memory, m3: Memory, a: nat, c: nat)
    requires a in Used(h0) && c in Used(h1) && ListOk(h1, b1, start, brk) && h0[a].size <= h1[c].size
    requires c !in Used(h0) && Used(h1) == Used(h0)[c := h1[c].size] && Intact(m0, m1, Used(h0))
    requires m2 == Copied(m1, c + BLOCK_SIZE, a + BLOCK_SIZE, h0[a].size) && Intact(m2, m3, Used(h1) - {a})
    ensures Intact(m0, m3, Used(h0) - {a})
  {
    hide ListOk;
    var u0: map<nat, nat>, u1: map<nat, nat> := Used(h0), Used(h1);
    forall d, x | d in u0 - {a} && d + BLOCK_SIZE <= x < d + BLOCK_SIZE + (u0 - {a})[d]
      ensures m3(x) == m0(x)
    {
      assert d in u1 - {a} && u1[d] == u0[d];
      Disjoint(h1, b1, start, brk, c, d);
      assert m3(x) == m2(x) && m2(x) == m1(x) && m1(x) == m0(x);
    }
  }

  /** A copy into a new block disturbs no live payload. */
  lemma CopiedAllocated(h0: Headers, m0: Memory, h1: Headers, b1: seq<nat>, start: nat, brk: nat, m1: Memory, src: nat,
          n: nat, size: nat, q: nat)
    requires Allocated(h0, m0, h1, m1, Align(size), q) && ListOk(h1, b1, start, brk) && q != 0
    requires n <= h1[q - BLOCK_SIZE].size
    ensures Allocated(h0, m0, h1, Copied(m1, q, src, n), size, q)
  {
    hide OthersKept, ListOk, Align, Aligned, Intact, Copied;
    AlignTwice(size);
    var c := q - BLOCK_SIZE;
    assert c in Used(h1);
    CopiedIntact(h0, m0, h1, b1, start, brk, m1, c, src, n);
    assert size <= Align(size);
  }

  lemma CopiedIntact(h0: Headers, m0: Memory, h1: Headers, b1: seq<nat>, start: nat, brk: nat, m1: Memory, c: nat,
          src: nat, n: nat)
    requires ListOk(h1, b1, start, brk) && c in h1 && n <= h1[c].size && c !in Used(h0)
    requires Used(h1) == Used(h0)[c := h1[c].size] && Intact(m0, m1, Used(h0))
    ensures Intact(m0, Copied(m1, c + BLOCK_SIZE, src, n), Used(h0))
  {
    hide ListOk;
    var u0: map<nat, nat> := Used(h0);
    forall d, x | d in u0 && d + BLOCK_SIZE <= x < d + BLOCK_SIZE + u0[d]
      ensures Copied(m1, c + BLOCK_SIZE, src, n)(x) == m0(x)
    {
      assert d in Used(h1) && Used(h1)[d] == u0[d];
      Disjoint(h1, b1, start, brk, c, d);
      assert m1(x) == m0(x);
    }
  }

  lemma AllocatedIsLive(h: Headers, m: Memory, h': Headers, m': Memory, size: nat, q: nat)
    requires Allocated(h, m, h', m', size, q) && q != 0
    ensures Live(h', q)
  {
    assert q - BLOCK_SIZE in Used(h');
  }

  lemma ReallocatedIsLive(h: Headers, m: Memory, h': Headers, m': Memory, a: nat, size: nat, q: nat)
    requires a in Used(h) && Reallocated(h, m, h', m', a, size, q)
    ensures Live(h', q)
  {
    assert q - BLOCK_SIZE in Used(h');
  }

  // ---- Pointers the client passes -------------------------------------------------------------------

  /** ptr is the payload address of a block of the list. */
  predicate Known(h: Headers, ptr: nat) {
    ptr > BLOCK_SIZE && ptr - BLOCK_SIZE in h
  }

  /** ptr is the payload address of an allocated block. */
  predicate Live(h: Headers, ptr: nat) {
    Known(h, ptr) && !h[ptr - BLOCK_SIZE].free
  }

  /** No block lies at ptr, but the bytes before it pass get_block. */
  predicate Mistaken(h: Headers, m: Memory, ptr: nat) {
    ptr != 0 && !Known(h, ptr) && MagicAt(m, ptr - BLOCK_SIZE)
  }

  /** The size that realloc reads at ptr: of a block of the list, or of whatever bytes lie there. */
  function SizeRead(h: Headers, m: Memory, ptr: nat): nat {
    if Known(h, ptr) then h[ptr - BLOCK_SIZE].size else SizeAt(m, ptr - BLOCK_SIZE)
  }

  /** realloc finds a block at ptr, or takes the bytes there for one, and it is too small. */
  predicate TooSmall(h: Headers, m: Memory, ptr: nat, newSize: nat) {
    (Known(h, ptr) || Mistaken(h, m, ptr)) && 0 < newSize && SizeRead(h, m, ptr) < Align(newSize)
  }

  /** free takes the bytes before ptr for an allocated block, though no block is there, and writes to them. */
  predicate FreesAstray(h: Headers, m: Memory, ptr: nat) {
    Mistaken(h, m, ptr) && !FreeAt(m, ptr - BLOCK_SIZE)
  }

  /** The bytes at a read as a header whose successor is free and makes up for the missing size: realloc absorbs it. The
      sum is a size_t. */
  predicate ReadsAbsorbing(m: Memory, a: int, size: nat) {
    var next := Word(m, a + 8, 8);
    next != 0 && FreeAt(m, next) && (SizeAt(m, a) + BLOCK_SIZE + SizeAt(m, next)) % TWO_TO_THE_64 >= size
  }

  /** memcpy of the size read at ptr into the block at q leaves that block, or overlaps itself. */
  predicate CopiesAstray(h: Headers, m: Memory, q: nat, ptr: nat) {
    var n := SizeAt(m, ptr - BLOCK_SIZE);
    q == ptr || (Known(h, q) && n > h[q - BLOCK_SIZE].size) || (q < ptr + n && ptr < q + n)
  }

  /** What my_malloc inside my_realloc has made of the heap. */
  datatype Mid = Mid(headers: Headers, memory: Memory, made: nat)

  /** realloc at bytes that are no block's header, but pass for one, writes where it must not: it releases them, absorbs
      what they name as their successor, or copies and then frees astray. */
  predicate ReallocsAstray(h: Headers, m: Memory, ptr: nat, newSize: nat, mid: Mid) {
    var a := ptr - BLOCK_SIZE;
    Mistaken(h, m, ptr) &&
    if newSize == 0 then !FreeAt(m, a)
    else
      SizeAt(m, a) < Align(newSize) &&
      (ReadsAbsorbing(m, a, Align(newSize)) ||
        (mid.made != 0 &&
          (CopiesAstray(mid.headers, mid.memory, mid.made, ptr) ||
            FreesAstray(mid.headers, Copied(mid.memory, mid.made, ptr, SizeAt(mid.memory, a)), ptr))))
  }

  /** Malloc for the new size took the heap from h and m, and what its search saw, to mid. */
  ghost predicate MidOf(h: Headers, m: Memory, seen: (Headers, seq<nat>, nat), newSize: nat, mid: Mid) {
    && Allocated(h, m, mid.headers, mid.memory, Align(newSize), mid.made)
    && OnlyHeaders(m, mid.memory, mid.headers.Keys)
    && (mid.made != 0 ==>
          && FirstFit(seen.0, seen.1, seen.2, Align(newSize), mid.made - BLOCK_SIZE)
          && SomeList(mid.headers))
  }

  ghost predicate SomeList(h: Headers) {
    exists b, start, brk :: ListOk(h, b, start, brk)
  }

  /** The one block that is live after malloc and was not before is the one just made. */
  lemma NotMade(h0: Headers, h1: Headers, q: nat, ptr: nat)
    requires Known(h1, q) && Used(h1) == Used(h0)[q - BLOCK_SIZE := h1[q - BLOCK_SIZE].size]
    requires !Known(h0, ptr) && ptr != q
    ensures !Live(h1, ptr)
  {
    assert forall a: nat | a in Used(h1) && a != q - BLOCK_SIZE :: a in Used(h0) && a in h0;
  }

  /** A free block's stale header inside a block that malloc does not choose: the move succeeds without a stray
      write. */
  lemma StaleMoves(h0: Headers, m0: Memory, h1: Headers, b1: seq<nat>, start: nat, brk: nat, m1: Memory, newSize: nat,
          q: nat, f: nat, a: nat, stale: Header)
    requires Allocated(h0, m0, h1, m1, newSize, q) && q != 0 && ListOk(h1, b1, start, brk)
    requires OnlyHeaders(m0, m1, h1.Keys) && f in h0 && f != q - BLOCK_SIZE
    requires f + BLOCK_SIZE <= a && a + stale.size <= f + h0[f].size
    requires HeaderAt(m0, a, stale) && stale.free && stale.size < Align(newSize) && stale.size < TWO_TO_THE_64
    ensures var ptr := a + BLOCK_SIZE;
            && SizeAt(m1, a) == stale.size && !CopiesAstray(h1, m1, q, ptr)
            && !FreesAstray(h1, Copied(m1, q, ptr, stale.size), ptr)
  {
    hide Word, Intact, Align, Aligned;
    var ptr, n, c := a + BLOCK_SIZE, stale.size, q - BLOCK_SIZE;
    assert f in h1 && h1[f].size == h0[f].size by { assert h0[f].size == h0[f].size; }
    InsideOneBlock(h1, b1, start, brk, f, a);
    HeaderOutlives(m0, m1, a, stale, h1.Keys);
    EightBytes();
    FieldRoundTrip(m1, a, stale, 0, 8, n);
    Disjoint(h1, b1, start, brk, c, f);
    var m2 := Copied(m1, q, ptr, n);
    assert HeaderAt(m2, a, stale);
    FlagAndMagic(m2, a, stale);
  }

  /** In particular, when the block that has swallowed it is itself too small for the request, and no free successor is
      read at the stale header, realloc of it writes nothing astray. */
  lemma StaleInSmallBlockMoves(h: Headers, m: Memory, b: seq<nat>, start: nat, brk: nat, newSize: nat, mid: Mid, f: nat,
          a: nat, stale: Header)
    requires ListOk(h, b, start, brk) && MidOf(h, m, (h, b, brk), newSize, mid)
    requires f in h && h[f].size < Align(newSize) && f + BLOCK_SIZE <= a && a + stale.size <= f + h[f].size
    requires HeaderAt(m, a, stale) && stale.free && 0 < newSize && stale.size < TWO_TO_THE_64
    requires !ReadsAbsorbing(m, a, Align(newSize))
    ensures !ReallocsAstray(h, m, a + BLOCK_SIZE, newSize, mid)
  {
    hide ReadsAbsorbing, CopiesAstray, FreesAstray, FirstFit, OnlyHeaders, HeaderAt, ListOk, Word;
    if mid.made != 0 {
      NotChosen(h, b, start, brk, Align(newSize), mid.made - BLOCK_SIZE, f);
      var b1, start1, brk1 :| ListOk(mid.headers, b1, start1, brk1);
      AlignTwice(newSize);
      StaleMoves(h, m, mid.headers, b1, start1, brk1, mid.memory, Align(newSize), mid.made, f, a, stale);
    }
  }

  /** A header's worth of bytes inside one payload overlaps no header of the list. */
  lemma InsideOneBlock(h: Headers, b: seq<nat>, start: nat, brk: nat, f: nat, a: nat)
    requires ListOk(h, b, start, brk) && f in h && f + BLOCK_SIZE <= a && a <= f + h[f].size
    ensures Apart(a, h.Keys) && a !in h
  {
    forall c | c in h
      ensures c != a && (c + BLOCK_SIZE <= a || a + BLOCK_SIZE <= c)
    {
      if c != f {
        Disjoint(h, b, start, brk, c, f);
      }
    }
  }

  /** What get_block, free and realloc read at a header whose block was swallowed, for as long as nobody writes there:
      it passes for a block, still with its old flag and size. */
  lemma SwallowedReads(h: Headers, m: Memory, a: nat, swallowed: Header, mid: Mid)
    requires a !in h && HeaderAt(m, a, swallowed) && swallowed.size < TWO_TO_THE_64
    ensures Mistaken(h, m, a + BLOCK_SIZE)
    ensures FreeAt(m, a) == swallowed.free && SizeAt(m, a) == swallowed.size
    ensures FreesAstray(h, m, a + BLOCK_SIZE) <==> !swallowed.free
    ensures ReallocsAstray(h, m, a + BLOCK_SIZE, 0, mid) <==> !swallowed.free
  {
    hide Word;
    FlagAndMagic(m, a, swallowed);
    EightBytes();
    FieldRoundTrip(m, a, swallowed, 0, 8, swallowed.size);
  }

  /** realloc of a swallowed header that is too small absorbs astray when the block it still names as its successor has
      stayed a free block and makes up for the missing size. */
  lemma SwallowedAbsorbs(h: Headers, m: Memory, b: seq<nat>, start: nat, brk: nat, a: nat, swallowed: Header,
          newSize: nat, mid: Mid)
    requires ListOk(h, b, start, brk) && Image(m, h) && brk <= TWO_TO_THE_64
    requires a !in h && HeaderAt(m, a, swallowed) && swallowed.next in h && newSize > 0
    requires swallowed.size < Align(newSize) && swallowed.size + BLOCK_SIZE + h[swallowed.next].size < TWO_TO_THE_64
    ensures ReadsAbsorbing(m, a, Align(newSize)) <==>
            h[swallowed.next].free && swallowed.size + BLOCK_SIZE + h[swallowed.next].size >= Align(newSize)
    ensures ReadsAbsorbing(m, a, Align(newSize)) ==> ReallocsAstray(h, m, a + BLOCK_SIZE, newSize, mid)
  {
    hide Word, ListOk, Align, FreeAt, MagicAt, HeaderAt, Image;
    AllInOrder(h, b, start, brk);
    var i := PlaceOf(h, b, start, brk, swallowed.next);
    NextBy(h, b, start, brk, i);
    SwallowedReads(h, m, a, swallowed, mid);
    MemoryHoldsTheList(m, h, b, start, brk, swallowed.next);
    EightBytes();
    NextReads(m, a, swallowed);
  }

  lemma NextReads(m: Memory, a: nat, header: Header)
    requires HeaderAt(m, a, header) && header.next < TWO_TO_THE_64
    ensures Word(m, a + 8, 8) == header.next
  {
    hide Word;
    EightBytes();
    FieldRoundTrip(m, a, header, 8, 8, header.next);
  }

  /** The heap that allocator_init sets up at a break: one free block. */
  function InitialHeaders(base: nat): Headers {
    map[base := Header(INITIAL_SIZE - BLOCK_SIZE, 0, 0, true)]
  }

  /** Headers, list and break that a search sees: set up first when they are not yet. */
  ghost function Searched(initialized: bool, h: Headers, b: seq<nat>, brk: nat): (Headers, seq<nat>, nat) {
    if initialized then (h, b, brk) else (InitialHeaders(brk), [brk], brk + INITIAL_SIZE)
  }

  /** What the used bytes, as my_heap_used sums them up, change by: malloc adds its block, free takes its block away. */
  lemma UsedBytesChange(h: Headers, m: Memory, h': Headers, m': Memory, size: nat, p: nat)
    ensures Allocated(h, m, h', m', size, p) ==>
      if p == 0 then Sum(Used(h')) == Sum(Used(h))
      else p - BLOCK_SIZE in h' && Sum(Used(h')) == Sum(Used(h)) + h'[p - BLOCK_SIZE].size
    ensures Released(h, m, h', m', p) && p in Used(h) ==> Sum(Used(h')) == Sum(Used(h)) - h[p].size
  {
    hide Intact, CoveredByFree, SwallowedStay, OthersKept, Align, Aligned, Used, Sum;
    if Allocated(h, m, h', m', size, p) && p != 0 {
      SumAdds(Used(h), p - BLOCK_SIZE, h'[p - BLOCK_SIZE].size);
    }
    if Released(h, m, h', m', p) && p in Used(h) {
      SumWithout(Used(h), p);
      UsedSize(h, p);
    }
  }

  lemma UsedSize(h: Headers, a: nat)
    requires a in Used(h)
    ensures a in h && Used(h)[a] == h[a].size
  {
  }

  class Heap {
    var headers: Headers
    var memory: Memory
    var heapStart: nat
    var heapEnd: nat
    var initialized: bool
    var brk: nat
    ghost var blocks: seq<nat>

    ghost predicate Listed()
      reads this
    {
      initialized && ListOk(headers, blocks, heapStart, brk) && heapEnd == blocks[|blocks| - 1]
          && Image(memory, headers)
    }

    ghost predicate Valid()
      reads this
    {
      && brk > 0 && Aligned(brk)
      && if initialized then Listed() && Quiet(headers, blocks)
         else headers == map[] && blocks == [] && heapStart == 0 && heapEnd == 0
    }

    /** A process whose break is at `base`. */
    constructor (base: nat, content: Memory)
      requires base > 0 && Aligned(base)
      ensures Valid() && !initialized && brk == base && memory == content
    {
      headers, memory, heapStart, heapEnd, initialized, brk, blocks := map[], content, 0, 0, false, base, [];
    }

    /** One header write, among several since memory was m0: payloads in `keep` stay intact, other headers of the list
        too, and nothing outside the headers of `only` is written. */
    method SetHeader(w: nat, hdr: Header, ghost m0: Memory, ghost keep: map<nat, nat>, ghost heads: set<nat>,
            ghost only: set<nat>)
      requires Clear(w, keep) && Apart(w, heads) && headers.Keys <= heads && Image(memory, headers)
      requires Intact(m0, memory, keep) && OnlyHeaders(m0, memory, only) && w in only
      modifies this`headers, this`memory
      ensures headers == old(headers)[w := hdr] && memory == Stored(old(memory), w, hdr)
      ensures Image(memory, headers) && Intact(m0, memory, keep) && OnlyHeaders(m0, memory, only)
    {
      StoredIntact(memory, w, hdr, keep);
      IntactTogether(m0, memory, Stored(memory, w, hdr), keep);
      ImageStored(memory, headers, w, hdr, heads);
      OnlyOneMore(m0, memory, w, hdr, only);
      headers := headers[w := hdr];
      memory := Stored(memory, w, hdr);
    }

    method AllocatorInit(sbrkOk: bool)
      requires Valid()
      modifies this
      ensures Valid() && (initialized <==> old(initialized) || sbrkOk)
      ensures old(initialized) || !sbrkOk ==>
        headers == old(headers) && memory == old(memory) && blocks == old(blocks) && brk == old(brk)
      ensures !old(initialized) && sbrkOk ==>
        && headers == map[old(brk) := Header(0x1_0000 - 32, 0, 0, true)] && blocks == [old(brk)]
        && brk == old(brk) + 0x1_0000
      ensures initialized ==> (headers, blocks, brk) == Searched(old(initialized), old(headers), old(blocks), old(brk))
      ensures Used(headers) == Used(old(headers)) && Intact(old(memory), memory, Used(old(headers)))
      ensures OnlyHeaders(old(memory), memory, headers.Keys)
      ensures heapStart == if old(initialized) || !sbrkOk then old(heapStart) else old(brk)
    {
      if initialized || !sbrkOk {
        NothingWritten(memory, headers.Keys);
        return;
      }
      heapStart := brk;
      brk := brk + INITIAL_SIZE;
      NothingWritten(memory, {heapStart});
      SetHeader(heapStart, Header(INITIAL_SIZE - BLOCK_SIZE, 0, 0, true), memory, map[], {heapStart}, {heapStart});
      heapEnd := heapStart;
      initialized := true;
      blocks := [heapStart];
      assert BlockOk(headers, blocks, 0, brk);
    }

    /** extend_heap: a new free block of at least 4 KiB at the break. */
    method ExtendHeap(size: nat, sbrkOk: bool, ghost keep: map<nat, nat>) returns (p: nat)
      requires Listed() && Quiet(headers, blocks) && brk > 0 && Aligned(brk) && size > 0 && Aligned(size)
          && keep == Used(headers)
      modifies this
      ensures Listed() && brk > 0 && Aligned(brk) && Used(headers) == keep && Intact(old(memory), memory, keep)
      ensures OnlyHeaders(old(memory), memory, headers.Keys) && heapStart == old(heapStart)
      ensures !sbrkOk ==>
              p == 0 && headers == old(headers) && memory == old(memory) && blocks == old(blocks) && brk == old(brk)
      ensures sbrkOk ==>
        && brk == GrownBreak(old(brk), size) && p == old(brk) && p !in old(headers) && old(heapEnd) in old(headers)
        && headers == ExtendHeaders(old(headers), old(heapEnd), p, ExtendSize(size)) && blocks == old(blocks) + [p]
        && Fits(headers, p, size) && QuietExcept(headers, blocks, |old(blocks)|)
    {
      IntactAtOnce(memory, keep);
      NothingWritten(memory, headers.Keys);
      hide OnlyHeaders, QuietExcept, Intact, Aligned, Image, Clear, Apart, Used, ListOk, ExtendHeaders;
      if !sbrkOk {
        return 0;
      }
      AlignedExtension(brk, size);
      ghost var s := ExtendSize(size);
      var extendSize := if size + BLOCK_SIZE < MIN_EXTEND then MIN_EXTEND else size + BLOCK_SIZE;
      ExtendKeeps(headers, blocks, heapStart, brk, s);
      UsedAfterExtend(headers, heapEnd, brk, s);
      QuietAfterExtend(headers, blocks, heapStart, brk, s);
      p := brk;
      ghost var h' := ExtendHeaders(headers, heapEnd, brk, s);
      ExtendClear(headers, blocks, heapStart, brk, s);
      WriteExtend(p, extendSize, keep, h'.Keys);
      brk := brk + extendSize;
      blocks := blocks + [p];
    }

    /** The pointer writes of extend_heap. */
    method WriteExtend(p: nat, extendSize: nat, ghost keep: map<nat, nat>, ghost heads: set<nat>)
      requires extendSize >= BLOCK_SIZE && heapEnd in headers && heapEnd != 0 && p != heapEnd && Clear(p, keep)
          && Clear(heapEnd, keep)
      requires Apart(p, heads) && Apart(heapEnd, heads) && headers.Keys <= heads && p in heads && Image(memory, headers)
      modifies this`headers, this`memory, this`heapEnd
      ensures headers == ExtendHeaders(old(headers), old(heapEnd), p, extendSize - BLOCK_SIZE) && heapEnd == p
      ensures Intact(old(memory), memory, keep) && Image(memory, headers) && OnlyHeaders(old(memory), memory, heads)
    {
      NothingWritten(memory, heads);
      hide Image, Clear, Apart, Stored, OnlyHeaders;
      ghost var m0 := memory;
      SetHeader(p, Header(extendSize - BLOCK_SIZE, 0, heapEnd, true), m0, keep, heads, heads);
      if heapEnd != 0 {
        SetHeader(heapEnd, headers[heapEnd].(next := p), m0, keep, heads, heads);
      }
      heapEnd := p;
    }

    /** find_free_block: walk the list from its head. */
    method FindFreeBlock(size: nat) returns (p: nat, ghost i: nat)
      requires Listed()
      ensures p == 0 ==> NoFit(headers, blocks, size)
      ensures p != 0 ==>
        i < |blocks| && blocks[i] == p && Fits(headers, p, size)
            && forall j: nat | j < i :: !Fits(headers, blocks[j], size)
    {
      var curr := heapStart;
      i := 0;
      while curr != 0
        invariant i <= |blocks| && curr == (if i < |blocks| then blocks[i] else 0)
        invariant forall j: nat | j < i :: !Fits(headers, blocks[j], size)
        decreases |blocks| - i
      {
        Neighbours(headers, blocks, heapStart, brk, i);
        if headers[curr].free && headers[curr].size >= size {
          return curr, i;
        }
        curr := headers[curr].next;
        i := i + 1;
      }
      AllInOrder(headers, blocks, heapStart, brk);
      p := 0;
    }

    /** split_block with the remainder read as an integer. */
    method SplitBlock(p: nat, size: nat, ghost i: nat, ghost keep: map<nat, nat>)
      requires Listed() && i < |blocks| && blocks[i] == p && p in headers && size > 0 && Aligned(size)
      requires Within(keep, headers) && (p in keep ==> keep[p] <= size)
      modifies this`headers, this`memory, this`heapEnd, this`blocks
      ensures Listed() && Intact(old(memory), memory, keep) && Within(keep, headers)
      ensures old(headers)[p].next == 0 || old(headers)[p].next in old(headers)
      ensures OnlyHeaders(old(memory), memory, headers.Keys) && old(headers).Keys <= headers.Keys
      ensures (headers, blocks) == AfterSplit(old(headers), old(blocks), i, size)
      ensures Splits(old(headers)[p].size, size) ==> SplitAt(p, size) !in old(headers)
    {
      hide Aligned, Clear, SplitList, SplitHeaders, Image, Apart, Within, ListOk;
      SplitListAt(blocks, i, SplitAt(p, size), |blocks|);
      AddressAligned(headers, blocks, heapStart, brk, i);
      Neighbours(headers, blocks, heapStart, brk, i);
      var remaining := headers[p].size - size - BLOCK_SIZE;
      if remaining < MIN_BLOCK_SIZE {
        return;
      }
      SplitKeeps(headers, blocks, heapStart, brk, i, size);
      ghost var h', b' := SplitHeaders(headers, p, size, remaining), SplitList(blocks, i, SplitAt(p, size));
      SplitClear(headers, h', b', heapStart, brk, p, size, remaining, keep);
      WriteSplit(p, size, remaining, keep, h'.Keys);
      blocks := b';
    }

    /** The pointer writes of split_block. */
    method WriteSplit(p: nat, size: nat, remaining: nat, ghost keep: map<nat, nat>, ghost heads: set<nat>)
      requires p in headers && (headers[p].next == 0 || headers[p].next in headers) && SplitAt(p, size) !in headers
      requires headers[p].next != p
      requires Clear(p, keep) && Clear(SplitAt(p, size), keep)
               && (headers[p].next != 0 ==> Clear(headers[p].next, keep))
      requires Apart(p, heads) && Apart(SplitAt(p, size), heads)
               && (headers[p].next != 0 ==> Apart(headers[p].next, heads))
      requires heads == headers.Keys + {SplitAt(p, size)} && Image(memory, headers)
      modifies this`headers, this`memory, this`heapEnd
      ensures headers == SplitHeaders(old(headers), p, size, remaining)
      ensures heapEnd == if old(headers)[p].next == 0 then SplitAt(p, size) else old(heapEnd)
      ensures Intact(old(memory), memory, keep) && Image(memory, headers) && OnlyHeaders(old(memory), memory, heads)
    {
      IntactAtOnce(memory, keep);
      NothingWritten(memory, heads);
      hide Clear, Intact, Stored, Apart, Image, OnlyHeaders;
      ghost var m0 := memory;
      var n, next := p + BLOCK_SIZE + size, headers[p].next;
      SetHeader(n, Header(remaining, next, p, true), m0, keep, heads, heads);
      if next != 0 {
        SetHeader(next, headers[next].(prev := n), m0, keep, heads, heads);
      } else {
        heapEnd := n;
      }
      SetHeader(p, headers[p].(next := n), m0, keep, heads, heads);
      SetHeader(p, headers[p].(size := size), m0, keep, heads, heads);
      assert headers == SplitHeaders(old(headers), p, size, remaining);
    }

    /** Let block p swallow its successor: both halves of coalesce, and the absorbing branch of realloc. */
    method MergeNext(p: nat, ghost i: nat, ghost keep: map<nat, nat>)
      requires Listed() && i + 1 < |blocks| && blocks[i] == p && Within(keep, headers) && blocks[i + 1] !in keep
      modifies this`headers, this`memory, this`heapEnd, this`blocks
      ensures Listed() && Intact(old(memory), memory, keep) && Within(keep, headers)
      ensures var h, b := old(headers), old(blocks);
        && p in h && h[p].next == b[i + 1] && b[i + 1] in h && b[i + 1] != p
        && (var after := h[b[i + 1]].next; after == 0 || (after in h && after != b[i + 1] && after != p))
        && headers == MergeHeaders(h, p) && blocks == MergeList(b, i)
        && HeaderAt(memory, b[i + 1], h[b[i + 1]])
      ensures OnlyHeaders(old(memory), memory, headers.Keys) && headers.Keys == old(headers).Keys - {old(blocks)[i + 1]}
    {
      MergeKeeps(headers, blocks, heapStart, brk, i);
      MergeReady(headers, blocks, heapStart, brk, i);
      MergeListAt(blocks, i, |blocks| - 2);
      ghost var h', b' := MergeHeaders(headers, p), MergeList(blocks, i);
      ClearHere(headers, blocks, heapStart, brk, p, keep);
      ApartHere(headers, blocks, heapStart, brk, p);
      if headers[blocks[i + 1]].next != 0 {
        ClearHere(headers, blocks, heapStart, brk, headers[blocks[i + 1]].next, keep);
        ApartHere(headers, blocks, heapStart, brk, headers[blocks[i + 1]].next);
      }
      WriteMerge(p, keep);
      assert b'[|b'| - 1] == if i + 2 == |blocks| then p else blocks[|blocks| - 1];
      blocks := b';
    }

    /** The pointer writes of a merge. The swallowed header stops being one, but its bytes stay. */
    method WriteMerge(p: nat, ghost keep: map<nat, nat>)
      requires p in headers && headers[p].next in headers && headers[p].next != p
      requires var after := headers[headers[p].next].next;
        && (after == 0 || (after in headers && after != headers[p].next && after != p))
        && (after != 0 ==> Clear(after, keep) && Apart(after, headers.Keys))
      requires Clear(p, keep) && Apart(p, headers.Keys) && Image(memory, headers)
      modifies this`headers, this`memory, this`heapEnd
      ensures headers == MergeHeaders(old(headers), p)
      ensures heapEnd == if old(headers)[old(headers)[p].next].next == 0 then p else old(heapEnd)
      ensures Intact(old(memory), memory, keep) && Image(memory, headers)
      ensures HeaderAt(memory, old(headers)[p].next, old(headers)[old(headers)[p].next])
      ensures OnlyHeaders(old(memory), memory, headers.Keys)
              && headers.Keys == old(headers).Keys - {old(headers)[p].next}
    {
      IntactAtOnce(memory, keep);
      NothingWritten(memory, headers.Keys - {headers[p].next});
      MergeInSteps(headers, p);
      hide Clear, Intact, Stored, Apart, Image, HeaderAt, OnlyHeaders, MergeHeaders;
      var next := headers[p].next;
      ghost var m0, heads, left := memory, headers.Keys, headers.Keys - {next};
      SetHeader(p, headers[p].(size := headers[p].size + BLOCK_SIZE + headers[next].size), m0, keep, heads, left);
      SetHeader(p, headers[p].(next := headers[next].next), m0, keep, heads, left);
      if headers[p].next != 0 {
        SetHeader(headers[p].next, headers[headers[p].next].(prev := p), m0, keep, heads, left);
      } else {
        heapEnd := p;
      }
      ImageWithout(memory, headers, next);
      headers := headers - {next};
    }

    /** coalesce: a free block swallows, and is swallowed by, its free neighbours. */
    method Coalesce(p: nat, ghost i: nat, ghost keep: map<nat, nat>)
      requires Listed() && i < |blocks| && blocks[i] == p && Free(headers, p)
      requires QuietExcept(headers, blocks, i) && keep == Used(headers)
      modifies this`headers, this`memory, this`heapEnd, this`blocks
      ensures Listed() && Quiet(headers, blocks) && Used(headers) == keep && Intact(old(memory), memory, keep)
      ensures CoveredByFree(headers, p, old(headers)[p].size) && SwallowedStay(old(headers), headers, memory)
      ensures OthersKept(old(headers), headers, {p, old(headers)[p].prev, old(headers)[p].next})
    {
      hide ListOk, Image, Intact, Quiet, QuietExcept, HeaderAt, OnlyHeaders, Apart, OthersKept;
      ghost var h0, b0, m0 := headers, blocks, memory;
      CoalesceNext(p, i, keep);
      ghost var h1, m1 := headers, memory;
      CoalescePrev(p, i, keep);
      OthersTogether(h0, h1, headers, {p, h0[p].next}, {p, h0[p].prev});
      IntactTogether(m0, m1, memory, keep);
      forall x | x in h0 && x !in headers
        ensures StaleAt(memory, x, h0[x].size)
      {
        if x !in h1 {
          ApartHere(h0, b0, heapStart, brk, x);
          ApartFromFewer(x, h0.Keys, h1.Keys);
          HeaderOutlives(m1, memory, x, h0[x], h1.Keys);
        }
      }
    }

    method CoalesceNext(p: nat, ghost i: nat, ghost keep: map<nat, nat>)
      requires Listed() && i < |blocks| && blocks[i] == p && Free(headers, p)
      requires QuietExcept(headers, blocks, i) && keep == Used(headers)
      modifies this`headers, this`memory, this`heapEnd, this`blocks
      ensures Listed() && i < |blocks| && blocks[i] == p && Free(headers, p) && keep == Used(headers)
      ensures QuietExcept(headers, blocks, i) && (i + 1 < |blocks| ==> !Free(headers, blocks[i + 1]))
      ensures Intact(old(memory), memory, keep)
      ensures headers.Keys <= old(headers).Keys && headers[p].size >= old(headers)[p].size
      ensures forall x | x in headers && x != p :: headers[x].size == old(headers)[x].size
      ensures OthersKept(old(headers), headers, {p, old(headers)[p].next}) && headers[p].prev == old(headers)[p].prev
      ensures forall x | x in old(headers) && x !in headers ::
                old(headers)[x].free && HeaderAt(memory, x, old(headers)[x])
    {
      ghost var h, b := headers, blocks;
      Neighbours(h, b, heapStart, brk, i);
      if headers[p].next != 0 && headers[headers[p].next].free {
        assert i + 2 < |b| ==> Calm(h, b, i + 1);
        MergeNext(p, i, keep);
        QuietAfterMerge(h, b, heapStart, brk, i, i);
        UsedAfterMerge(h, p);
        OthersAfterMerge(h, p);
        MergeListAt(b, i, i);
      }
    }

    method CoalescePrev(p: nat, ghost i: nat, ghost keep: map<nat, nat>)
      requires Listed() && i < |blocks| && blocks[i] == p && Free(headers, p) && keep == Used(headers)
      requires QuietExcept(headers, blocks, i) && (i + 1 < |blocks| ==> !Free(headers, blocks[i + 1]))
      modifies this`headers, this`memory, this`heapEnd, this`blocks
      ensures Listed() && Quiet(headers, blocks) && Used(headers) == keep && Intact(old(memory), memory, keep)
      ensures CoveredByFree(headers, p, old(headers)[p].size) && OnlyHeaders(old(memory), memory, old(headers).Keys)
      ensures forall x | x in old(headers) && x !in headers :: x == p && HeaderAt(memory, x, old(headers)[x])
      ensures OthersKept(old(headers), headers, {p, old(headers)[p].prev})
    {
      NothingWritten(memory, headers.Keys);
      IntactAtOnce(memory, keep);
      hide Image, HeaderAt, OnlyHeaders, Intact, Aligned, ListOk, CoveredByFree, MergeHeaders, MergeList;
      ghost var h, b, m := headers, blocks, memory;
      Neighbours(h, b, heapStart, brk, i);
      var prev := headers[p].prev;
      if prev != 0 && headers[prev].free {
        assert i > 1 ==> Calm(h, b, i - 2);
        MergeNext(prev, i - 1, keep);
        OnlyAmongMore(m, memory, headers.Keys, h.Keys);
        QuietAfterMerge(h, b, heapStart, brk, i - 1, i);
        UsedAfterMerge(h, prev);
        NextStart(h, b, heapStart, brk, i - 1);
        MergeCovers(h, prev);
        OthersAfterMerge(h, prev);
        if i > 1 {
          MergeListAt(b, i - 1, i - 2);
          MergeWrites(h, prev, b[i - 2]);
        }
        MergeListAt(b, i - 1, i - 1);
        QuietAll(headers, blocks, i - 1);
      } else {
        CoversItself(h, p);
        QuietAll(headers, blocks, i);
      }
    }

    /** Split block i, if it is large enough, keeping it the only block that may have a free neighbour. */
    method Trim(p: nat, size: nat, ghost i: nat, ghost keep: map<nat, nat>)
      requires Listed() && i < |blocks| && blocks[i] == p && p in headers && 0 < size <= headers[p].size
               && Aligned(size)
      requires QuietExcept(headers, blocks, i) && (i + 1 < |blocks| ==> !Free(headers, blocks[i + 1]))
      requires Within(keep, headers) && (p in keep ==> keep[p] <= size)
      modifies this`headers, this`memory, this`heapEnd, this`blocks
      ensures Listed() && i < |blocks| && blocks[i] == p && p in headers && QuietExcept(headers, blocks, i)
      ensures headers[p].free == old(headers)[p].free && size <= headers[p].size < size + BLOCK_SIZE + MIN_BLOCK_SIZE
      ensures var have := old(headers)[p].size;
        if have < size + BLOCK_SIZE + MIN_BLOCK_SIZE then headers[p].size == have
        else var n := p + BLOCK_SIZE + size;
             headers[p].size == size && Free(headers, n) && headers[n].size == have - size - BLOCK_SIZE
      ensures Used(headers) == if headers[p].free then Used(old(headers)) else Used(old(headers))[p := headers[p].size]
      ensures Within(keep, headers) && Intact(old(memory), memory, keep) && OthersKept(old(headers), headers, {p})
      ensures OnlyHeaders(old(memory), memory, headers.Keys) && old(headers).Keys <= headers.Keys
    {
      hide QuietExcept, Intact, Within, Aligned, OthersKept, Image, SplitList, SplitHeaders, OnlyHeaders;
      OthersSame(headers, {p});
      ghost var h, b := headers, blocks;
      Neighbours(h, b, heapStart, brk, i);
      SplitBlock(p, size, i, keep);
      if Splits(h[p].size, size) {
        QuietAfterSplit(h, b, heapStart, brk, i, size, h[p].size - size - BLOCK_SIZE);
        OthersAfterSplit(h, p, size, h[p].size - size - BLOCK_SIZE);
        SplitWrites(h, p, size, h[p].size - size - BLOCK_SIZE, p);
        SplitWrites(h, p, size, h[p].size - size - BLOCK_SIZE, SplitAt(p, size));
        UsedAfterSplit(h, p, size, h[p].size - size - BLOCK_SIZE);
        SplitListAt(b, i, SplitAt(p, size), i);
      }
    }

    /** Split a chosen free block and mark it allocated. */
    method Claim(p: nat, size: nat, ghost i: nat, ghost keep: map<nat, nat>)
      requires Listed() && i < |blocks| && blocks[i] == p && Fits(headers, p, size) && size > 0 && Aligned(size)
      requires QuietExcept(headers, blocks, i) && (i + 1 < |blocks| ==> !Free(headers, blocks[i + 1]))
      requires keep == Used(headers)
      modifies this`headers, this`memory, this`heapEnd, this`blocks
      ensures Listed() && Quiet(headers, blocks) && Intact(old(memory), memory, keep)
      ensures p in headers && Used(headers) == keep[p := headers[p].size]
      ensures size <= headers[p].size < size + BLOCK_SIZE + MIN_BLOCK_SIZE && OthersKept(old(headers), headers, {p})
      ensures OnlyHeaders(old(memory), memory, headers.Keys) && old(headers).Keys <= headers.Keys
    {
      hide ListOk, Image, Intact, Aligned, OthersKept, OnlyHeaders;
      ghost var m0 := memory;
      Trim(p, size, i, keep);
      ghost var m1 := memory;
      ghost var h1 := headers;
      MarkBlock(p, false, i, keep);
      IntactTogether(m0, m1, memory, keep);
      OnlyTogether(m0, m1, memory, h1.Keys, headers.Keys);
      OthersAfterMark(h1, p, false);
      OthersTogether(old(headers), h1, headers, {p}, {p});
    }

    /** Set a block's free flag. */
    method MarkBlock(p: nat, free: bool, ghost i: nat, ghost keep: map<nat, nat>)
      requires Listed() && i < |blocks| && blocks[i] == p && p in headers
      requires QuietExcept(headers, blocks, i) && Within(keep, headers)
      modifies this`headers, this`memory
      ensures Listed() && headers == Marked(old(headers), p, free) && Intact(old(memory), memory, keep)
      ensures OnlyHeaders(old(memory), memory, headers.Keys)
      ensures QuietExcept(headers, blocks, i) && (!free ==> Quiet(headers, blocks))
      ensures Used(headers) == if free then Used(old(headers)) - {p} else Used(old(headers))[p := headers[p].size]
    {
      ghost var h := headers;
      MarkKeeps(h, blocks, heapStart, brk, p, free);
      QuietAfterMark(h, blocks, heapStart, brk, i, free);
      UsedAfterMark(h, p, free);
      ClearHere(h, blocks, heapStart, brk, p, keep);
      ApartHere(h, blocks, heapStart, brk, p);
      NothingWritten(memory, h.Keys);
      SetHeader(p, headers[p].(free := free), memory, keep, h.Keys, h.Keys);
      assert headers.Keys == h.Keys;
    }

    // ---- Public functions ---------------------------------------------------------------------------

    method Malloc(size: nat, initOk: bool, growOk: bool) returns (p: nat)
      requires Valid()
      modifies this
      ensures Valid() && Allocated(old(headers), old(memory), headers, memory, size, p)
      ensures size == 0 ==> p == 0
      ensures p == 0 && old(initialized) ==> headers == old(headers) && memory == old(memory) && blocks == old(blocks)
      ensures !old(initialized) && !initOk ==> p == 0
      ensures size > 0 && (old(initialized) || initOk) ==>
        var s := Searched(old(initialized), old(headers), old(blocks), old(brk));
        && (p == 0 <==> !growOk && NoFit(s.0, s.1, Align(size)))
        && (p != 0 ==> FirstFit(s.0, s.1, s.2, Align(size), p - BLOCK_SIZE))
        && brk == if growOk && NoFit(s.0, s.1, Align(size)) then GrownBreak(s.2, Align(size)) else s.2
      ensures OnlyHeaders(old(memory), memory, headers.Keys) && old(headers).Keys <= headers.Keys
      ensures initialized ==> heapStart == if old(initialized) then old(heapStart) else old(brk)
    {
      NothingWritten(memory, headers.Keys);
      if size == 0 {
        return 0;
      }
      ghost var h0, m0, keep := headers, memory, Used(headers);
      if !initialized {
        AllocatorInit(initOk);
        if !initialized {
          return 0;
        }
      }
      ghost var h1, m1 := headers, memory;
      p := Take(Align(size), growOk, keep);
      IntactTogether(m0, m1, memory, keep);
      OnlyTogether(m0, m1, memory, h1.Keys, headers.Keys);
    }

    /** Find or make a block and claim it. */
    method Take(size: nat, growOk: bool, ghost keep: map<nat, nat>) returns (p: nat)
      requires Valid() && initialized && size > 0 && Aligned(size) && keep == Used(headers)
      modifies this
      ensures Valid() && initialized && Intact(old(memory), memory, keep)
      ensures p == 0 ==> headers == old(headers) && memory == old(memory) && blocks == old(blocks)
      ensures p != 0 ==>
        && p > BLOCK_SIZE && Aligned(p)
        && var a := p - BLOCK_SIZE;
           && a !in keep && a in headers && Used(headers) == keep[a := headers[a].size]
               && OthersKept(old(headers), headers, {a})
           && size <= headers[a].size < size + BLOCK_SIZE + MIN_BLOCK_SIZE
           && FirstFit(old(headers), old(blocks), old(brk), size, a)
      ensures p == 0 <==> !growOk && NoFit(old(headers), old(blocks), size)
      ensures brk == if growOk && NoFit(old(headers), old(blocks), size) then GrownBreak(old(brk), size) else old(brk)
      ensures OnlyHeaders(old(memory), memory, headers.Keys) && old(headers).Keys <= headers.Keys
          && heapStart == old(heapStart)
    {
      NothingWritten(memory, headers.Keys);
      hide ListOk, Image, Intact, OthersKept, Aligned, OnlyHeaders;
      ghost var m0, h0, b0 := memory, headers, blocks;
      var block, i := FindFreeBlock(size);
      if block == 0 {
        block := ExtendHeap(size, growOk, keep);
        if block == 0 {
          return 0;
        }
        i := |blocks| - 1;
        OthersAfterExtend(h0, old(heapEnd), block, ExtendSize(size));
      } else {
        OthersSame(headers, {block});
        QuietNeighbours(headers, blocks, i);
      }
      AddressAligned(headers, blocks, heapStart, brk, i);
      AlignedSums(block, 0);
      ghost var h1, m1 := headers, memory;
      Claim(block, size, i, keep);
      IntactTogether(m0, m1, memory, keep);
      OnlyTogether(m0, m1, memory, h1.Keys, headers.Keys);
      OthersTogether(h0, h1, headers, {block}, {block});
      p := block + BLOCK_SIZE;
    }

    /** get_block: the address before the payload pointer, when the magic number is read there. */
    method GetBlock(ptr: nat) returns (block: Option<int>)
      requires Valid()
      ensures block == None || block == Some(ptr - BLOCK_SIZE)
      ensures block != None <==> Known(headers, ptr) || MagicAt(memory, ptr - BLOCK_SIZE)
      ensures Known(headers, ptr) ==> FreeAt(memory, ptr - BLOCK_SIZE) == headers[ptr - BLOCK_SIZE].free
    {
      if Known(headers, ptr) {
        ImageWithout(memory, headers, ptr - BLOCK_SIZE);
        FlagAndMagic(memory, ptr - BLOCK_SIZE, headers[ptr - BLOCK_SIZE]);
      }
      if !MagicAt(memory, ptr - BLOCK_SIZE) {
        return None;
      }
      return Some(ptr - BLOCK_SIZE);
    }

    /** my_free: releases exactly an allocated block; a double free and a pointer without the magic number change
        nothing. `stray`: the bytes before a pointer to no block read as an allocated one, and the code writes there.
        What becomes of the heap then is not part of the contract. */
    method MyFree(ptr: nat) returns (stray: bool)
      requires Valid()
      modifies this`headers, this`memory, this`heapEnd, this`blocks
      ensures stray <==> FreesAstray(old(headers), old(memory), ptr)
      ensures !stray ==> Valid()
      ensures Live(old(headers), ptr) ==>
        && !stray && Released(old(headers), old(memory), headers, memory, ptr - BLOCK_SIZE)
        && var a := ptr - BLOCK_SIZE;
           OthersKept(old(headers), headers, {a, old(headers)[a].prev, old(headers)[a].next})
      ensures !Live(old(headers), ptr) && !stray ==>
        headers == old(headers) && memory == old(memory) && blocks == old(blocks) && heapEnd == old(heapEnd)
    {
      hide ListOk, Quiet, Image, Released, Word;
      if ptr == 0 {
        return false;
      }
      var block := GetBlock(ptr);
      if block == None {
        return false;
      }
      if FreeAt(memory, block.value) {
        return false;
      }
      if !Known(headers, ptr) {
        return true;
      }
      ReleaseBlock(block.value);
      return false;
    }

    /** The writes of my_free. */
    method ReleaseBlock(p: nat)
      requires Valid() && p in Used(headers)
      modifies this`headers, this`memory, this`heapEnd, this`blocks
      ensures Valid() && Released(old(headers), old(memory), headers, memory, p)
      ensures OthersKept(old(headers), headers, {p, old(headers)[p].prev, old(headers)[p].next})
    {
      hide Image, Intact, HeaderAt, CoveredByFree, StaleAt, OthersKept;
      ghost var h0, keep, m0 := headers, Used(headers) - {p}, memory;
      ghost var i :| 0 <= i < |blocks| && blocks[i] == p;
      QuietNeighbours(headers, blocks, i);
      MarkBlock(p, true, i, keep);
      ghost var h1, m1 := headers, memory;
      Coalesce(p, i, keep);
      IntactTogether(m0, m1, memory, keep);
      SameSizesStay(h0, h1, headers, memory);
      OthersAfterMark(h0, p, true);
      OthersTogether(h0, h1, headers, {p}, {p, h0[p].prev, h0[p].next});
    }

    /** my_realloc: stay, absorb the free successor, or move. Unless it writes astray, the answer is a live block if and
        only if the pointer was one or the size read there is too small: a free block that is large enough is handed out
        as it is, still free, and so are bytes in no block that read as a large enough header. `stray` as for free;
        `mid` is what malloc left, when the pointer is at no block and it was called. */
    method Realloc(ptr: nat, newSize: nat, initOk: bool, growOk: bool) returns (q: nat, stray: bool, ghost mid: Mid)
      requires Valid()
      modifies this
      ensures stray <==> ReallocsAstray(old(headers), old(memory), ptr, newSize, mid)
      ensures !stray ==> Valid()
      ensures ptr == 0 ==> Allocated(old(headers), old(memory), headers, memory, newSize, q)
      ensures ptr != 0 && newSize == 0 ==> q == 0
      ensures Live(old(headers), ptr) && newSize == 0 ==>
        Released(old(headers), old(memory), headers, memory, ptr - BLOCK_SIZE)
      ensures Live(old(headers), ptr) && newSize > 0 ==>
        if q == 0 then Used(headers) == Used(old(headers)) && Intact(old(memory), memory, Used(old(headers))) && !growOk
        else Reallocated(old(headers), old(memory), headers, memory, ptr - BLOCK_SIZE, newSize, q)
      ensures Live(old(headers), ptr) && newSize > 0 ==>
        var h, a := old(headers), ptr - BLOCK_SIZE;
        && (h[a].size >= Align(newSize) ==> q == ptr)
        && (q == 0 || h[a].size >= Align(newSize) ==>
              headers == h && memory == old(memory) && blocks == old(blocks))
        && ResizedTightly(h, headers, a, Align(newSize), q)
      ensures var h, m := old(headers), old(memory);
        !stray && !Live(h, ptr) && TooSmall(h, m, ptr, newSize) ==>
          Allocated(h, m, headers, memory, newSize, q) && (q == 0 ==> !growOk || (!old(initialized) && !initOk))
      ensures var h, m := old(headers), old(memory);
        ptr != 0 && !stray && !Live(h, ptr) && !TooSmall(h, m, ptr, newSize) ==>
          && headers == h && memory == m && blocks == old(blocks)
          && q == if newSize > 0 && (Known(h, ptr) || Mistaken(h, m, ptr)) then ptr else 0
      ensures ptr != 0 && newSize > 0 && q != 0 && !stray ==>
        var h, m := old(headers), old(memory);
        Live(headers, q) <==> Live(h, ptr) || SizeRead(h, m, ptr) < Align(newSize)
      ensures var h, m, size := old(headers), old(memory), Align(newSize);
        Mistaken(h, m, ptr) && 0 < newSize && SizeRead(h, m, ptr) < size
            && !ReadsAbsorbing(m, ptr - BLOCK_SIZE, size) ==>
          && MidOf(h, m, Searched(old(initialized), h, old(blocks), old(brk)), newSize, mid)
          && (!stray ==> q == mid.made)
    {
      hide ListOk, Quiet, Image, Intact, Allocated, Released, Reallocated, Aligned, MagicAt, FreeAt, SizeAt, Word,
        ReadsAbsorbing, CopiesAstray, ResizedTightly, OthersKept;
      stray, mid := false, Mid(headers, memory, 0);
      if ptr == 0 {
        q := Malloc(newSize, initOk, growOk);
        return;
      }
      if newSize == 0 {
        stray := MyFree(ptr);
        return 0, stray, mid;
      }
      var block := GetBlock(ptr);
      if block == None {
        return 0, false, mid;
      }
      if Known(headers, ptr) {
        q := ReallocKnown(ptr, newSize, growOk);
        return;
      }
      if SizeAt(memory, block.value) >= Align(newSize) {
        return ptr, false, mid;
      }
      q, stray, mid := ReallocStale(ptr, newSize, initOk, growOk);
    }

    /** my_realloc of bytes that pass for the header of a block too small. */
    method ReallocStale(ptr: nat, newSize: nat, initOk: bool, growOk: bool) returns (q: nat, stray: bool,
            ghost mid: Mid)
      requires Valid() && Mistaken(headers, memory, ptr) && newSize > 0
      requires SizeAt(memory, ptr - BLOCK_SIZE) < Align(newSize)
      modifies this
      ensures stray <==> ReallocsAstray(old(headers), old(memory), ptr, newSize, mid)
      ensures !stray ==> Valid() && Allocated(old(headers), old(memory), headers, memory, newSize, q)
      ensures !stray ==> (q == 0 ==> !growOk || (!old(initialized) && !initOk)) && (q != 0 ==> Live(headers, q))
      ensures !ReadsAbsorbing(old(memory), ptr - BLOCK_SIZE, Align(newSize)) ==>
        && MidOf(old(headers), old(memory), Searched(old(initialized), old(headers), old(blocks), old(brk)), newSize,
            mid)
        && (!stray ==> q == mid.made)
    {
      hide ListOk, Quiet, Image, Intact, Released, Copied, Aligned, FirstFit, NoFit, Word, SizeAt, FreeAt, MagicAt,
        ReadsAbsorbing, OnlyHeaders;
      ghost var h0, m0 := headers, memory;
      mid := Mid(headers, memory, 0);
      if ReadsAbsorbing(memory, ptr - BLOCK_SIZE, Align(newSize)) {
        return 0, true, mid;
      }
      AlignTwice(newSize);
      q := Malloc(Align(newSize), initOk, growOk);
      mid := Mid(headers, memory, q);
      if q == 0 {
        return 0, false, mid;
      }
      if CopiesAstray(headers, memory, q, ptr) {
        return q, true, mid;
      }
      ghost var h1, b1, m1, start1, brk1 := headers, blocks, memory, heapStart, brk;
      var n := SizeAt(memory, ptr - BLOCK_SIZE);
      CopyPayload(q, ptr, n);
      stray := MyFree(ptr);
      if !stray {
        NotMade(h0, h1, q, ptr);
        CopiedAllocated(h0, m0, h1, b1, start1, brk1, m1, ptr, n, newSize, q);
        AllocatedIsLive(h0, m0, headers, memory, newSize, q);
      }
    }

    /** my_realloc of a block of the list. */
    method ReallocKnown(ptr: nat, newSize: nat, growOk: bool) returns (q: nat)
      requires Valid() && Known(headers, ptr) && newSize > 0
      modifies this
      ensures Valid()
      ensures Live(old(headers), ptr) ==>
        if q == 0 then Used(headers) == Used(old(headers)) && Intact(old(memory), memory, Used(old(headers))) && !growOk
        else Reallocated(old(headers), old(memory), headers, memory, ptr - BLOCK_SIZE, newSize, q)
      ensures !Live(old(headers), ptr) ==>
        if old(headers)[ptr - BLOCK_SIZE].size >= Align(newSize)
        then q == ptr && headers == old(headers) && memory == old(memory) && blocks == old(blocks)
        else Allocated(old(headers), old(memory), headers, memory, newSize, q) && (q == 0 ==> !growOk)
      ensures q != 0 ==>
        (Live(headers, q) <==> Live(old(headers), ptr) || old(headers)[ptr - BLOCK_SIZE].size < Align(newSize))
      ensures var h, a := old(headers), ptr - BLOCK_SIZE;
        h[a].size >= Align(newSize) ==> q == ptr && headers == h && memory == old(memory) && blocks == old(blocks)
      ensures var h, a := old(headers), ptr - BLOCK_SIZE;
        q == 0 ==> headers == h && memory == old(memory) && blocks == old(blocks)
      ensures Live(old(headers), ptr) ==> ResizedTightly(old(headers), headers, ptr - BLOCK_SIZE, Align(newSize), q)
    {
      hide Reallocated, Allocated, OthersKept, Intact, Image;
      var block := ptr - BLOCK_SIZE;
      ghost var i :| 0 <= i < |blocks| && blocks[i] == block;
      var size := Align(newSize);
      if headers[block].size >= size {
        AddressAligned(headers, blocks, heapStart, brk, i);
        if Live(headers, ptr) {
          StaysPut(headers, memory, block, newSize);
        }
        return ptr;
      }
      Neighbours(headers, blocks, heapStart, brk, i);
      NextBy(headers, blocks, heapStart, brk, i);
      QuietNeighbours(headers, blocks, i);
      if headers[block].next != 0 && headers[headers[block].next].free {
        var combined := headers[block].size + BLOCK_SIZE + headers[headers[block].next].size;
        if combined >= size {
          ghost var h, m := headers, memory;
          AddressAligned(headers, blocks, heapStart, brk, i);
          Absorb(block, size, i);
          Absorbed(h, m, headers, memory, block, newSize);
          ReallocatedIsLive(h, m, headers, memory, block, newSize, ptr);
          assert HasRoomBehind(h, block, size);
          return ptr;
        }
      }
      q := Move(ptr, newSize, growOk);
    }

    /** Swallow the free successor and split off what is not needed. */
    method Absorb(p: nat, size: nat, ghost i: nat)
      requires Valid() && initialized && i < |blocks| && blocks[i] == p && p in headers && !headers[p].free
      requires Aligned(size) && size > headers[p].size && i + 1 < |blocks| && Free(headers, blocks[i + 1])
      requires headers[p].size + BLOCK_SIZE + headers[blocks[i + 1]].size >= size
      modifies this`headers, this`memory, this`heapEnd, this`blocks
      ensures Valid() && p in headers && size <= headers[p].size < size + BLOCK_SIZE + MIN_BLOCK_SIZE
      ensures Used(headers) == Used(old(headers))[p := headers[p].size]
      ensures Intact(old(memory), memory, Used(old(headers)))
      ensures OthersKept(old(headers), headers, {p, old(blocks)[i + 1]})
      ensures var have := old(headers)[p].size + BLOCK_SIZE + old(headers)[old(blocks)[i + 1]].size;
        if have < size + BLOCK_SIZE + MIN_BLOCK_SIZE then headers[p].size == have
        else var n := p + BLOCK_SIZE + size;
             headers[p].size == size && Free(headers, n) && headers[n].size == have - size - BLOCK_SIZE
    {
      hide QuietExcept, Aligned, Image, ListOk, MergeList, HeaderAt, MergeHeaders, OthersKept;
      ghost var h0, b0, m0, keep := headers, blocks, memory, Used(headers);
      QuietNeighbours(h0, b0, i);
      MergeNext(p, i, keep);
      QuietAfterMerge(h0, b0, heapStart, brk, i, i);
      UsedAfterMerge(h0, p);
      MergeWrites(h0, p, p);
      OthersAfterMerge(h0, p);
      MergeListAt(b0, i, i);
      ghost var h1, m1 := headers, memory;
      Trim(p, size, i, keep);
      IntactTogether(m0, m1, memory, keep);
      OthersTogether(h0, h1, headers, {p, b0[i + 1]}, {p});
      QuietUsed(headers, blocks, i);
    }

    /** memcpy into a block. */
    method CopyPayload(q: nat, ptr: nat, n: nat)
      requires Valid() && Known(headers, q) && n <= headers[q - BLOCK_SIZE].size
      modifies this`memory
      ensures Valid() && memory == Copied(old(memory), q, ptr, n)
    {
      memory := Copied(memory, q, ptr, n);
      ImageAfterPayload(old(memory), memory, headers, blocks, heapStart, brk, q - BLOCK_SIZE);
    }

    /** Allocate elsewhere, copy the old payload, free the old block; freeing a free block does nothing. */
    method Move(ptr: nat, newSize: nat, growOk: bool) returns (q: nat)
      requires Valid() && Known(headers, ptr) && headers[ptr - BLOCK_SIZE].size < Align(newSize)
      modifies this
      ensures Valid()
      ensures q == 0 ==>
              Used(headers) == Used(old(headers)) && Intact(old(memory), memory, Used(old(headers))) && !growOk
      ensures q == 0 ==> headers == old(headers) && memory == old(memory) && blocks == old(blocks)
      ensures q != 0 && Live(old(headers), ptr) ==>
        Reallocated(old(headers), old(memory), headers, memory, ptr - BLOCK_SIZE, newSize, q)
      ensures q != 0 && Live(old(headers), ptr) ==>
        var h, a, c := old(headers), ptr - BLOCK_SIZE, q - BLOCK_SIZE;
        && q != ptr && OthersKept(h, headers, {a, c, h[a].prev, h[a].next})
        && c in headers && headers[c].size < Align(newSize) + BLOCK_SIZE + MIN_BLOCK_SIZE
      ensures !Live(old(headers), ptr) ==> Allocated(old(headers), old(memory), headers, memory, newSize, q)
      ensures q != 0 ==> Live(headers, q)
    {
      hide ListOk, Quiet, Image, Intact, Released, Reallocated, Copied, Aligned, FirstFit, NoFit, OthersKept;
      var block := ptr - BLOCK_SIZE;
      ghost var h0, b0, m0, start0, brk0 := headers, blocks, memory, heapStart, brk;
      AlignTwice(newSize);
      q := Malloc(Align(newSize), true, growOk);
      if q == 0 {
        return;
      }
      NotChosen(h0, b0, start0, brk0, Align(newSize), q - BLOCK_SIZE, block);
      SizeKept(h0, headers, {q - BLOCK_SIZE}, block);
      ghost var h1, b1, m1, start1, brk1, n := headers, blocks, memory, heapStart, brk, headers[block].size;
      CopyPayload(q, ptr, headers[block].size);
      ghost var m2 := memory;
      var _ := MyFree(ptr);
      if Live(h0, ptr) {
        Moved(h0, m0, h1, b1, start1, brk1, m1, m2, headers, memory, block, newSize, q);
        MovedKeepsOthers(h0, m0, b0, start0, brk0, h1, m1, b1, start1, brk1, m2, headers, memory, block, newSize, q);
        ReallocatedIsLive(h0, m0, headers, memory, block, newSize, q);
      } else {
        CopiedAllocated(h0, m0, h1, b1, start1, brk1, m1, ptr, n, newSize, q);
        AllocatedIsLive(h0, m0, headers, memory, newSize, q);
      }
    }

    /** The client writes a byte of a live payload. */
    method ClientWrites(a: nat, x: int, v: byte)
      requires Valid() && a in Used(headers) && a + BLOCK_SIZE <= x < a + BLOCK_SIZE + headers[a].size
      modifies this`memory
      ensures Valid() && memory(x) == v && Intact(old(memory), memory, Used(headers) - {a})
    {
      var m := memory;
      memory := y => if y == x then v else m(y);
      ImageAfterPayload(old(memory), memory, headers, blocks, heapStart, brk, a);
      forall c, y | c in Used(headers) - {a} && c + BLOCK_SIZE <= y < c + BLOCK_SIZE + Used(headers)[c]
        ensures memory(y) == old(memory)(y)
      {
        Disjoint(headers, blocks, heapStart, brk, a, c);
      }
    }

    // ---- Accounting ---------------------------------------------------------------------------------

    /** my_heap_used and my_heap_free: payload bytes of the blocks with the given flag. */
    method HeapBytes(free: bool) returns (total: nat)
      requires Valid()
      ensures total == Bytes(headers, blocks, |blocks|, free)
      ensures !free ==> total == Sum(Used(headers))
      ensures free && initialized ==> total == brk - heapStart - BLOCK_SIZE * |blocks| - Sum(Used(headers))
    {
      total := 0;
      var curr := heapStart;
      ghost var i := 0;
      while curr != 0
        invariant i <= |blocks| && curr == (if i < |blocks| then blocks[i] else 0)
        invariant total == Bytes(headers, blocks, i, free)
        decreases |blocks| - i
      {
        Neighbours(headers, blocks, heapStart, brk, i);
        if headers[curr].free == free {
          total := total + headers[curr].size;
        }
        curr := headers[curr].next;
        i := i + 1;
      }
      if initialized {
        AllInOrder(headers, blocks, heapStart, brk);
        UsedBytes(headers, blocks, heapStart, brk);
        Accounting(headers, blocks, heapStart, brk, |blocks|);
      }
    }

    /** Used bytes, free bytes and one header per block make up the heap. */
    lemma HeapAddsUp()
      requires Valid() && initialized
      ensures Bytes(headers, blocks, |blocks|, false) + Bytes(headers, blocks, |blocks|, true) + BLOCK_SIZE * |blocks|
              == brk - heapStart
    {
      Accounting(headers, blocks, heapStart, brk, |blocks|);
    }

    /** Live payloads are aligned, lie inside the heap and are pairwise disjoint. */
    lemma PayloadsDisjoint(a: nat, c: nat)
      requires Valid() && a in Used(headers) && c in Used(headers)
      ensures Aligned(a + BLOCK_SIZE) && heapStart <= a && a + BLOCK_SIZE + headers[a].size <= brk
      ensures a != c ==> a + BLOCK_SIZE + headers[a].size <= c || c + BLOCK_SIZE + headers[c].size <= a
    {
      var i :| 0 <= i < |blocks| && blocks[i] == a;
      AddressAligned(headers, blocks, heapStart, brk, i);
      Neighbours(headers, blocks, heapStart, brk, i);
      if i + 1 < |blocks| {
        InOrder(headers, blocks, heapStart, brk, i, |blocks| - 1);
        Neighbours(headers, blocks, heapStart, brk, |blocks| - 1);
      }
      if a != c {
        Disjoint(headers, blocks, heapStart, brk, a, c);
      }
    }

    lemma AboveStart(a: nat)
      requires Valid() && initialized && a in headers
      ensures a >= heapStart
    {
      var i :| 0 <= i < |blocks| && blocks[i] == a;
      AddressAligned(headers, blocks, heapStart, brk, i);
    }
  }

  /** A block that is freed and then reallocated to a smaller size comes back and is still free. */
  method FreedBlockComesBack(content: Memory) returns (heap: Heap, p: nat, q: nat)
    ensures heap.Valid() && p != 0 && q == p && !Live(heap.headers, q)
  {
    hide ListOk, Quiet, Image, Intact, Aligned, Reallocated, OnlyHeaders, Word, CoveredByFree;
    heap := new Heap(4096, content);
    p := heap.Malloc(100, true, true);
    FirstBlock(4096, 104, p - BLOCK_SIZE);
    ghost var h1 := heap.headers;
    assert p - BLOCK_SIZE in Used(h1);
    var stray := heap.MyFree(p);
    FreedBelow(heap, h1, p - BLOCK_SIZE);
    ghost var mid;
    q, stray, mid := heap.Realloc(p, 50, true, true);
  }

  lemma FirstBlock(base: nat, size: nat, a: nat)
    requires size <= INITIAL_SIZE - BLOCK_SIZE
    requires FirstFit(InitialHeaders(base), [base], base + INITIAL_SIZE, size, a)
    ensures a == base
  {
    assert Fits(InitialHeaders(base), [base][0], size);
  }

  /** A freed block at the start of the heap is still a block. */
  lemma FreedBelow(heap: Heap, h: Headers, a: nat)
    requires heap.Valid() && heap.initialized && a == heap.heapStart && a in h
             && CoveredByFree(heap.headers, a, h[a].size)
    ensures Free(heap.headers, a) && heap.headers[a].size >= h[a].size
  {
    var f :| f in heap.headers && heap.headers[f].free && f <= a && a + h[a].size <= f + heap.headers[f].size;
    heap.AboveStart(f);
  }
}
