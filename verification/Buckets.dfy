/** Circular bucket buffer of the market data cache, as values: time-to-slot arithmetic, what a bucket holds, and
    how a buffer of slots stands for a list of surviving entries. */
module Buckets {
  import opened Prelude
  import opened Modular
  import opened SegmentTree
  import opened Histogram
  import Fenwick

  const BUCKET_NS := 100_000_000

  // ---- Time and slot arithmetic ---------------------------------------------------------------------

  /** C++ integer division and remainder: rounding toward zero. */
  function TruncDiv(a: int, b: int): int
    requires b > 0
  {
    if a >= 0 then a / b else -((-a) / b)
  }

  function TruncMod(a: int, b: int): int
    requires b > 0
  {
    a - b * TruncDiv(a, b)
  }

  function ToAbsBucket(time: int): int {
    if time >= 0 then TruncDiv(time, BUCKET_NS) else TruncDiv(time - BUCKET_NS + 1, BUCKET_NS)
  }

  /** Buckets are 100 ms intervals closed on the left, on both sides of the epoch. */
  lemma ToAbsBucketIsFloor(time: int)
    ensures ToAbsBucket(time) * BUCKET_NS <= time < (ToAbsBucket(time) + 1) * BUCKET_NS
  {
  }

  lemma TruncModIsMod(a: int, n: int)
    requires n > 0
    ensures TruncMod(a, n) + (if TruncMod(a, n) < 0 then n else 0) == a % n
  {
    if a < 0 {
      NegatedRemainder(a, n, (-a) / n, (-a) % n);
    }
  }

  lemma NegatedRemainder(a: int, n: int, q: int, r: int)
    requires n > 0 && -a == n * q + r && 0 <= r < n
    ensures a + n * q == -r && a % n == if r == 0 then 0 else n - r
  {
    if r == 0 {
      assert a == n * (-q);
      ModUnique(a, n, -q, 0);
    } else {
      assert n * (-q - 1) == -(n * q) - n;
      ModUnique(a, n, -q - 1, n - r);
    }
  }

  /** to_local: the slot of an absolute bucket, also for negative bucket numbers. */
  function ToLocal(ab: int, n: nat): (slot: nat)
    requires n > 0
    ensures slot == ab % n
  {
    TruncModIsMod(ab, n);
    var local := TruncMod(ab, n);
    if local < 0 then local + n else local
  }

  // ---- Buckets --------------------------------------------------------------------------------------

  datatype Bucket = Bucket(absIndex: int, entryCount: int, low: Option<real>, high: Option<real>,
                           spreads: seq<real>, hist: seq<int>)

  function EmptyBucket(bins: nat): Bucket {
    Bucket(-1, 0, None, None, [], seq(bins, _ => 0))
  }

  function Leaf(b: Bucket): SegNode {
    SegNode(b.entryCount, b.low, b.high)
  }

  /** The summaries kept in a bucket agree with the spreads it stores; an unused bucket is the cleared one. */
  ghost predicate BucketOk(b: Bucket, g: Grid)
    requires g.Valid()
  {
    && Leaf(b) == Summary(b.spreads)
    && |b.hist| == g.bins
    && (forall bin: nat | bin < g.bins :: b.hist[bin] == Count(b.spreads, InBin(g, bin)))
    && (b.spreads == [] ==> b == EmptyBucket(g.bins))
  }

  /** The bucket after one more spread: count, extremes, list and histogram. */
  function WithSpread(b: Bucket, g: Grid, ab: int, x: real): Bucket
    requires g.Valid() && |b.hist| == g.bins
  {
    var bin := BinOf(g, x);
    Bucket(if b.absIndex == -1 then ab else b.absIndex, b.entryCount + 1,
           if b.low.None? || x < b.low.value then Some(x) else b.low,
           if b.high.None? || x > b.high.value then Some(x) else b.high,
           b.spreads + [x], b.hist[bin := b.hist[bin] + 1])
  }

  lemma WithSpreadOk(b: Bucket, g: Grid, ab: int, x: real)
    requires g.Valid() && BucketOk(b, g)
    ensures BucketOk(WithSpread(b, g, ab, x), g)
  {
  }

  // ---- Rows derived from the slots ------------------------------------------------------------------

  function Leaves(bs: seq<Bucket>): seq<SegNode> {
    seq(|bs|, i requires 0 <= i < |bs| => Leaf(bs[i]))
  }

  function HistRow(bs: seq<Bucket>, bin: nat): seq<int> {
    seq(|bs|, i requires 0 <= i < |bs| => if bin < |bs[i].hist| then bs[i].hist[bin] else 0)
  }

  function Counts(bs: seq<Bucket>): seq<int> {
    seq(|bs|, i requires 0 <= i < |bs| => bs[i].entryCount)
  }

  /** Spreads of the slots [a, b), slot by slot. */
  function SlotConcat(bs: seq<Bucket>, a: nat, b: nat): seq<real>
    requires a <= b <= |bs|
    decreases b - a
  {
    if a == b then [] else SlotConcat(bs, a, b - 1) + bs[b - 1].spreads
  }

  lemma {:induction false} SlotConcatSplit(bs: seq<Bucket>, a: nat, m: nat, b: nat)
    requires a <= m <= b <= |bs|
    ensures SlotConcat(bs, a, b) == SlotConcat(bs, a, m) + SlotConcat(bs, m, b)
    decreases b
  {
    if m < b {
      SlotConcatSplit(bs, a, m, b - 1);
    }
  }

  ghost predicate LeafFits(b: Bucket, leaf: SegNode) {
    leaf == Summary(b.spreads)
  }

  lemma {:induction false} FoldIsSummary(bs: seq<Bucket>, leaves: seq<SegNode>, a: nat, b: nat)
    requires a <= b <= |bs| == |leaves|
    requires forall i | a <= i < b :: LeafFits(bs[i], leaves[i])
    ensures Fold(leaves, a, b) == Summary(SlotConcat(bs, a, b))
    decreases b
  {
    if a < b {
      FoldIsSummary(bs, leaves, a, b - 1);
      assert LeafFits(bs[b - 1], leaves[b - 1]);
      SummaryConcat(SlotConcat(bs, a, b - 1), bs[b - 1].spreads);
    } else {
      assert SlotConcat(bs, a, b) == [];
    }
  }

  ghost predicate RowFits(b: Bucket, c: int, p: real -> bool) {
    c == Count(b.spreads, p)
  }

  lemma {:induction false} RowSumIsCount(bs: seq<Bucket>, row: seq<int>, p: real -> bool, a: nat, b: nat)
    requires a <= b <= |bs| == |row| && forall i | a <= i < b :: RowFits(bs[i], row[i], p)
    ensures Fenwick.Sum(row, a, b) == Count(SlotConcat(bs, a, b), p)
    decreases b
  {
    if a < b {
      RowSumIsCount(bs, row, p, a, b - 1);
      assert RowFits(bs[b - 1], row[b - 1], p);
      CountConcat(SlotConcat(bs, a, b - 1), bs[b - 1].spreads, p);
    }
  }

  lemma {:induction false} CountsSum(bs: seq<Bucket>, g: Grid, b: nat)
    requires g.Valid() && b <= |bs| && forall i | 0 <= i < |bs| :: BucketOk(bs[i], g)
    ensures Fenwick.Sum(Counts(bs), 0, b) == |SlotConcat(bs, 0, b)|
  {
    if b > 0 {
      CountsSum(bs, g, b - 1);
      assert BucketOk(bs[b - 1], g);
      SummaryMeaning(bs[b - 1].spreads);
    }
  }

  // ---- Surviving entries ----------------------------------------------------------------------------

  datatype Entry = Entry(ab: int, spread: real)

  /** Spreads of the entries whose bucket lies in lo..hi, in arrival order: the naive scan. */
  function Spreads(es: seq<Entry>, lo: int, hi: int): seq<real> {
    if es == [] then []
    else
      var last := es[|es| - 1];
      Spreads(es[..|es| - 1], lo, hi) + if lo <= last.ab <= hi then [last.spread] else []
  }

  /** Entries not older than the given bucket. */
  function Since(es: seq<Entry>, start: int): seq<Entry> {
    if es == [] then []
    else Since(es[..|es| - 1], start) + if es[|es| - 1].ab >= start then [es[|es| - 1]] else []
  }

  lemma {:induction false} SinceMembers(es: seq<Entry>, start: int)
    ensures forall e :: e in Since(es, start) <==> e in es && e.ab >= start
  {
    if es != [] {
      SinceMembers(es[..|es| - 1], start);
      assert es == es[..|es| - 1] + [es[|es| - 1]];
    }
  }

  lemma {:induction false} SinceCount(es: seq<Entry>, start: int, e: Entry)
    ensures multiset(Since(es, start))[e] == if e.ab >= start then multiset(es)[e] else 0
  {
    if es != [] {
      var init, last := es[..|es| - 1], es[|es| - 1];
      SinceCount(init, start, e);
      assert es == init + [last];
    }
  }

  /** Where the entries of a range with one spread stand. */
  ghost function PlacesOf(es: seq<Entry>, lo: int, hi: int, x: real): set<int> {
    set i | 0 <= i < |es| && lo <= es[i].ab <= hi && es[i].spread == x
  }

  lemma LastPlace(es: seq<Entry>, lo: int, hi: int, x: real)
    requires es != []
    ensures var n, before := |es| - 1, PlacesOf(es[..|es| - 1], lo, hi, x);
            n !in before && PlacesOf(es, lo, hi, x) ==
                            before + if lo <= es[n].ab <= hi && es[n].spread == x then {n} else {}
  {
  }

  /** The naive scan finds each spread as often as there are entries with it in the range, both ends included. */
  lemma {:induction false} SpreadsAreTheRange(es: seq<Entry>, lo: int, hi: int, x: real)
    ensures multiset(Spreads(es, lo, hi))[x] == |PlacesOf(es, lo, hi, x)|
  {
    if es != [] {
      SpreadsAreTheRange(es[..|es| - 1], lo, hi, x);
      LastPlace(es, lo, hi, x);
    }
  }

  lemma {:induction false} SpreadsSince(es: seq<Entry>, start: int, lo: int, hi: int)
    requires start <= lo
    ensures Spreads(Since(es, start), lo, hi) == Spreads(es, lo, hi)
  {
    if es != [] {
      var init, last := es[..|es| - 1], es[|es| - 1];
      SpreadsSince(init, start, lo, hi);
      if last.ab >= start {
        assert Since(es, start)[..|Since(es, start)| - 1] == Since(init, start);
      } else {
        assert Since(es, start) == Since(init, start);
      }
    }
  }

  lemma {:induction false} SinceAll(es: seq<Entry>, start: int)
    requires forall e | e in es :: e.ab >= start
    ensures Since(es, start) == es
  {
    if es != [] {
      assert es[|es| - 1] in es;
      assert forall e | e in es[..|es| - 1] :: e in es;
      SinceAll(es[..|es| - 1], start);
    }
  }

  lemma {:induction false} SpreadsOutside(es: seq<Entry>, lo: int, hi: int)
    requires forall e | e in es :: !(lo <= e.ab <= hi)
    ensures Spreads(es, lo, hi) == []
  {
    if es != [] {
      assert es[|es| - 1] in es;
      assert forall e | e in es[..|es| - 1] :: e in es;
      SpreadsOutside(es[..|es| - 1], lo, hi);
    }
  }

  lemma {:induction false} SpreadsOfAll(es: seq<Entry>, lo: int, hi: int)
    requires forall e | e in es :: lo <= e.ab <= hi
    ensures |Spreads(es, lo, hi)| == |es|
  {
    if es != [] {
      assert es[|es| - 1] in es;
      assert forall e | e in es[..|es| - 1] :: e in es;
      SpreadsOfAll(es[..|es| - 1], lo, hi);
    }
  }

  /** Narrowing the range to one that contains every entry loses nothing. */
  lemma {:induction false} SpreadsClamped(es: seq<Entry>, lo: int, hi: int, ws: int, we: int)
    requires forall e | e in es :: ws <= e.ab <= we
    ensures Spreads(es, lo, hi) == Spreads(es, if lo < ws then ws else lo, if we < hi then we else hi)
  {
    if es != [] {
      assert es[|es| - 1] in es;
      assert forall e | e in es[..|es| - 1] :: e in es;
      SpreadsClamped(es[..|es| - 1], lo, hi, ws, we);
    }
  }

  lemma {:induction false} SpreadsSplit(es: seq<Entry>, lo: int, mid: int, hi: int)
    requires lo <= mid + 1 && mid <= hi
    ensures multiset(Spreads(es, lo, hi)) == multiset(Spreads(es, lo, mid)) + multiset(Spreads(es, mid + 1, hi))
  {
    if es != [] {
      SpreadsSplit(es[..|es| - 1], lo, mid, hi);
    }
  }

  // ---- Slots against entries ------------------------------------------------------------------------

  /** What the buffer holds for an absolute bucket. */
  function BucketSpreads(bs: seq<Bucket>, ab: int): seq<real>
    requires |bs| > 0
  {
    var b := bs[ab % |bs|];
    if b.absIndex == ab then b.spreads else []
  }

  /** A used slot holds a bucket of the window, at that bucket's own position. */
  ghost predicate SlotOk(bs: seq<Bucket>, ws: int, we: int, i: nat)
    requires i < |bs|
  {
    bs[i].spreads != [] ==> ws <= bs[i].absIndex <= we && bs[i].absIndex % |bs| == i
  }

  /** The buffer holds exactly the given entries, and the window spans at most one lap. */
  ghost predicate SlotsMatch(bs: seq<Bucket>, ws: int, we: int, es: seq<Entry>) {
    && |bs| > 0
    && we - ws < |bs|
    && (forall i: nat | i < |bs| :: SlotOk(bs, ws, we, i))
    && (forall e | e in es :: ws <= e.ab <= we)
    && (forall ab | ws <= ab <= we :: BucketSpreads(bs, ab) == Spreads(es, ab, ab))
  }

  /** In a window the slot of a bucket holds that bucket or nothing. */
  lemma SlotHoldsOwnBucket(bs: seq<Bucket>, ws: int, we: int, ab: int)
    requires |bs| > 0 && we - ws < |bs| && ws <= ab <= we
    requires forall i: nat | i < |bs| :: SlotOk(bs, ws, we, i)
    ensures var b := bs[ab % |bs|]; b.spreads == BucketSpreads(bs, ab) && (b.spreads != [] ==> b.absIndex == ab)
  {
    var i := ab % |bs|;
    assert SlotOk(bs, ws, we, i);
    if bs[i].spreads != [] {
      SlotDeterminesBucket(bs[i].absIndex, ab, |bs|);
    }
  }

  /** Spreads held for the absolute buckets [s, t), bucket by bucket. */
  function WindowConcat(bs: seq<Bucket>, s: int, t: int): seq<real>
    requires |bs| > 0
    decreases t - s
  {
    if s >= t then [] else WindowConcat(bs, s, t - 1) + BucketSpreads(bs, t - 1)
  }

  lemma {:induction false} WindowConcatSplit(bs: seq<Bucket>, s: int, m: int, t: int)
    requires |bs| > 0 && s <= m <= t
    ensures WindowConcat(bs, s, t) == WindowConcat(bs, s, m) + WindowConcat(bs, m, t)
    decreases t - m
  {
    if m < t {
      WindowConcatSplit(bs, s, m, t - 1);
    }
  }

  /** Buckets from s on that lie in consecutive slots from `at` on. */
  lemma {:induction false} RunOfSlots(bs: seq<Bucket>, s: int, t: int, at: nat)
    requires |bs| > 0 && s <= t && at + (t - s) <= |bs|
    requires forall ab | s <= ab < t :: BucketSpreads(bs, ab) == bs[at + (ab - s)].spreads
    ensures WindowConcat(bs, s, t) == SlotConcat(bs, at, at + (t - s))
    decreases t - s
  {
    hide BucketSpreads;
    if s < t {
      RunOfSlots(bs, s, t - 1, at);
    }
  }

  /** A stretch of the window that does not wrap is a run of consecutive slots. */
  lemma StretchIsSlotRun(bs: seq<Bucket>, ws: int, we: int, s: int, t: int)
    requires |bs| > 0 && we - ws < |bs| && forall i: nat | i < |bs| :: SlotOk(bs, ws, we, i)
    requires ws <= s <= t <= we + 1 && s % |bs| + (t - s) <= |bs|
    ensures WindowConcat(bs, s, t) == SlotConcat(bs, s % |bs|, s % |bs| + (t - s))
  {
    hide SlotOk, WindowConcat, SlotConcat, BucketSpreads;
    var at: nat := s % |bs|;
    forall ab | s <= ab < t
      ensures BucketSpreads(bs, ab) == bs[at + (ab - s)].spreads
    {
      SlotAfter(s, ab - s, |bs|);
      SlotHoldsOwnBucket(bs, ws, we, ab);
    }
    RunOfSlots(bs, s, t, at);
  }

  /** The slots that the range helpers read for buckets s..e of the window. */
  function RangeSlots(bs: seq<Bucket>, s: int, e: int): seq<real>
    requires |bs| > 0
  {
    var n, sl, el := |bs|, s % |bs|, e % |bs|;
    if e - s + 1 >= n then SlotConcat(bs, 0, n)
    else if sl <= el then SlotConcat(bs, sl, el + 1)
    else SlotConcat(bs, sl, n) + SlotConcat(bs, 0, el + 1)
  }

  /** Whole buffer, straight run or wrapped pair: the slots read hold exactly the buckets s..e. */
  lemma RangeSlotsAreWindow(bs: seq<Bucket>, ws: int, we: int, s: int, e: int)
    requires |bs| > 0 && we - ws < |bs| && forall i: nat | i < |bs| :: SlotOk(bs, ws, we, i)
    requires ws <= s <= e <= we
    ensures multiset(RangeSlots(bs, s, e)) == multiset(WindowConcat(bs, s, e + 1))
  {
    hide SlotConcat, WindowConcat, SlotOk;
    var n, sl := |bs|, s % |bs|;
    SlotAfter(s, e - s, n);
    if sl + (e + 1 - s) <= n {
      StretchIsSlotRun(bs, ws, we, s, e + 1);
      assert RangeSlots(bs, s, e) == WindowConcat(bs, s, e + 1);
    } else {
      LapStart(s, n);
      WrappedStretch(bs, ws, we, s, s + (n - sl), e + 1);
      if e - s + 1 == n {
        SlotConcatSplit(bs, 0, sl, n);
        RotatedMultiset(SlotConcat(bs, 0, sl), SlotConcat(bs, sl, n));
        assert RangeSlots(bs, s, e) == SlotConcat(bs, 0, sl) + SlotConcat(bs, sl, n);
        assert WindowConcat(bs, s, e + 1) == SlotConcat(bs, sl, n) + SlotConcat(bs, 0, sl);
      } else {
        assert RangeSlots(bs, s, e) == WindowConcat(bs, s, e + 1);
      }
    }
  }

  lemma RotatedMultiset(xs: seq<real>, ys: seq<real>)
    ensures multiset(xs + ys) == multiset(ys + xs)
  {
  }

  /** A stretch that passes the lap boundary m is the buffer's tail followed by its head. */
  lemma WrappedStretch(bs: seq<Bucket>, ws: int, we: int, s: int, m: int, t: int)
    requires |bs| > 0 && we - ws < |bs| && forall i: nat | i < |bs| :: SlotOk(bs, ws, we, i)
    requires ws <= s <= m <= t <= we + 1 && t - s <= |bs|
    requires m % |bs| == 0 && s % |bs| + (m - s) == |bs|
    ensures WindowConcat(bs, s, t) == SlotConcat(bs, s % |bs|, |bs|) + SlotConcat(bs, 0, t - m)
  {
    WindowConcatSplit(bs, s, m, t);
    StretchIsSlotRun(bs, ws, we, s, m);
    StretchIsSlotRun(bs, ws, we, m, t);
  }

  lemma LapStart(s: int, n: nat)
    requires n > 0
    ensures (s + (n - s % n)) % n == 0
  {
    assert s == n * (s / n) + s % n;
    assert n * (s / n + 1) == n * (s / n) + n;
    ModUnique(s + (n - s % n), n, s / n + 1, 0);
  }

  lemma {:induction false} WindowHoldsEntries(bs: seq<Bucket>, ws: int, we: int, es: seq<Entry>, s: int, t: int)
    requires SlotsMatch(bs, ws, we, es) && ws <= s <= t <= we + 1
    ensures multiset(WindowConcat(bs, s, t)) == multiset(Spreads(es, s, t - 1))
    decreases t - s
  {
    if s == t {
      SpreadsOutside(es, s, t - 1);
    } else {
      WindowHoldsEntries(bs, ws, we, es, s, t - 1);
      SpreadsSplit(es, s, t - 2, t - 1);
    }
  }

  // ---- Eviction and insertion -----------------------------------------------------------------------

  function EvictSlot(b: Bucket, bins: nat, limit: int): Bucket {
    if b.spreads != [] && b.absIndex < limit then EmptyBucket(bins) else b
  }

  /** Before the first turn of the eviction loop nothing is older than the window. */
  lemma NothingEvicted(bs: seq<Bucket>, ws: int, we: int, g: Grid)
    requires forall i: nat | i < |bs| :: SlotOk(bs, ws, we, i)
    ensures forall i | 0 <= i < |bs| :: bs[i] == EvictSlot(bs[i], g.bins, ws)
  {
    forall i: nat | i < |bs|
      ensures bs[i] == EvictSlot(bs[i], g.bins, ws)
    {
      assert SlotOk(bs, ws, we, i);
    }
  }

  /** One turn of it: clearing the slot of bucket b, if it holds b, moves the limit past b in every slot. */
  lemma EvictOneMore(was: seq<Bucket>, now: seq<Bucket>, ws: int, we: int, g: Grid, b: int)
    requires |now| == |was| > 0 && g.Valid() && forall i: nat | i < |was| :: SlotOk(was, ws, we, i)
    requires forall i | 0 <= i < |was| :: BucketOk(was[i], g)
    requires forall i | 0 <= i < |was| :: now[i] == EvictSlot(was[i], g.bins, b)
    ensures var at := b % |was|;
            var cleared := if now[at].absIndex == b then now[at := EmptyBucket(g.bins)] else now;
            forall i | 0 <= i < |was| :: cleared[i] == EvictSlot(was[i], g.bins, b + 1)
  {
    hide Summary, Count;
    var at := b % |was|;
    forall i: nat | i < |was|
      ensures (if i == at && now[at].absIndex == b then EmptyBucket(g.bins) else now[i]) ==
              EvictSlot(was[i], g.bins, b + 1)
    {
      assert SlotOk(was, ws, we, i) && BucketOk(was[i], g);
      assert now[i] == EvictSlot(was[i], g.bins, b);
    }
  }

  /** With an empty window every slot is unused, and a one-bucket window may be opened anywhere. */
  lemma OpenWindow(bs: seq<Bucket>, g: Grid, ws: int, we: int, es: seq<Entry>, ab: int)
    requires SlotsMatch(bs, ws, we, es) && ws > we
    requires g.Valid() && forall i | 0 <= i < |bs| :: BucketOk(bs[i], g)
    ensures SlotsMatch(bs, ab, ab, [])
  {
    forall i: nat | i < |bs|
      ensures bs[i].spreads == []
    {
      assert SlotOk(bs, ws, we, i);
    }
  }

  /** Clearing the slots older than the new window start leaves exactly the newer entries. */
  lemma EvictionKeepsNewer(bs: seq<Bucket>, bs': seq<Bucket>, g: Grid, ws: int, we: int, es: seq<Entry>, start: int,
          we': int)
    requires SlotsMatch(bs, ws, we, es) && ws <= start && we <= we' && we' - start < |bs|
    requires g.Valid() && forall i | 0 <= i < |bs| :: BucketOk(bs[i], g)
    requires |bs'| == |bs| && forall i | 0 <= i < |bs| :: bs'[i] == EvictSlot(bs[i], g.bins, start)
    ensures SlotsMatch(bs', start, we', Since(es, start))
  {
    SinceMembers(es, start);
    forall i: nat | i < |bs'|
      ensures SlotOk(bs', start, we', i)
    {
      assert SlotOk(bs, ws, we, i);
    }
    forall ab | start <= ab <= we'
      ensures BucketSpreads(bs', ab) == Spreads(Since(es, start), ab, ab)
    {
      SpreadsSince(es, start, ab, ab);
      var i := ab % |bs|;
      assert bs'[i] == EvictSlot(bs[i], g.bins, start);
      if ab <= we {
        assert BucketSpreads(bs, ab) == Spreads(es, ab, ab);
      } else {
        SpreadsOutside(es, ab, ab);
        assert SlotOk(bs, ws, we, i);
      }
    }
  }

  /** Storing one spread in the slot of its bucket adds exactly that entry. */
  lemma StoringAddsEntry(bs: seq<Bucket>, bs': seq<Bucket>, g: Grid, ws: int, we: int, es: seq<Entry>, ab: int, x: real)
    requires SlotsMatch(bs, ws, we, es) && ws <= ab <= we
    requires g.Valid() && forall i | 0 <= i < |bs| :: BucketOk(bs[i], g)
    requires var i := ab % |bs|; BucketOk(bs[i], g) && bs' == bs[i := WithSpread(bs[i], g, ab, x)]
    ensures SlotsMatch(bs', ws, we, es + [Entry(ab, x)])
  {
    var i := ab % |bs|;
    var es' := es + [Entry(ab, x)];
    assert es'[..|es'| - 1] == es;
    SlotHoldsOwnBucket(bs, ws, we, ab);
    assert BucketOk(bs[i], g);
    assert bs'[i].absIndex == ab;
    forall j: nat | j < |bs'|
      ensures SlotOk(bs', ws, we, j)
    {
      assert SlotOk(bs, ws, we, j);
    }
    forall c | ws <= c <= we
      ensures BucketSpreads(bs', c) == Spreads(es', c, c)
    {
      assert BucketSpreads(bs, c) == Spreads(es, c, c);
      if c % |bs| == i {
        SlotDeterminesBucket(c, ab, |bs|);
      }
    }
  }
}
