/** The market data cache: a circular buffer of 100 ms buckets indexed by a segment tree (count, lowest, highest)
    and one Fenwick tree per histogram bin. Every query is proved equal to a naive scan of the surviving entries. */
module MarketCache {
  import opened Prelude
  import opened Histogram
  import opened Buckets
  import SegmentTree
  import Fenwick

  type SegNode = SegmentTree.SegNode

  const INT64_MAX := 0x7FFF_FFFF_FFFF_FFFF
  const INT64_MIN := -0x8000_0000_0000_0000

  // ---- The abstract cache: a window and a list of entries -------------------------------------------

  /** What the cache stands for. The window is empty when start > end. */
  datatype View = View(start: int, end: int, entries: seq<Entry>)

  const EMPTY_VIEW := View(INT64_MAX, INT64_MIN, [])

  /** Insertion: a newer bucket drags a window of n buckets along, an older one than the window is refused. */
  function InsertView(v: View, n: nat, e: Entry): View {
    if v.start > v.end then
      View(e.ab, e.ab, [e])
    else if e.ab > v.end then
      var start := if e.ab - n + 1 > v.start then e.ab - n + 1 else v.start;
      View(start, e.ab, Since(v.entries, start) + [e])
    else if e.ab < v.start then
      v
    else
      v.(entries := v.entries + [e])
  }

  /** Removal of every bucket up to and including `limit`. */
  function RemoveView(v: View, limit: int): View {
    if v.start > v.end || limit + 1 <= v.start then v
    else if limit + 1 > v.end then EMPTY_VIEW
    else View(limit + 1, v.end, Since(v.entries, limit + 1))
  }

  datatype Op = Insert(time: int, spread: Option<real>) | RemoveUpTo(time: int)

  function Step(v: View, n: nat, op: Op): View {
    match op
    case Insert(time, None) => v
    case Insert(time, Some(x)) => InsertView(v, n, Entry(ToAbsBucket(time), x))
    case RemoveUpTo(time) => RemoveView(v, ToAbsBucket(time))
  }

  function Run(n: nat, ops: seq<Op>): View {
    if ops == [] then EMPTY_VIEW else Step(Run(n, ops[..|ops| - 1]), n, ops[|ops| - 1])
  }

  /** Entries lie in the window, the window spans at most n buckets, and an empty window holds nothing. */
  ghost predicate ViewOk(v: View, n: nat) {
    && v.end - v.start < n
    && (forall e | e in v.entries :: v.start <= e.ab <= v.end)
    && (v.start > v.end ==> v == EMPTY_VIEW)
  }

  lemma StepStaysInWindow(v: View, n: nat, op: Op)
    requires n > 0 && ViewOk(v, n)
    ensures ViewOk(Step(v, n, op), n)
  {
    hide ToAbsBucket, Since;
    SinceMembers(v.entries, Step(v, n, op).start);
  }

  lemma {:induction false} RunStaysInWindow(n: nat, ops: seq<Op>)
    requires n > 0
    ensures ViewOk(Run(n, ops), n)
  {
    hide ViewOk, Step;
    if ops == [] {
      NothingStaysInWindow(n);
    } else {
      RunStaysInWindow(n, ops[..|ops| - 1]);
      StepStaysInWindow(Run(n, ops[..|ops| - 1]), n, ops[|ops| - 1]);
    }
  }

  lemma NothingStaysInWindow(n: nat)
    requires n > 0
    ensures ViewOk(EMPTY_VIEW, n)
  {
  }

  /** The entry of an insertion that is not refused: it has a spread and is not older than the window. */
  ghost predicate Accepted(v: View, op: Op, e: Entry) {
    op.Insert? && op.spread == Some(e.spread) && e.ab == ToAbsBucket(op.time) && (v.start > v.end || e.ab >= v.start)
  }

  /** Entries that fall out: a full window behind an accepted one, or up to the limit of a removal. */
  ghost predicate Dropped(v: View, n: nat, op: Op, e: Entry) {
    match op
    case Insert(time, spread) =>
      spread.Some? && Accepted(v, op, Entry(ToAbsBucket(time), spread.value)) && e.ab <= ToAbsBucket(time) - n
    case RemoveUpTo(time) => e.ab <= ToAbsBucket(time)
  }

  /** A step counts every entry exactly: one more of an accepted one, none of those that fall out, and all others as
      often as before. */
  lemma StepCountsExactly(v: View, n: nat, op: Op, e: Entry)
    requires n > 0 && ViewOk(v, n)
    ensures multiset(Step(v, n, op).entries)[e] ==
            (if Dropped(v, n, op, e) then 0 else multiset(v.entries)[e]) + if Accepted(v, op, e) then 1 else 0
  {
    hide ToAbsBucket, InsertView, RemoveView;
    match op
    case Insert(time, None) =>
    case Insert(time, Some(x)) => InsertCounts(v, n, Entry(ToAbsBucket(time), x), e);
    case RemoveUpTo(time) => RemoveCounts(v, n, ToAbsBucket(time), e);
  }

  lemma InsertCounts(v: View, n: nat, x: Entry, e: Entry)
    requires n > 0 && ViewOk(v, n)
    ensures var accepted := v.start > v.end || x.ab >= v.start;
            multiset(InsertView(v, n, x).entries)[e] ==
            (if accepted && e.ab <= x.ab - n then 0 else multiset(v.entries)[e]) + if accepted && e == x then 1 else 0
  {
    hide Since;
    SinceCount(v.entries, InsertView(v, n, x).start, e);
    assert e in v.entries <==> multiset(v.entries)[e] > 0;
  }

  lemma RemoveCounts(v: View, n: nat, limit: int, e: Entry)
    requires ViewOk(v, n)
    ensures multiset(RemoveView(v, limit).entries)[e] == if e.ab <= limit then 0 else multiset(v.entries)[e]
  {
    hide Since;
    SinceCount(v.entries, limit + 1, e);
    assert e in v.entries <==> multiset(v.entries)[e] > 0;
  }

  /** After a removal an insertion is refused if and only if the removal left the window something and the insertion is
      older than the window or no newer than the limit; after a removal of everything the cache takes any insertion. */
  lemma RefusedAfterRemovalIff(v: View, n: nat, limit: int, time: int, x: real)
    requires n > 0 && ViewOk(v, n)
    ensures var v' := Step(v, n, RemoveUpTo(limit));
            Step(v', n, Insert(time, Some(x))) == v' <==>
            && v.start <= v.end && ToAbsBucket(limit) < v.end
            && (ToAbsBucket(time) < v.start || ToAbsBucket(time) <= ToAbsBucket(limit))
  {
    hide ToAbsBucket, RemoveView, InsertView;
    var v' := RemoveView(v, ToAbsBucket(limit));
    AfterRemoval(v, n, ToAbsBucket(limit));
    Refused(v', n, Entry(ToAbsBucket(time), x));
  }

  lemma AfterRemoval(v: View, n: nat, limit: int)
    requires n > 0 && ViewOk(v, n)
    ensures var v' := RemoveView(v, limit);
            if v.start > v.end || limit >= v.end then v'.start > v'.end && v'.entries == []
            else v'.end == v.end && v'.start == if limit < v.start then v.start else limit + 1
  {
  }

  lemma Refused(v: View, n: nat, e: Entry)
    requires n > 0
    ensures InsertView(v, n, e) == v <==> v.start <= v.end && e.ab < v.start
  {
    if v.start > v.end {
      assert InsertView(v, n, e).start <= InsertView(v, n, e).end;
    } else if e.ab > v.end {
      assert InsertView(v, n, e).end != v.end;
    } else if e.ab >= v.start {
      assert |v.entries + [e]| != |v.entries|;
    }
  }

  // ---- Index consistency ----------------------------------------------------------------------------

  /** Segment tree, Fenwick trees and running total all agree with the buckets. */
  ghost predicate IndexOk(bs: seq<Bucket>, tree: seq<SegNode>, fen: seq<int>, total: int, g: Grid) {
    && |bs| > 0 && g.Valid()
    && (forall i | 0 <= i < |bs| :: BucketOk(bs[i], g))
    && |tree| == 4 * |bs| && |fen| == g.bins * (|bs| + 1)
    && SegmentTree.TreeOk(tree, Leaves(bs), 1, 0, |bs| - 1)
    && (forall bin: nat | bin < g.bins :: RowOk(bs, fen, bin))
    && total == Fenwick.Sum(Counts(bs), 0, |bs|)
  }

  ghost predicate RowOk(bs: seq<Bucket>, fen: seq<int>, bin: nat) {
    Fenwick.Represents(fen, |bs|, bin, HistRow(bs, bin))
  }

  /** Tree `bin` stands for the buckets as they are once slot `local` counts v in that bin. */
  ghost predicate RowChanged(bs: seq<Bucket>, fen: seq<int>, bin: nat, local: nat, v: int)
    requires local < |bs|
  {
    Fenwick.Represents(fen, |bs|, bin, HistRow(bs, bin)[local := v])
  }

  /** Writing one bin's tree leaves the trees of the other bins as they were. */
  lemma OtherRowsKept(n: nat, fen: seq<int>, fen': seq<int>, changed: nat, bin: nat, h: seq<int>)
    requires n > 0 && |h| == n && bin != changed && |fen| == |fen'|
    requires Fenwick.Represents(fen, n, bin, h)
    requires forall i | 0 <= i < |fen| && !(Fenwick.Index(n, changed, 1) <= i <= Fenwick.Index(n, changed, n)) ::
               fen'[i] == fen[i]
    ensures Fenwick.Represents(fen', n, bin, h)
  {
    forall p | 1 <= p <= n
      ensures Fenwick.NodeOk(fen', n, bin, h, p)
    {
      assert Fenwick.NodeOk(fen, n, bin, h, p);
      RowsDisjoint(n, bin, changed);
    }
  }

  lemma RowsDisjoint(n: nat, a: nat, b: nat)
    requires a != b
    ensures a * (n + 1) + n < b * (n + 1) || b * (n + 1) + n < a * (n + 1)
  {
    var lo, hi := if a < b then a else b, if a < b then b else a;
    MultipleAtLeast(hi, lo + 1, n + 1);
    assert (lo + 1) * (n + 1) == lo * (n + 1) + n + 1;
  }

  lemma MultipleAtLeast(x: nat, y: nat, k: nat)
    requires x >= y
    ensures x * k >= y * k
  {
  }

  lemma {:induction false} UniformTreeOk(tree: seq<SegNode>, leaves: seq<SegNode>, e: SegNode, node: nat, lo: nat,
          hi: nat)
    requires lo <= hi < |leaves| && SegmentTree.Fits(|tree|, node, lo, hi)
    requires e.count == 0 && e.low.None? && e.high.None?
    requires forall i | 0 <= i < |leaves| :: leaves[i] == e
    requires forall i | 0 <= i < |tree| :: tree[i] == e
    ensures SegmentTree.TreeOk(tree, leaves, node, lo, hi)
    decreases hi - lo
  {
    if lo < hi {
      UniformTreeOk(tree, leaves, e, 2 * node, lo, (lo + hi) / 2);
      UniformTreeOk(tree, leaves, e, 2 * node + 1, (lo + hi) / 2 + 1, hi);
    }
  }

  lemma FreshIndexOk(n: nat, g: Grid, bs: seq<Bucket>, tree: seq<SegNode>, fen: seq<int>)
    requires n > 0 && g.Valid()
    requires |bs| == n && forall i | 0 <= i < n :: bs[i] == EmptyBucket(g.bins)
    requires |tree| == 4 * n && forall i | 0 <= i < 4 * n :: tree[i] == SegmentTree.EMPTY_NODE
    requires |fen| == g.bins * (n + 1) && forall i | 0 <= i < |fen| :: fen[i] == 0
    ensures IndexOk(bs, tree, fen, 0, g)
  {
    SegmentTree.RootFits(n);
    UniformTreeOk(tree, Leaves(bs), SegmentTree.EMPTY_NODE, 1, 0, n - 1);
    Fenwick.SumOfZeros(Counts(bs), 0, n);
    forall bin: nat | bin < g.bins
      ensures RowOk(bs, fen, bin)
    {
      ZeroRowOk(n, g.bins, fen, bin, HistRow(bs, bin));
    }
  }

  lemma ZeroRowOk(n: nat, bins: nat, fen: seq<int>, bin: nat, h: seq<int>)
    requires |h| == n && bin < bins && forall i | 0 <= i < n :: h[i] == 0
    requires |fen| == bins * (n + 1) && forall i | 0 <= i < |fen| :: fen[i] == 0
    ensures Fenwick.Represents(fen, n, bin, h)
  {
    MultipleAtLeast(bins, bin + 1, n + 1);
    assert (bin + 1) * (n + 1) == bin * (n + 1) + n + 1;
    forall p | 1 <= p <= n
      ensures Fenwick.NodeOk(fen, n, bin, h, p)
    {
      Fenwick.LowBitBounds(p);
      Fenwick.SumOfZeros(h, p - Fenwick.LowBit(p), p);
      var at := Fenwick.Index(n, bin, p);
      assert 0 <= at < |fen|;
    }
  }

  lemma OtherRowsAfterUpdate(bs: seq<Bucket>, fen: seq<int>, fen': seq<int>, bin: nat, local: nat)
    requires local < |bs| && |fen| == |fen'|
    requires var n := |bs|; forall i | 0 <= i < |fen|
        && !(Fenwick.Index(n, bin, 1) <= i <= Fenwick.Index(n, bin, n)) :: fen'[i] == fen[i]
    ensures forall k: nat | k != bin && RowOk(bs, fen, k) :: RowOk(bs, fen', k)
    ensures forall k: nat | k != bin && RowChanged(bs, fen, k, local, 0) :: RowChanged(bs, fen', k, local, 0)
  {
    forall k: nat | k != bin && RowOk(bs, fen, k)
      ensures RowOk(bs, fen', k)
    {
      OtherRowsKept(|bs|, fen, fen', bin, k, HistRow(bs, k));
    }
    forall k: nat | k != bin && RowChanged(bs, fen, k, local, 0)
      ensures RowChanged(bs, fen', k, local, 0)
    {
      OtherRowsKept(|bs|, fen, fen', bin, k, HistRow(bs, k)[local := 0]);
    }
  }

  /** Replacing one bucket replaces one element of every derived row. */
  lemma RowsAfterWrite(bs: seq<Bucket>, local: nat, b: Bucket, bins: nat)
    requires local < |bs|
    ensures Leaves(bs[local := b])[local := Leaf(bs[local])] == Leaves(bs)
    ensures Counts(bs[local := b]) == Counts(bs)[local := b.entryCount]
    ensures forall bin: nat | bin < bins && bin < |b.hist| ::
              HistRow(bs[local := b], bin) == HistRow(bs, bin)[local := b.hist[bin]]
  {
  }

  /** Once every bin's tree has been adjusted and the segment tree repaired, the index is consistent again. */
  lemma IndexAfterWrite(bs: seq<Bucket>, local: nat, b: Bucket, tree: seq<SegNode>, fen: seq<int>, total: int, g: Grid)
    requires local < |bs| && g.Valid() && BucketOk(b, g)
    requires forall i | 0 <= i < |bs| :: BucketOk(bs[i], g)
    requires |fen| == g.bins * (|bs| + 1)
    requires |tree| == 4 * |bs| && SegmentTree.TreeOk(tree, Leaves(bs[local := b]), 1, 0, |bs| - 1)
    requires forall bin: nat | bin < g.bins :: RowChanged(bs, fen, bin, local, b.hist[bin])
    requires total == Fenwick.Sum(Counts(bs), 0, |bs|) + b.entryCount - bs[local].entryCount
    ensures IndexOk(bs[local := b], tree, fen, total, g)
  {
    hide BucketOk, SegmentTree.TreeOk, Fenwick.Sum, Counts, Leaves, RowOk, RowChanged;
    BucketHist(b, g);
    RowsOkAfterWrite(bs, bs[local := b], local, b, fen, g.bins);
    TotalAfterWrite(bs, local, b);
  }

  lemma RowsOkAfterWrite(bs: seq<Bucket>, bs': seq<Bucket>, local: nat, b: Bucket, fen: seq<int>, bins: nat)
    requires local < |bs| && bs' == bs[local := b] && |b.hist| == bins
    requires forall bin: nat | bin < bins :: RowChanged(bs, fen, bin, local, b.hist[bin])
    ensures forall bin: nat | bin < bins :: RowOk(bs', fen, bin)
  {
    hide Fenwick.Represents, HistRow, Leaves, Counts;
    RowsAfterWrite(bs, local, b, bins);
    forall bin: nat | bin < bins
      ensures RowOk(bs', fen, bin)
    {
      assert RowChanged(bs, fen, bin, local, b.hist[bin]);
    }
  }

  lemma TotalAfterWrite(bs: seq<Bucket>, local: nat, b: Bucket)
    requires local < |bs|
    ensures Fenwick.Sum(Counts(bs[local := b]), 0, |bs|) ==
            Fenwick.Sum(Counts(bs), 0, |bs|) + b.entryCount - bs[local].entryCount
  {
    hide Fenwick.Sum, HistRow, Leaves;
    RowsAfterWrite(bs, local, b, 0);
    assert Counts(bs)[local] == bs[local].entryCount;
    Fenwick.SumUpdate(Counts(bs), local, b.entryCount - bs[local].entryCount, 0, |bs|);
  }

  lemma BucketHist(b: Bucket, g: Grid)
    requires g.Valid() && BucketOk(b, g)
    ensures |b.hist| == g.bins
  {
  }

  // ---- Range queries against the naive scan ---------------------------------------------------------

  /** query_seg_range on values: clamp to the window, then one or two segment-tree queries. */
  function SegRange(tree: seq<SegNode>, n: nat, ws: int, we: int, sa: int, ea: int): SegNode
    requires n > 0 && |tree| == 4 * n
  {
    var s, e := if sa < ws then ws else sa, if we < ea then we else ea;
    if ws > we || s > e then SegmentTree.EMPTY_NODE else SegWindow(tree, n, s, e)
  }

  function SegWindow(tree: seq<SegNode>, n: nat, s: int, e: int): SegNode
    requires n > 0 && |tree| == 4 * n && s <= e
  {
    SegmentTree.RootFits(n);
    var sl, el := ToLocal(s, n), ToLocal(e, n);
    if e - s + 1 >= n then SegmentTree.Query(tree, 1, 0, n - 1, 0, n - 1)
    else if sl <= el then SegmentTree.Query(tree, 1, 0, n - 1, sl, el)
    else SegmentTree.Combine(SegmentTree.Query(tree, 1, 0, n - 1, sl, n - 1),
        SegmentTree.Query(tree, 1, 0, n - 1, 0, el))
  }

  /** A query over slots a..b of the tree summarises the spreads stored in those slots. */
  lemma SlotQuery(bs: seq<Bucket>, tree: seq<SegNode>, g: Grid, a: nat, b: nat)
    requires g.Valid() && forall i | 0 <= i < |bs| :: BucketOk(bs[i], g)
    requires a <= b < |bs|
    requires |tree| == 4 * |bs| && SegmentTree.TreeOk(tree, Leaves(bs), 1, 0, |bs| - 1)
    ensures SegmentTree.Fits(|tree|, 1, 0, |bs| - 1)
    ensures SegmentTree.Query(tree, 1, 0, |bs| - 1, a, b) == Summary(SlotConcat(bs, a, b + 1))
  {
    hide SegmentTree.TreeOk, SegmentTree.Query, SegmentTree.Fits, SegmentTree.Fold, SlotConcat, Summary;
    SegmentTree.RootFits(|bs|);
    SegmentTree.QueryIsFold(tree, Leaves(bs), 1, 0, |bs| - 1, a, b);
    forall i | a <= i < b + 1
      ensures LeafFits(bs[i], Leaves(bs)[i])
    {
      assert BucketOk(bs[i], g);
    }
    FoldIsSummary(bs, Leaves(bs), a, b + 1);
  }

  lemma SegWindowSummarises(bs: seq<Bucket>, tree: seq<SegNode>, g: Grid, s: int, e: int)
    requires g.Valid() && forall i | 0 <= i < |bs| :: BucketOk(bs[i], g)
    requires 0 < |bs| && |tree| == 4 * |bs| && SegmentTree.TreeOk(tree, Leaves(bs), 1, 0, |bs| - 1)
    requires s <= e
    ensures SegWindow(tree, |bs|, s, e) == Summary(RangeSlots(bs, s, e))
  {
    hide SegmentTree.Query, SegmentTree.TreeOk, Summary, SlotConcat, BucketOk, SegmentTree.Combine, Leaves;
    var n, sl, el := |bs|, s % |bs|, e % |bs|;
    if e - s + 1 >= n {
      SlotQuery(bs, tree, g, 0, n - 1);
    } else if sl <= el {
      SlotQuery(bs, tree, g, sl, el);
    } else {
      SlotQuery(bs, tree, g, sl, n - 1);
      SlotQuery(bs, tree, g, 0, el);
      SummaryConcat(SlotConcat(bs, sl, n), SlotConcat(bs, 0, el + 1));
    }
  }

  /** The part of the queried range inside the window sees the same entries. */
  lemma RangeSlotsHoldEntries(bs: seq<Bucket>, ws: int, we: int, es: seq<Entry>, s: int, e: int)
    requires SlotsMatch(bs, ws, we, es) && ws <= s <= e <= we
    ensures multiset(RangeSlots(bs, s, e)) == multiset(Spreads(es, s, e))
  {
    RangeSlotsAreWindow(bs, ws, we, s, e);
    WindowHoldsEntries(bs, ws, we, es, s, e + 1);
  }

  lemma EmptySummary()
    ensures Summary([]) == SegmentTree.EMPTY_NODE
  {
  }

  /** Wrapped or not, the segment-tree range query is the naive scan over the surviving entries. */
  lemma SegRangeIsNaive(bs: seq<Bucket>, tree: seq<SegNode>, g: Grid, ws: int, we: int, es: seq<Entry>, sa: int,
          ea: int)
    requires SlotsMatch(bs, ws, we, es)
    requires g.Valid() && forall i | 0 <= i < |bs| :: BucketOk(bs[i], g)
    requires |tree| == 4 * |bs| && SegmentTree.TreeOk(tree, Leaves(bs), 1, 0, |bs| - 1)
    ensures SegRange(tree, |bs|, ws, we, sa, ea) == Summary(Spreads(es, sa, ea))
  {
    hide SegmentTree.TreeOk, SegWindow, Summary, Spreads, RangeSlots, BucketOk;
    var s, e := if sa < ws then ws else sa, if we < ea then we else ea;
    SpreadsClamped(es, sa, ea, ws, we);
    if ws > we || s > e {
      SpreadsOutside(es, s, e);
      EmptySummary();
    } else {
      SegWindowSummarises(bs, tree, g, s, e);
      RangeSlotsHoldEntries(bs, ws, we, es, s, e);
      SummaryPermuted(RangeSlots(bs, s, e), Spreads(es, s, e));
    }
  }

  /** What fw_range answers for the slots of buckets s..e. */
  ghost function RowWindow(row: seq<int>, s: int, e: int): int
    requires |row| > 0
  {
    var n, sl, el := |row|, s % |row|, e % |row|;
    if e - s + 1 >= n then Fenwick.Sum(row, 0, n)
    else if sl <= el then Fenwick.Sum(row, sl, el + 1)
    else Fenwick.Sum(row, sl, n) + Fenwick.Sum(row, 0, el + 1)
  }

  lemma RowWindowCounts(bs: seq<Bucket>, row: seq<int>, p: real -> bool, s: int, e: int)
    requires 0 < |bs| == |row| && forall i | 0 <= i < |bs| :: RowFits(bs[i], row[i], p)
    ensures RowWindow(row, s, e) == Count(RangeSlots(bs, s, e), p)
  {
    hide SlotConcat, Fenwick.Sum, Count, RowFits;
    var n, sl, el := |bs|, s % |bs|, e % |bs|;
    if e - s + 1 >= n {
      RowSumIsCount(bs, row, p, 0, n);
    } else if sl <= el {
      RowSumIsCount(bs, row, p, sl, el + 1);
    } else {
      RowSumIsCount(bs, row, p, sl, n);
      RowSumIsCount(bs, row, p, 0, el + 1);
      CountConcat(SlotConcat(bs, sl, n), SlotConcat(bs, 0, el + 1), p);
    }
  }

  /** The Fenwick sums over the slots of a range count the surviving spreads of that bin. */
  lemma RowWindowIsNaive(bs: seq<Bucket>, g: Grid, bin: nat, ws: int, we: int, es: seq<Entry>, s: int, e: int)
    requires SlotsMatch(bs, ws, we, es) && ws <= s <= e <= we
    requires g.Valid() && bin < g.bins && forall i | 0 <= i < |bs| :: BucketOk(bs[i], g)
    ensures RowWindow(HistRow(bs, bin), s, e) == Count(Spreads(es, s, e), InBin(g, bin))
  {
    forall i | 0 <= i < |bs|
      ensures RowFits(bs[i], HistRow(bs, bin)[i], InBin(g, bin))
    {
      assert BucketOk(bs[i], g);
    }
    RowWindowCounts(bs, HistRow(bs, bin), InBin(g, bin), s, e);
    RangeSlotsHoldEntries(bs, ws, we, es, s, e);
    CountPermuted(RangeSlots(bs, s, e), Spreads(es, s, e), InBin(g, bin));
  }

  /** The running total over all slots is the number of surviving entries. */
  lemma TotalIsEntryCount(bs: seq<Bucket>, g: Grid, ws: int, we: int, es: seq<Entry>)
    requires SlotsMatch(bs, ws, we, es)
    requires g.Valid() && forall i | 0 <= i < |bs| :: BucketOk(bs[i], g)
    ensures Fenwick.Sum(Counts(bs), 0, |bs|) == |es|
  {
    WholeBufferHoldsEntries(bs, g, ws, we, es, ws + |bs| - 1);
    CountsSum(bs, g, |bs|);
  }

  lemma WholeBufferHoldsEntries(bs: seq<Bucket>, g: Grid, ws: int, we: int, es: seq<Entry>, last: int)
    requires SlotsMatch(bs, ws, we, es) && last == ws + |bs| - 1
    requires g.Valid() && forall i | 0 <= i < |bs| :: BucketOk(bs[i], g)
    ensures |SlotConcat(bs, 0, |bs|)| == |es|
  {
    forall i: nat | i < |bs|
      ensures bs[i] == EvictSlot(bs[i], g.bins, ws)
    {
      assert SlotOk(bs, ws, we, i);
    }
    SinceAll(es, ws);
    EvictionKeepsNewer(bs, bs, g, ws, we, es, ws, last);
    RangeSlotsHoldEntries(bs, ws, last, es, ws, last);
    SameSize(RangeSlots(bs, ws, last), Spreads(es, ws, last));
    SpreadsOfAll(es, ws, last);
  }

  lemma SameSize(xs: seq<real>, ys: seq<real>)
    requires multiset(xs) == multiset(ys)
    ensures |xs| == |ys|
  {
    assert |xs| == |multiset(xs)| == |multiset(ys)| == |ys|;
  }

  /** Reading one more bucket of the window: its own spreads when the slot is its own and in use. */
  lemma CollectStep(bs: seq<Bucket>, g: Grid, ws: int, we: int, es: seq<Entry>, s: int, ab: int)
    requires SlotsMatch(bs, ws, we, es) && ws <= s <= ab <= we
    requires g.Valid() && forall i | 0 <= i < |bs| :: BucketOk(bs[i], g)
    ensures WindowConcat(bs, s, s) == []
    ensures var b := bs[ab % |bs|];
            WindowConcat(bs, s, ab + 1) == WindowConcat(bs, s, ab) + if b.absIndex == ab
                && b.entryCount > 0 then b.spreads else []
  {
    var b := bs[ab % |bs|];
    SlotHoldsOwnBucket(bs, ws, we, ab);
    assert BucketOk(b, g);
    SummaryMeaning(b.spreads);
  }

  // ---- Percentiles ----------------------------------------------------------------------------------

  /** The three percentile answers; absent when no entry is in range. */
  datatype Percentiles = Percentiles(p10: Option<real>, p50: Option<real>, p90: Option<real>)

  /** p answers rank k exactly. */
  ghost predicate ExactAt(p: Option<real>, xs: seq<real>, k: nat) {
    p.Some? && IsRank(xs, k, p.value)
  }

  /** Number of spreads below each bin, as the cumulative counter of spread_percentiles sees them. */
  ghost function Cumulative(g: Grid, xs: seq<real>): seq<nat>
    requires g.Valid()
  {
    seq(g.bins + 1, b requires 0 <= b <= g.bins => Count(xs, BinBelow(g, b)))
  }

  /** p answers rank k by the midpoint of the bin in which the cumulative counts reach k. */
  ghost predicate BinnedAt(p: Option<real>, g: Grid, cum: seq<nat>, k: nat) {
    |cum| == g.bins + 1 && p.Some? && exists b: nat | b < g.bins :: p.value == BinMid(g, b) && cum[b] < k <= cum[b + 1]
  }

  /** p answers the fraction f exactly: the least spread with at least that share of the spreads at or below it. */
  ghost predicate AnswersExactly(p: Option<real>, xs: seq<real>, f: real) {
    p.Some? && IsQuantile(xs, f, p.value)
  }

  /** p answers the fraction f by the midpoint of the first bin up to which at least that share of the spreads lies. */
  ghost predicate AnswersByBin(p: Option<real>, g: Grid, xs: seq<real>, f: real)
    requires g.Valid()
  {
    p.Some? && exists b: nat :: IsQuantileBin(xs, f, g, b) && p.value == BinMid(g, b)
  }

  lemma BinnedAnswers(p: Option<real>, g: Grid, xs: seq<real>, f: real)
    requires g.Valid() && f > 0.0 && xs != [] && BinnedAt(p, g, Cumulative(g, xs), RankOf(f, |xs|))
    ensures AnswersByBin(p, g, xs, f)
  {
    var cum, k := Cumulative(g, xs), RankOf(f, |xs|);
    RankIsCeiling(f, |xs|);
    var b: nat :| b < g.bins && p.value == BinMid(g, b) && cum[b] < k <= cum[b + 1];
    assert IsQuantileBin(xs, f, g, b);
  }

  /** State of one answer before bin `bin` is read: set exactly when its rank has been reached. */
  ghost predicate Settled(p: Option<real>, g: Grid, cum: seq<nat>, k: nat, bin: nat)
    requires bin < |cum|
  {
    if cum[bin] >= k then BinnedAt(p, g, cum, k) else p.None?
  }

  lemma SettleStep(p: Option<real>, g: Grid, cum: seq<nat>, k: nat, bin: nat)
    requires |cum| == g.bins + 1 && bin < g.bins && cum[bin] <= cum[bin + 1]
    requires Settled(p, g, cum, k, bin)
    ensures Settled(if p.None? && cum[bin + 1] >= k then Some(BinMid(g, bin)) else p, g, cum, k, bin + 1)
  {
  }

  /** The approximate answer is the midpoint of the bin of the exact answer of the same rank, and for a spread
      inside the histogram range the two differ by at most half a bin. */
  lemma ApproximateNearExact(g: Grid, xs: seq<real>, k: nat, approx: Option<real>, exact: Option<real>)
    requires g.Valid() && BinnedAt(approx, g, Cumulative(g, xs), k) && ExactAt(exact, xs, k)
    ensures approx.value == BinMid(g, BinOf(g, exact.value))
    ensures g.min <= exact.value <= g.Max() ==>
              exact.value - g.width / 2.0 <= approx.value <= exact.value + g.width / 2.0
  {
    var cum := Cumulative(g, xs);
    var b: nat :| b < g.bins && approx.value == BinMid(g, b) && cum[b] < k <= cum[b + 1];
    RankFixesBin(g, xs, k, exact.value, b);
    if g.min <= exact.value <= g.Max() {
      BinMidIsClose(g, exact.value);
    }
  }

  lemma GridSpans(min: real, max: real, bins: nat)
    requires min < max && bins > 0
    ensures var g := Grid(min, (max - min) / bins as real, bins); g.Valid() && g.Max() == max
  {
    var width := (max - min) / bins as real;
    assert width * bins as real == max - min;
    ProductSign(width, bins as real);
  }

  lemma FreshSlots(n: nat, bins: nat, bs: seq<Bucket>)
    requires |bs| == n > 0 && forall i | 0 <= i < n :: bs[i] == EmptyBucket(bins)
    ensures SlotsMatch(bs, INT64_MAX, INT64_MIN, [])
  {
  }

  // ---- The cache ------------------------------------------------------------------------------------

  class MarketDataCache {
    const n: nat
    const grid: Grid
    const buckets: array<Bucket>
    const seg: array<SegNode>
    const fenwick: array<int>
    var totalCount: int
    var windowStart: int
    var windowEnd: int
    ghost var entries: seq<Entry>

    ghost predicate Indexed()
      reads this, buckets, seg, fenwick
    {
      buckets.Length == n && IndexOk(buckets[..], seg[..], fenwick[..], totalCount, grid)
    }

    ghost predicate Valid()
      reads this, buckets, seg, fenwick
    {
      Indexed() && SlotsMatch(buckets[..], windowStart, windowEnd, entries) && ViewOk(GetView(), n)
    }

    ghost function GetView(): View
      reads this
    {
      View(windowStart, windowEnd, entries)
    }

    /** Construction refuses an empty histogram range. */
    static method Create(histMin: real, histMax: real, numBuckets: nat, numBins: nat)
      returns (r: Option<MarketDataCache>)
      requires numBuckets > 0 && numBins > 0
      ensures r.None? <==> histMax <= histMin
      ensures r.Some? ==>
        && r.value.Valid() && r.value.n == numBuckets && r.value.GetView() == EMPTY_VIEW
        && r.value.grid.min == histMin && r.value.grid.Max() == histMax && r.value.grid.bins == numBins
        && fresh(r.value) && fresh(r.value.buckets) && fresh(r.value.seg) && fresh(r.value.fenwick)
    {
      if histMax <= histMin {
        return None;
      }
      var cache := new MarketDataCache(histMin, histMax, numBuckets, numBins);
      return Some(cache);
    }

    /** A cache of numBuckets slots over a non-empty histogram range. */
    constructor (histMin: real, histMax: real, numBuckets: nat, numBins: nat)
      requires histMin < histMax && numBuckets > 0 && numBins > 0
      ensures Valid() && n == numBuckets && GetView() == EMPTY_VIEW
      ensures grid.min == histMin && grid.Max() == histMax && grid.bins == numBins
      ensures fresh(buckets) && fresh(seg) && fresh(fenwick)
    {
      n := numBuckets;
      var g := Grid(histMin, (histMax - histMin) / numBins as real, numBins);
      grid := g;
      buckets := new Bucket[numBuckets](_ => EmptyBucket(numBins));
      seg := new SegNode[4 * numBuckets](_ => SegmentTree.EMPTY_NODE);
      fenwick := new int[numBins * (numBuckets + 1)](_ => 0);
      totalCount, windowStart, windowEnd := 0, INT64_MAX, INT64_MIN;
      entries := [];
      new;
      hide IndexOk, SlotsMatch;
      GridSpans(histMin, histMax, numBins);
      FreshSlots(n, numBins, buckets[..]);
      FreshIndexOk(n, grid, buckets[..], seg[..], fenwick[..]);
    }

    /** The histogram part of clear_bucket_at: subtract the bucket's counts from every bin's tree. */
    method ClearHistogram(local: nat, hist: seq<int>, ghost bs: seq<Bucket>)
      requires |bs| == n && local < n && |hist| == grid.bins && fenwick.Length == grid.bins * (n + 1)
      requires forall k: nat | k < grid.bins :: RowOk(bs, fenwick[..], k) && HistRow(bs, k)[local] == hist[k]
      modifies fenwick
      ensures forall k: nat | k < grid.bins :: RowChanged(bs, fenwick[..], k, local, 0)
    {
      for bin := 0 to grid.bins
        invariant forall k: nat | k < bin :: RowChanged(bs, fenwick[..], k, local, 0)
        invariant forall k: nat | bin <= k < grid.bins :: RowOk(bs, fenwick[..], k)
      {
        ghost var row := HistRow(bs, bin);
        assert RowOk(bs, fenwick[..], bin);
        if hist[bin] != 0 {
          ghost var before := fenwick[..];
          Fenwick.Update(fenwick, n, bin, local, -hist[bin], row);
          OtherRowsAfterUpdate(bs, before, fenwick[..], bin, local);
        } else {
          assert row[local := 0] == row;
        }
        assert RowChanged(bs, fenwick[..], bin, local, 0);
      }
    }

    /** clear_bucket_at: take one bucket out of the total, the Fenwick trees and the segment tree. */
    method ClearBucketAt(local: nat)
      requires Indexed() && local < n
      modifies this`totalCount, buckets, seg, fenwick
      ensures Indexed()
      ensures buckets[..] == old(buckets[..])[local := EmptyBucket(grid.bins)]
    {
      ghost var bs := buckets[..];
      var b := buckets[local];
      assert BucketOk(bs[local], grid);
      SummaryMeaning(b.spreads);
      if b.entryCount == 0 {
        assert b == EmptyBucket(grid.bins);
        return;
      }
      totalCount := totalCount - b.entryCount;
      ClearHistogram(local, b.hist, bs);
      buckets[local] := EmptyBucket(grid.bins);
      RowsAfterWrite(bs, local, EmptyBucket(grid.bins), grid.bins);
      SegmentTree.RootFits(n);
      SegmentTree.Update(seg, Leaves(buckets[..]), Leaf(b), 1, 0, n - 1, local);
      IndexAfterWrite(bs, local, EmptyBucket(grid.bins), seg[..], fenwick[..], totalCount, grid);
    }

    method ClearAll()
      requires Indexed()
      modifies this`totalCount, buckets, seg, fenwick
      ensures Indexed()
      ensures forall i | 0 <= i < n :: buckets[i] == EmptyBucket(grid.bins)
    {
      for i := 0 to n
        invariant Indexed()
        invariant forall k | 0 <= k < i :: buckets[k] == EmptyBucket(grid.bins)
      {
        ClearBucketAt(i);
      }
    }

    /** Evict the buckets of the window that precede newStart: all slots at once when a whole lap has passed,
        otherwise bucket by bucket. */
    method EvictBefore(newStart: int)
      requires Valid() && windowStart < newStart
      modifies this`totalCount, buckets, seg, fenwick
      ensures Indexed()
      ensures forall i | 0 <= i < n :: buckets[i] == EvictSlot(old(buckets[i]), grid.bins, newStart)
    {
      ghost var was := buckets[..];
      if newStart - windowStart >= n {
        ClearAll();
        forall i: nat | i < n
          ensures buckets[i] == EvictSlot(was[i], grid.bins, newStart)
        {
          assert SlotOk(was, windowStart, windowEnd, i);
          assert BucketOk(was[i], grid);
        }
      } else {
        EvictOneByOne(newStart);
      }
    }

    method EvictOneByOne(newStart: int)
      requires Valid() && windowStart < newStart
      modifies this`totalCount, buckets, seg, fenwick
      ensures Indexed()
      ensures forall i | 0 <= i < n :: buckets[..][i] == EvictSlot(old(buckets[..])[i], grid.bins, newStart)
    {
      hide IndexOk, BucketOk, SlotOk, EvictSlot, EmptyBucket;
      ghost var was := buckets[..];
      BucketsOk();
      NothingEvicted(was, windowStart, windowEnd, grid);
      for b := windowStart to newStart
        invariant Indexed()
        invariant forall i | 0 <= i < n :: buckets[..][i] == EvictSlot(was[i], grid.bins, b)
      {
        var local := ToLocal(b, n);
        ghost var before := buckets[..];
        EvictOneMore(was, before, windowStart, windowEnd, grid, b);
        if buckets[local].absIndex == b {
          ClearBucketAt(local);
        }
      }
    }

    /** The bucket updates of insert, field by field. */
    method Extended(b: Bucket, ab: int, spread: real) returns (bkt: Bucket)
      requires grid.Valid() && |b.hist| == grid.bins
      ensures bkt == WithSpread(b, grid, ab, spread)
    {
      bkt := b;
      if bkt.absIndex == -1 {
        bkt := bkt.(absIndex := ab);
      }
      bkt := bkt.(entryCount := bkt.entryCount + 1);
      if bkt.low.None? || spread < bkt.low.value {
        bkt := bkt.(low := Some(spread));
      }
      if bkt.high.None? || spread > bkt.high.value {
        bkt := bkt.(high := Some(spread));
      }
      var bin := BinOf(grid, spread);
      bkt := bkt.(spreads := bkt.spreads + [spread], hist := bkt.hist[bin := bkt.hist[bin] + 1]);
    }

    /** Store one spread in the slot of its bucket and bring every index up to date. */
    method Store(ab: int, spread: real)
      requires Indexed() && SlotsMatch(buckets[..], windowStart, windowEnd, entries)
      requires windowStart <= ab <= windowEnd
      modifies this`totalCount, this`entries, buckets, seg, fenwick
      ensures Indexed() && SlotsMatch(buckets[..], windowStart, windowEnd, entries)
      ensures entries == old(entries) + [Entry(ab, spread)]
    {
      hide Summary, Count, SegmentTree.TreeOk, RowOk, Spreads;
      ghost var bs := buckets[..];
      var local := ToLocal(ab, n);
      var bkt := buckets[local];
      SlotHoldsOwnBucket(bs, windowStart, windowEnd, ab);
      assert BucketOk(bs[local], grid);
      if bkt.absIndex != -1 && bkt.absIndex != ab {
        assert false;  // a stale bucket in the slot: never happens, the window has evicted it
      }
      bkt := Extended(bkt, ab, spread);
      var bin := BinOf(grid, spread);
      WithSpreadOk(bs[local], grid, ab, spread);
      buckets[local] := bkt;
      totalCount := totalCount + 1;
      Reindex(bs, local, bkt, bin);
      entries := entries + [Entry(ab, spread)];
      StoringAddsEntry(bs, buckets[..], grid, windowStart, windowEnd, old(entries), ab, spread);
    }

    /** The seg_update and fw_update calls that follow an insertion into bucket `local`. */
    method Reindex(ghost bs: seq<Bucket>, local: nat, ghost bkt: Bucket, bin: nat)
      requires |bs| == n && local < n && bin < grid.bins
      requires IndexOk(bs, seg[..], fenwick[..], totalCount - 1, grid)
      requires BucketOk(bkt, grid) && bkt.entryCount == bs[local].entryCount + 1
      requires |bs[local].hist| == grid.bins && bkt.hist == bs[local].hist[bin := bs[local].hist[bin] + 1]
      requires buckets[..] == bs[local := bkt]
      modifies seg, fenwick
      ensures Indexed()
    {
      hide SegmentTree.TreeOk, SegmentTree.Fits, BucketOk, Fenwick.NodeOk;
      RowsAfterWrite(bs, local, bkt, grid.bins);
      SegmentTree.RootFits(n);
      SegmentTree.Update(seg, Leaves(buckets[..]), Leaf(bs[local]), 1, 0, n - 1, local);
      ghost var before := fenwick[..];
      assert RowOk(bs, before, bin);
      Fenwick.Update(fenwick, n, bin, local, 1, HistRow(bs, bin));
      OtherRowsAfterUpdate(bs, before, fenwick[..], bin, local);
      forall k: nat | k < grid.bins
        ensures RowChanged(bs, fenwick[..], k, local, bkt.hist[k])
      {
        if k != bin {
          assert RowOk(bs, before, k);
          assert RowOk(bs, fenwick[..], k);
          assert HistRow(bs, k)[local := bkt.hist[k]] == HistRow(bs, k);
        }
      }
      IndexAfterWrite(bs, local, bkt, seg[..], fenwick[..], totalCount, grid);
    }

    /** insert: a missing spread (not a number) is ignored, an entry older than the window is refused. */
    method Insert(time: int, spread: Option<real>)
      requires Valid()
      modifies this, buckets, seg, fenwick
      ensures Valid()
      ensures GetView() == Step(old(GetView()), n, Op.Insert(time, spread))
      ensures var ab := ToAbsBucket(time);
              if spread.None? || ab < old(windowStart) <= old(windowEnd)
              then windowStart == old(windowStart) && windowEnd == old(windowEnd) && entries == old(entries)
              else if old(windowStart) > old(windowEnd)
              then windowStart == windowEnd == ab && entries == [Entry(ab, spread.value)]
              else && windowEnd == (if ab > old(windowEnd) then ab else old(windowEnd))
                   && windowStart == (if ab > old(windowEnd) && ab - n + 1 > old(windowStart) then ab - n + 1
                                      else old(windowStart))
                   && entries != [] && entries[|entries| - 1] == Entry(ab, spread.value)
    {
      hide IndexOk, SlotsMatch, ViewOk, Since, ToAbsBucket;
      BucketsOk();
      StepStaysInWindow(GetView(), n, Op.Insert(time, spread));
      if spread.None? {
        return;
      }
      var ab := ToAbsBucket(time);
      if windowStart > windowEnd {
        Open(ab);
      } else if ab > windowEnd {
        AdvanceWindow(ab);
      } else if ab < windowStart {
        return;
      }
      Store(ab, spread.value);
      assert GetView() == Step(old(GetView()), n, Op.Insert(time, spread));
    }

    /** The first insertion into an empty window puts it around its bucket. */
    method Open(ab: int)
      requires Valid() && windowStart > windowEnd
      modifies this`windowStart, this`windowEnd
      ensures Indexed() && SlotsMatch(buckets[..], windowStart, windowEnd, entries)
      ensures windowStart == windowEnd == ab && entries == []
    {
      hide BucketOk, SlotOk, SegmentTree.TreeOk, RowOk, BucketSpreads, Spreads;
      OpenWindow(buckets[..], grid, windowStart, windowEnd, entries, ab);
      windowStart, windowEnd := ab, ab;
    }

    /** Move the window's end to a newer bucket, dragging its start along when the span would exceed a lap. */
    method AdvanceWindow(ab: int)
      requires Valid() && windowStart <= windowEnd < ab
      modifies this, buckets, seg, fenwick
      ensures Indexed() && SlotsMatch(buckets[..], windowStart, windowEnd, entries)
      ensures windowEnd == ab && windowStart == if ab - n + 1 > old(windowStart) then ab - n + 1 else old(windowStart)
      ensures entries == Since(old(entries), windowStart)
    {
      ghost var was := buckets[..];
      var newStart := ab - n + 1;
      ghost var start := if newStart > windowStart then newStart else windowStart;
      if newStart > windowStart {
        EvictBefore(newStart);
      } else {
        forall i: nat | i < n
          ensures buckets[i] == EvictSlot(was[i], grid.bins, start)
        {
          assert SlotOk(was, windowStart, windowEnd, i);
        }
      }
      EvictionKeepsNewer(was, buckets[..], grid, windowStart, windowEnd, entries, start, ab);
      entries := Since(entries, start);
      if newStart > windowStart {
        windowStart := newStart;
      }
      windowEnd := ab;
    }

    /** remove_up_to: drop every bucket up to and including the one of `time`. */
    method RemoveUpTo(time: int)
      requires Valid()
      modifies this, buckets, seg, fenwick
      ensures Valid()
      ensures GetView() == Step(old(GetView()), n, Op.RemoveUpTo(time))
      ensures var limit := ToAbsBucket(time);
              if old(windowStart) > old(windowEnd) || limit < old(windowStart)
              then windowStart == old(windowStart) && windowEnd == old(windowEnd) && entries == old(entries)
              else if limit >= old(windowEnd) then windowStart > windowEnd && entries == []
              else windowStart == limit + 1 && windowEnd == old(windowEnd)
    {
      hide IndexOk, SlotsMatch, ToAbsBucket, Since, EMPTY_VIEW;
      var limit := ToAbsBucket(time);
      if windowStart > windowEnd {
        return;
      }
      var newStart := limit + 1;
      if newStart <= windowStart {
        return;
      }
      if newStart > windowEnd {
        Reset();
      } else {
        DropBefore(newStart);
      }
    }

    /** Every bucket is dropped and the window is empty again. */
    method Reset()
      requires Valid()
      modifies this, buckets, seg, fenwick
      ensures Valid() && GetView() == EMPTY_VIEW && windowStart > windowEnd && entries == []
    {
      ClearAll();
      windowStart, windowEnd := INT64_MAX, INT64_MIN;
      entries := [];
    }

    /** The window's start moves up inside the window. */
    method DropBefore(newStart: int)
      requires Valid() && windowStart < newStart <= windowEnd
      modifies this, buckets, seg, fenwick
      ensures Valid() && GetView() == View(newStart, old(windowEnd), Since(old(entries), newStart))
    {
      hide IndexOk, SlotsMatch, Since;
      ghost var was := buckets[..];
      BucketsOk();
      EvictBefore(newStart);
      EvictionKeepsNewer(was, buckets[..], grid, windowStart, windowEnd, entries, newStart, windowEnd);
      SinceMembers(entries, newStart);
      windowStart := newStart;
      entries := Since(entries, newStart);
    }

    lemma BucketsOk()
      requires Indexed()
      ensures n > 0 && grid.Valid() && forall i | 0 <= i < |buckets[..]| :: BucketOk(buckets[..][i], grid)
    {
    }

    // ---- Queries ------------------------------------------------------------------------------------

    /** query_seg_range. */
    function QuerySegRange(sa: int, ea: int): SegNode
      requires Valid()
      reads this, buckets, seg, fenwick
    {
      SegRange(seg[..], n, windowStart, windowEnd, sa, ea)
    }

    /** The spreads a naive scan finds between two times, at bucket granularity. */
    ghost function InRange(startTime: int, endTime: int): seq<real>
      reads this
    {
      Spreads(entries, ToAbsBucket(startTime), ToAbsBucket(endTime))
    }

    lemma SegRangeSummarises(sa: int, ea: int)
      requires Valid()
      ensures var r := QuerySegRange(sa, ea);
              r.count == |Spreads(entries, sa, ea)| && IsLowest(r.low, Spreads(entries, sa, ea))
                  && IsHighest(r.high, Spreads(entries, sa, ea))
    {
      SegRangeIsNaive(buckets[..], seg[..], grid, windowStart, windowEnd, entries, sa, ea);
      SummaryMeaning(Spreads(entries, sa, ea));
    }

    /** query_fw_range: how many surviving spreads of the range fall into a bin. */
    method QueryFwRange(bin: nat, sa: int, ea: int) returns (cnt: int)
      requires Valid() && bin < grid.bins
      ensures cnt == Count(Spreads(entries, sa, ea), InBin(grid, bin))
    {
      ghost var bs := buckets[..];
      var s, e := if sa < windowStart then windowStart else sa, if windowEnd < ea then windowEnd else ea;
      SpreadsClamped(entries, sa, ea, windowStart, windowEnd);
      if windowStart > windowEnd || s > e {
        SpreadsOutside(entries, s, e);
        return 0;
      }
      RowWindowIsNaive(bs, grid, bin, windowStart, windowEnd, entries, s, e);
      assert RowOk(bs, fenwick[..], bin);
      cnt := FwWindow(bin, s, e, HistRow(bs, bin));
    }

    method FwWindow(bin: nat, s: int, e: int, ghost row: seq<int>) returns (cnt: int)
      requires |row| == n > 0 && Fenwick.Represents(fenwick[..], n, bin, row)
      ensures cnt == RowWindow(row, s, e)
    {
      var sl, el := ToLocal(s, n), ToLocal(e, n);
      if e - s + 1 >= n {
        cnt := Fenwick.Range(fenwick, n, bin, 0, n - 1, row);
      } else if sl <= el {
        cnt := Fenwick.Range(fenwick, n, bin, sl, el, row);
      } else {
        var tail := Fenwick.Range(fenwick, n, bin, sl, n - 1, row);
        var head := Fenwick.Range(fenwick, n, bin, 0, el, row);
        cnt := tail + head;
      }
    }

    /** count: every surviving entry is counted once. */
    method EntryCount() returns (c: int)
      requires Valid()
      ensures c == |entries|
    {
      c := totalCount;
      TotalIsEntryCount(buckets[..], grid, windowStart, windowEnd, entries);
    }

    method CountRange(startTime: int, endTime: int) returns (c: int)
      requires Valid()
      ensures c == |InRange(startTime, endTime)|
    {
      SegRangeSummarises(ToAbsBucket(startTime), ToAbsBucket(endTime));
      c := QuerySegRange(ToAbsBucket(startTime), ToAbsBucket(endTime)).count;
    }

    method MinSpread(startTime: int, endTime: int) returns (m: Option<real>)
      requires Valid()
      ensures IsLowest(m, InRange(startTime, endTime))
    {
      SegRangeSummarises(ToAbsBucket(startTime), ToAbsBucket(endTime));
      var r := QuerySegRange(ToAbsBucket(startTime), ToAbsBucket(endTime));
      m := if r.count > 0 then r.low else None;
    }

    method MaxSpread(startTime: int, endTime: int) returns (m: Option<real>)
      requires Valid()
      ensures IsHighest(m, InRange(startTime, endTime))
    {
      SegRangeSummarises(ToAbsBucket(startTime), ToAbsBucket(endTime));
      var r := QuerySegRange(ToAbsBucket(startTime), ToAbsBucket(endTime));
      m := if r.count > 0 then r.high else None;
    }

    /** spread_percentiles. */
    method SpreadPercentiles(startTime: int, endTime: int) returns (p: Percentiles)
      requires Valid()
      ensures var xs := InRange(startTime, endTime);
              if xs == [] then p == Percentiles(None, None, None)
              else && BinnedAt(p.p10, grid, Cumulative(grid, xs), RankOf(0.10, |xs|))
                   && BinnedAt(p.p50, grid, Cumulative(grid, xs), RankOf(0.50, |xs|))
                   && BinnedAt(p.p90, grid, Cumulative(grid, xs), RankOf(0.90, |xs|))
      ensures var xs := InRange(startTime, endTime);
              xs != [] ==> AnswersByBin(p.p10, grid, xs, 0.10) && AnswersByBin(p.p50, grid, xs, 0.50)
                           && AnswersByBin(p.p90, grid, xs, 0.90)
    {
      var sa, ea := ToAbsBucket(startTime), ToAbsBucket(endTime);
      SegRangeSummarises(sa, ea);
      var total := QuerySegRange(sa, ea).count;
      if total == 0 {
        return Percentiles(None, None, None);
      }
      ghost var xs := Spreads(entries, sa, ea);
      p := WalkBins(sa, ea, total, Cumulative(grid, xs));
      BinnedAnswers(p.p10, grid, xs, 0.10);
      BinnedAnswers(p.p50, grid, xs, 0.50);
      BinnedAnswers(p.p90, grid, xs, 0.90);
    }

    /** The bin loop: accumulate bin counts and stop when the 90% rank is reached. */
    method WalkBins(sa: int, ea: int, total: int, ghost cum: seq<nat>) returns (p: Percentiles)
      requires Valid() && cum == Cumulative(grid, Spreads(entries, sa, ea))
      requires total == |Spreads(entries, sa, ea)| > 0
      ensures BinnedAt(p.p10, grid, cum, RankOf(0.10, total))
      ensures BinnedAt(p.p50, grid, cum, RankOf(0.50, total))
      ensures BinnedAt(p.p90, grid, cum, RankOf(0.90, total))
    {
      hide SlotsMatch, RowOk, BucketOk, SegmentTree.TreeOk, Spreads, Count, RankOf, BinMid;
      var r10, r50, r90 := RankOf(0.10, total), RankOf(0.50, total), RankOf(0.90, total);
      RanksOrdered(total);
      p := Percentiles(None, None, None);
      var cumulative := 0;
      var bin := 0;
      BinCountsAddUp(grid, Spreads(entries, sa, ea), 0);
      while bin < grid.bins
        invariant 0 <= bin <= grid.bins && cumulative == cum[bin]
        invariant Settled(p.p10, grid, cum, r10, bin) && Settled(p.p50, grid, cum, r50, bin)
            && Settled(p.p90, grid, cum, r90, bin)
        invariant cumulative < r90
      {
        var cnt := BinCount(bin, sa, ea, cum);
        SettleStep(p.p10, grid, cum, r10, bin);
        SettleStep(p.p50, grid, cum, r50, bin);
        SettleStep(p.p90, grid, cum, r90, bin);
        if cnt != 0 {
          cumulative := cumulative + cnt;
          var val := BinMid(grid, bin);
          if p.p10.None? && cumulative >= r10 {
            p := p.(p10 := Some(val));
          }
          if p.p50.None? && cumulative >= r50 {
            p := p.(p50 := Some(val));
          }
          if p.p90.None? && cumulative >= r90 {
            p := p.(p90 := Some(val));
          }
          if p.p90.Some? {
            return;
          }
        }
        bin := bin + 1;
      }
      assert false;  // every spread has a bin, so the 90% rank is reached before the bins run out
    }

    method BinCount(bin: nat, sa: int, ea: int, ghost cum: seq<nat>) returns (cnt: int)
      requires Valid() && bin < grid.bins && cum == Cumulative(grid, Spreads(entries, sa, ea))
      ensures cnt >= 0 && cum[bin] + cnt == cum[bin + 1]
    {
      hide SlotsMatch, Spreads, Count, SegmentTree.TreeOk, RowOk, BucketOk;
      cnt := QueryFwRange(bin, sa, ea);
      BinCountsAddUp(grid, Spreads(entries, sa, ea), bin);
    }

    /** collect_spreads: the spreads of the range, bucket by bucket. */
    method CollectSpreads(sa: int, ea: int) returns (out: seq<real>)
      requires Valid()
      ensures multiset(out) == multiset(Spreads(entries, sa, ea))
    {
      hide IndexOk, SlotsMatch, WindowConcat, Spreads, BucketOk;
      BucketsOk();
      out := [];
      ghost var bs := buckets[..];
      var s, e := if sa < windowStart then windowStart else sa, if windowEnd < ea then windowEnd else ea;
      SpreadsClamped(entries, sa, ea, windowStart, windowEnd);
      if windowStart > windowEnd || s > e {
        SpreadsOutside(entries, s, e);
        return;
      }
      CollectStep(bs, grid, windowStart, windowEnd, entries, s, s);
      var ab := s;
      while ab <= e
        invariant s <= ab <= e + 1
        invariant out == WindowConcat(bs, s, ab)
      {
        var b := buckets[ToLocal(ab, n)];
        CollectStep(bs, grid, windowStart, windowEnd, entries, s, ab);
        if b.absIndex == ab && b.entryCount > 0 {
          out := out + b.spreads;
        }
        ab := ab + 1;
      }
      WindowHoldsEntries(bs, windowStart, windowEnd, entries, s, e + 1);
    }

    /** spread_percentiles_exact: three successive partial selections. */
    method SpreadPercentilesExact(startTime: int, endTime: int) returns (p: Percentiles)
      requires Valid()
      ensures var xs := InRange(startTime, endTime);
              if xs == [] then p == Percentiles(None, None, None)
              else && ExactAt(p.p10, xs, RankOf(0.10, |xs|))
                   && ExactAt(p.p50, xs, RankOf(0.50, |xs|))
                   && ExactAt(p.p90, xs, RankOf(0.90, |xs|))
      ensures var xs := InRange(startTime, endTime);
              xs != [] ==> AnswersExactly(p.p10, xs, 0.10) && AnswersExactly(p.p50, xs, 0.50)
                           && AnswersExactly(p.p90, xs, 0.90)
    {
      ghost var xs := InRange(startTime, endTime);
      var spreads := CollectSpreads(ToAbsBucket(startTime), ToAbsBucket(endTime));
      assert |spreads| == |multiset(spreads)| == |multiset(xs)| == |xs|;
      if |spreads| == 0 {
        return Percentiles(None, None, None);
      }
      var a := new real[|spreads|](i requires 0 <= i < |spreads| => spreads[i]);
      assert a[..] == spreads;
      RanksOrdered(|spreads|);
      var i10, i50, i90 := RankOf(0.10, |spreads|) - 1, RankOf(0.50, |spreads|) - 1, RankOf(0.90, |spreads|) - 1;
      var p10 := SelectRank(a, 0, i10, xs);
      var p50 := SelectRank(a, i10, i50, xs);
      var p90 := SelectRank(a, i50, i90, xs);
      RankIsQuantile(xs, 0.10, p10);
      RankIsQuantile(xs, 0.50, p50);
      RankIsQuantile(xs, 0.90, p90);
      p := Percentiles(Some(p10), Some(p50), Some(p90));
    }
  }

  /** One nth_element step on a partly selected buffer: everything before lo is already no larger than what follows. */
  method SelectRank(a: array<real>, lo: nat, k: nat, ghost xs: seq<real>) returns (v: real)
    requires lo <= k < a.Length && multiset(a[..]) == multiset(xs)
    requires forall i, j | 0 <= i < lo <= j < a.Length :: a[i] <= a[j]
    modifies a
    ensures multiset(a[..]) == multiset(xs)
    ensures IsRank(xs, k + 1, v)
    ensures forall i, j | 0 <= i < k <= j < a.Length :: a[i] <= a[j]
  {
    ghost var was := a[..];
    NthElement(a, lo, k);
    v := a[k];
    forall i, j | 0 <= i < lo <= j < a.Length
      ensures a[i] <= a[j]
    {
      assert a[i] == a[..lo][i] == was[..lo][i];
      assert a[j] == a[lo..][j - lo];
      assert a[j] in multiset(a[lo..]);
      assert a[j] in was[lo..];
    }
    PartitionedRank(a[..], k);
    RankPermuted(a[..], xs, k + 1, v);
  }
}
