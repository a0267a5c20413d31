/** Spread statistics of the market data cache on plain sequences: counting, minimum and maximum, order
    statistics, and the histogram grid that the approximate percentiles are read from. */
module Histogram {
  import opened Prelude
  import opened SegmentTree

  // ---- Counting -------------------------------------------------------------------------------------

  function Count(xs: seq<real>, p: real -> bool): nat {
    if xs == [] then 0 else Count(xs[..|xs| - 1], p) + if p(xs[|xs| - 1]) then 1 else 0
  }

  function Less(v: real): real -> bool {
    (x: real) => x < v
  }

  function AtMost(v: real): real -> bool {
    (x: real) => x <= v
  }

  /** Where the elements that satisfy a condition stand. */
  ghost function PlacesWhere(xs: seq<real>, p: real -> bool): set<int> {
    set i | 0 <= i < |xs| && p(xs[i])
  }

  lemma LastPlaceWhere(xs: seq<real>, p: real -> bool)
    requires xs != []
    ensures var n, before := |xs| - 1, PlacesWhere(xs[..|xs| - 1], p);
            n !in before && PlacesWhere(xs, p) == before + if p(xs[n]) then {n} else {}
  {
  }

  lemma {:induction false} CountIsNumberOfPlaces(xs: seq<real>, p: real -> bool)
    ensures Count(xs, p) == |PlacesWhere(xs, p)|
  {
    if xs != [] {
      CountIsNumberOfPlaces(xs[..|xs| - 1], p);
      LastPlaceWhere(xs, p);
    }
  }

  lemma {:induction false} CountConcat(xs: seq<real>, ys: seq<real>, p: real -> bool)
    ensures Count(xs + ys, p) == Count(xs, p) + Count(ys, p)
  {
    if ys == [] {
      assert xs + ys == xs;
    } else {
      assert (xs + ys)[..|xs + ys| - 1] == xs + ys[..|ys| - 1];
      CountConcat(xs, ys[..|ys| - 1], p);
    }
  }

  /** Counts do not depend on the order of the elements. */
  lemma {:induction false} CountPermuted(xs: seq<real>, ys: seq<real>, p: real -> bool)
    requires multiset(xs) == multiset(ys)
    ensures Count(xs, p) == Count(ys, p)
  {
    if xs == [] {
      assert |multiset(ys)| == 0;
    } else {
      var n := |xs| - 1;
      assert xs[n] in multiset(xs);
      assert xs[n] in ys;
      var j :| 0 <= j < |ys| && ys[j] == xs[n];
      CountRemoved(ys, j, p);
      CountRemoved(xs, n, p);
      assert xs[..n] + xs[n + 1..] == xs[..n];
      CountPermuted(xs[..n], ys[..j] + ys[j + 1..], p);
    }
  }

  lemma CountRemoved(ys: seq<real>, j: nat, p: real -> bool)
    requires j < |ys|
    ensures multiset(ys[..j] + ys[j + 1..]) == multiset(ys) - multiset{ys[j]}
    ensures Count(ys, p) == Count(ys[..j] + ys[j + 1..], p) + if p(ys[j]) then 1 else 0
  {
    var front, one, back := ys[..j], [ys[j]], ys[j + 1..];
    OneOut(ys, j);
    CountOne(ys[j], p);
    hide Count;
    CountConcat(front, one + back, p);
    CountConcat(one, back, p);
    CountConcat(front, back, p);
  }

  lemma OneOut(ys: seq<real>, j: nat)
    requires j < |ys|
    ensures ys == ys[..j] + ([ys[j]] + ys[j + 1..])
    ensures multiset(ys[..j] + ys[j + 1..]) == multiset(ys) - multiset{ys[j]}
  {
  }

  lemma CountOne(y: real, p: real -> bool)
    ensures Count([y], p) == if p(y) then 1 else 0
  {
  }

  /** A weaker condition counts at least as many elements, a contradicted one none, a universal one all. */
  lemma {:induction false} CountMonotone(xs: seq<real>, p: real -> bool, q: real -> bool)
    requires forall x | x in xs :: p(x) ==> q(x)
    ensures Count(xs, p) <= Count(xs, q) <= |xs|
    ensures (forall x | x in xs :: q(x)) ==> Count(xs, q) == |xs|
    ensures (forall x | x in xs :: !q(x)) ==> Count(xs, q) == 0
  {
    if xs != [] {
      var init, last := xs[..|xs| - 1], xs[|xs| - 1];
      assert last in xs && forall x | x in init :: x in xs;
      CountMonotone(init, p, q);
      assert p(last) ==> q(last);
      assert xs == init + [last];
    }
  }

  // ---- Count, minimum and maximum -------------------------------------------------------------------

  function Single(x: real): SegNode {
    SegNode(1, Some(x), Some(x))
  }

  function Summary(xs: seq<real>): SegNode {
    if xs == [] then EMPTY_NODE else Combine(Summary(xs[..|xs| - 1]), Single(xs[|xs| - 1]))
  }

  ghost predicate IsLowest(m: Option<real>, xs: seq<real>) {
    (m.None? <==> xs == []) && (m.Some? ==> m.value in xs && forall x | x in xs :: m.value <= x)
  }

  ghost predicate IsHighest(m: Option<real>, xs: seq<real>) {
    (m.None? <==> xs == []) && (m.Some? ==> m.value in xs && forall x | x in xs :: x <= m.value)
  }

  lemma {:induction false} SummaryMeaning(xs: seq<real>)
    ensures Summary(xs).count == |xs|
    ensures IsLowest(Summary(xs).low, xs) && IsHighest(Summary(xs).high, xs)
  {
    if xs != [] {
      var init, last := xs[..|xs| - 1], xs[|xs| - 1];
      SummaryMeaning(init);
      assert xs == init + [last];
      assert forall x :: x in xs <==> x in init || x == last;
      OneMore(Summary(init), init, xs, last);
    }
  }

  /** Combining with one more element keeps the extremes. */
  lemma OneMore(s: SegNode, init: seq<real>, xs: seq<real>, last: real)
    requires IsLowest(s.low, init) && IsHighest(s.high, init) && (s.count == 0 <==> init == [])
    requires xs != [] && forall x :: x in xs <==> x in init || x == last
    ensures IsLowest(Combine(s, Single(last)).low, xs) && IsHighest(Combine(s, Single(last)).high, xs)
  {
  }

  lemma {:induction false} SummaryConcat(xs: seq<real>, ys: seq<real>)
    ensures Summary(xs + ys) == Combine(Summary(xs), Summary(ys))
  {
    if ys == [] {
      assert xs + ys == xs;
    } else {
      assert (xs + ys)[..|xs + ys| - 1] == xs + ys[..|ys| - 1];
      SummaryConcat(xs, ys[..|ys| - 1]);
    }
  }

  lemma SummaryPermuted(xs: seq<real>, ys: seq<real>)
    requires multiset(xs) == multiset(ys)
    ensures Summary(xs) == Summary(ys)
  {
    SummaryMeaning(xs);
    SummaryMeaning(ys);
    assert |xs| == |multiset(xs)| == |multiset(ys)| == |ys|;
    assert forall x :: x in xs <==> x in multiset(xs);
    assert forall x :: x in ys <==> x in multiset(ys);
  }

  // ---- Order statistics -----------------------------------------------------------------------------

  /** v is the k-th smallest element of xs, counting from 1 and counting repetitions. */
  ghost predicate IsRank(xs: seq<real>, k: nat, v: real) {
    v in xs && Count(xs, Less(v)) < k <= Count(xs, AtMost(v))
  }

  lemma RankPermuted(xs: seq<real>, ys: seq<real>, k: nat, v: real)
    requires multiset(xs) == multiset(ys) && IsRank(xs, k, v)
    ensures IsRank(ys, k, v)
  {
    CountPermuted(xs, ys, Less(v));
    CountPermuted(xs, ys, AtMost(v));
    assert v in multiset(xs);
  }

  /** An element with nothing larger before it and nothing smaller after it has its position as rank. */
  lemma PartitionedRank(xs: seq<real>, k: nat)
    requires k < |xs|
    requires forall i | 0 <= i < k :: xs[i] <= xs[k]
    requires forall j | k < j < |xs| :: xs[k] <= xs[j]
    ensures IsRank(xs, k + 1, xs[k])
  {
    hide Count;
    var v := xs[k];
    var less, more := xs[..k], xs[k..];
    var least, most := xs[..k + 1], xs[k + 1..];
    assert xs == less + more && xs == least + most;
    assert forall x | x in more :: !Less(v)(x);
    assert forall x | x in least :: AtMost(v)(x);
    CountConcat(less, more, Less(v));
    CountMonotone(less, Less(v), Less(v));
    CountMonotone(more, Less(v), Less(v));
    CountConcat(least, most, AtMost(v));
    CountMonotone(least, AtMost(v), AtMost(v));
  }

  method Swap(a: array<real>, i: nat, j: nat)
    requires i < a.Length && j < a.Length
    modifies a
    ensures a[..] == old(a[..])[i := old(a[j])][j := old(a[i])]
    ensures multiset(a[..]) == multiset(old(a[..]))
  {
    a[i], a[j] := a[j], a[i];
  }

  method IndexOfLeast(a: array<real>, i: nat) returns (least: nat)
    requires i < a.Length
    ensures i <= least < a.Length && forall y | i <= y < a.Length :: a[least] <= a[y]
  {
    least := i;
    for j := i + 1 to a.Length
      invariant i <= least < a.Length
      invariant forall y | i <= y < j :: a[least] <= a[y]
    {
      if a[j] < a[least] {
        least := j;
      }
    }
  }

  /** std::nth_element on positions lo.. of a: the element at k is the one a full sort would put there.
      Only this contract is used; the selection passes below are one way to meet it. */
  method NthElement(a: array<real>, lo: nat, k: nat)
    requires lo <= k < a.Length
    modifies a
    ensures multiset(a[..]) == multiset(old(a[..]))
    ensures a[..lo] == old(a[..lo])
    ensures multiset(a[lo..]) == multiset(old(a[lo..]))
    ensures forall i | lo <= i < k :: a[i] <= a[k]
    ensures forall j | k < j < a.Length :: a[k] <= a[j]
  {
    ghost var was := a[..];
    for i := lo to k + 1
      invariant multiset(a[..]) == multiset(was)
      invariant a[..lo] == was[..lo]
      invariant forall x | lo <= x < i :: forall y | x <= y < a.Length :: a[x] <= a[y]
    {
      var least := IndexOfLeast(a, i);
      Swap(a, i, least);
    }
    SameBack(a[..], was, lo);
  }

  lemma SameBack(xs: seq<real>, ys: seq<real>, lo: nat)
    requires multiset(xs) == multiset(ys) && lo <= |xs| && lo <= |ys| && xs[..lo] == ys[..lo]
    ensures multiset(xs[lo..]) == multiset(ys[lo..])
  {
    BackOnly(xs, lo);
    BackOnly(ys, lo);
  }

  lemma BackOnly(xs: seq<real>, lo: nat)
    requires lo <= |xs|
    ensures multiset(xs[lo..]) == multiset(xs) - multiset(xs[..lo])
  {
    assert xs == xs[..lo] + xs[lo..];
  }

  /** The 1-based rank std::max(1, ceil(p * n)). */
  function RankOf(p: real, n: nat): nat {
    var c := -((-(p * n as real)).Floor);
    if c < 1 then 1 else c
  }

  /** The rank is p * n rounded up. */
  lemma RankIsCeiling(p: real, n: nat)
    requires p > 0.0 && n > 0
    ensures RankOf(p, n) >= 1
    ensures (RankOf(p, n) - 1) as real < p * n as real <= RankOf(p, n) as real
  {
    var x := p * n as real;
    Positive(p, n as real);
    assert (-x).Floor as real <= -x < (-x).Floor as real + 1.0;
  }

  lemma Positive(x: real, y: real)
    requires x > 0.0 && y > 0.0
    ensures x * y > 0.0
  {
  }

  lemma RanksOrdered(n: nat)
    requires n > 0
    ensures 1 <= RankOf(0.10, n) <= RankOf(0.50, n) <= RankOf(0.90, n) <= n
    ensures (RankOf(0.10, n) - 1) as real < 0.10 * n as real <= RankOf(0.10, n) as real
    ensures (RankOf(0.50, n) - 1) as real < 0.50 * n as real <= RankOf(0.50, n) as real
    ensures (RankOf(0.90, n) - 1) as real < 0.90 * n as real <= RankOf(0.90, n) as real
  {
    RankIsCeiling(0.10, n);
    RankIsCeiling(0.50, n);
    RankIsCeiling(0.90, n);
  }

  /** v is an element such that fewer than the fraction p of all elements are below it, and at least that fraction is
      at or below it. */
  ghost predicate IsQuantile(xs: seq<real>, p: real, v: real) {
    v in xs && Count(xs, Less(v)) as real < p * |xs| as real <= Count(xs, AtMost(v)) as real
  }

  /** ... and the same for whole bins. */
  ghost predicate IsQuantileBin(xs: seq<real>, p: real, g: Grid, b: nat)
    requires g.Valid()
  {
    && b < g.bins
    && Count(xs, BinBelow(g, b)) as real < p * |xs| as real <= Count(xs, BinBelow(g, b + 1)) as real
  }

  lemma RankIsQuantile(xs: seq<real>, p: real, v: real)
    requires p > 0.0 && IsRank(xs, RankOf(p, |xs|), v)
    ensures IsQuantile(xs, p, v)
  {
    RankIsCeiling(p, |xs|);
  }

  /** The element of the rank is the only one there is. */
  lemma QuantileIsUnique(xs: seq<real>, p: real, v: real, w: real)
    requires IsQuantile(xs, p, v) && IsQuantile(xs, p, w)
    ensures v == w
  {
    if v < w {
      CountMonotone(xs, AtMost(v), Less(w));
    } else if w < v {
      CountMonotone(xs, AtMost(w), Less(v));
    }
  }

  // ---- The histogram grid ---------------------------------------------------------------------------

  datatype Grid = Grid(min: real, width: real, bins: nat) {
    ghost predicate Valid() {
      width > 0.0 && bins > 0
    }

    function Max(): real {
      min + bins as real * width
    }
  }

  /** static_cast<int>: truncation toward zero. */
  function Truncate(r: real): int {
    if r >= 0.0 then r.Floor else -((-r).Floor)
  }

  function Clamp(g: Grid, b: int): nat
    requires g.Valid()
  {
    if b < 0 then 0 else if b >= g.bins then g.bins - 1 else b
  }

  /** spread_to_bin: spreads outside the grid are clamped to its first or last bin. */
  function BinOf(g: Grid, x: real): nat
    requires g.Valid()
  {
    Clamp(g, Truncate((x - g.min) / g.width))
  }

  const INT_MAX := 0x7FFF_FFFF
  const INT_MIN := -0x8000_0000

  /** The truncated value is an int. */
  predicate FitsInt(r: real) {
    INT_MIN as real - 1.0 < r < INT_MAX as real + 1.0
  }

  /** What static_cast<int> may yield: the truncated value if it is an int, and else any int, the cast being
      undefined. */
  ghost predicate Casts(r: real, i: int) {
    INT_MIN <= i <= INT_MAX && (FitsInt(r) ==> i == Truncate(r))
  }

  /** The cast is sure to yield the bin of a spread if and only if the quotient fits an int. */
  lemma CastFindsBinIff(g: Grid, x: real)
    requires g.Valid() && 1 < g.bins <= INT_MAX
    ensures (forall i | Casts((x - g.min) / g.width, i) :: Clamp(g, i) == BinOf(g, x)) <==>
            FitsInt((x - g.min) / g.width)
  {
    var q := (x - g.min) / g.width;
    if !FitsInt(q) {
      assert Casts(q, 0) && Casts(q, INT_MAX);
      assert Clamp(g, 0) != Clamp(g, INT_MAX);
    }
  }

  /** In the program's default histogram a spread of three thousand million belongs to the last bin, and a cast that
      yields the least int puts it into the first. */
  lemma HugeSpreadMayGoFirst()
    ensures var g, x := Grid(-5.0, 1.0, 100), 3000000000.0;
            BinOf(g, x) == 99 && Casts((x - g.min) / g.width, INT_MIN) && Clamp(g, INT_MIN) == 0
  {
  }

  function BinMid(g: Grid, b: nat): real {
    g.min + (b as real + 0.5) * g.width
  }

  function InBin(g: Grid, b: nat): real -> bool
    requires g.Valid()
  {
    (x: real) => BinOf(g, x) == b
  }

  function BinBelow(g: Grid, b: nat): real -> bool
    requires g.Valid()
  {
    (x: real) => BinOf(g, x) < b
  }

  lemma BinMonotone(g: Grid, x: real, y: real)
    requires g.Valid() && x <= y
    ensures BinOf(g, x) <= BinOf(g, y)
  {
    var p, q := (x - g.min) / g.width, (y - g.min) / g.width;
    ScaleOrder(p, q, g.width);
    QuotientScaled(x - g.min, g.width);
    QuotientScaled(y - g.min, g.width);
  }

  lemma QuotientScaled(x: real, w: real)
    requires w > 0.0
    ensures (x / w) * w == x
  {
  }

  lemma ScaleOrder(p: real, q: real, w: real)
    requires w > 0.0
    ensures p * w <= q * w <==> p <= q
  {
    assert p * w - q * w == (p - q) * w;
    ProductSign(p - q, w);
  }

  /** Positions at most half a unit apart are at most half a width apart. */
  lemma ScaleClose(p: real, q: real, w: real)
    requires w > 0.0 && -0.5 <= p - q <= 0.5
    ensures q * w - w / 2.0 <= p * w <= q * w + w / 2.0
  {
    ScaleOrder(q - 0.5, p, w);
    ScaleOrder(p, q + 0.5, w);
    assert (q - 0.5) * w == q * w - w / 2.0;
    assert (q + 0.5) * w == q * w + w / 2.0;
  }

  /** Comparing a spread with a bin edge is comparing in units of the bin width. */
  lemma InUnits(g: Grid, x: real, q: real, edge: real)
    requires g.Valid() && q * g.width == x - g.min
    ensures edge <= q ==> g.min + edge * g.width <= x
    ensures q < edge ==> x < g.min + edge * g.width
  {
  }

  lemma TruncateBounds(r: real)
    ensures r >= 0.0 ==> 0 <= Truncate(r) && Truncate(r) as real <= r < Truncate(r) as real + 1.0
    ensures r < 0.0 ==> Truncate(r) <= 0
  {
  }

  lemma ProductSign(x: real, y: real)
    ensures y > 0.0 ==> (x * y > 0.0 <==> x > 0.0) && (x * y < 0.0 <==> x < 0.0)
  {
  }

  /** A bin holds the spreads of its own interval; the first and the last also hold everything beyond the grid. */
  lemma BinHoldsItsInterval(g: Grid, x: real)
    requires g.Valid()
    ensures var b := BinOf(g, x);
            && b < g.bins
            && (b > 0 ==> g.min + b as real * g.width <= x)
            && (b + 1 < g.bins ==> x < g.min + (b as real + 1.0) * g.width)
  {
    var q, b := (x - g.min) / g.width, BinOf(g, x);
    QuotientScaled(x - g.min, g.width);
    TruncateBounds(q);
    InUnits(g, x, q, b as real);
    InUnits(g, x, q, b as real + 1.0);
  }

  /** A spread inside the grid lies within half a bin of the midpoint of its bin. */
  lemma BinMidIsClose(g: Grid, x: real)
    requires g.Valid() && g.min <= x <= g.Max()
    ensures x - g.width / 2.0 <= BinMid(g, BinOf(g, x)) <= x + g.width / 2.0
  {
    var q := (x - g.min) / g.width;
    hide BinOf, BinMid;
    UnitsInside(g, x);
    BinInside(g, x, q);
    MidIsClose(g, x, q, BinOf(g, x));
  }

  lemma UnitsInside(g: Grid, x: real)
    requires g.Valid() && g.min <= x <= g.Max()
    ensures var q := (x - g.min) / g.width; 0.0 <= q <= g.bins as real && q * g.width == x - g.min
  {
    var q := (x - g.min) / g.width;
    QuotientScaled(x - g.min, g.width);
    ScaleOrder(0.0, q, g.width);
    ScaleOrder(q, g.bins as real, g.width);
  }

  lemma MidIsClose(g: Grid, x: real, q: real, b: nat)
    requires g.Valid() && q * g.width == x - g.min && b as real <= q <= b as real + 1.0
    ensures x - g.width / 2.0 <= BinMid(g, b) <= x + g.width / 2.0
  {
    var p := b as real + 0.5;
    ScaleClose(p, q, g.width);
    assert BinMid(g, b) == g.min + p * g.width;
  }

  /** In units of the bin width, a spread inside the grid lies between the edges of its bin. */
  lemma BinInside(g: Grid, x: real, q: real)
    requires g.Valid() && q == (x - g.min) / g.width && 0.0 <= q <= g.bins as real
    ensures BinOf(g, x) as real <= q <= BinOf(g, x) as real + 1.0
  {
    TruncateBounds(q);
  }

  /** Counts by bin add up bin by bin, and to the whole once every bin is counted. */
  lemma {:induction false} BinCountsAddUp(g: Grid, xs: seq<real>, b: nat)
    requires g.Valid()
    ensures Count(xs, BinBelow(g, b + 1)) == Count(xs, BinBelow(g, b)) + Count(xs, InBin(g, b))
    ensures Count(xs, BinBelow(g, 0)) == 0
    ensures Count(xs, BinBelow(g, g.bins)) == |xs|
  {
    if xs != [] {
      BinCountsAddUp(g, xs[..|xs| - 1], b);
    }
  }

  /** The first bin whose cumulative count reaches k is the bin of the k-th smallest spread. */
  lemma RankFixesBin(g: Grid, xs: seq<real>, k: nat, v: real, b: nat)
    requires g.Valid() && IsRank(xs, k, v)
    requires Count(xs, BinBelow(g, b)) < k <= Count(xs, BinBelow(g, b + 1))
    ensures b == BinOf(g, v)
  {
    var at := BinOf(g, v);
    forall x | x in xs
      ensures AtMost(v)(x) ==> BinBelow(g, at + 1)(x)
      ensures BinBelow(g, at)(x) ==> Less(v)(x)
    {
      if x <= v {
        BinMonotone(g, x, v);
      } else {
        BinMonotone(g, v, x);
      }
      if x == v {
        assert BinOf(g, x) == at;
      }
    }
    CountMonotone(xs, AtMost(v), BinBelow(g, at + 1));
    CountMonotone(xs, BinBelow(g, at), Less(v));
    if b < at {
      CountMonotone(xs, BinBelow(g, b + 1), BinBelow(g, at));
    } else if at < b {
      CountMonotone(xs, BinBelow(g, at + 1), BinBelow(g, b));
    }
  }
}
