/** Binary indexed trees of the market data cache: the low-bit step, the sums a node stands for, and the
    prefix and range queries. Positions are 0-based buckets, nodes are 1-based as in the C++ code. */
module Fenwick {

  /** Two's-complement bitwise AND, taken bit by bit; `/` rounds down here because the divisor is positive. */
  function BitAnd(p: nat, q: int): nat
    decreases p
  {
    if p == 0 then 0 else (p % 2) * (q % 2) + 2 * BitAnd(p / 2, q / 2)
  }

  /** The C++ expression `p & (-p)`. */
  function LowBit(p: nat): nat {
    BitAnd(p, 0 - p)
  }

  /** Sum of h over the half-open index range [a, b). */
  function Sum(h: seq<int>, a: nat, b: nat): int
    requires a <= b <= |h|
    decreases b - a
  {
    if a == b then 0 else Sum(h, a, b - 1) + h[b - 1]
  }

  /** Node q (1-based) of a tree covers position x (1-based). */
  predicate Covers(q: nat, x: nat) {
    q - LowBit(q) < x <= q
  }

  // ---- Low-bit arithmetic ---------------------------------------------------------------------------

  lemma {:induction false} AndWithComplementIsZero(k: nat)
    ensures BitAnd(k, 0 - k - 1) == 0
  {
    if k > 0 {
      assert (0 - k - 1) / 2 == 0 - k / 2 - 1;
      assert (k % 2) * ((0 - k - 1) % 2) == 0;
      AndWithComplementIsZero(k / 2);
    }
  }

  /** `p & -p` is 1 on odd numbers and doubles when its argument does. */
  lemma LowBitUnfold(p: nat)
    requires p > 0
    ensures LowBit(p) == if p % 2 == 1 then 1 else 2 * LowBit(p / 2)
  {
    if p % 2 == 1 {
      assert (0 - p) / 2 == 0 - p / 2 - 1;
      assert (0 - p) % 2 == 1;
      AndWithComplementIsZero(p / 2);
    } else {
      assert (0 - p) / 2 == 0 - p / 2;
      assert (0 - p) % 2 == 0;
    }
  }

  lemma {:induction false} LowBitBounds(p: nat)
    requires p > 0
    ensures 1 <= LowBit(p) <= p
  {
    LowBitUnfold(p);
    if p % 2 == 0 {
      LowBitBounds(p / 2);
    }
  }

  /** Between p and p + LowBit(p) every node's interval starts at or after p. */
  lemma {:induction false} LowBitInGap(p: nat, r: nat)
    requires 0 < p && 0 < r < LowBit(p)
    ensures LowBit(p + r) <= r
  {
    LowBitUnfold(p);
    LowBitUnfold(p + r);
    if r % 2 == 0 {
      assert (p + r) / 2 == p / 2 + r / 2;
      LowBitInGap(p / 2, r / 2);
    }
  }

  lemma {:induction false} LowBitDoubles(p: nat)
    requires p > 0
    ensures LowBit(p + LowBit(p)) >= 2 * LowBit(p)
  {
    LowBitUnfold(p);
    LowBitBounds(p);
    LowBitUnfold(p + LowBit(p));
    if p % 2 == 0 {
      assert (p + LowBit(p)) / 2 == p / 2 + LowBit(p / 2);
      LowBitDoubles(p / 2);
    } else {
      LowBitBounds((p + 1) / 2);
    }
  }

  /** The update walk p, p + lowbit(p), ... visits exactly the nodes covering x: after a covering node p, the
      next covering node is p + LowBit(p) and none lies strictly between. */
  lemma NextCoveringNode(p: nat, x: nat)
    requires x > 0 && Covers(p, x)
    ensures LowBit(p) > 0
    ensures Covers(p + LowBit(p), x)
    ensures forall q | p < q < p + LowBit(p) :: !Covers(q, x)
  {
    LowBitBounds(p);
    LowBitDoubles(p);
    forall q | p < q < p + LowBit(p)
      ensures !Covers(q, x)
    {
      LowBitInGap(p, q - p);
    }
  }

  /** The first node covering x is x itself. */
  lemma FirstCoveringNode(x: nat)
    requires x > 0
    ensures Covers(x, x)
    ensures forall q | 0 < q < x :: !Covers(q, x)
  {
    LowBitBounds(x);
  }

  // ---- Sums -----------------------------------------------------------------------------------------

  lemma {:induction false} SumSplit(h: seq<int>, a: nat, m: nat, b: nat)
    requires a <= m <= b <= |h|
    ensures Sum(h, a, b) == Sum(h, a, m) + Sum(h, m, b)
    decreases b
  {
    if m < b {
      SumSplit(h, a, m, b - 1);
    }
  }

  /** Adding delta at position x changes exactly the sums over ranges that contain x. */
  lemma {:induction false} SumUpdate(h: seq<int>, x: nat, delta: int, a: nat, b: nat)
    requires a <= b <= |h| && x < |h|
    ensures Sum(h[x := h[x] + delta], a, b) == Sum(h, a, b) + if a <= x < b then delta else 0
    decreases b
  {
    if a < b {
      SumUpdate(h, x, delta, a, b - 1);
    }
  }

  lemma {:induction false} SumOfZeros(h: seq<int>, a: nat, b: nat)
    requires a <= b <= |h| && forall i | a <= i < b :: h[i] == 0
    ensures Sum(h, a, b) == 0
    decreases b
  {
    if a < b {
      SumOfZeros(h, a, b - 1);
    }
  }

  // ---- The tree array -------------------------------------------------------------------------------

  /** Row stride of one bin's tree inside the shared array. */
  function Index(n: nat, bin: nat, p: nat): nat {
    bin * (n + 1) + p
  }

  /** Tree `bin` in t represents h: node p holds the sum over (p - lowbit(p), p]. */
  ghost predicate Represents(t: seq<int>, n: nat, bin: nat, h: seq<int>)
    requires |h| == n
  {
    Index(n, bin, n) < |t| &&
    forall p | 1 <= p <= n :: NodeOk(t, n, bin, h, p)
  }

  ghost predicate NodeOk(t: seq<int>, n: nat, bin: nat, h: seq<int>, p: nat)
    requires |h| == n && 1 <= p <= n && Index(n, bin, n) < |t|
  {
    LowBit(p) <= p && t[Index(n, bin, p)] == Sum(h, p - LowBit(p), p)
  }

  /** Part way through an update: nodes below p already sum h', the others still sum h. */
  ghost predicate Passed(t: seq<int>, n: nat, bin: nat, h: seq<int>, h': seq<int>, p: nat)
    requires |h| == |h'| == n
  {
    Index(n, bin, n) < |t| &&
    forall q | 1 <= q <= n :: MixedNodeOk(t, n, bin, h, h', p, q)
  }

  ghost predicate MixedNodeOk(t: seq<int>, n: nat, bin: nat, h: seq<int>, h': seq<int>, p: nat, q: nat)
    requires |h| == |h'| == n && 1 <= q <= n && Index(n, bin, n) < |t|
  {
    NodeOk(t, n, bin, if q < p then h' else h, q)
  }

  /** Bumping node p by delta moves the update's frontier to p + LowBit(p). */
  lemma PassNode(t: seq<int>, t': seq<int>, n: nat, bin: nat, h: seq<int>, pos: nat, delta: int, p: nat)
    requires |h| == n && pos < p <= n && Covers(p, pos + 1)
    requires Passed(t, n, bin, h, h[pos := h[pos] + delta], p)
    requires t' == t[Index(n, bin, p) := t[Index(n, bin, p)] + delta]
    ensures Passed(t', n, bin, h, h[pos := h[pos] + delta], p + LowBit(p))
  {
    var h' := h[pos := h[pos] + delta];
    var next := p + LowBit(p);
    NextCoveringNode(p, pos + 1);
    forall q | 1 <= q <= n
      ensures MixedNodeOk(t', n, bin, h, h', next, q)
    {
      assert MixedNodeOk(t, n, bin, h, h', p, q);
      assert p < q < next ==> !Covers(q, pos + 1);
      SumUpdate(h, pos, delta, q - LowBit(q), q);
    }
  }

  /** fw_update: add delta at one position of one bin, leaving every other tree alone. */
  method Update(t: array<int>, n: nat, bin: nat, pos: nat, delta: int, ghost h: seq<int>)
    requires |h| == n && pos < n
    requires Represents(t[..], n, bin, h)
    modifies t
    ensures Represents(t[..], n, bin, h[pos := h[pos] + delta])
    ensures forall i | 0 <= i < t.Length && !(Index(n, bin, 1) <= i <= Index(n, bin, n)) :: t[i] == old(t[i])
  {
    ghost var h' := h[pos := h[pos] + delta];
    var p := pos + 1;
    FirstCoveringNode(p);
    forall q | 1 <= q < p
      ensures NodeOk(t[..], n, bin, h', q)
    {
      assert NodeOk(t[..], n, bin, h, q);
      assert !Covers(q, p);
      SumUpdate(h, pos, delta, q - LowBit(q), q);
    }
    assert Passed(t[..], n, bin, h, h', p) by {
      forall q | 1 <= q <= n
        ensures MixedNodeOk(t[..], n, bin, h, h', p, q)
      {
        assert NodeOk(t[..], n, bin, h, q);
      }
    }
    while p <= n
      invariant pos < p && Covers(p, pos + 1)
      invariant Passed(t[..], n, bin, h, h', p)
      invariant forall i | 0 <= i < t.Length && !(Index(n, bin, 1) <= i <= Index(n, bin, n)) :: t[i] == old(t[i])
      decreases n + 1 - p
    {
      NextCoveringNode(p, pos + 1);
      ghost var before := t[..];
      var at := Index(n, bin, p);
      t[at] := t[at] + delta;
      PassNode(before, t[..], n, bin, h, pos, delta, p);
      p := p + LowBit(p);
    }
    forall q | 1 <= q <= n
      ensures NodeOk(t[..], n, bin, h', q)
    {
      assert MixedNodeOk(t[..], n, bin, h, h', p, q);
    }
  }

  /** fw_prefix: the sum over positions 0..pos, by stripping low bits. */
  method Prefix(t: array<int>, n: nat, bin: nat, pos: nat, ghost h: seq<int>) returns (sum: int)
    requires |h| == n && pos < n
    requires Represents(t[..], n, bin, h)
    ensures sum == Sum(h, 0, pos + 1)
  {
    sum := 0;
    var p := pos + 1;
    while p > 0
      invariant 0 <= p <= pos + 1
      invariant sum + Sum(h, 0, p) == Sum(h, 0, pos + 1)
    {
      LowBitBounds(p);
      assert NodeOk(t[..], n, bin, h, p);
      SumSplit(h, 0, p - LowBit(p), p);
      sum := sum + t[Index(n, bin, p)];
      p := p - LowBit(p);
    }
  }

  /** fw_range: the sum over positions l..r, zero when the range is empty. */
  method Range(t: array<int>, n: nat, bin: nat, l: nat, r: int, ghost h: seq<int>) returns (sum: int)
    requires |h| == n && r < n
    requires Represents(t[..], n, bin, h)
    ensures sum == if l > r then 0 else Sum(h, l, r + 1)
  {
    if l > r {
      return 0;
    }
    var upTo := Prefix(t, n, bin, r, h);
    var before := 0;
    if l > 0 {
      before := Prefix(t, n, bin, l - 1, h);
    }
    SumSplit(h, 0, l, r + 1);
    sum := upTo - before;
  }
}
