/** Segment tree of the market data cache: each node keeps the entry count and the smallest and largest spread
    of the buckets below it. An absent spread stands for the infinities the C++ code stores in empty nodes. */
module SegmentTree {
  import opened Prelude

  datatype SegNode = SegNode(count: int, low: Option<real>, high: Option<real>)

  const EMPTY_NODE := SegNode(0, None, None)

  function MinOf(a: Option<real>, b: Option<real>): Option<real> {
    if a.None? then b else if b.None? then a else if b.value < a.value then b else a
  }

  function MaxOf(a: Option<real>, b: Option<real>): Option<real> {
    if a.None? then b else if b.None? then a else if a.value < b.value then b else a
  }

  function Combine(a: SegNode, b: SegNode): SegNode {
    SegNode(a.count + b.count, MinOf(a.low, b.low), MaxOf(a.high, b.high))
  }

  /** m is the lower (higher) of a and b, absent only when both are. */
  ghost predicate IsMin(m: Option<real>, a: Option<real>, b: Option<real>) {
    && (m == a || m == b)
    && (a.Some? ==> m.Some? && m.value <= a.value)
    && (b.Some? ==> m.Some? && m.value <= b.value)
  }

  ghost predicate IsMax(m: Option<real>, a: Option<real>, b: Option<real>) {
    && (m == a || m == b)
    && (a.Some? ==> m.Some? && a.value <= m.value)
    && (b.Some? ==> m.Some? && b.value <= m.value)
  }

  lemma CombineMeaning(p: SegNode, l: SegNode, r: SegNode)
    ensures p == Combine(l, r) <==>
            p.count == l.count + r.count && IsMin(p.low, l.low, r.low) && IsMax(p.high, l.high, r.high)
  {
  }

  /** Left-to-right combination of the leaves [a, b). */
  function Fold(leaves: seq<SegNode>, a: nat, b: nat): SegNode
    requires a <= b <= |leaves|
    decreases b - a
  {
    if a == b then EMPTY_NODE else Combine(Fold(leaves, a, b - 1), leaves[b - 1])
  }

  lemma {:induction false} FoldSplit(leaves: seq<SegNode>, a: nat, m: nat, b: nat)
    requires a <= m <= b <= |leaves|
    ensures Fold(leaves, a, b) == Combine(Fold(leaves, a, m), Fold(leaves, m, b))
    decreases b
  {
    if m < b {
      FoldSplit(leaves, a, m, b - 1);
    }
  }

  // ---- Node indices ---------------------------------------------------------------------------------

  /** x lies in the implicit binary tree rooted at node. */
  ghost predicate Below(x: nat, node: nat) {
    node > 0 && (x == node || (x > node && Below(x / 2, node)))
  }

  /** Node indices that a walk from (1, 0, n - 1) can visit with the range lo..hi. */
  ghost predicate Placed(node: nat, lo: nat, hi: nat, n: nat) {
    1 <= node < 4 * n && lo <= hi < n && (node + 1) * (hi - lo) <= 2 * (n - 1)
  }

  /** Both halves of a visited node are again within the 4n slots. */
  lemma ChildrenPlaced(node: nat, lo: nat, hi: nat, n: nat)
    requires Placed(node, lo, hi, n) && lo < hi
    ensures var mid := (lo + hi) / 2; Placed(2 * node, lo, mid, n) && Placed(2 * node + 1, mid + 1, hi, n)
  {
    var mid := (lo + hi) / 2;
    var d := hi - lo;
    assert node + 1 <= (node + 1) * d;
    ScaleHalf(node + 1, mid - lo, d);
    ScaleHalf(node + 1, hi - mid - 1, d);
    assert (2 * node + 1) * (mid - lo) <= (2 * node + 2) * (mid - lo);
  }

  lemma ScaleHalf(k: nat, half: nat, d: nat)
    requires 2 * half <= d
    ensures (2 * k) * half <= k * d
  {
  }

  /** Every node that the recursion over lo..hi can reach from `node` has a slot in an array of len nodes. */
  ghost predicate Fits(len: nat, node: nat, lo: nat, hi: nat)
    decreases hi - lo
  {
    && 0 < node < len
    && (lo < hi ==> Fits(len, 2 * node, lo, (lo + hi) / 2) && Fits(len, 2 * node + 1, (lo + hi) / 2 + 1, hi))
  }

  lemma {:induction false} PlacedFits(node: nat, lo: nat, hi: nat, n: nat)
    requires Placed(node, lo, hi, n)
    ensures Fits(4 * n, node, lo, hi)
    decreases hi - lo
  {
    if lo < hi {
      ChildrenPlaced(node, lo, hi, n);
      PlacedFits(2 * node, lo, (lo + hi) / 2, n);
      PlacedFits(2 * node + 1, (lo + hi) / 2 + 1, hi, n);
    }
  }

  /** Walks from the root over n buckets stay below node index 4n, for every n >= 1. */
  lemma RootFits(n: nat)
    requires n > 0
    ensures Fits(4 * n, 1, 0, n - 1)
  {
    PlacedFits(1, 0, n - 1, n);
  }

  lemma {:induction false} SiblingsDisjoint(x: nat, node: nat)
    requires node > 0
    ensures !(Below(x, 2 * node) && Below(x, 2 * node + 1))
    ensures Below(x, 2 * node) || Below(x, 2 * node + 1) ==> Below(x, node) && x != node
  {
    if x > 2 * node + 1 {
      SiblingsDisjoint(x / 2, node);
    }
  }

  // ---- The tree -------------------------------------------------------------------------------------

  /** Every node under (node, lo, hi) holds the combination of its children, every leaf its bucket. */
  ghost predicate TreeOk(tree: seq<SegNode>, leaves: seq<SegNode>, node: nat, lo: nat, hi: nat)
    requires lo <= hi < |leaves|
    decreases hi - lo
  {
    node < |tree| &&
    if lo == hi then
      tree[node] == leaves[lo]
    else
      var mid := (lo + hi) / 2;
      && TreeOk(tree, leaves, 2 * node, lo, mid)
      && TreeOk(tree, leaves, 2 * node + 1, mid + 1, hi)
      && tree[node].count == tree[2 * node].count + tree[2 * node + 1].count
      && IsMin(tree[node].low, tree[2 * node].low, tree[2 * node + 1].low)
      && IsMax(tree[node].high, tree[2 * node].high, tree[2 * node + 1].high)
  }

  /** A subtree's shape depends only on its own node slots and its own leaves. */
  lemma {:induction false} TreeOkFrame(tree: seq<SegNode>, tree': seq<SegNode>, leaves: seq<SegNode>,
          leaves': seq<SegNode>, node: nat, lo: nat, hi: nat)
    requires lo <= hi < |leaves| == |leaves'| && |tree| == |tree'| && node > 0
    requires TreeOk(tree, leaves, node, lo, hi)
    requires forall x | 0 <= x < |tree| && Below(x, node) :: tree'[x] == tree[x]
    requires forall i | lo <= i <= hi :: leaves'[i] == leaves[i]
    ensures TreeOk(tree', leaves', node, lo, hi)
    decreases hi - lo
  {
    if lo < hi {
      var mid := (lo + hi) / 2;
      assert 2 * node < |tree| && 2 * node + 1 < |tree|;
      forall x: nat | x < |tree| && (Below(x, 2 * node) || Below(x, 2 * node + 1))
        ensures tree'[x] == tree[x]
      {
        SiblingsDisjoint(x, node);
      }
      TreeOkFrame(tree, tree', leaves, leaves', 2 * node, lo, mid);
      TreeOkFrame(tree, tree', leaves, leaves', 2 * node + 1, mid + 1, hi);
      assert Below(2 * node, 2 * node) && Below(2 * node + 1, 2 * node + 1);
    }
  }

  lemma ChildrenOk(tree: seq<SegNode>, leaves: seq<SegNode>, node: nat, lo: nat, hi: nat)
    requires lo < hi < |leaves| && TreeOk(tree, leaves, node, lo, hi)
    ensures TreeOk(tree, leaves, 2 * node, lo, (lo + hi) / 2)
            && TreeOk(tree, leaves, 2 * node + 1, (lo + hi) / 2 + 1, hi)
    ensures 2 * node + 1 < |tree|
  {
  }

  /** Nothing outside the subtree of `node` was written. */
  ghost predicate SameOutside(tree: seq<SegNode>, tree': seq<SegNode>, node: nat) {
    |tree'| == |tree| && forall x: nat | x < |tree| && !Below(x, node) :: tree'[x] == tree[x]
  }

  /** Writes below a child, then to the node itself, stay inside the node's subtree. */
  lemma SameOutsideParent(tree: seq<SegNode>, tree': seq<SegNode>, tree'': seq<SegNode>, node: nat, child: nat)
    requires node > 0 && (child == 2 * node || child == 2 * node + 1) && SameOutside(tree, tree', child)
    requires |tree''| == |tree'| && forall x: nat | x < |tree'| && x != node :: tree''[x] == tree'[x]
    ensures SameOutside(tree, tree'', node)
  {
    forall x: nat | x < |tree| && !Below(x, node)
      ensures tree''[x] == tree[x]
    {
      SiblingsDisjoint(x, node);
    }
  }

  /** seg_update: bucket pos changed to leaves[pos]; repair the path from its leaf to this node. */
  method Update(tree: array<SegNode>, leaves: seq<SegNode>, ghost was: SegNode, node: nat, lo: nat, hi: nat, pos: nat)
    requires Fits(tree.Length, node, lo, hi) && lo <= pos <= hi < |leaves|
    requires TreeOk(tree[..], leaves[pos := was], node, lo, hi)
    modifies tree
    ensures TreeOk(tree[..], leaves, node, lo, hi)
    ensures SameOutside(old(tree[..]), tree[..], node)
    decreases hi - lo
  {
    hide TreeOk, Combine, Below, Fits, SameOutside;
    if lo == hi {
      WriteLeaf(tree, leaves, node, lo);
      return;
    }
    HalvesFit(tree.Length, node, lo, hi);
    var mid := (lo + hi) / 2;
    ghost var before := tree[..];
    ghost var stale := leaves[pos := was];
    ChildrenOk(before, stale, node, lo, hi);
    ghost var child := if pos <= mid then 2 * node else 2 * node + 1;
    if pos <= mid {
      Update(tree, leaves, was, 2 * node, lo, mid, pos);
      OtherChildKept(before, tree[..], stale, leaves, node, 2 * node, 2 * node + 1, mid + 1, hi);
    } else {
      Update(tree, leaves, was, 2 * node + 1, mid + 1, hi, pos);
      OtherChildKept(before, tree[..], stale, leaves, node, 2 * node + 1, 2 * node, lo, mid);
    }
    ghost var halfway := tree[..];
    RepairParent(tree, leaves, node, lo, hi);
    SameOutsideParent(before, halfway, tree[..], node, child);
  }

  lemma HalvesFit(length: nat, node: nat, lo: nat, hi: nat)
    requires Fits(length, node, lo, hi) && lo < hi
    ensures node > 0 && 2 * node + 1 < length
    ensures Fits(length, 2 * node, lo, (lo + hi) / 2) && Fits(length, 2 * node + 1, (lo + hi) / 2 + 1, hi)
  {
  }

  lemma OtherChildKept(tree: seq<SegNode>, tree': seq<SegNode>, leaves: seq<SegNode>, leaves': seq<SegNode>, node: nat,
          changed: nat, kept: nat, lo: nat, hi: nat)
    requires node > 0 && (changed, kept) in {(2 * node, 2 * node + 1), (2 * node + 1, 2 * node)}
    requires lo <= hi < |leaves| == |leaves'| && |tree| == |tree'|
    requires TreeOk(tree, leaves, kept, lo, hi)
    requires SameOutside(tree, tree', changed)
    requires forall i | lo <= i <= hi :: leaves'[i] == leaves[i]
    ensures TreeOk(tree', leaves', kept, lo, hi)
  {
    forall x: nat | x < |tree| && Below(x, kept)
      ensures tree'[x] == tree[x]
    {
      SiblingsDisjoint(x, node);
    }
    TreeOkFrame(tree, tree', leaves, leaves', kept, lo, hi);
  }

  lemma ParentWriteKeepsChildren(tree: seq<SegNode>, tree': seq<SegNode>, leaves: seq<SegNode>, node: nat, lo: nat,
          hi: nat)
    requires lo < hi < |leaves| && 0 < node < |tree| && |tree| == |tree'|
    requires TreeOk(tree, leaves, 2 * node, lo, (lo + hi) / 2)
             && TreeOk(tree, leaves, 2 * node + 1, (lo + hi) / 2 + 1, hi)
    requires tree' == tree[node := Combine(tree[2 * node], tree[2 * node + 1])]
    ensures TreeOk(tree', leaves, node, lo, hi)
  {
    var mid := (lo + hi) / 2;
    forall x: nat | x < |tree| && (Below(x, 2 * node) || Below(x, 2 * node + 1))
      ensures tree'[x] == tree[x]
    {
      SiblingsDisjoint(x, node);
    }
    CombineMeaning(tree'[node], tree[2 * node], tree[2 * node + 1]);
    TreeOkFrame(tree, tree', leaves, leaves, 2 * node, lo, mid);
    TreeOkFrame(tree, tree', leaves, leaves, 2 * node + 1, mid + 1, hi);
  }

  /** The write to the parent once its children are right. */
  method RepairParent(tree: array<SegNode>, ghost leaves: seq<SegNode>, node: nat, ghost lo: nat, ghost hi: nat)
    requires lo < hi < |leaves| && 0 < node && 2 * node + 1 < tree.Length
    requires TreeOk(tree[..], leaves, 2 * node, lo, (lo + hi) / 2)
        && TreeOk(tree[..], leaves, 2 * node + 1, (lo + hi) / 2 + 1, hi)
    modifies tree
    ensures TreeOk(tree[..], leaves, node, lo, hi)
    ensures forall x: nat | x < tree.Length && x != node :: tree[..][x] == old(tree[..])[x]
  {
    ghost var repaired := tree[..];
    tree[node] := Combine(tree[2 * node], tree[2 * node + 1]);
    ParentWriteKeepsChildren(repaired, tree[..], leaves, node, lo, hi);
  }

  /** The write to a leaf. */
  method WriteLeaf(tree: array<SegNode>, leaves: seq<SegNode>, node: nat, pos: nat)
    requires Fits(tree.Length, node, pos, pos) && pos < |leaves|
    modifies tree
    ensures TreeOk(tree[..], leaves, node, pos, pos) && SameOutside(old(tree[..]), tree[..], node)
  {
    tree[node] := leaves[pos];
  }

  /** seg_query: combine the maximal nodes inside ql..qr. */
  function Query(tree: seq<SegNode>, node: nat, lo: nat, hi: nat, ql: int, qr: int): SegNode
    requires lo <= hi && Fits(|tree|, node, lo, hi)
    decreases hi - lo
  {
    if qr < lo || hi < ql then EMPTY_NODE
    else if ql <= lo && hi <= qr then tree[node]
    else
      var mid := (lo + hi) / 2;
      Combine(Query(tree, 2 * node, lo, mid, ql, qr), Query(tree, 2 * node + 1, mid + 1, hi, ql, qr))
  }

  lemma {:induction false} NodeIsFold(tree: seq<SegNode>, leaves: seq<SegNode>, node: nat, lo: nat, hi: nat)
    requires lo <= hi < |leaves| && TreeOk(tree, leaves, node, lo, hi)
    ensures tree[node] == Fold(leaves, lo, hi + 1)
    decreases hi - lo
  {
    if lo == hi {
      assert Fold(leaves, lo, lo) == EMPTY_NODE;
    } else {
      var mid := (lo + hi) / 2;
      NodeIsFold(tree, leaves, 2 * node, lo, mid);
      NodeIsFold(tree, leaves, 2 * node + 1, mid + 1, hi);
      CombineMeaning(tree[node], tree[2 * node], tree[2 * node + 1]);
      FoldSplit(leaves, lo, mid + 1, hi + 1);
    }
  }

  /** The plain fold over the part of lo..hi that lies inside ql..qr. */
  function Clipped(leaves: seq<SegNode>, lo: nat, hi: nat, ql: nat, qr: nat): SegNode
    requires lo <= hi < |leaves|
  {
    var a, b := if ql < lo then lo else ql, if hi < qr then hi else qr;
    if a <= b then Fold(leaves, a, b + 1) else EMPTY_NODE
  }

  lemma CombineEmpty(x: SegNode)
    ensures Combine(x, EMPTY_NODE) == x && Combine(EMPTY_NODE, x) == x
  {
  }

  lemma ClippedSplit(leaves: seq<SegNode>, lo: nat, mid: nat, hi: nat, ql: nat, qr: nat)
    requires lo <= mid < hi < |leaves|
    ensures Clipped(leaves, lo, hi, ql, qr) ==
            Combine(Clipped(leaves, lo, mid, ql, qr), Clipped(leaves, mid + 1, hi, ql, qr))
  {
    hide Fold, Combine;
    var a, b := if ql < lo then lo else ql, if hi < qr then hi else qr;
    if a <= mid < b {
      FoldSplit(leaves, a, mid + 1, b + 1);
    } else if a <= b {
      CombineEmpty(Fold(leaves, a, b + 1));
    } else {
      CombineEmpty(EMPTY_NODE);
    }
  }

  /** A query on a well-formed tree is the plain fold over the queried part. */
  lemma {:induction false} QueryIsFold(tree: seq<SegNode>, leaves: seq<SegNode>, node: nat, lo: nat, hi: nat, ql: nat,
          qr: nat)
    requires Fits(|tree|, node, lo, hi) && lo <= hi < |leaves|
    requires TreeOk(tree, leaves, node, lo, hi)
    requires ql <= qr
    ensures Query(tree, node, lo, hi, ql, qr) == Clipped(leaves, lo, hi, ql, qr)
    decreases hi - lo
  {
    hide Fold, Combine;
    if qr < lo || hi < ql {
    } else if ql <= lo && hi <= qr {
      NodeIsFold(tree, leaves, node, lo, hi);
    } else {
      var mid := (lo + hi) / 2;
      QueryIsFold(tree, leaves, 2 * node, lo, mid, ql, qr);
      QueryIsFold(tree, leaves, 2 * node + 1, mid + 1, hi, ql, qr);
      ClippedSplit(leaves, lo, mid, hi, ql, qr);
    }
  }
}
