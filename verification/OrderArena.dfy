/** Order cells of the limit order book as addressable memory: intrusive doubly linked level queues and the
    allocator's free list, both threaded through the same cells. Address 0 is the null pointer. */
module OrderArena {
  import opened Matching

  type Ptr = nat

  datatype Order = Order(side: Side, id: nat, price: int, qty: nat, prev: Ptr, next: Ptr)

  type Cells = map<Ptr, Order>

  datatype Level = Level(head: Ptr, tail: Ptr, total: int)

  datatype Key = Key(side: Side, price: int)

  function KeyOf(o: Order): Key {
    Key(o.side, o.price)
  }

  /** Side, id, price and quantity, without the links. */
  function Data(o: Order): (Side, nat, int, nat) {
    (o.side, o.id, o.price, o.qty)
  }

  /** No address occurs twice. Stated through Differ so that the pairs are looked at only where they matter. */
  ghost predicate NoDuplicates(q: seq<Ptr>) {
    forall i: nat, j: nat | i < j < |q| :: Differ(q, i, j)
  }

  ghost predicate Differ(q: seq<Ptr>, i: nat, j: nat)
    requires i < |q| && j < |q|
  {
    q[i] != q[j]
  }

  lemma AllDiffer(q: seq<Ptr>)
    requires NoDuplicates(q)
    ensures forall i, j | 0 <= i < j < |q| :: q[i] != q[j]
  {
    forall i, j | 0 <= i < j < |q|
      ensures q[i] != q[j]
    {
      assert Differ(q, i, j);
    }
  }

  ghost predicate KeptOn(cells: Cells, cells': Cells, live: set<Ptr>) {
    forall x | x in live :: x in cells && x in cells' && cells'[x] == cells[x]
  }

  ghost predicate DataKeptOn(cells: Cells, cells': Cells, live: set<Ptr>) {
    forall x | x in live :: x in cells && x in cells' && Data(cells'[x]) == Data(cells[x])
  }

  // ---- Level queues ---------------------------------------------------------------------------------

  /** Node i of a queue kept oldest first: next points to the older neighbour, prev to the younger one. */
  ghost predicate LinkOk(cells: Cells, q: seq<Ptr>, i: nat)
    requires i < |q|
  {
    && q[i] != 0 && q[i] in cells
    && cells[q[i]].next == (if i == 0 then 0 else q[i - 1])
    && cells[q[i]].prev == (if i + 1 == |q| then 0 else q[i + 1])
  }

  ghost predicate Linked(cells: Cells, q: seq<Ptr>) {
    NoDuplicates(q) && forall i: nat | i < |q| :: LinkOk(cells, q, i)
  }

  function ItemAt(cells: Cells, p: Ptr): Item {
    if p in cells then Item(cells[p].id, cells[p].qty) else Item(0, 0)
  }

  function Items(cells: Cells, q: seq<Ptr>): seq<Item> {
    seq(|q|, i requires 0 <= i < |q| => ItemAt(cells, q[i]))
  }

  ghost predicate OrderOk(o: Order, k: Key) {
    KeyOf(o) == k && o.qty > 0
  }

  /** A level's head is its youngest order, its tail the oldest, and its total the sum of positive quantities. */
  ghost predicate LevelOk(cells: Cells, l: Level, q: seq<Ptr>, k: Key) {
    && Linked(cells, q)
    && l.tail == (if q == [] then 0 else q[0])
    && l.head == (if q == [] then 0 else q[|q| - 1])
    && (forall p | p in q :: p in cells && OrderOk(cells[p], k))
    && l.total == Total(Items(cells, q))
  }

  lemma {:induction false} TotalConcat(a: seq<Item>, b: seq<Item>)
    ensures Total(a + b) == Total(a) + Total(b)
  {
    if a == [] {
      assert a + b == b;
    } else {
      assert (a + b)[1..] == a[1..] + b;
      TotalConcat(a[1..], b);
    }
  }

  lemma TotalAfterRemoval(q: seq<Item>, i: nat)
    requires i < |q|
    ensures Total(q) == q[i].qty + Total(q[..i] + q[i + 1..])
  {
    hide Total;
    assert q == q[..i] + ([q[i]] + q[i + 1..]);
    TotalConcat(q[..i], [q[i]] + q[i + 1..]);
    TotalConcat(q[..i], q[i + 1..]);
    TotalOfFirst(q[i], q[i + 1..]);
  }

  lemma TotalOfFirst(item: Item, rest: seq<Item>)
    ensures Total([item] + rest) == item.qty + Total(rest)
  {
    assert ([item] + rest)[1..] == rest;
  }

  /** A level whose own cells are untouched stays as it is. */
  lemma LevelFrame(cells: Cells, cells': Cells, l: Level, q: seq<Ptr>, k: Key)
    requires LevelOk(cells, l, q, k)
    requires forall p | p in q :: p in cells' && cells'[p] == cells[p]
    ensures LevelOk(cells', l, q, k) && Items(cells', q) == Items(cells, q)
  {
    forall i: nat | i < |q|
      ensures LinkOk(cells', q, i)
    {
      assert LinkOk(cells, q, i);
    }
    assert Items(cells', q) == Items(cells, q);
  }

  /** Level::AddOrder: the new cell becomes the head. */
  function Pushed(cells: Cells, l: Level, p: Ptr, o: Order): Cells
    requires l.head == 0 || l.head in cells
  {
    var node := o.(prev := 0, next := l.head);
    if l.head == 0 then cells[p := node]
    else cells[p := node][l.head := cells[l.head].(prev := p)]
  }

  function PushedLevel(l: Level, p: Ptr, qty: nat): Level {
    Level(p, if l.head == 0 then p else l.tail, l.total + qty)
  }

  lemma PushKeepsLevel(cells: Cells, l: Level, q: seq<Ptr>, k: Key, p: Ptr, o: Order)
    requires LevelOk(cells, l, q, k) && p != 0 && p !in q && OrderOk(o, k)
    ensures l.head == 0 || l.head in cells
    ensures LevelOk(Pushed(cells, l, p, o), PushedLevel(l, p, o.qty), q + [p], k)
    ensures Items(Pushed(cells, l, p, o), q + [p]) == Items(cells, q) + [Item(o.id, o.qty)]
  {
    if q != [] {
      assert LinkOk(cells, q, |q| - 1);
    }
    AllDiffer(q);
    var cells', q' := Pushed(cells, l, p, o), q + [p];
    forall i: nat | i < |q'|
      ensures LinkOk(cells', q', i)
    {
      if i < |q| {
        assert LinkOk(cells, q, i);
      }
    }
    assert Items(cells', q') == Items(cells, q) + [Item(o.id, o.qty)];
    TotalConcat(Items(cells, q), [Item(o.id, o.qty)]);
  }

  /** Both links of a cell are null or lead to cells. */
  ghost predicate LinksKnown(cells: Cells, p: Ptr) {
    p in cells && (cells[p].prev == 0 || cells[p].prev in cells) && (cells[p].next == 0 || cells[p].next in cells)
  }

  /** Level::RemoveOrder: bridge the neighbours and move the ends. */
  function Unlinked(cells: Cells, p: Ptr): Cells
    requires p in cells
    requires cells[p].prev == 0 || cells[p].prev in cells
    requires cells[p].next == 0 || cells[p].next in cells
  {
    var o := cells[p];
    var c := if o.prev != 0 then cells[o.prev := cells[o.prev].(next := o.next)] else cells;
    if o.next != 0 then c[o.next := c[o.next].(prev := o.prev)] else c
  }

  function UnlinkedLevel(cells: Cells, l: Level, p: Ptr): Level
    requires p in cells
  {
    Level(if p == l.head then cells[p].next else l.head,
          if p == l.tail then cells[p].prev else l.tail,
          l.total - cells[p].qty)
  }

  function Without<T>(q: seq<T>, i: nat): seq<T>
    requires i < |q|
  {
    q[..i] + q[i + 1..]
  }

  /** The neighbours of a queued cell are the adjacent queue members. */
  lemma NeighboursInQueue(cells: Cells, q: seq<Ptr>, i: nat)
    requires Linked(cells, q) && i < |q|
    ensures q[i] != 0 && q[i] in cells
    ensures cells[q[i]].next == if i == 0 then 0 else q[i - 1]
    ensures cells[q[i]].prev == if i + 1 == |q| then 0 else q[i + 1]
    ensures i > 0 ==> q[i - 1] in cells && q[i - 1] != 0
    ensures i + 1 < |q| ==> q[i + 1] in cells && q[i + 1] != 0
  {
    assert LinkOk(cells, q, i);
    assert i > 0 ==> LinkOk(cells, q, i - 1);
    assert i + 1 < |q| ==> LinkOk(cells, q, i + 1);
  }

  /** Unlinking writes only the neighbours, and only their links. */
  lemma UnlinkWrites(cells: Cells, q: seq<Ptr>, i: nat)
    requires Linked(cells, q) && i < |q|
    ensures LinksKnown(cells, q[i])
    ensures var c := Unlinked(cells, q[i]);
            && c.Keys == cells.Keys
            && (forall x | x in cells :: Data(c[x]) == Data(cells[x]))
            && (forall x | x in cells && x !in q :: c[x] == cells[x])
            && c[q[i]] == cells[q[i]]
  {
    NeighboursInQueue(cells, q, i);
    AllDiffer(q);
  }

  lemma UnlinkKeepsLinks(cells: Cells, q: seq<Ptr>, i: nat)
    requires Linked(cells, q) && i < |q|
    requires LinksKnown(cells, q[i])
    ensures Linked(Unlinked(cells, q[i]), Without(q, i))
  {
    NeighboursInQueue(cells, q, i);
    AllDiffer(q);
    var q', cells' := Without(q, i), Unlinked(cells, q[i]);
    forall j: nat | j < |q'|
      ensures LinkOk(cells', q', j)
    {
      assert LinkOk(cells, q, if j < i then j else j + 1);
    }
  }

  lemma UnlinkKeepsLevel(cells: Cells, l: Level, q: seq<Ptr>, k: Key, i: nat)
    requires LevelOk(cells, l, q, k) && i < |q|
    requires LinksKnown(cells, q[i])
    ensures LevelOk(Unlinked(cells, q[i]), UnlinkedLevel(cells, l, q[i]), Without(q, i), k)
    ensures Items(Unlinked(cells, q[i]), Without(q, i)) == Without(Items(cells, q), i)
  {
    var q', cells' := Without(q, i), Unlinked(cells, q[i]);
    UnlinkKeepsLinks(cells, q, i);
    UnlinkWrites(cells, q, i);
    NeighboursInQueue(cells, q, i);
    AllDiffer(q);
    TotalAfterRemoval(Items(cells, q), i);
    forall p | p in q'
      ensures p in q
    {
    }
    SameItems(cells, cells', q, i);
  }

  lemma SameItems(cells: Cells, cells': Cells, q: seq<Ptr>, i: nat)
    requires i < |q| && cells'.Keys == cells.Keys && forall x | x in cells :: Data(cells'[x]) == Data(cells[x])
    ensures Items(cells', Without(q, i)) == Without(Items(cells, q), i)
  {
  }

  lemma TotalUpdate(q: seq<Item>, i: nat, item: Item)
    requires i < |q|
    ensures Total(q[i := item]) == Total(q) - q[i].qty + item.qty
  {
    TotalAfterRemoval(q, i);
    TotalAfterRemoval(q[i := item], i);
    assert q[i := item][..i] + q[i := item][i + 1..] == q[..i] + q[i + 1..];
  }

  /** Lowering one order's quantity in place, and its level's total by as much. */
  function Resized(cells: Cells, p: Ptr, qty: nat): Cells
    requires p in cells
  {
    cells[p := cells[p].(qty := qty)]
  }

  function ResizedLevel(cells: Cells, l: Level, p: Ptr, qty: nat): Level
    requires p in cells
  {
    l.(total := l.total - (cells[p].qty - qty))
  }

  lemma ResizeKeepsLevel(cells: Cells, l: Level, q: seq<Ptr>, k: Key, i: nat, qty: nat)
    requires LevelOk(cells, l, q, k) && i < |q| && qty > 0 && q[i] in cells
    ensures LevelOk(Resized(cells, q[i], qty), ResizedLevel(cells, l, q[i], qty), q, k)
    ensures Items(Resized(cells, q[i], qty), q) == Items(cells, q)[i := Item(cells[q[i]].id, qty)]
  {
    var cells' := Resized(cells, q[i], qty);
    AllDiffer(q);
    forall j: nat | j < |q|
      ensures LinkOk(cells', q, j)
    {
      assert LinkOk(cells, q, j);
    }
    var items, item := Items(cells, q), Item(cells[q[i]].id, qty);
    assert Items(cells', q) == items[i := item];
    TotalUpdate(items, i, item);
  }

  // ---- The free list --------------------------------------------------------------------------------

  ghost predicate FreeOk(cells: Cells, free: seq<Ptr>, head: Ptr) {
    && NoDuplicates(free)
    && head == (if free == [] then 0 else free[0])
    && forall i: nat | i < |free| :: FreeLinkOk(cells, free, i)
  }

  ghost predicate FreeLinkOk(cells: Cells, free: seq<Ptr>, i: nat)
    requires i < |free|
  {
    && free[i] != 0 && free[i] in cells
    && cells[free[i]].next == (if i + 1 == |free| then 0 else free[i + 1])
  }

  /** Cells that are carved out but not on the free list. */
  ghost function InUse(cells: Cells, free: seq<Ptr>): set<Ptr> {
    set p | p in cells && p !in free
  }

  /** Writing cells in use leaves the free list alone. */
  lemma FreeFrame(cells: Cells, cells': Cells, free: seq<Ptr>, head: Ptr)
    requires FreeOk(cells, free, head) && cells'.Keys == cells.Keys
    requires forall p | p in cells && p !in InUse(cells, free) :: cells'[p] == cells[p]
    ensures FreeOk(cells', free, head) && InUse(cells', free) == InUse(cells, free)
  {
    forall i: nat | i < |free|
      ensures FreeLinkOk(cells', free, i)
    {
      assert FreeLinkOk(cells, free, i) && free[i] in free;
    }
  }

  lemma FreeTail(cells: Cells, free: seq<Ptr>, head: Ptr)
    requires FreeOk(cells, free, head) && free != []
    ensures head in cells && head !in free[1..] && FreeOk(cells, free[1..], cells[head].next)
  {
    assert FreeLinkOk(cells, free, 0);
    AllDiffer(free);
    forall i: nat | i < |free[1..]|
      ensures FreeLinkOk(cells, free[1..], i)
    {
      assert FreeLinkOk(cells, free, i + 1);
    }
    if |free| > 1 {
      assert FreeLinkOk(cells, free, 1);
    }
  }

  lemma FreePush(cells: Cells, free: seq<Ptr>, head: Ptr, p: Ptr)
    requires FreeOk(cells, free, head) && p in cells && p != 0 && p !in free
    ensures FreeOk(cells[p := cells[p].(next := head)], [p] + free, p)
  {
    AllDiffer(free);
    var cells', free' := cells[p := cells[p].(next := head)], [p] + free;
    forall i: nat | i < |free'|
      ensures FreeLinkOk(cells', free', i)
    {
      if i > 0 {
        assert FreeLinkOk(cells, free, i - 1);
      }
    }
  }
}
