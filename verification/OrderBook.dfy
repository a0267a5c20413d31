/** The limit order book: order cells handed out by a free-list allocator, price levels as intrusive queues, and an
    id-to-cell map. Matching, adding, cancelling and modifying are proved against the one-order-at-a-time matcher. */
module OrderBook {
  import opened Prelude
  import opened Matching
  import opened OrderArena

  type Nodes = map<Key, seq<Ptr>>

  type Levels = map<Key, Level>

  const MAX_CHUNK := 0x10_0000

  // ---- The allocator --------------------------------------------------------------------------------

  /** Free-list allocator: carves chunks of cells and threads the unused ones through their next links. */
  class Allocator {
    var cells: Cells
    var freeHead: Ptr
    var chunkSize: nat
    var nextAddress: Ptr
    ghost var free: seq<Ptr>

    ghost predicate Valid()
      reads this
    {
      && FreeOk(cells, free, freeHead)
      && chunkSize > 0 && nextAddress > 0
      && forall p | p in cells :: 0 < p < nextAddress
    }

    /** Cells handed out and not given back. */
    ghost function Live(): set<Ptr>
      reads this
    {
      InUse(cells, free)
    }

    constructor ()
      ensures Valid() && Live() == {} && free != []
    {
      cells, freeHead, chunkSize, nextAddress, free := map[], 0, 16, 1, [];
      new;
      Extend();
    }

    /** Extend: a new chunk, all of it on the free list; called only when the list is empty. */
    method Extend()
      requires Valid() && free == []
      modifies this
      ensures Valid() && |free| == old(chunkSize)
      ensures old(cells.Keys) <= cells.Keys && forall p | p in old(cells) :: p !in free && cells[p] == old(cells)[p]
      ensures Live() == old(Live())
      ensures chunkSize == if 2 * old(chunkSize) < MAX_CHUNK then 2 * old(chunkSize) else MAX_CHUNK
    {
      var base := nextAddress;
      freeHead := base;
      var i := 0;
      while i < chunkSize
        invariant 0 <= i <= chunkSize == old(chunkSize) && base == nextAddress == old(nextAddress) && freeHead == base
        invariant forall p :: p in cells <==> p in old(cells) || base <= p < base + i
        invariant forall p | p in old(cells) :: cells[p] == old(cells)[p]
        invariant forall p | base <= p < base + i :: cells[p].next == if p + 1 < base + chunkSize then p + 1 else 0
      {
        cells := cells[base + i := Order(Buy, 0, 0, 0, 0, if i + 1 < chunkSize then base + i + 1 else 0)];
        i := i + 1;
      }
      free := seq(chunkSize, j => base + j);
      nextAddress := base + chunkSize;
      forall p
        ensures p in free <==> base <= p < base + chunkSize
      {
        if base <= p < base + chunkSize {
          assert free[p - base] == p;
        }
      }
      forall j: nat | j < |free|
        ensures FreeLinkOk(cells, free, j)
      {
        assert free[j] == base + j;
      }
      chunkSize := if 2 * chunkSize < MAX_CHUNK then 2 * chunkSize else MAX_CHUNK;
    }

    method Allocate() returns (p: Ptr)
      requires Valid()
      modifies this
      ensures Valid()
      ensures p != 0 && p in cells && p !in free && p !in old(Live())
      ensures Live() == old(Live()) + {p}
      ensures KeptOn(old(cells), cells, old(Live()))
    {
      assert free != [] ==> FreeLinkOk(cells, free, 0);
      if freeHead == 0 {
        Extend();
      }
      FreeTail(cells, free, freeHead);
      p := freeHead;
      freeHead := cells[p].next;
      free := free[1..];
    }

    method Deallocate(p: Ptr)
      requires Valid() && p in Live()
      modifies this
      ensures Valid()
      ensures Live() == old(Live()) - {p}
      ensures cells.Keys == old(cells.Keys) && forall x | x in cells && x != p :: cells[x] == old(cells)[x]
      ensures Data(cells[p]) == Data(old(cells)[p])
    {
      FreePush(cells, free, freeHead, p);
      cells := cells[p := cells[p].(next := freeHead)];
      freeHead := p;
      free := [p] + free;
    }
  }

  // ---- Consistency of levels, nodes and the id map --------------------------------------------------

  // The quantified facts below carry explicit triggers, so that a proof looks only at the levels and cells it names.

  /** Every level is a proper queue, and the queued cells are exactly the live ones. */
  ghost predicate StructOk(cells: Cells, levels: Levels, nodes: Nodes, live: set<Ptr>) {
    && levels.Keys == nodes.Keys && live <= cells.Keys
    && (forall k {:trigger LevelHere(cells, levels, nodes, live, k)} | k in nodes ::
        LevelHere(cells, levels, nodes, live, k))
    && (forall p {:trigger Queued(cells, nodes, p)} | p in live :: Queued(cells, nodes, p))
  }

  ghost predicate LevelHere(cells: Cells, levels: Levels, nodes: Nodes, live: set<Ptr>, k: Key) {
    k in nodes && k in levels && LevelOk(cells, levels[k], nodes[k], k) && forall p | p in nodes[k] :: p in live
  }

  ghost predicate Queued(cells: Cells, nodes: Nodes, p: Ptr) {
    p in cells && KeyOf(cells[p]) in nodes && p in nodes[KeyOf(cells[p])]
  }

  /** order_map_ is exactly the set of queued orders, by id. */
  ghost predicate MapOk(cells: Cells, nodes: Nodes, orderMap: map<nat, Ptr>) {
    && (forall id {:trigger EntryOk(cells, nodes, orderMap, id)} | id in orderMap ::
        EntryOk(cells, nodes, orderMap, id))
    && (forall k {:trigger AllMapped(cells, nodes, orderMap, k)} | k in nodes :: AllMapped(cells, nodes, orderMap, k))
  }

  ghost predicate EntryOk(cells: Cells, nodes: Nodes, orderMap: map<nat, Ptr>, id: nat) {
    id in orderMap && Queued(cells, nodes, orderMap[id]) && cells[orderMap[id]].id == id
  }

  ghost predicate AllMapped(cells: Cells, nodes: Nodes, orderMap: map<nat, Ptr>, k: Key) {
    k in nodes && forall p | p in nodes[k] :: Mapped(cells, orderMap, p)
  }

  ghost predicate Mapped(cells: Cells, orderMap: map<nat, Ptr>, p: Ptr) {
    p in cells && cells[p].id in orderMap && orderMap[cells[p].id] == p
  }

  function QueueAt(nodes: Nodes, k: Key): seq<Ptr> {
    if k in nodes then nodes[k] else []
  }

  function LevelAt(levels: Levels, k: Key): Level {
    if k in levels then levels[k] else Level(0, 0, 0)
  }

  function Prices<V>(m: map<Key, V>, side: Side): set<int> {
    set k | k in m && k.side == side :: k.price
  }

  /** One side of the book as the reference matcher sees it. */
  ghost function BookOf(cells: Cells, nodes: Nodes, side: Side): Book {
    map p | p in Prices(nodes, side) :: Items(cells, QueueAt(nodes, Key(side, p)))
  }

  function LevelsOf(levels: Levels, side: Side): map<int, Level> {
    map p | p in Prices(levels, side) :: LevelAt(levels, Key(side, p))
  }

  lemma PriceOf<V>(m: map<Key, V>, side: Side, p: int)
    ensures p in Prices(m, side) <==> Key(side, p) in m
  {
  }

  /** What the book holds at one price. */
  lemma AtPrice(cells: Cells, nodes: Nodes, k: Key)
    ensures k.price in BookOf(cells, nodes, k.side) <==> k in nodes
    ensures k in nodes ==> BookOf(cells, nodes, k.side)[k.price] == Items(cells, nodes[k])
  {
  }

  ghost predicate Uncrossed(buy: Book, sell: Book) {
    forall p, q | p in buy && q in sell :: p < q
  }

  /** The book after an order comes to rest behind the others at its price. */
  function Rested(b: Book, price: int, item: Item): Book {
    b[price := (if price in b then b[price] else []) + [item]]
  }

  /** The book after one resting order's quantity is lowered. */
  function Lowered(b: Book, price: int, i: nat, qty: nat): Book
    requires price in b && i < |b[price]|
  {
    b[price := b[price][i := Item(b[price][i].id, qty)]]
  }

  /** The book holds order id as number i of the queue at price p. */
  ghost predicate Holds(b: Book, p: int, i: nat, id: nat) {
    p in b && i < |b[p]| && b[p][i].id == id
  }

  /** The book without one resting order. */
  function Dropped(b: Book, p: int, i: nat): Book
    requires p in b && i < |b[p]|
  {
    if |b[p]| == 1 then b - {p} else b[p := Without(b[p], i)]
  }

  /** The book with one order taken out of its queue and put back, larger, behind all others at its price. */
  function Requeued(b: Book, p: int, i: nat, qty: nat): Book
    requires p in b && i < |b[p]|
  {
    b[p := Without(b[p] + [Item(b[p][i].id, qty)], i)]
  }

  /** What these do to the one queue they change. */
  lemma QueueChanges(b: Book, p: int, i: nat, qty: nat)
    requires p in b && i < |b[p]|
    ensures var b' := Dropped(b, p, i);
            b' - {p} == b - {p}
            && if |b[p]| == 1 then p !in b' else p in b' && b'[p] == b[p][..i] + b[p][i + 1..]
    ensures var b' := Lowered(b, p, i, qty);
            b' - {p} == b - {p} && p in b' && b'[p] == b[p][..i] + [Item(b[p][i].id, qty)] + b[p][i + 1..]
    ensures var b' := Requeued(b, p, i, qty);
            b' - {p} == b - {p} && p in b' && b'[p] == b[p][..i] + b[p][i + 1..] + [Item(b[p][i].id, qty)]
  {
  }

  /** Where matching an incoming order started: its price and quantity, both sides of the book, and the ids in it. */
  datatype Start = Start(limit: Option<int>, book: Book, other: Book, rem: nat, ids: set<nat>)

  /** Writing one level's queue changes exactly that entry of its side's book. */
  lemma BookAfterWrite(cells: Cells, cells': Cells, nodes: Nodes, k: Key, q: seq<Ptr>)
    requires forall j | j in nodes && j != k :: Items(cells', nodes[j]) == Items(cells, nodes[j])
    ensures BookOf(cells', nodes[k := q], k.side) == BookOf(cells, nodes, k.side)[k.price := Items(cells', q)]
  {
  }

  lemma OtherBookAfterWrite(cells: Cells, cells': Cells, nodes: Nodes, k: Key, q: seq<Ptr>)
    requires forall j | j in nodes && j != k :: Items(cells', nodes[j]) == Items(cells, nodes[j])
    ensures BookOf(cells', nodes[k := q], Opposite(k.side)) == BookOf(cells, nodes, Opposite(k.side))
  {
  }

  lemma SameBook(cells: Cells, cells': Cells, nodes: Nodes, nodes': Nodes, side: Side)
    requires forall j: Key | j.side == side :: j in nodes' <==> j in nodes
    requires forall j: Key | j.side == side && j in nodes :: Items(cells', nodes'[j]) == Items(cells, nodes[j])
    ensures BookOf(cells', nodes', side) == BookOf(cells, nodes, side)
  {
  }

  // ---- How single writes keep the book consistent ---------------------------------------------------

  /** A cell sits in the queue of its own key only. */
  lemma InOwnQueueOnly(cells: Cells, levels: Levels, nodes: Nodes, live: set<Ptr>, j: Key, k: Key, p: Ptr)
    requires StructOk(cells, levels, nodes, live) && j in nodes && k in nodes && j != k && p in nodes[j]
    ensures p !in nodes[k]
  {
    assert LevelHere(cells, levels, nodes, live, j) && LevelHere(cells, levels, nodes, live, k);
  }

  /** Writing dead cells changes nothing. */
  lemma StructFrame(cells: Cells, cells': Cells, levels: Levels, nodes: Nodes, live: set<Ptr>)
    requires StructOk(cells, levels, nodes, live) && KeptOn(cells, cells', live)
    ensures StructOk(cells', levels, nodes, live)
    ensures forall j | j in nodes :: Items(cells', nodes[j]) == Items(cells, nodes[j])
  {
    forall j | j in nodes
      ensures LevelHere(cells', levels, nodes, live, j) && Items(cells', nodes[j]) == Items(cells, nodes[j])
    {
      assert LevelHere(cells, levels, nodes, live, j);
      LevelFrame(cells, cells', levels[j], nodes[j], j);
    }
    forall x | x in live
      ensures Queued(cells', nodes, x)
    {
      assert Queued(cells, nodes, x);
    }
  }

  /** Other levels are not affected by writes to the cells of level k. */
  lemma OtherLevelsKept(cells: Cells, cells': Cells, levels: Levels, nodes: Nodes, live: set<Ptr>, k: Key)
    requires StructOk(cells, levels, nodes, live)
    requires forall x | x in live && x !in QueueAt(nodes, k) :: x in cells && x in cells' && cells'[x] == cells[x]
    ensures forall j | j in nodes && j != k :: j in levels && LevelOk(cells', levels[j], nodes[j], j)
    ensures forall j | j in nodes && j != k :: Items(cells', nodes[j]) == Items(cells, nodes[j])
  {
    forall j | j in nodes && j != k
      ensures j in levels && LevelOk(cells', levels[j], nodes[j], j)
              && Items(cells', nodes[j]) == Items(cells, nodes[j])
    {
      assert LevelHere(cells, levels, nodes, live, j);
      forall p | p in nodes[j]
        ensures p in cells' && cells'[p] == cells[p]
      {
        if k in nodes {
          InOwnQueueOnly(cells, levels, nodes, live, j, k, p);
        }
      }
      LevelFrame(cells, cells', levels[j], nodes[j], j);
    }
  }

  /** An absent level reads as an empty one. */
  lemma LevelAtOk(cells: Cells, levels: Levels, nodes: Nodes, live: set<Ptr>, k: Key)
    requires StructOk(cells, levels, nodes, live)
    ensures LevelOk(cells, LevelAt(levels, k), QueueAt(nodes, k), k)
    ensures forall p | p in QueueAt(nodes, k) :: p in live
    ensures var l := LevelAt(levels, k); l.head == 0 || (l.head in cells && l.head in QueueAt(nodes, k))
  {
    assert k in nodes ==> LevelHere(cells, levels, nodes, live, k);
    var q := QueueAt(nodes, k);
    if q != [] {
      assert LinkOk(cells, q, |q| - 1);
    }
  }

  lemma StructAfterPush(cells: Cells, levels: Levels, nodes: Nodes, live: set<Ptr>, k: Key, p: Ptr, o: Order)
    requires StructOk(cells, levels, nodes, live) && p !in live && p != 0 && OrderOk(o, k)
    ensures LevelAt(levels, k).head == 0 || LevelAt(levels, k).head in cells
    ensures var l, q := LevelAt(levels, k), QueueAt(nodes, k);
            StructOk(Pushed(cells, l, p, o), levels[k := PushedLevel(l, p, o.qty)], nodes[k := q + [p]], live + {p})
  {
    LevelAtOk(cells, levels, nodes, live, k);
    var l, q := LevelAt(levels, k), QueueAt(nodes, k);
    PushKeepsLevel(cells, l, q, k, p, o);
    var cells', levels', nodes' := Pushed(cells, l, p, o), levels[k := PushedLevel(l, p, o.qty)], nodes[k := q + [p]];
    OtherLevelsKept(cells, cells', levels, nodes, live, k);
    forall j | j in nodes'
      ensures LevelHere(cells', levels', nodes', live + {p}, j)
    {
      assert j != k ==> LevelHere(cells, levels, nodes, live, j);
    }
    forall x | x in live + {p}
      ensures Queued(cells', nodes', x)
    {
      if x in live {
        assert Queued(cells, nodes, x);
      }
    }
  }

  lemma StructAfterRemove(cells: Cells, levels: Levels, nodes: Nodes, live: set<Ptr>, k: Key, i: nat)
    requires StructOk(cells, levels, nodes, live) && k in nodes && i < |nodes[k]|
    requires LinksKnown(cells, nodes[k][i])
    ensures k in levels
    ensures var p := nodes[k][i];
            StructOk(Unlinked(cells, p), levels[k := UnlinkedLevel(cells, levels[k], p)],
                nodes[k := Without(nodes[k], i)],
                     live - {p})
  {
    assert LevelHere(cells, levels, nodes, live, k);
    var q, p := nodes[k], nodes[k][i];
    var cells' := Unlinked(cells, p);
    UnlinkKeepsLevel(cells, levels[k], q, k, i);
    UnlinkWrites(cells, q, i);
    WithoutDrops(q, i);
    OtherLevelsKept(cells, cells', levels, nodes, live, k);
    var nodes', levels' := nodes[k := Without(q, i)], levels[k := UnlinkedLevel(cells, levels[k], p)];
    forall j | j in nodes'
      ensures LevelHere(cells', levels', nodes', live - {p}, j)
    {
      if j != k {
        assert LevelHere(cells, levels, nodes, live, j);
        assert p !in nodes[j] by {
          InOwnQueueOnly(cells, levels, nodes, live, k, j, p);
        }
      }
    }
    forall x | x in live - {p}
      ensures Queued(cells', nodes', x)
    {
      assert Queued(cells, nodes, x) && Data(cells'[x]) == Data(cells[x]);
    }
  }

  lemma WithoutDrops(q: seq<Ptr>, i: nat)
    requires NoDuplicates(q) && i < |q|
    ensures forall x :: x in Without(q, i) <==> x in q && x != q[i]
  {
    AllDiffer(q);
    forall x | x in q && x != q[i]
      ensures x in Without(q, i)
    {
      var j :| 0 <= j < |q| && q[j] == x;
      assert Without(q, i)[if j < i then j else j - 1] == x;
    }
  }

  /** Taking one order out of its queue and out of the id map keeps the two in step. */
  lemma MapAfterRemove(cells: Cells, cells': Cells, levels: Levels, nodes: Nodes, live: set<Ptr>, orderMap: map<nat,
          Ptr>, k: Key, i: nat)
    requires StructOk(cells, levels, nodes, live) && MapOk(cells, nodes, orderMap) && k in nodes && i < |nodes[k]|
    requires nodes[k][i] in cells
    requires forall x | x in live && x != nodes[k][i] :: x in cells && x in cells' && Data(cells'[x]) == Data(cells[x])
    ensures MapOk(cells', nodes[k := Without(nodes[k], i)], orderMap - {cells[nodes[k][i]].id})
  {
    assert LevelHere(cells, levels, nodes, live, k) && AllMapped(cells, nodes, orderMap, k);
    var q, p := nodes[k], nodes[k][i];
    var nodes', map' := nodes[k := Without(q, i)], orderMap - {cells[p].id};
    WithoutDrops(q, i);
    forall id | id in map'
      ensures EntryOk(cells', nodes', map', id)
    {
      assert EntryOk(cells, nodes, orderMap, id);
      var x := orderMap[id];
      assert LevelHere(cells, levels, nodes, live, KeyOf(cells[x]));
    }
    forall j | j in nodes'
      ensures AllMapped(cells', nodes', map', j)
    {
      assert LevelHere(cells, levels, nodes, live, j) && AllMapped(cells, nodes, orderMap, j);
      forall x | x in nodes'[j]
        ensures Mapped(cells', map', x)
      {
        assert x in nodes[j] && Mapped(cells, orderMap, x) && Mapped(cells, orderMap, p);
        if j != k {
          InOwnQueueOnly(cells, levels, nodes, live, j, k, x);
        }
      }
    }
  }

  /** Re-entering an order under its own id as a new cell behind the others, before the old cell leaves the queue. */
  lemma MapAfterRequeue(cells: Cells, pushed: Cells, cells': Cells, levels: Levels, nodes: Nodes, live: set<Ptr>,
          orderMap: map<nat, Ptr>, k: Key, i: nat, p: Ptr)
    requires StructOk(cells, levels, nodes, live) && MapOk(cells, nodes, orderMap) && k in nodes && i < |nodes[k]|
    requires p !in live && nodes[k][i] in cells && p in pushed && p in cells'
    requires KeyOf(pushed[p]) == k && pushed[p].id == cells[nodes[k][i]].id && Data(cells'[p]) == Data(pushed[p])
    requires DataKeptOn(cells, pushed, live) && DataKeptOn(pushed, cells', live)
    ensures MapOk(cells', nodes[k := Without(nodes[k] + [p], i)], orderMap[pushed[p].id := p])
  {
    assert LevelHere(cells, levels, nodes, live, k) && AllMapped(cells, nodes, orderMap, k);
    var q, was := nodes[k], nodes[k][i];
    assert Mapped(cells, orderMap, was);
    WithoutDrops(q, i);
    assert Without(q + [p], i) == Without(q, i) + [p];
    var nodes', map' := nodes[k := Without(q + [p], i)], orderMap[pushed[p].id := p];
    forall id | id in map'
      ensures EntryOk(cells', nodes', map', id)
    {
      if id != pushed[p].id {
        assert EntryOk(cells, nodes, orderMap, id);
        assert LevelHere(cells, levels, nodes, live, KeyOf(cells[orderMap[id]]));
      } else {
        assert nodes'[k][|nodes'[k]| - 1] == p;
      }
    }
    forall j | j in nodes'
      ensures AllMapped(cells', nodes', map', j)
    {
      assert LevelHere(cells, levels, nodes, live, j) && AllMapped(cells, nodes, orderMap, j);
      forall x | x in nodes'[j]
        ensures Mapped(cells', map', x)
      {
        if x != p {
          assert x in nodes[j] && Mapped(cells, orderMap, x);
          if j != k {
            InOwnQueueOnly(cells, levels, nodes, live, j, k, x);
          }
        }
      }
    }
  }

  /** Queueing a new order and entering it in the id map keeps the two in step. */
  lemma MapAfterPush(cells: Cells, cells': Cells, levels: Levels, nodes: Nodes, live: set<Ptr>, orderMap: map<nat, Ptr>,
          k: Key, p: Ptr)
    requires StructOk(cells, levels, nodes, live) && MapOk(cells, nodes, orderMap) && p !in live
    requires p in cells' && KeyOf(cells'[p]) == k && cells'[p].id !in orderMap
    requires DataKeptOn(cells, cells', live)
    ensures MapOk(cells', nodes[k := QueueAt(nodes, k) + [p]], orderMap[cells'[p].id := p])
  {
    var nodes', map' := nodes[k := QueueAt(nodes, k) + [p]], orderMap[cells'[p].id := p];
    forall id | id in map'
      ensures EntryOk(cells', nodes', map', id)
    {
      if id != cells'[p].id {
        assert EntryOk(cells, nodes, orderMap, id);
        assert LevelHere(cells, levels, nodes, live, KeyOf(cells[orderMap[id]]));
      }
    }
    forall j | j in nodes'
      ensures AllMapped(cells', nodes', map', j)
    {
      if j in nodes {
        assert LevelHere(cells, levels, nodes, live, j) && AllMapped(cells, nodes, orderMap, j);
      }
      forall x | x in nodes'[j]
        ensures Mapped(cells', map', x)
      {
        if x != p {
          assert Mapped(cells, orderMap, x);
        }
      }
    }
  }

  /** What queueing a freshly allocated cell p under key k writes. */
  lemma PushWrites(cells0: Cells, cells: Cells, levels: Levels, nodes: Nodes, live: set<Ptr>, k: Key, p: Ptr, o: Order)
    requires StructOk(cells0, levels, nodes, live) && p !in live && KeptOn(cells0, cells, live)
    ensures var l := LevelAt(levels, k);
            && (l.head == 0 || (l.head in cells && l.head in live))
            && var cells' := Pushed(cells, l, p, o);
            && DataKeptOn(cells0, cells', live)
            && p in cells' && Data(cells'[p]) == Data(o)
            && cells'.Keys == cells.Keys + {p}
            && (forall x | x in cells && x != p && x !in live :: cells'[x] == cells[x])
  {
    LevelAtOk(cells0, levels, nodes, live, k);
  }

  /** Queueing p appends one item to one price of one side. */
  lemma PushBooks(cells0: Cells, cells: Cells, levels: Levels, nodes: Nodes, live: set<Ptr>, k: Key, p: Ptr, o: Order)
    requires StructOk(cells0, levels, nodes, live) && p !in live && p != 0 && OrderOk(o, k)
             && KeptOn(cells0, cells, live)
    requires var l := LevelAt(levels, k); l.head == 0 || l.head in cells
    ensures var q, cells' := QueueAt(nodes, k), Pushed(cells, LevelAt(levels, k), p, o);
            && BookOf(cells', nodes[k := q + [p]], k.side) ==
                Rested(BookOf(cells0, nodes, k.side), k.price, Item(o.id, o.qty))
            && BookOf(cells', nodes[k := q + [p]], Opposite(k.side)) == BookOf(cells0, nodes, Opposite(k.side))
  {
    AtPrice(cells0, nodes, k);
    var l, q := LevelAt(levels, k), QueueAt(nodes, k);
    var cells' := Pushed(cells, l, p, o);
    LevelAtOk(cells0, levels, nodes, live, k);
    assert Items(cells', q + [p]) == Items(cells0, q) + [Item(o.id, o.qty)] by {
      LevelFrame(cells0, cells, l, q, k);
      PushKeepsLevel(cells, l, q, k, p, o);
    }
    OtherLevelsKept(cells0, cells', levels, nodes, live, k);
    BookAfterWrite(cells0, cells', nodes, k, q + [p]);
    OtherBookAfterWrite(cells0, cells', nodes, k, q + [p]);
  }

  /** Unlinking and then giving the cell back leaves a consistent structure. */
  lemma RemoveStruct(cells: Cells, unlinked: Cells, cells': Cells, levels: Levels, nodes: Nodes, live: set<Ptr>, k: Key,
          i: nat)
    requires StructOk(cells, levels, nodes, live) && k in nodes && i < |nodes[k]|
    requires LinksKnown(cells, nodes[k][i])
    requires unlinked == Unlinked(cells, nodes[k][i])
    requires cells'.Keys == unlinked.Keys && (forall x | x in cells' && x != nodes[k][i] :: cells'[x] == unlinked[x])
    requires Data(cells'[nodes[k][i]]) == Data(unlinked[nodes[k][i]])
    ensures k in levels
    ensures var p := nodes[k][i];
            && StructOk(cells', levels[k := UnlinkedLevel(cells, levels[k], p)], nodes[k := Without(nodes[k], i)],
                live - {p})
            && DataKeptOn(cells, cells', live)
  {
    var p := nodes[k][i];
    assert LevelHere(cells, levels, nodes, live, k);
    StructAfterRemove(cells, levels, nodes, live, k, i);
    StructFrame(unlinked, cells', levels[k := UnlinkedLevel(cells, levels[k], p)], nodes[k := Without(nodes[k], i)],
                live - {p});
    UnlinkWrites(cells, nodes[k], i);
  }

  /** Removing a queued cell takes one item out of one price of one side. */
  lemma RemoveBooks(cells: Cells, cells': Cells, levels: Levels, nodes: Nodes, live: set<Ptr>, k: Key, i: nat)
    requires StructOk(cells, levels, nodes, live) && k in nodes && i < |nodes[k]|
    requires DataKeptOn(cells, cells', live)
    ensures var q := nodes[k];
            && BookOf(cells', nodes[k := Without(q, i)], k.side) ==
                 BookOf(cells, nodes, k.side)[k.price := Without(Items(cells, q), i)]
            && BookOf(cells', nodes[k := Without(q, i)], Opposite(k.side)) == BookOf(cells, nodes, Opposite(k.side))
  {
    var q := nodes[k];
    AtPrice(cells, nodes, k);
    forall j | j in nodes
      ensures Items(cells', nodes[j]) == Items(cells, nodes[j])
    {
      assert LevelHere(cells, levels, nodes, live, j);
    }
    assert Items(cells', Without(q, i)) == Without(Items(cells, q), i);
    BookAfterWrite(cells, cells', nodes, k, Without(q, i));
    OtherBookAfterWrite(cells, cells', nodes, k, Without(q, i));
  }

  /** Lowering one order's quantity, and its level's total by as much, keeps everything consistent. */
  lemma ReduceKeepsStruct(cells: Cells, levels: Levels, nodes: Nodes, live: set<Ptr>, k: Key, i: nat, qty: nat)
    requires StructOk(cells, levels, nodes, live) && k in nodes && i < |nodes[k]| && qty > 0 && nodes[k][i] in cells
    ensures k in levels
    ensures var p := nodes[k][i];
            StructOk(Resized(cells, p, qty), levels[k := ResizedLevel(cells, levels[k], p, qty)], nodes, live)
  {
    assert LevelHere(cells, levels, nodes, live, k);
    var p := nodes[k][i];
    var cells', levels' := Resized(cells, p, qty), levels[k := ResizedLevel(cells, levels[k], p, qty)];
    ResizeKeepsLevel(cells, levels[k], nodes[k], k, i, qty);
    OtherLevelsKept(cells, cells', levels, nodes, live, k);
    forall j | j in nodes
      ensures LevelHere(cells', levels', nodes, live, j)
    {
      assert LevelHere(cells, levels, nodes, live, j);
    }
    forall x | x in live
      ensures Queued(cells', nodes, x)
    {
      assert Queued(cells, nodes, x);
    }
  }

  lemma ReduceBooks(cells: Cells, levels: Levels, nodes: Nodes, live: set<Ptr>, k: Key, i: nat, qty: nat)
    requires StructOk(cells, levels, nodes, live) && k in nodes && i < |nodes[k]| && qty > 0 && nodes[k][i] in cells
    ensures var b, cells' := BookOf(cells, nodes, k.side), Resized(cells, nodes[k][i], qty);
            && k.price in b && i < |b[k.price]|
            && BookOf(cells', nodes, k.side) == Lowered(b, k.price, i, qty)
            && BookOf(cells', nodes, Opposite(k.side)) == BookOf(cells, nodes, Opposite(k.side))
  {
    assert LevelHere(cells, levels, nodes, live, k);
    AtPrice(cells, nodes, k);
    var cells' := Resized(cells, nodes[k][i], qty);
    ResizeKeepsLevel(cells, levels[k], nodes[k], k, i, qty);
    OtherLevelsKept(cells, cells', levels, nodes, live, k);
    assert nodes == nodes[k := nodes[k]];
    BookAfterWrite(cells, cells', nodes, k, nodes[k]);
    OtherBookAfterWrite(cells, cells', nodes, k, nodes[k]);
  }

  lemma ReduceKeepsMap(cells: Cells, levels: Levels, nodes: Nodes, live: set<Ptr>, orderMap: map<nat, Ptr>, p: Ptr,
          qty: nat)
    requires StructOk(cells, levels, nodes, live) && MapOk(cells, nodes, orderMap) && p in cells
    ensures MapOk(Resized(cells, p, qty), nodes, orderMap)
  {
    var cells' := Resized(cells, p, qty);
    forall id | id in orderMap
      ensures EntryOk(cells', nodes, orderMap, id)
    {
      assert EntryOk(cells, nodes, orderMap, id);
    }
    forall k | k in nodes
      ensures AllMapped(cells', nodes, orderMap, k)
    {
      assert AllMapped(cells, nodes, orderMap, k);
      forall x | x in nodes[k]
        ensures Mapped(cells', orderMap, x)
      {
        assert Mapped(cells, orderMap, x);
      }
    }
  }

  /** Erasing an emptied level. */
  lemma EraseKeepsStruct(cells: Cells, levels: Levels, nodes: Nodes, live: set<Ptr>, k: Key)
    requires StructOk(cells, levels, nodes, live) && k in nodes && nodes[k] == []
    ensures StructOk(cells, levels - {k}, nodes - {k}, live)
  {
    forall j | j in nodes - {k}
      ensures LevelHere(cells, levels - {k}, nodes - {k}, live, j)
    {
      assert LevelHere(cells, levels, nodes, live, j);
    }
    forall p | p in live
      ensures Queued(cells, nodes - {k}, p)
    {
      assert Queued(cells, nodes, p);
    }
  }

  lemma EraseKeepsMap(cells: Cells, nodes: Nodes, orderMap: map<nat, Ptr>, k: Key)
    requires MapOk(cells, nodes, orderMap) && k in nodes && nodes[k] == []
    ensures MapOk(cells, nodes - {k}, orderMap)
  {
    forall j | j in nodes - {k}
      ensures AllMapped(cells, nodes - {k}, orderMap, j)
    {
      assert AllMapped(cells, nodes, orderMap, j);
    }
    forall id | id in orderMap
      ensures EntryOk(cells, nodes - {k}, orderMap, id)
    {
      assert EntryOk(cells, nodes, orderMap, id);
    }
  }

  /** Taking a whole level that the incoming quantity covers is a run of steps of the matcher. */
  lemma SweepContinues(side: Side, start: Start, served: seq<Fill>, b: Book, p: int, rem: nat, total: nat)
    returns (full: seq<Fill>)
    requires BookOk(b) && IsBest(side, b, p) && Crosses(side, start.limit, p) && rem >= total == Total(b[p])
    requires Continues(side, start.limit, start.book, start.rem, served, b, rem)
    ensures full == FullFills(b[p], p) && b[p] != [] && BookOk(b - {p})
    ensures Continues(side, start.limit, start.book, start.rem, served + full, b - {p}, rem - total)
  {
    full := FullFills(b[p], p);
    SweepLevel(side, b, start.limit, rem, p);
    ContinuesOn(side, start.limit, start.book, start.rem, served, b, rem, full, b - {p}, rem - Total(b[p]));
  }

  /** After matching, and resting what is left, the sides still do not cross. */
  lemma StillUncrossed(side: Side, own: Book, opp: Book, id: nat, price: int, qty: nat)
    requires BookOk(own) && BookOk(opp) && (if side.Buy? then Uncrossed(own, opp) else Uncrossed(opp, own))
    ensures var o := Match(Opposite(side), opp, Some(price), qty);
            var own' := if o.rem > 0 then Rested(own, price, Item(id, o.rem)) else own;
            BookOk(own') && BookOk(o.book) && if side.Buy? then Uncrossed(own', o.book) else Uncrossed(o.book, own')
  {
    MatchGuarantees(Opposite(side), opp, Some(price), qty);
  }

  lemma DropKeepsUncrossed(side: Side, own: Book, other: Book, p: int, i: nat)
    requires BookOk(own) && BookOk(other) && p in own && i < |own[p]|
        && (if side.Buy? then Uncrossed(own, other) else Uncrossed(other, own))
    ensures var own' := Dropped(own, p, i);
            BookOk(own') && if side.Buy? then Uncrossed(own', other) else Uncrossed(other, own')
  {
  }

  lemma ModifyKeepsUncrossed(side: Side, own: Book, other: Book, p: int, i: nat, qty: nat)
    requires BookOk(own) && BookOk(other) && p in own && i < |own[p]| && qty > 0
    requires if side.Buy? then Uncrossed(own, other) else Uncrossed(other, own)
    ensures forall own' | own' == Lowered(own, p, i, qty) || own' == Requeued(own, p, i, qty) ::
      BookOk(own') && if side.Buy? then Uncrossed(own', other) else Uncrossed(other, own')
  {
  }

  /** The remaining price levels while walking one side from its best price, and the part of the book they stand for. */
  ghost predicate Walking(rest: map<int, Level>, b: Book) {
    BookOk(b) && rest.Keys == b.Keys && forall p | p in b :: rest[p].total == Total(b[p])
  }

  /** What has been bought so far and what the matcher would still buy add up to what it buys in all. */
  ghost predicate Bought(side: Side, b0: Book, target: nat, b: Book, left: nat, filled: nat, sum: int)
    requires BookOk(b0) && BookOk(b)
  {
    var o0, o := Match(side, b0, None, target), Match(side, b, None, left);
    Matched(o0.fills) == filled + Matched(o.fills) && Notional(o0.fills) == sum + Notional(o.fills)
  }

  lemma BuyLevel(side: Side, b0: Book, target: nat, rest: map<int, Level>, b: Book, left: nat, filled: nat, sum: int)
    returns (p: int)
    requires rest != map[] && BookOk(b0) && Walking(rest, b) && Bought(side, b0, target, b, left, filled, sum)
    ensures p == Best(side, rest) && p in b && BookOk(b - {p}) && Walking(rest - {p}, b - {p}) && rest[p].total > 0
    ensures var total := rest[p].total;
      && (left >= total ==> Bought(side, b0, target, b - {p}, left - total, filled + total, sum + p * total))
      && (left < total ==> Bought(side, b0, target, b - {p}, 0, filled + left, sum + p * left))
  {
    hide MatchOneByOne, Matched, Notional, FullFills, QueueOk;
    p := Best(side, rest);
    LevelNotEmpty(b, p);
    if left >= Total(b[p]) {
      SweepLevel(side, b, None, left, p);
      FillsTogether(FullFills(b[p], p), MatchOneByOne(side, b - {p}, None, left - Total(b[p])).fills);
      FullFillsWorth(b[p], p);
    } else {
      PartialLevelWorth(side, b, None, left, p);
      NothingMore(side, b - {p}, None);
      NothingFilled();
    }
  }

  lemma LevelNotEmpty(b: Book, p: int)
    requires BookOk(b) && p in b
    ensures Total(b[p]) > 0 && BookOk(b - {p})
  {
    assert b[p] != [] && QueueOk(b[p]);
  }

  lemma NothingFilled()
    ensures Matched([]) == 0 && Notional([]) == 0
  {
  }

  function Average(sum: int, quantity: nat): (r: real)
    requires quantity > 0
    ensures r * (quantity as real) == sum as real
  {
    sum as real / quantity as real
  }

  lemma BoughtAll(side: Side, b0: Book, target: nat, rest: map<int, Level>, b: Book, left: nat, filled: nat, sum: int)
    requires BookOk(b0) && Walking(rest, b) && Bought(side, b0, target, b, left, filled, sum)
             && (rest == map[] || left == 0)
    ensures var o := Match(side, b0, None, target); filled == Matched(o.fills) && sum == Notional(o.fills)
  {
  }

  /** The same fills, in any order. */
  ghost predicate SameFills(a: seq<Fill>, b: seq<Fill>) {
    multiset(a) == multiset(b)
  }

  lemma SameFillsTogether(a: seq<Fill>, b: seq<Fill>, c: seq<Fill>, d: seq<Fill>)
    ensures SameFills([], []) && SameFills(a, a)
    ensures SameFills(a, b) && SameFills(c, d) ==> SameFills(a + c, b + d)
  {
  }

  /** A level's cached total is the sum of its orders, which is positive while it holds any. */
  lemma LevelTotal(cells: Cells, levels: Levels, nodes: Nodes, live: set<Ptr>, k: Key)
    requires StructOk(cells, levels, nodes, live) && k in nodes
    ensures k in levels && levels[k].total == Total(Items(cells, nodes[k])) >= 0
    ensures nodes[k] != [] <==> levels[k].total > 0
    ensures k.price in BookOf(cells, nodes, k.side) && BookOf(cells, nodes, k.side)[k.price] == Items(cells, nodes[k])
  {
    assert LevelHere(cells, levels, nodes, live, k);
    AtPrice(cells, nodes, k);
    if nodes[k] != [] {
      assert Items(cells, nodes[k])[0].qty > 0;
    }
  }

  lemma EraseBooks(cells: Cells, nodes: Nodes, k: Key)
    ensures BookOf(cells, nodes - {k}, k.side) == BookOf(cells, nodes, k.side) - {k.price}
    ensures BookOf(cells, nodes - {k}, Opposite(k.side)) == BookOf(cells, nodes, Opposite(k.side))
  {
    forall p
      ensures p in BookOf(cells, nodes - {k}, k.side) <==> p in BookOf(cells, nodes, k.side) && p != k.price
      ensures p in BookOf(cells, nodes - {k}, k.side) ==>
        BookOf(cells, nodes - {k}, k.side)[p] == BookOf(cells, nodes, k.side)[p]
    {
      AtPrice(cells, nodes, Key(k.side, p));
      AtPrice(cells, nodes - {k}, Key(k.side, p));
    }
    SameBook(cells, cells, nodes, nodes - {k}, Opposite(k.side));
  }

  lemma YoungestItem(cells: Cells, nodes: Nodes, k: Key, j: nat, items: seq<Item>)
    requires k in nodes && 0 < j == |nodes[k]| && nodes[k][j - 1] in cells
    requires var b := BookOf(cells, nodes, k.side); k.price in b && b[k.price] == items
    ensures |items| == j && items[j - 1] == Item(cells[nodes[k][j - 1]].id, cells[nodes[k][j - 1]].qty)
  {
  }

  lemma WriteTwice<K, V>(m: map<K, V>, k: K, v: V, w: V)
    ensures m[k := v][k := w] == m[k := w]
  {
  }

  lemma WithoutLast<T>(s: seq<T>)
    requires s != []
    ensures Without(s, |s| - 1) == s[..|s| - 1]
  {
  }

  lemma NoneDrained(items: seq<Item>, price: int)
    ensures SameFills([], FullFills(items[|items|..], price))
  {
  }

  /** Taking the youngest order out adds its fill in front of the younger ones'. */
  lemma DrainOne(fills: seq<Fill>, items: seq<Item>, price: int, j: nat)
    requires 0 < j <= |items| && SameFills(fills, FullFills(items[j..], price))
    ensures SameFills(fills + [Fill(items[j - 1].id, price, items[j - 1].qty)], FullFills(items[j - 1..], price))
  {
    assert FullFills(items[j - 1..], price) ==
        [Fill(items[j - 1].id, price, items[j - 1].qty)] + FullFills(items[j..], price);
  }

  /** Filling the oldest order of a level that holds more than the incoming quantity is one step of the matcher. */
  lemma FillOldest(side: Side, start: Start, served: seq<Fill>, b: Book, p: int, rem: nat) returns (b': Book)
    requires BookOk(b) && IsBest(side, b, p) && Crosses(side, start.limit, p) && 0 < rem < Total(b[p])
    requires Continues(side, start.limit, start.book, start.rem, served, b, rem)
    ensures var q := b[p];
            && q != []
            && var take := if rem >= q[0].qty then q[0].qty else rem;
               && b' == (if rem >= q[0].qty then b[p := Without(q, 0)] else Lowered(b, p, 0, q[0].qty - rem))
               && (rem >= q[0].qty ==> |q| > 1)
               && BookOk(b') && IsBest(side, b', p) && rem - take < Total(b'[p])
               && Continues(side, start.limit, start.book, start.rem, served + [Fill(q[0].id, p, take)], b', rem - take)
  {
    hide MatchOneByOne, Consume;
    var q := b[p];
    assert QueueOk(q);
    b' := if rem >= q[0].qty then b[p := Without(q, 0)] else Lowered(b, p, 0, q[0].qty - rem);
    if rem >= q[0].qty {
      assert |q| > 1 && Without(q, 0) == q[1..];
    } else {
      TotalUpdate(q, 0, Item(q[0].id, q[0].qty - rem));
      assert q[0 := Item(q[0].id, q[0].qty - rem)] == [Item(q[0].id, q[0].qty - rem)] + q[1..];
    }
    MatchStep(side, b, start.limit, rem, p);
    var take := if rem >= q[0].qty then q[0].qty else rem;
    ConsumedBook(b, p, take, b');
    ContinuesOn(side, start.limit, start.book, start.rem, served, b, rem, [Fill(q[0].id, p, take)], b', rem - take);
  }

  /** Both ways to write the book after the oldest order was filled. */
  lemma ConsumedBook(b: Book, p: int, take: nat, b': Book)
    requires p in b && b[p] != [] && take <= b[p][0].qty && (take == b[p][0].qty ==> |b[p]| > 1)
    requires b' == if take == b[p][0].qty then b[p := b[p][1..]]
             else b[p := [Item(b[p][0].id, b[p][0].qty - take)] + b[p][1..]]
    ensures b' == Consume(b, p, take)
  {
  }

  // ---- The order book -------------------------------------------------------------------------------

  /** One book. The program's single allocator serves all books; here each book has one of its own. */
  class OrderBook {
    const allocator: Allocator
    var levels: Levels
    var orderMap: map<nat, Ptr>
    ghost var nodes: Nodes

    ghost predicate Struct()
      reads this, allocator
    {
      allocator.Valid() && StructOk(allocator.cells, levels, nodes, allocator.Live())
    }

    /** Consistent, but a level may be empty and the sides may cross: the state inside an operation. */
    ghost predicate Inner()
      reads this, allocator
    {
      Struct() && MapOk(allocator.cells, nodes, orderMap)
    }

    ghost predicate Valid()
      reads this, allocator
    {
      && Inner()
      && BookOk(Abs(Buy)) && BookOk(Abs(Sell))
      && Uncrossed(Abs(Buy), Abs(Sell))
    }

    /** One side of the book as the reference matcher sees it. */
    ghost function Abs(side: Side): Book
      reads this, allocator
    {
      BookOf(allocator.cells, nodes, side)
    }

    constructor ()
      ensures Valid() && Abs(Buy) == map[] && Abs(Sell) == map[] && orderMap == map[] && fresh(allocator)
    {
      allocator := new Allocator();
      levels, orderMap, nodes := map[], map[], map[];
    }

    /** Level::AddOrder on the level of key k, which is created when missing. */
    method PushOrder(k: Key, id: nat, qty: nat) returns (p: Ptr)
      requires Struct() && qty > 0
      modifies this`levels, this`nodes, allocator
      ensures Struct()
      ensures p !in old(allocator.Live()) && p in allocator.cells
              && Data(allocator.cells[p]) == (k.side, id, k.price, qty)
      ensures nodes == old(nodes)[k := QueueAt(old(nodes), k) + [p]] && allocator.Live() == old(allocator.Live()) + {p}
      ensures DataKeptOn(old(allocator.cells), allocator.cells, old(allocator.Live()))
      ensures Abs(k.side) == Rested(old(Abs(k.side)), k.price, Item(id, qty))
      ensures Abs(Opposite(k.side)) == old(Abs(Opposite(k.side)))
    {
      ghost var cells0, live0, levels0, nodes0 := allocator.cells, allocator.Live(), levels, nodes;
      p := allocator.Allocate();
      ghost var cells1 := allocator.cells;
      var order := Order(k.side, id, k.price, qty, 0, 0);
      PushWrites(cells0, cells1, levels, nodes, live0, k, p, order);
      var level := LinkAtHead(LevelAt(levels, k), p, order);
      assert StructOk(allocator.cells, levels[k := level], nodes[k := QueueAt(nodes, k) + [p]], live0 + {p}) by {
        StructFrame(cells0, cells1, levels, nodes, live0);
        StructAfterPush(cells1, levels, nodes, live0, k, p, order);
      }
      levels := levels[k := level];
      nodes := nodes[k := QueueAt(nodes, k) + [p]];
      PushBooks(cells0, cells1, levels0, nodes0, live0, k, p, order);
    }

    /** The pointer writes of Level::AddOrder. */
    method LinkAtHead(l: Level, p: Ptr, order: Order) returns (level: Level)
      requires allocator.Valid() && p in allocator.Live() && order.prev == order.next == 0
      requires l.head == 0 || (l.head in allocator.Live() && l.head != p)
      modifies allocator`cells
      ensures allocator.Valid() && allocator.Live() == old(allocator.Live())
      ensures allocator.cells == Pushed(old(allocator.cells), l, p, order) && level == PushedLevel(l, p, order.qty)
    {
      FreeFrame(allocator.cells, Pushed(allocator.cells, l, p, order), allocator.free, allocator.freeHead);
      level := l;
      allocator.cells := allocator.cells[p := order];
      if level.head == 0 {
        level := level.(head := p, tail := p);
      } else {
        allocator.cells := allocator.cells[p := allocator.cells[p].(next := level.head)];
        allocator.cells := allocator.cells[level.head := allocator.cells[level.head].(prev := p)];
        level := level.(head := p);
      }
      level := level.(total := level.total + order.qty);
      assert allocator.cells == Pushed(old(allocator.cells), l, p, order);
    }

    /** Level::RemoveOrder on a queued cell: unlink it, lower the total, give the cell back. */
    method RemoveOrder(k: Key, p: Ptr, ghost i: nat)
      requires Struct() && k in nodes && i < |nodes[k]| && nodes[k][i] == p
      modifies this`levels, this`nodes, allocator
      ensures Struct()
      ensures nodes == old(nodes)[k := Without(old(nodes)[k], i)]
      ensures p in old(allocator.Live()) && allocator.Live() == old(allocator.Live()) - {p}
      ensures DataKeptOn(old(allocator.cells), allocator.cells, old(allocator.Live()))
      ensures k.price in old(Abs(k.side)) && i < |old(Abs(k.side))[k.price]|
      ensures Abs(k.side) == old(Abs(k.side))[k.price := Without(old(Abs(k.side))[k.price], i)]
      ensures Abs(Opposite(k.side)) == old(Abs(Opposite(k.side)))
    {
      ghost var cells0, live0, levels0, nodes0 := allocator.cells, allocator.Live(), levels, nodes;
      ghost var rest := Without(nodes[k], i);
      assert LevelHere(cells0, levels, nodes, live0, k);
      var level := Unlink(levels[k], p, nodes[k], i);
      ghost var cells1 := allocator.cells;
      allocator.Deallocate(p);
      RemoveStruct(cells0, cells1, allocator.cells, levels, nodes, live0, k, i);
      levels := levels[k := level];
      nodes := nodes[k := rest];
      RemoveBooks(cells0, allocator.cells, levels0, nodes0, live0, k, i);
    }

    /** The pointer writes of Level::RemoveOrder. */
    method Unlink(l: Level, p: Ptr, ghost q: seq<Ptr>, ghost i: nat) returns (level: Level)
      requires allocator.Valid() && Linked(allocator.cells, q) && i < |q| && q[i] == p
      requires forall x | x in q :: x in allocator.Live()
      requires l.head == q[|q| - 1] && l.tail == q[0]
      modifies allocator`cells
      ensures allocator.Valid() && allocator.Live() == old(allocator.Live())
      ensures p in old(allocator.cells)
      ensures (old(allocator.cells)[p].prev == 0 || old(allocator.cells)[p].prev in old(allocator.cells))
      ensures (old(allocator.cells)[p].next == 0 || old(allocator.cells)[p].next in old(allocator.cells))
      ensures allocator.cells == Unlinked(old(allocator.cells), p) && level == UnlinkedLevel(old(allocator.cells), l, p)
    {
      NeighboursInQueue(allocator.cells, q, i);
      UnlinkWrites(allocator.cells, q, i);
      FreeFrame(allocator.cells, Unlinked(allocator.cells, p), allocator.free, allocator.freeHead);
      level := l;
      var order := allocator.cells[p];
      if p == level.head {
        level := level.(head := order.next);
      }
      if p == level.tail {
        level := level.(tail := order.prev);
      }
      if order.prev != 0 {
        allocator.cells := allocator.cells[order.prev := allocator.cells[order.prev].(next := order.next)];
      }
      if order.next != 0 {
        allocator.cells := allocator.cells[order.next := allocator.cells[order.next].(prev := order.prev)];
      }
      level := level.(total := level.total - order.qty);
      assert allocator.cells == Unlinked(old(allocator.cells), p);
    }

    /** The matching loops' way of taking an order out: erase its id, then remove it from its level. */
    method RemoveMatched(k: Key, p: Ptr, ghost i: nat)
      requires Inner() && k in nodes && i < |nodes[k]| && nodes[k][i] == p
      modifies this, allocator
      ensures Inner()
      ensures nodes == old(nodes)[k := Without(old(nodes)[k], i)]
      ensures p in old(allocator.cells) && orderMap == old(orderMap) - {old(allocator.cells)[p].id}
      ensures k.price in old(Abs(k.side)) && i < |old(Abs(k.side))[k.price]|
      ensures Abs(k.side) == old(Abs(k.side))[k.price := Without(old(Abs(k.side))[k.price], i)]
      ensures Abs(Opposite(k.side)) == old(Abs(Opposite(k.side)))
    {
      ghost var cells0, live0, levels0, nodes0, map0 := allocator.cells, allocator.Live(), levels, nodes, orderMap;
      assert LevelHere(cells0, levels, nodes, live0, k);
      orderMap := orderMap - {allocator.cells[p].id};
      RemoveOrder(k, p, i);
      MapAfterRemove(cells0, allocator.cells, levels0, nodes0, live0, map0, k, i);
    }

    /** Partial execution or downward modification: lower an order's quantity in place. */
    method Reduce(k: Key, p: Ptr, qty: nat, ghost i: nat)
      requires Inner() && k in nodes && i < |nodes[k]| && nodes[k][i] == p
      requires p in allocator.cells && 0 < qty <= allocator.cells[p].qty
      modifies this`levels, allocator`cells
      ensures Inner()
      ensures k.price in old(Abs(k.side)) && i < |old(Abs(k.side))[k.price]|
      ensures Abs(k.side) == Lowered(old(Abs(k.side)), k.price, i, qty)
      ensures Abs(Opposite(k.side)) == old(Abs(Opposite(k.side)))
    {
      ghost var cells0, live0, levels0 := allocator.cells, allocator.Live(), levels;
      assert LevelHere(cells0, levels0, nodes, live0, k);
      WriteQuantity(k, p, qty);
      ReduceKeepsStruct(cells0, levels0, nodes, live0, k, i, qty);
      ReduceKeepsMap(cells0, levels0, nodes, live0, orderMap, p, qty);
      ReduceBooks(cells0, levels0, nodes, live0, k, i, qty);
    }

    method WriteQuantity(k: Key, p: Ptr, qty: nat)
      requires allocator.Valid() && k in levels && p in allocator.Live()
      modifies this`levels, allocator`cells
      ensures allocator.Valid() && allocator.Live() == old(allocator.Live())
      ensures p in old(allocator.cells) && allocator.cells == Resized(old(allocator.cells), p, qty)
      ensures levels == old(levels)[k := ResizedLevel(old(allocator.cells), old(levels)[k], p, qty)]
    {
      FreeFrame(allocator.cells, Resized(allocator.cells, p, qty), allocator.free, allocator.freeHead);
      var level := levels[k];
      level := level.(total := level.total - (allocator.cells[p].qty - qty));
      levels := levels[k := level];
      allocator.cells := allocator.cells[p := allocator.cells[p].(qty := qty)];
    }

    method EraseLevel(k: Key)
      requires Struct() && k in nodes && nodes[k] == []
      modifies this`levels, this`nodes
      ensures Struct() && nodes == old(nodes) - {k}
      ensures Abs(k.side) == old(Abs(k.side)) - {k.price}
      ensures Abs(Opposite(k.side)) == old(Abs(Opposite(k.side)))
    {
      EraseKeepsStruct(allocator.cells, levels, nodes, allocator.Live(), k);
      EraseBooks(allocator.cells, nodes, k);
      levels := levels - {k};
      nodes := nodes - {k};
    }

    /** The youngest order of a level is filled whole and leaves. */
    method DrainYoungest(k: Key, cur: Ptr, ghost j: nat) returns (next: Ptr, ghost fill: Fill)
      requires Inner() && k in nodes && 0 < j == |nodes[k]| && cur == nodes[k][j - 1]
      modifies this, allocator
      ensures Inner() && orderMap.Keys <= old(orderMap.Keys)
      ensures nodes == old(nodes)[k := old(nodes)[k][..j - 1]]
      ensures next == (if j == 1 then 0 else old(nodes)[k][j - 2]) && (j > 1 ==> next != 0)
      ensures k.price in old(Abs(k.side)) && |old(Abs(k.side))[k.price]| == j
      ensures Abs(k.side) == old(Abs(k.side))[k.price := old(Abs(k.side))[k.price][..j - 1]]
      ensures Abs(Opposite(k.side)) == old(Abs(Opposite(k.side)))
      ensures var item := old(Abs(k.side))[k.price][j - 1]; fill == Fill(item.id, k.price, item.qty)
    {
      hide MapOk, StructOk, BookOf, LinkOk, Allocator.Live, Allocator.Valid;
      QueuedHere(k, j - 1);
      NeighboursHere(k, j - 1);
      AtPrice(allocator.cells, nodes, k);
      YoungestItem(allocator.cells, nodes, k, j, Abs(k.side)[k.price]);
      next, fill := allocator.cells[cur].next, Fill(allocator.cells[cur].id, k.price, allocator.cells[cur].qty);
      WithoutLast(nodes[k]);
      WithoutLast(Abs(k.side)[k.price]);
      RemoveMatched(k, cur, j - 1);
    }

    lemma NeighboursHere(k: Key, i: nat)
      requires Inner() && k in nodes && i < |nodes[k]|
      ensures var q, cells := nodes[k], allocator.cells;
              && q[i] != 0 && q[i] in cells
              && cells[q[i]].next == (if i == 0 then 0 else q[i - 1]) && (i > 0 ==> q[i - 1] != 0)
    {
      assert LevelHere(allocator.cells, levels, nodes, allocator.Live(), k);
      NeighboursInQueue(allocator.cells, nodes[k], i);
    }

    /** Where the walk over a level starts: at its youngest order. */
    lemma LevelHead(k: Key)
      requires Inner() && k in nodes
      ensures k in levels && levels[k].head == if nodes[k] == [] then 0 else nodes[k][|nodes[k]| - 1]
      ensures nodes[k] != [] ==> levels[k].head != 0
      ensures k.price in Abs(k.side) && |Abs(k.side)[k.price]| == |nodes[k]|
    {
      assert LevelHere(allocator.cells, levels, nodes, allocator.Live(), k);
      AtPrice(allocator.cells, nodes, k);
      assert nodes[k] != [] ==> LinkOk(allocator.cells, nodes[k], |nodes[k]| - 1);
    }

    /** Whole-level branch: walk from the youngest order and take every one out. */
    method DrainLevel(k: Key) returns (ghost fills: seq<Fill>)
      requires Inner() && k in nodes
      modifies this, allocator
      ensures Inner() && nodes == old(nodes)[k := []] && orderMap.Keys <= old(orderMap.Keys)
      ensures k.price in old(Abs(k.side)) && Abs(k.side) == old(Abs(k.side))[k.price := []]
      ensures Abs(Opposite(k.side)) == old(Abs(Opposite(k.side)))
      ensures SameFills(fills, FullFills(old(Abs(k.side))[k.price], k.price))
    {
      hide *;
      LevelHead(k);
      ghost var nodes0, q0, b0, j := nodes, nodes[k], Abs(k.side), |nodes[k]|;
      ghost var items0 := b0[k.price];
      fills := [];
      assert q0[..j] == q0 && items0[..j] == items0 && nodes == nodes[k := q0] && b0 == b0[k.price := items0];
      NoneDrained(items0, k.price);
      var cur := levels[k].head;
      while cur != 0
        invariant Inner() && 0 <= j <= |q0| == |items0| && orderMap.Keys <= old(orderMap.Keys)
        invariant nodes == nodes0[k := q0[..j]] && cur == (if j == 0 then 0 else q0[j - 1])
        invariant j > 0 ==> cur != 0
        invariant Abs(k.side) == b0[k.price := items0[..j]]
        invariant Abs(Opposite(k.side)) == old(Abs(Opposite(k.side)))
        invariant SameFills(fills, FullFills(items0[j..], k.price))
        decreases j
      {
        ghost var fill;
        WriteTwice(nodes0, k, q0[..j], q0[..j - 1]);
        WriteTwice(b0, k.price, items0[..j], items0[..j - 1]);
        assert q0[..j][..j - 1] == q0[..j - 1] && items0[..j][..j - 1] == items0[..j - 1];
        cur, fill := DrainYoungest(k, cur, j);
        DrainOne(fills, items0, k.price, j);
        fills, j := fills + [fill], j - 1;
      }
      assert q0[..0] == [] && items0[..0] == [] && items0[0..] == items0;
    }

    /** An incoming order is being matched: `served` has been filled so far and `rem` is left. */
    ghost predicate Progress(side: Side, start: Start, served: seq<Fill>, rem: nat)
      reads this, allocator
    {
      && Inner() && BookOk(Abs(side)) && Abs(Opposite(side)) == start.other && orderMap.Keys <= start.ids
      && Continues(side, start.limit, start.book, start.rem, served, Abs(side), rem)
    }

    /** The per-order branch: cur is the oldest order of the best level, which outlasts rem. */
    ghost predicate Filling(k: Key, cur: Ptr, start: Start, served: seq<Fill>, rem: nat)
      reads this, allocator
    {
      && Progress(k.side, start, served, rem)
      && k in nodes && nodes[k] != [] && cur == nodes[k][0]
      && IsBest(k.side, Abs(k.side), k.price) && Crosses(k.side, start.limit, k.price)
      && rem < Total(Abs(k.side)[k.price])
    }

    lemma OldestItem(k: Key, cur: Ptr, start: Start, served: seq<Fill>, rem: nat)
      requires Filling(k, cur, start, served, rem)
      ensures cur in allocator.cells && allocator.cells[cur].qty > 0
      ensures var order, q := allocator.cells[cur], Abs(k.side)[k.price];
              |q| == |nodes[k]| && q[0] == Item(order.id, order.qty)
      ensures allocator.cells[cur].prev == if |nodes[k]| == 1 then 0 else nodes[k][1]
    {
      assert LevelHere(allocator.cells, levels, nodes, allocator.Live(), k);
      NeighboursInQueue(allocator.cells, nodes[k], 0);
      AtPrice(allocator.cells, nodes, k);
    }

    /** The oldest order is used up. */
    method FillWhole(k: Key, cur: Ptr, rem: nat, ghost start: Start, ghost served: seq<Fill>)
      returns (next: Ptr, take: nat, ghost fill: Fill)
      requires Filling(k, cur, start, served, rem) && cur in allocator.cells && rem >= allocator.cells[cur].qty
      modifies this, allocator
      ensures 0 < take <= rem && Filling(k, next, start, served + [fill], rem - take)
    {
      OldestItem(k, cur, start, served, rem);
      ghost var b, q := Abs(k.side), nodes[k];
      ghost var b' := FillOldest(k.side, start, served, b, k.price, rem);
      var order := allocator.cells[cur];
      take, fill, next := order.qty, Fill(order.id, k.price, order.qty), order.prev;
      RemoveMatched(k, cur, 0);
      assert nodes[k] == Without(q, 0) && Abs(k.side) == b';
    }

    /** The oldest order is filled in part and stays. */
    method FillPart(k: Key, cur: Ptr, rem: nat, ghost start: Start, ghost served: seq<Fill>) returns (ghost fill: Fill)
      requires Filling(k, cur, start, served, rem) && cur in allocator.cells && 0 < rem < allocator.cells[cur].qty
      modifies this, allocator
      ensures Filling(k, cur, start, served + [fill], 0)
    {
      hide BookOf, StructOk, MapOk, Continues, QueueOk;
      OldestItem(k, cur, start, served, rem);
      ghost var b := Abs(k.side);
      ghost var b' := FillOldest(k.side, start, served, b, k.price, rem);
      var order := allocator.cells[cur];
      fill := Fill(order.id, k.price, rem);
      Reduce(k, cur, order.qty - rem, 0);
      assert Abs(k.side) == b';
    }

    /** One turn of the per-order branch. */
    method FillOne(k: Key, cur: Ptr, rem: nat, ghost start: Start, ghost served: seq<Fill>)
      returns (next: Ptr, take: nat, ghost fill: Fill)
      requires Filling(k, cur, start, served, rem) && rem > 0
      modifies this, allocator
      ensures 0 < take <= rem && Filling(k, next, start, served + [fill], rem - take)
    {
      hide *;
      OldestItem(k, cur, start, served, rem);
      if rem >= allocator.cells[cur].qty {
        next, take, fill := FillWhole(k, cur, rem, start, served);
      } else {
        next, take := cur, rem;
        fill := FillPart(k, cur, rem, start, served);
      }
    }

    lemma StartFilling(k: Key, start: Start, served: seq<Fill>, rem: nat)
      requires Progress(k.side, start, served, rem) && k in nodes && k in levels && rem < levels[k].total
      requires IsBest(k.side, Abs(k.side), k.price) && Crosses(k.side, start.limit, k.price)
      ensures Filling(k, levels[k].tail, start, served, rem)
    {
      hide BookOk, Continues, MapOk, FreeOk, Allocator.Live;
      assert LevelHere(allocator.cells, levels, nodes, allocator.Live(), k);
      AtPrice(allocator.cells, nodes, k);
      assert Total([]) == 0;
    }

    /** Per-order branch: fill from the oldest order until the incoming quantity is used up. */
    method FillFromTail(k: Key, rem0: nat, ghost start: Start, ghost served: seq<Fill>)
      returns (matched: nat, ghost fills: seq<Fill>)
      requires Progress(k.side, start, served, rem0) && k in nodes && k in levels && rem0 < levels[k].total
      requires IsBest(k.side, Abs(k.side), k.price) && Crosses(k.side, start.limit, k.price)
      modifies this, allocator
      ensures Progress(k.side, start, served + fills, 0) && matched == rem0
    {
      hide *;
      StartFilling(k, start, served, rem0);
      var rem: nat := rem0;
      matched, fills := 0, [];
      var cur := levels[k].tail;
      assert served + fills == served;
      while rem > 0
        invariant Filling(k, cur, start, served + fills, rem) && matched + rem == rem0
        decreases rem
      {
        var next, take, fill := FillOne(k, cur, rem, start, served + fills);
        matched, rem, cur := matched + take, rem - take, next;
        assert served + fills + [fill] == served + (fills + [fill]);
        fills := fills + [fill];
      }
      FillingIsProgress(k, cur, start, served + fills, rem);
    }

    lemma FillingIsProgress(k: Key, cur: Ptr, start: Start, served: seq<Fill>, rem: nat)
      requires Filling(k, cur, start, served, rem)
      ensures Progress(k.side, start, served, rem)
    {
    }

    /** Drain a level and erase it. */
    method DrainAndErase(k: Key) returns (ghost drained: seq<Fill>)
      requires Inner() && k in nodes
      modifies this, allocator
      ensures Inner() && orderMap.Keys <= old(orderMap.Keys)
      ensures k.price in old(Abs(k.side)) && Abs(k.side) == old(Abs(k.side)) - {k.price}
      ensures Abs(Opposite(k.side)) == old(Abs(Opposite(k.side)))
      ensures SameFills(drained, FullFills(old(Abs(k.side))[k.price], k.price))
    {
      hide StructOk, MapOk, BookOf, FullFills, SameFills, Allocator.Live, Allocator.Valid;
      ghost var b := Abs(k.side);
      drained := DrainLevel(k);
      EraseKeepsMap(allocator.cells, nodes, orderMap, k);
      EraseLevel(k);
      assert Abs(k.side) == b - {k.price};
    }

    /** Whole-level branch: the incoming order takes all of the best level. */
    method SweepBest(k: Key, ghost start: Start, ghost served: seq<Fill>, rem: nat)
      returns (taken: nat, ghost drained: seq<Fill>, ghost full: seq<Fill>)
      requires Progress(k.side, start, served, rem) && k in nodes && k in levels && rem >= levels[k].total
      requires IsBest(k.side, Abs(k.side), k.price) && Crosses(k.side, start.limit, k.price)
      modifies this, allocator
      ensures 0 < taken <= rem && Progress(k.side, start, served + full, rem - taken)
      ensures SameFills(drained, full)
    {
      ghost var b := Abs(k.side);
      LevelTotal(allocator.cells, levels, nodes, allocator.Live(), k);
      taken := levels[k].total;
      full := SweepContinues(k.side, start, served, b, k.price, rem, taken);
      drained := DrainAndErase(k);
      assert Abs(k.side) == b - {k.price};
    }

    /** One turn of the matching loop at the best level: all of it at once, or order by order. */
    method MatchLevel(k: Key, ghost start: Start, ghost served: seq<Fill>, rem: nat)
      returns (took: nat, ghost fills: seq<Fill>, ghost taken: seq<Fill>)
      requires Progress(k.side, start, served, rem) && k in nodes && k in levels && rem > 0
      requires IsBest(k.side, Abs(k.side), k.price) && Crosses(k.side, start.limit, k.price)
      modifies this, allocator
      ensures 0 < took <= rem && Progress(k.side, start, served + fills, rem - took) && SameFills(taken, fills)
    {
      hide *;
      if rem >= levels[k].total {
        took, taken, fills := SweepBest(k, start, served, rem);
      } else {
        took, fills := FillFromTail(k, rem, start, served);
        taken := fills;
        SameFillsTogether(fills, fills, [], []);
      }
    }

    /** begin() of the level map is the matcher's best price. */
    lemma BestLevel(resting: Side, start: Start, served: seq<Fill>, rem: nat) returns (p: int)
      requires Progress(resting, start, served, rem) && LevelsOf(levels, resting) != map[]
      ensures p == Best(resting, LevelsOf(levels, resting))
      ensures IsBest(resting, Abs(resting), p)
      ensures var k := Key(resting, p); k in nodes && k in levels && LevelsOf(levels, resting)[p] == levels[k]
      ensures var k := Key(resting, p); levels[k].total == Total(Abs(resting)[p])
    {
      p := Best(resting, LevelsOf(levels, resting));
      PriceOf(levels, resting, p);
      LevelTotal(allocator.cells, levels, nodes, allocator.Live(), Key(resting, p));
      assert levels.Keys == nodes.Keys;
      forall q | q in Abs(resting)
        ensures q in LevelsOf(levels, resting)
      {
        PriceOf(levels, resting, q);
        PriceOf(nodes, resting, q);
      }
    }

    lemma NoLevels(resting: Side, start: Start, served: seq<Fill>, rem: nat)
      requires Progress(resting, start, served, rem) && LevelsOf(levels, resting) == map[]
      ensures Abs(resting) == map[]
    {
    }

    lemma StartMatching(resting: Side, start: Start)
      requires Valid() && start.book == Abs(resting) && start.other == Abs(Opposite(resting))
               && start.ids == orderMap.Keys
      ensures Progress(resting, start, [], start.rem)
    {
    }

    lemma CrossesMeans(resting: Side, price: int, p: int)
      ensures Crosses(resting, Some(price), p) <==> !((resting.Sell? && price < p) || (resting.Buy? && price > p))
    {
    }

    /** The matching loop of MatchOrder against the resting side. */
    method MatchLoop(resting: Side, price: int, qty: nat, ghost start: Start)
      returns (matched: nat, rem: nat, ghost served: seq<Fill>, ghost filled: seq<Fill>)
      requires Valid() && start == Start(Some(price), Abs(resting), Abs(Opposite(resting)), qty, orderMap.Keys)
      modifies this, allocator
      ensures matched + rem == qty && Progress(resting, start, served, rem) && SameFills(filled, served)
      ensures Abs(resting) != map[] && rem > 0 ==>
        exists p :: IsBest(resting, Abs(resting), p) && !Crosses(resting, start.limit, p)
    {
      hide *;
      matched, rem, served, filled := 0, qty, [], [];
      SameFillsTogether([], [], [], []);
      StartMatching(resting, start);
      while LevelsOf(levels, resting) != map[]
        invariant matched + rem == qty && Progress(resting, start, served, rem) && SameFills(filled, served)
        decreases rem
      {
        var p := Best(resting, LevelsOf(levels, resting));
        ghost var _ := BestLevel(resting, start, served, rem);
        CrossesMeans(resting, price, p);
        if (resting.Sell? && price < p) || (resting.Buy? && price > p) {
          return;
        }
        if rem == 0 {
          return;
        }
        var took, fills, taken := MatchLevel(Key(resting, p), start, served, rem);
        SameFillsTogether(filled, served, taken, fills);
        matched, rem := matched + took, rem - took;
        served, filled := served + fills, filled + taken;
      }
      NoLevels(resting, start, served, rem);
    }

    /** MatchOrder: match against the other side as the one-by-one matcher does, then rest what is left. */
    method MatchOrder(side: Side, id: nat, price: int, qty: nat) returns (matched: nat, ghost filled: seq<Fill>)
      requires Valid() && id !in orderMap
      modifies this, allocator
      ensures Valid()
      ensures var o := Match(Opposite(side), old(Abs(Opposite(side))), Some(price), qty);
        && matched + o.rem == qty && SameFills(filled, o.fills)
        && Abs(Opposite(side)) == o.book
        && Abs(side) == (if o.rem > 0 then Rested(old(Abs(side)), price, Item(id, o.rem)) else old(Abs(side)))
        && Abs(side) - {price} == old(Abs(side)) - {price}
        && (o.rem > 0 ==>
              && price in Abs(side)
              && Abs(side)[price] == (if price in old(Abs(side)) then old(Abs(side))[price] else [])
                                     + [Item(id, o.rem)])
    {
      hide StructOk, MapOk, BookOf, Rested, Continues, Allocator.Live, Allocator.Valid;
      ghost var resting := Opposite(side);
      ghost var start := Start(Some(price), Abs(resting), Abs(side), qty, orderMap.Keys);
      var rem: nat;
      ghost var served;
      matched, rem, served, filled := MatchLoop(Opposite(side), price, qty, start);
      MatchingDone(side, start, served, rem);
      if rem > 0 {
        Rest(side, id, price, rem);
      }
      StillUncrossed(side, start.other, start.book, id, price, qty);
    }

    /** What the matching loop leaves unmatched comes to rest at the back of its price. */
    method Rest(side: Side, id: nat, price: int, qty: nat)
      requires Inner() && id !in orderMap && qty > 0
      modifies this, allocator
      ensures Inner()
      ensures Abs(side) == Rested(old(Abs(side)), price, Item(id, qty))
      ensures Abs(side) - {price} == old(Abs(side)) - {price} && price in Abs(side)
      ensures Abs(side)[price] == (if price in old(Abs(side)) then old(Abs(side))[price] else []) + [Item(id, qty)]
      ensures Abs(Opposite(side)) == old(Abs(Opposite(side)))
    {
      hide StructOk, MapOk, BookOf;
      ghost var cells0, live0, levels0, nodes0, map0 := allocator.cells, allocator.Live(), levels, nodes, orderMap;
      var p := PushOrder(Key(side, price), id, qty);
      MapAfterPush(cells0, allocator.cells, levels0, nodes0, live0, map0, Key(side, price), p);
      orderMap := orderMap[id := p];
    }

    /** The loop stops only where the matcher stops. */
    lemma MatchingDone(side: Side, start: Start, served: seq<Fill>, rem: nat)
      requires Progress(Opposite(side), start, served, rem)
      requires Abs(Opposite(side)) != map[] && rem > 0 ==>
        exists p :: IsBest(Opposite(side), Abs(Opposite(side)), p) && !Crosses(Opposite(side), start.limit, p)
      ensures BookOk(start.book)
      ensures Match(Opposite(side), start.book, start.limit, start.rem) == Outcome(Abs(Opposite(side)), served, rem)
    {
      var resting := Opposite(side);
      var b := Abs(resting);
      if b != map[] && rem > 0 {
        var p :| IsBest(resting, b, p) && !Crosses(resting, start.limit, p);
        assert Best(resting, b) == p;
      }
      assert MatchOneByOne(resting, b, start.limit, rem) == Outcome(b, [], rem);
      assert served + [] == served;
    }

    /** AddOrder: a known id is refused, any other order is matched and rests. */
    method AddOrder(side: Side, id: nat, price: int, qty: nat) returns (matched: nat, ghost filled: seq<Fill>)
      requires Valid()
      modifies this, allocator
      ensures Valid()
      ensures id in old(orderMap) ==> matched == 0 && orderMap == old(orderMap) && forall s :: Abs(s) == old(Abs(s))
      ensures id !in old(orderMap) ==>
        var o := Match(Opposite(side), old(Abs(Opposite(side))), Some(price), qty);
        && matched + o.rem == qty && SameFills(filled, o.fills)
        && Abs(Opposite(side)) == o.book
        && Abs(side) == (if o.rem > 0 then Rested(old(Abs(side)), price, Item(id, o.rem)) else old(Abs(side)))
        && Abs(side) - {price} == old(Abs(side)) - {price}
        && (o.rem > 0 ==>
              && price in Abs(side)
              && Abs(side)[price] == (if price in old(Abs(side)) then old(Abs(side))[price] else [])
                                     + [Item(id, o.rem)])
    {
      hide *;
      if id in orderMap {
        return 0, [];
      }
      matched, filled := MatchOrder(side, id, price, qty);
    }

    /** The cell an id maps to, seen from its queue and from the book. */
    lemma Locate(id: nat) returns (i: nat)
      requires Inner() && id in orderMap
      ensures orderMap[id] in allocator.cells
      ensures var o := allocator.cells[orderMap[id]]; var k := KeyOf(o);
        && o.id == id && o.qty > 0
        && k in nodes && k in levels && i < |nodes[k]| && nodes[k][i] == orderMap[id]
        && Holds(Abs(k.side), k.price, i, id) && Abs(k.side)[k.price][i] == Item(id, o.qty)
        && |Abs(k.side)[k.price]| == |nodes[k]|
    {
      assert EntryOk(allocator.cells, nodes, orderMap, id);
      var k := KeyOf(allocator.cells[orderMap[id]]);
      assert LevelHere(allocator.cells, levels, nodes, allocator.Live(), k);
      i :| i < |nodes[k]| && nodes[k][i] == orderMap[id];
      AtPrice(allocator.cells, nodes, k);
    }

    /** Cancelling removes exactly that order, and its level when it was the last one. */
    method CancelOrder(id: nat) returns (ok: bool, ghost k: Key, ghost i: nat)
      requires Valid()
      modifies this, allocator
      ensures Valid() && (ok <==> id in old(orderMap))
      ensures orderMap.Keys == old(orderMap.Keys) - {id}
      ensures !ok ==> forall s :: Abs(s) == old(Abs(s))
      ensures ok ==>
        && Holds(old(Abs(k.side)), k.price, i, id)
        && Abs(k.side) == Dropped(old(Abs(k.side)), k.price, i)
        && Abs(Opposite(k.side)) == old(Abs(Opposite(k.side)))
      ensures ok ==>
        var b, b' := old(Abs(k.side)), Abs(k.side);
        var q := b[k.price];
        && b' - {k.price} == b - {k.price}
        && if |q| == 1 then k.price !in b' else k.price in b' && b'[k.price] == q[..i] + q[i + 1..]
    {
      k, i := Key(Buy, 0), 0;
      if id !in orderMap {
        return false, k, i;
      }
      i := Locate(id);
      var p := orderMap[id];
      var key := KeyOf(allocator.cells[p]);
      k := key;
      ghost var own, other := Abs(k.side), Abs(Opposite(k.side));
      Withdraw(key, p, id, i);
      DropKeepsUncrossed(k.side, own, other, k.price, i);
      QueueChanges(own, k.price, i, 0);
      ok := true;
    }

    /** The order leaves its queue, an emptied level is erased, and the id is forgotten. */
    method Withdraw(k: Key, p: Ptr, id: nat, ghost i: nat)
      requires Inner() && k in nodes && i < |nodes[k]| && nodes[k][i] == p
      requires p in allocator.cells && allocator.cells[p].id == id
      modifies this, allocator
      ensures Inner() && orderMap == old(orderMap) - {id}
      ensures Holds(old(Abs(k.side)), k.price, i, id) && Abs(k.side) == Dropped(old(Abs(k.side)), k.price, i)
      ensures Abs(Opposite(k.side)) == old(Abs(Opposite(k.side)))
    {
      hide StructOk, MapOk, BookOf, Allocator.Live, Allocator.Valid;
      ghost var cells0, live0, levels0, nodes0, map0 := allocator.cells, allocator.Live(), levels, nodes, orderMap;
      ghost var own := Abs(k.side);
      LevelTotal(cells0, levels, nodes, live0, k);
      RemoveOrder(k, p, i);
      MapAfterRemove(cells0, allocator.cells, levels0, nodes0, live0, map0, k, i);
      LevelTotal(allocator.cells, levels, nodes, allocator.Live(), k);
      ghost var left := nodes[k];
      if levels[k].total == 0 {
        EraseKeepsMap(allocator.cells, nodes, orderMap - {id}, k);
        EraseLevel(k);
      }
      orderMap := orderMap - {id};
      assert |left| == |nodes0[k]| - 1 == |own[k.price]| - 1;
      assert Abs(k.side) == Dropped(own, k.price, i);
    }

    /** Modifying: to zero cancels, downwards keeps the queue position, upwards loses it. */
    method ModifyOrder(id: nat, qty: nat) returns (ok: bool, ghost k: Key, ghost i: nat)
      requires Valid()
      modifies this, allocator
      ensures Valid() && (ok <==> id in old(orderMap))
      ensures orderMap.Keys == if qty == 0 then old(orderMap.Keys) - {id} else old(orderMap.Keys)
      ensures !ok ==> forall s :: Abs(s) == old(Abs(s))
      ensures ok ==>
        && Holds(old(Abs(k.side)), k.price, i, id)
        && var b := old(Abs(k.side));
           && Abs(k.side) == (if qty == 0 then Dropped(b, k.price, i)
                              else if qty <= b[k.price][i].qty then Lowered(b, k.price, i, qty)
                              else Requeued(b, k.price, i, qty))
           && Abs(Opposite(k.side)) == old(Abs(Opposite(k.side)))
      ensures ok ==>
        var b, b' := old(Abs(k.side)), Abs(k.side);
        var q := b[k.price];
        && b' - {k.price} == b - {k.price}
        && if qty == 0 && |q| == 1 then k.price !in b'
           else && k.price in b'
                && b'[k.price] == if qty == 0 then q[..i] + q[i + 1..]
                                  else if qty <= q[i].qty then q[..i] + [Item(id, qty)] + q[i + 1..]
                                  else q[..i] + q[i + 1..] + [Item(id, qty)]
    {
      hide StructOk, MapOk, BookOf, BookOk, Uncrossed, Allocator.Live, Allocator.Valid;
      k, i := Key(Buy, 0), 0;
      if id !in orderMap {
        return false, k, i;
      }
      i := Locate(id);
      var p := orderMap[id];
      var key := KeyOf(allocator.cells[p]);
      k := key;
      if qty == 0 {
        ok, k, i := CancelOrder(id);
        return true, k, i;
      }
      ghost var own, other := Abs(k.side), Abs(Opposite(k.side));
      if qty <= allocator.cells[p].qty {
        Reduce(key, p, qty, i);
      } else {
        Requeue(key, p, id, qty, i);
      }
      ModifyKeepsUncrossed(k.side, own, other, k.price, i, qty);
      QueueChanges(own, k.price, i, qty);
      ok := true;
    }

    lemma QueuedHere(k: Key, i: nat)
      requires Inner() && k in nodes && i < |nodes[k]|
      ensures k in levels && nodes[k][i] in allocator.Live() && nodes[k][i] in allocator.cells
      ensures Holds(Abs(k.side), k.price, i, allocator.cells[nodes[k][i]].id)
    {
      assert LevelHere(allocator.cells, levels, nodes, allocator.Live(), k);
      AtPrice(allocator.cells, nodes, k);
    }

    /** Upward modification: a new cell at the back under the same id, then the old cell leaves. */
    method Requeue(k: Key, p: Ptr, id: nat, qty: nat, ghost i: nat)
      requires Inner() && k in nodes && i < |nodes[k]| && nodes[k][i] == p
      requires p in allocator.cells && allocator.cells[p].id == id && qty > 0 && id in orderMap
      modifies this, allocator
      ensures Inner() && orderMap.Keys == old(orderMap.Keys)
      ensures Holds(old(Abs(k.side)), k.price, i, id) && Abs(k.side) == Requeued(old(Abs(k.side)), k.price, i, qty)
      ensures Abs(Opposite(k.side)) == old(Abs(Opposite(k.side)))
    {
      hide StructOk, MapOk, BookOf, LevelHere, LevelOk, Items, Holds, Allocator.Live, Allocator.Valid;
      ghost var cells0, live0, levels0, nodes0, map0 := allocator.cells, allocator.Live(), levels, nodes, orderMap;
      QueuedHere(k, i);
      AtPrice(cells0, nodes, k);
      ghost var own, q := Abs(k.side), nodes[k];
      var p' := PushOrder(k, id, qty);
      ghost var pushed := allocator.cells;
      orderMap := orderMap[id := p'];
      RemoveOrder(k, p, i);
      WriteTwice(nodes0, k, q + [p'], Without(q + [p'], i));
      WriteTwice(own, k.price, own[k.price] + [Item(id, qty)], Without(own[k.price] + [Item(id, qty)], i));
      MapAfterRequeue(cells0, pushed, allocator.cells, levels0, nodes0, live0, map0, k, i, p');
    }

    // ---- Queries ------------------------------------------------------------------------------------

    /** GetBestBid and GetBestAsk: the best price of a side and the quantity resting there. */
    method GetBest(side: Side) returns (r: Option<(int, int)>)
      requires Valid()
      ensures r.None? <==> Abs(side) == map[]
      ensures r.Some? ==> IsBest(side, Abs(side), r.value.0) && r.value.1 == Total(Abs(side)[r.value.0])
      ensures r.Some? ==> forall p | p in Abs(side) :: if side == Sell then r.value.0 <= p else r.value.0 >= p
    {
      ghost var start := Start(None, Abs(side), Abs(Opposite(side)), 0, orderMap.Keys);
      StartMatching(side, start);
      if LevelsOf(levels, side) == map[] {
        NoLevels(side, start, [], 0);
        return None;
      }
      ghost var _ := BestLevel(side, start, [], 0);
      var p := Best(side, LevelsOf(levels, side));
      return Some((p, LevelsOf(levels, side)[p].total));
    }

    lemma StartWalking(side: Side, target: nat)
      requires Valid()
      ensures BookOk(Abs(side)) && Walking(LevelsOf(levels, side), Abs(side))
          && Bought(side, Abs(side), target, Abs(side), target, 0, 0)
    {
      forall p
        ensures p in LevelsOf(levels, side) <==> p in Abs(side)
        ensures p in Abs(side) ==> LevelsOf(levels, side)[p].total == Total(Abs(side)[p])
      {
        PriceOf(levels, side, p);
        PriceOf(nodes, side, p);
        assert levels.Keys == nodes.Keys;
        if Key(side, p) in nodes {
          LevelTotal(allocator.cells, levels, nodes, allocator.Live(), Key(side, p));
        }
      }
    }

    /** GetVWAP: the average price of taking `target` from a side, and how much of it there is. */
    method GetVWAP(side: Side, target: nat) returns (vwap: real, filled: nat)
      requires Valid()
      ensures var o := Match(side, Abs(side), None, target);
        && filled == Matched(o.fills)
        && (filled > 0 ==> vwap * (filled as real) == Notional(o.fills) as real)
        && (filled == 0 ==> vwap == 0.0)
    {
      hide *;
      ghost var b0 := Abs(side);
      StartWalking(side, target);
      var rest := LevelsOf(levels, side);
      if rest == map[] || target == 0 {
        BoughtAll(side, b0, target, rest, b0, target, 0, 0);
        return 0.0, 0;
      }
      var sum, left: nat := 0, target;
      filled := 0;
      ghost var b := b0;
      while rest != map[] && left > 0
        invariant BookOk(b0) && BookOk(b) && Walking(rest, b) && (filled == 0 ==> rest != map[] && left > 0)
        invariant Bought(side, b0, target, b, left, filled, sum)
        decreases left
      {
        ghost var _ := BuyLevel(side, b0, target, rest, b, left, filled, sum);
        var p := Best(side, rest);
        var level := rest[p];
        if left >= level.total {
          filled, sum, left := filled + level.total, sum + p * level.total, left - level.total;
        } else {
          filled, sum, left := filled + left, sum + p * left, 0;
        }
        rest, b := rest - {p}, b - {p};
      }
      BoughtAll(side, b0, target, rest, b, left, filled, sum);
      vwap := Average(sum, filled);
    }

    // ---- What a valid book is -----------------------------------------------------------------------

    /** The free list and the level queues partition the carved cells, and no cell is queued twice. */
    lemma CellsPartitioned()
      requires Valid()
      ensures forall p | p in allocator.cells :: p in allocator.free <==> !Queued(allocator.cells, nodes, p)
      ensures forall j, k, p | j in nodes && k in nodes && p in nodes[j] && p in nodes[k] :: j == k
      ensures forall k | k in nodes :: nodes[k] != [] && LevelHere(allocator.cells, levels, nodes, allocator.Live(), k)
    {
      forall j, k, p | j in nodes && k in nodes && p in nodes[j] && p in nodes[k]
        ensures j == k
      {
        if j != k {
          InOwnQueueOnly(allocator.cells, levels, nodes, allocator.Live(), j, k, p);
        }
      }
      forall k | k in nodes
        ensures nodes[k] != [] && LevelHere(allocator.cells, levels, nodes, allocator.Live(), k)
      {
        assert LevelHere(allocator.cells, levels, nodes, allocator.Live(), k);
        AtPrice(allocator.cells, nodes, k);
        assert Abs(Buy) == BookOf(allocator.cells, nodes, Buy) && Abs(Sell) == BookOf(allocator.cells, nodes, Sell);
      }
      forall p | p in allocator.cells
        ensures p in allocator.free <==> !Queued(allocator.cells, nodes, p)
      {
        if p in allocator.Live() {
          assert Queued(allocator.cells, nodes, p);
        } else if KeyOf(allocator.cells[p]) in nodes {
          assert LevelHere(allocator.cells, levels, nodes, allocator.Live(), KeyOf(allocator.cells[p]));
        }
      }
    }

    /** order_map_ knows exactly the orders in the book, and each id rests in one place only. */
    lemma MapKnowsTheBook(id: nat)
      requires Valid()
      ensures id in orderMap <==> exists side, p, i :: Holds(Abs(side), p, i, id)
      ensures forall s, p, i, s', p', i' | Holds(Abs(s), p, i, id) && Holds(Abs(s'), p', i', id) ::
        s == s' && p == p' && i == i'
    {
      forall s, p, i: nat | Holds(Abs(s), p, i, id)
        ensures id in orderMap && Key(s, p) in nodes && i < |nodes[Key(s, p)]| && nodes[Key(s, p)][i] == orderMap[id]
        ensures orderMap[id] in allocator.cells && KeyOf(allocator.cells[orderMap[id]]) == Key(s, p)
      {
        var k := Key(s, p);
        AtPrice(allocator.cells, nodes, k);
        assert LevelHere(allocator.cells, levels, nodes, allocator.Live(), k)
            && AllMapped(allocator.cells, nodes, orderMap, k);
        assert nodes[k][i] in nodes[k] && Mapped(allocator.cells, orderMap, nodes[k][i]);
      }
      forall s, p, i: nat, s', p', i': nat | Holds(Abs(s), p, i, id) && Holds(Abs(s'), p', i', id)
        ensures s == s' && p == p' && i == i'
      {
        assert LevelHere(allocator.cells, levels, nodes, allocator.Live(), Key(s, p));
        AllDiffer(nodes[Key(s, p)]);
      }
      if id in orderMap {
        var i := Locate(id);
      }
    }
  }
}
