/** The reference matcher of the limit order book: one resting order at a time, best price first and oldest first
    within a price. Books are plain maps from price to a queue of orders, oldest at index 0. */
module Matching {
  import opened Prelude

  datatype Side = Buy | Sell

  datatype Item = Item(id: nat, qty: nat)

  type Book = map<int, seq<Item>>

  datatype Fill = Fill(id: nat, price: int, qty: nat)

  /** Result of matching: the book that is left, the fills in order, and the quantity not matched. */
  datatype Outcome = Outcome(book: Book, fills: seq<Fill>, rem: nat)

  function Opposite(s: Side): Side {
    if s.Buy? then Sell else Buy
  }

  /** Order of the resting side's prices: bids from the highest, asks from the lowest. */
  predicate Better(resting: Side, p: int, q: int) {
    if resting.Buy? then p > q else p < q
  }

  ghost predicate IsBest<V>(resting: Side, b: map<int, V>, p: int) {
    p in b && forall q | q in b && q != p :: Better(resting, p, q)
  }

  lemma SomeMember<T>(s: set<T>) returns (x: T)
    requires s != {}
    ensures x in s
  {
    x :| x in s;
  }

  lemma {:induction false} BestExists<V>(resting: Side, b: map<int, V>)
    requires b != map[]
    ensures exists p :: IsBest(resting, b, p)
    decreases |b|
  {
    var q := SomeMember(b.Keys);
    var rest := b - {q};
    if rest == map[] {
      assert forall k | k in b :: k == q || k in rest;
      assert IsBest(resting, b, q);
    } else {
      BestExists(resting, rest);
      var p :| IsBest(resting, rest, p);
      assert forall k | k in b :: k == q || k in rest;
      assert IsBest(resting, b, if Better(resting, p, q) then p else q);
    }
  }

  /** begin() of the ordered map. */
  function Best<V>(resting: Side, b: map<int, V>): (p: int)
    requires b != map[]
    ensures p in b && forall q | q in b && q != p :: Better(resting, p, q)
  {
    BestExists(resting, b);
    var p :| p in b && forall q | q in b && q != p :: Better(resting, p, q);
    p
  }

  /** An incoming order at `limit` trades against a resting price; without a limit it trades against any. */
  predicate Crosses(resting: Side, limit: Option<int>, p: int) {
    limit.None? || if resting.Sell? then !(limit.value < p) else !(limit.value > p)
  }

  ghost predicate BookOk(b: Book) {
    forall p | p in b :: b[p] != [] && QueueOk(b[p])
  }

  ghost predicate QueueOk(q: seq<Item>) {
    forall i | 0 <= i < |q| :: q[i].qty > 0
  }

  function Total(q: seq<Item>): nat {
    if q == [] then 0 else q[0].qty + Total(q[1..])
  }

  /** Take `take` from the oldest order at price p, dropping it (and then the level) once it is used up. */
  function Consume(b: Book, p: int, take: nat): Book
    requires p in b && b[p] != [] && take <= b[p][0].qty
  {
    var q := b[p];
    if take < q[0].qty then b[p := [Item(q[0].id, q[0].qty - take)] + q[1..]]
    else if |q| == 1 then b - {p}
    else b[p := q[1..]]
  }

  /** Match one resting order at a time. */
  function MatchOneByOne(resting: Side, b: Book, limit: Option<int>, rem: nat): Outcome
    requires BookOk(b)
    decreases rem
  {
    if rem == 0 || b == map[] then Outcome(b, [], rem)
    else
      var p := Best(resting, b);
      if !Crosses(resting, limit, p) then Outcome(b, [], rem)
      else
        var oldest := b[p][0];
        var take := if rem >= oldest.qty then oldest.qty else rem;
        var o := MatchOneByOne(resting, Consume(b, p, take), limit, rem - take);
        Outcome(o.book, [Fill(oldest.id, p, take)] + o.fills, o.rem)
  }

  /** Matching `rem` against b makes `fills` first and then goes on as matching rem' against b'. */
  ghost predicate Continues(resting: Side, limit: Option<int>, b: Book, rem: nat, fills: seq<Fill>, b': Book,
          rem': nat) {
    BookOk(b) && BookOk(b') && Match(resting, b, limit, rem) == After(fills, Match(resting, b', limit, rem'))
  }

  ghost function Match(resting: Side, b: Book, limit: Option<int>, rem: nat): Outcome
    requires BookOk(b)
  {
    MatchOneByOne(resting, b, limit, rem)
  }

  function After(fills: seq<Fill>, rest: Outcome): Outcome {
    Outcome(rest.book, fills + rest.fills, rest.rem)
  }

  lemma ContinuesOn(resting: Side, limit: Option<int>, b: Book, rem: nat, fills: seq<Fill>, b': Book, rem': nat,
          more: seq<Fill>, b'': Book, rem'': nat)
    requires Continues(resting, limit, b, rem, fills, b', rem') && Continues(resting, limit, b', rem', more, b'', rem'')
    ensures Continues(resting, limit, b, rem, fills + more, b'', rem'')
  {
  }

  /** Full fills of a queue at one price. */
  function FullFills(q: seq<Item>, p: int): seq<Fill> {
    seq(|q|, i requires 0 <= i < |q| => Fill(q[i].id, p, q[i].qty))
  }

  lemma FullFillsUnfold(q: seq<Item>, p: int)
    requires q != []
    ensures FullFills(q, p) == [Fill(q[0].id, p, q[0].qty)] + FullFills(q[1..], p)
  {
  }

  /** One unfolding of the matcher at a best price that trades. */
  lemma MatchStep(resting: Side, b: Book, limit: Option<int>, rem: nat, p: int)
    requires BookOk(b) && IsBest(resting, b, p) && Crosses(resting, limit, p) && rem > 0
    ensures var take := if rem >= b[p][0].qty then b[p][0].qty else rem;
            var b' := Consume(b, p, take);
            && BookOk(b')
            && var o := MatchOneByOne(resting, b', limit, rem - take);
               MatchOneByOne(resting, b, limit, rem) == Outcome(o.book, [Fill(b[p][0].id, p, take)] + o.fills, o.rem)
  {
  }

  /** The matcher either makes one fill at the best price and goes on, or stops where nothing crosses or nothing is
      left. */
  lemma MatchUnfolds(resting: Side, b: Book, limit: Option<int>, rem: nat)
    returns (trades: bool, p: int, take: nat, rest: Outcome)
    requires BookOk(b)
    ensures var o := MatchOneByOne(resting, b, limit, rem);
      if trades
      then && IsBest(resting, b, p) && Crosses(resting, limit, p) && b[p] != []
           && 0 < take <= rem && take <= b[p][0].qty && (take == rem || take == b[p][0].qty)
           && BookOk(Consume(b, p, take)) && rest == MatchOneByOne(resting, Consume(b, p, take), limit, rem - take)
           && o == Outcome(rest.book, [Fill(b[p][0].id, p, take)] + rest.fills, rest.rem)
      else o == Outcome(b, [], rem) && (rem > 0 ==> forall q | q in b :: !Crosses(resting, limit, q))
  {
    trades, p, take, rest := false, 0, 0, Outcome(b, [], rem);
    if rem > 0 && b != map[] {
      p := Best(resting, b);
      trades := Crosses(resting, limit, p);
      if trades {
        take := if rem >= b[p][0].qty then b[p][0].qty else rem;
        MatchStep(resting, b, limit, rem, p);
        rest := MatchOneByOne(resting, Consume(b, p, take), limit, rem - take);
      }
    }
  }

  /** Sweeping a whole level at once is the same as matching its orders one after the other. */
  lemma {:induction false} SweepLevel(resting: Side, b: Book, limit: Option<int>, rem: nat, p: int)
    requires BookOk(b) && IsBest(resting, b, p) && Crosses(resting, limit, p)
    requires rem >= Total(b[p])
    ensures BookOk(b - {p})
    ensures var o := MatchOneByOne(resting, b - {p}, limit, rem - Total(b[p]));
            MatchOneByOne(resting, b, limit, rem) == Outcome(o.book, FullFills(b[p], p) + o.fills, o.rem)
    decreases |b[p]|
  {
    hide MatchOneByOne, Crosses, Consume, FullFills;
    var q := b[p];
    AfterOldest(b, p);
    var b', o := Consume(b, p, q[0].qty), MatchOneByOne(resting, b - {p}, limit, rem - Total(q));
    if |q| == 1 {
      assert FullFills(q[1..], p) + o.fills == o.fills;
    } else {
      SweepLevel(resting, b', limit, rem - q[0].qty, p);
      assert b'[p] == q[1..];
    }
    SweepOldest(resting, b, limit, rem, p, o);
  }

  lemma SweepOldest(resting: Side, b: Book, limit: Option<int>, rem: nat, p: int, o: Outcome)
    requires BookOk(b) && IsBest(resting, b, p) && Crosses(resting, limit, p) && rem >= b[p][0].qty > 0
    requires var b' := Consume(b, p, b[p][0].qty);
             && BookOk(b')
             && MatchOneByOne(resting, b', limit, rem - b[p][0].qty) ==
                Outcome(o.book, FullFills(b[p][1..], p) + o.fills, o.rem)
    ensures MatchOneByOne(resting, b, limit, rem) == Outcome(o.book, FullFills(b[p], p) + o.fills, o.rem)
  {
    hide MatchOneByOne, Consume, Crosses, FullFills;
    var q := b[p];
    MatchStep(resting, b, limit, rem, p);
    FullFillsUnfold(q, p);
    var head, tail := [Fill(q[0].id, p, q[0].qty)], FullFills(q[1..], p);
    assert head + (tail + o.fills) == head + tail + o.fills;
  }

  /** Consuming the oldest order leaves the younger ones, or no level at all. */
  lemma AfterOldest(b: Book, p: int)
    requires BookOk(b) && p in b
    ensures b[p] != [] && BookOk(Consume(b, p, b[p][0].qty))
    ensures var b', q := Consume(b, p, b[p][0].qty), b[p];
            if |q| == 1 then b' == b - {p} && Total(q) == q[0].qty && FullFills(q[1..], p) == []
            else b' == b[p := q[1..]] && b' - {p} == b - {p} && Total(q) == q[0].qty + Total(q[1..])
  {
  }

  // ---- What the matcher guarantees ------------------------------------------------------------------

  function Matched(fills: seq<Fill>): nat {
    if fills == [] then 0 else fills[0].qty + Matched(fills[1..])
  }

  /** Money that changes hands. */
  function Notional(fills: seq<Fill>): int {
    if fills == [] then 0 else fills[0].price * fills[0].qty + Notional(fills[1..])
  }

  /** Quantity is conserved, prices only disappear, and what is left unmatched meets no crossing price. */
  lemma {:induction false} MatchGuarantees(resting: Side, b: Book, limit: Option<int>, rem: nat)
    requires BookOk(b)
    ensures var o := MatchOneByOne(resting, b, limit, rem);
            && BookOk(o.book) && o.book.Keys <= b.Keys
            && Matched(o.fills) + o.rem == rem
            && (o.rem > 0 ==> forall p | p in o.book :: !Crosses(resting, limit, p))
    decreases rem
  {
    hide MatchOneByOne, Crosses, IsBest, BookOk;
    var trades, p, take, rest := MatchUnfolds(resting, b, limit, rem);
    if trades {
      MatchGuarantees(resting, Consume(b, p, take), limit, rem - take);
      assert [Fill(b[p][0].id, p, take)] + rest.fills != [];
    }
  }

  /** Asks trade at or below the limit of an incoming bid and lowest first, bids at or above the limit of an incoming
      ask and highest first; each fill names an order that rests at its price. What cannot be matched meets only prices
      beyond the limit. */
  lemma {:induction false} FillsWithinLimit(resting: Side, b: Book, limit: int, rem: nat)
    requires BookOk(b)
    ensures var o := MatchOneByOne(resting, b, Some(limit), rem);
            && (forall i | 0 <= i < |o.fills| ::
                  var f := o.fills[i];
                  f.qty > 0 && f.price in b && (if resting == Sell then f.price <= limit else f.price >= limit)
                  && QueuedId(b[f.price], f.id))
            && (forall i, j | 0 <= i < j < |o.fills| ::
                  if resting == Sell then o.fills[i].price <= o.fills[j].price
                  else o.fills[i].price >= o.fills[j].price)
            && (o.rem > 0 ==> forall p | p in o.book :: if resting == Sell then p > limit else p < limit)
    decreases rem
  {
    hide MatchOneByOne, BookOk, Consume;
    var trades, p, take, rest := MatchUnfolds(resting, b, Some(limit), rem);
    if trades {
      var b' := Consume(b, p, take);
      FillsWithinLimit(resting, b', limit, rem - take);
      ConsumedOrders(b, p, take);
      var o := MatchOneByOne(resting, b, Some(limit), rem);
      assert forall i | 0 < i < |o.fills| :: o.fills[i] == rest.fills[i - 1];
      assert b[p][0].id == o.fills[0].id;
    }
  }

  /** The orders left were there before. */
  lemma ConsumedOrders(b: Book, best: int, take: nat)
    requires best in b && b[best] != [] && take <= b[best][0].qty
    ensures var b' := Consume(b, best, take);
            b'.Keys <= b.Keys
            && forall p, id | p in b' && QueuedId(b'[p], id) :: QueuedId(b[p], id)
  {
    var b': Book, q := Consume(b, best, take), b[best];
    forall p, id | p in b' && QueuedId(b'[p], id)
      ensures p in b && QueuedId(b[p], id)
    {
      var j :| 0 <= j < |b'[p]| && b'[p][j].id == id;
      assert b[p][if p == best && take == q[0].qty then j + 1 else j].id == id;
    }
  }

  ghost predicate QueuedId(q: seq<Item>, id: nat) {
    exists j :: 0 <= j < |q| && q[j].id == id
  }

  /** The quantity of one order in a queue, or of all of them. */
  function Held(q: seq<Item>, id: Option<nat>): nat {
    if q == [] then 0 else (if id.None? || id.value == q[0].id then q[0].qty else 0) + Held(q[1..], id)
  }

  function HeldAt(b: Book, p: int, id: Option<nat>): nat {
    if p in b then Held(b[p], id) else 0
  }

  /** What one order, or all orders, of a price traded. */
  function FilledAt(fills: seq<Fill>, p: int, id: Option<nat>): nat {
    if fills == [] then 0
    else
      (if fills[0].price == p && (id.None? || id.value == fills[0].id) then fills[0].qty else 0)
          + FilledAt(fills[1..], p, id)
  }

  lemma {:induction false} HeldIsTotal(q: seq<Item>)
    ensures Held(q, None) == Total(q)
  {
    if q != [] {
      HeldIsTotal(q[1..]);
    }
  }

  /** Consuming takes its quantity from the oldest order of its price and from no other. */
  lemma ConsumeTakes(b: Book, best: int, take: nat, p: int, id: Option<nat>)
    requires best in b && b[best] != [] && take <= b[best][0].qty
    ensures HeldAt(Consume(b, best, take), p, id) + FilledAt([Fill(b[best][0].id, best, take)], p, id) ==
            HeldAt(b, p, id)
  {
    var q := b[best];
    FilledOnce(Fill(q[0].id, best, take), p, id);
    if p == best && take < q[0].qty {
      var now := [Item(q[0].id, q[0].qty - take)] + q[1..];
      assert now[1..] == q[1..];
    } else if p == best && |q| == 1 {
      assert Held(q[1..], id) == 0;
    }
  }

  lemma FilledOnce(f: Fill, p: int, id: Option<nat>)
    ensures FilledAt([f], p, id) == if f.price == p && (id.None? || id.value == f.id) then f.qty else 0
  {
  }

  /** The resting side loses exactly what trades: for every price, and every order at it, what is left and what was
      filled add up to what was there. */
  lemma {:induction false} RestingConserved(resting: Side, b: Book, limit: Option<int>, rem: nat, p: int,
          id: Option<nat>)
    requires BookOk(b)
    ensures var o := MatchOneByOne(resting, b, limit, rem);
            HeldAt(o.book, p, id) + FilledAt(o.fills, p, id) == HeldAt(b, p, id)
    decreases rem
  {
    hide MatchOneByOne, Crosses, IsBest, BookOk, HeldAt, Consume;
    var trades, best, take, rest := MatchUnfolds(resting, b, limit, rem);
    if trades {
      ConsumeTakes(b, best, take, p, id);
      RestingConserved(resting, Consume(b, best, take), limit, rem - take, p, id);
      assert ([Fill(b[best][0].id, best, take)] + rest.fills)[1..] == rest.fills;
    }
  }

  /** Price priority: when a price was touched, no better price, lower for asks and higher for bids, is left. */
  lemma {:induction false} PricePriority(resting: Side, b: Book, limit: Option<int>, rem: nat, p: int, better: int)
    requires BookOk(b) && p in b && (if resting == Sell then better < p else better > p)
    requires var o := MatchOneByOne(resting, b, limit, rem); p !in o.book || o.book[p] != b[p]
    ensures better !in MatchOneByOne(resting, b, limit, rem).book
    decreases rem
  {
    hide MatchOneByOne, Crosses, BookOk;
    var trades, best, take, rest := MatchUnfolds(resting, b, limit, rem);
    if trades {
      if best == p {
        assert better !in b;
        MatchGuarantees(resting, Consume(b, best, take), limit, rem - take);
      } else {
        PricePriority(resting, Consume(b, best, take), limit, rem - take, p, better);
      }
    }
  }

  /** Time priority: each surviving queue is a suffix of the original one, up to a reduced first order. */
  ghost predicate ServedInOrder(was: seq<Item>, now: seq<Item>) {
    |now| <= |was| &&
    var gone := |was| - |now|;
    forall i | 0 <= i < |now| ::
      now[i].id == was[gone + i].id && now[i].qty <= was[gone + i].qty && (i > 0 ==> now[i] == was[gone + i])
  }

  lemma ServedTransitive(was: seq<Item>, mid: seq<Item>, now: seq<Item>)
    requires ServedInOrder(was, mid) && ServedInOrder(mid, now)
    ensures ServedInOrder(was, now)
  {
  }

  lemma ServedByItself(q: seq<Item>)
    ensures ServedInOrder(q, q)
  {
  }

  lemma ServedByConsume(b: Book, best: int, take: nat, p: int)
    requires BookOk(b) && best in b && p in b && b[best] != [] && take <= b[best][0].qty
    ensures p in Consume(b, best, take) ==> ServedInOrder(b[p], Consume(b, best, take)[p])
  {
    var q := b[p];
    if p != best {
      ServedByItself(q);
    } else if take < q[0].qty {
      var now := [Item(q[0].id, q[0].qty - take)] + q[1..];
      assert ServedInOrder(q, now);
    } else if |q| > 1 {
      assert ServedInOrder(q, q[1..]);
    }
  }

  lemma {:induction false} TimePriority(resting: Side, b: Book, limit: Option<int>, rem: nat, p: int)
    requires BookOk(b) && p in b
    ensures var o := MatchOneByOne(resting, b, limit, rem); p in o.book ==> ServedInOrder(b[p], o.book[p])
    decreases rem
  {
    hide MatchOneByOne, Crosses, IsBest, BookOk, ServedInOrder;
    ServedByItself(b[p]);
    var trades, best, take, rest := MatchUnfolds(resting, b, limit, rem);
    if trades {
      var b' := Consume(b, best, take);
      if p in b' {
        TimePriority(resting, b', limit, rem - take, p);
        ServedByConsume(b, best, take, p);
        if p in rest.book {
          ServedTransitive(b[p], b'[p], rest.book[p]);
        }
      } else {
        MatchGuarantees(resting, b', limit, rem - take);
      }
    }
  }

  lemma {:induction false} FillsTogether(a: seq<Fill>, b: seq<Fill>)
    ensures Matched(a + b) == Matched(a) + Matched(b) && Notional(a + b) == Notional(a) + Notional(b)
  {
    if a == [] {
      assert a + b == b;
    } else {
      assert (a + b)[1..] == a[1..] + b;
      FillsTogether(a[1..], b);
    }
  }

  lemma {:induction false} FullFillsWorth(q: seq<Item>, p: int)
    ensures Matched(FullFills(q, p)) == Total(q) && Notional(FullFills(q, p)) == p * Total(q)
  {
    if q == [] {
    } else {
      FullFillsUnfold(q, p);
      FullFillsWorth(q[1..], p);
      assert FullFills(q, p)[1..] == FullFills(q[1..], p);
      assert p * q[0].qty + p * Total(q[1..]) == p * (q[0].qty + Total(q[1..]));
    }
  }

  /** A quantity smaller than the best level trades entirely at that level's price. */
  lemma {:induction false} PartialLevelWorth(resting: Side, b: Book, limit: Option<int>, rem: nat, p: int)
    requires BookOk(b) && IsBest(resting, b, p) && Crosses(resting, limit, p) && rem < Total(b[p])
    ensures var o := MatchOneByOne(resting, b, limit, rem); Matched(o.fills) == rem && Notional(o.fills) == p * rem
    decreases rem
  {
    hide MatchOneByOne, Crosses;
    if rem == 0 {
      NothingMore(resting, b, limit);
    } else {
      MatchStep(resting, b, limit, rem, p);
      var q := b[p];
      assert QueueOk(q);
      var take := if rem >= q[0].qty then q[0].qty else rem;
      var b' := Consume(b, p, take);
      var o, o' := MatchOneByOne(resting, b, limit, rem), MatchOneByOne(resting, b', limit, rem - take);
      assert o.fills[1..] == o'.fills;
      if rem >= q[0].qty {
        assert |q| > 1 && b' == b[p := q[1..]];
        PartialLevelWorth(resting, b', limit, rem - take, p);
      } else {
        NothingMore(resting, b', limit);
      }
      Distribute(p, take, rem - take);
    }
  }

  lemma NothingMore(resting: Side, b: Book, limit: Option<int>)
    requires BookOk(b)
    ensures MatchOneByOne(resting, b, limit, 0) == Outcome(b, [], 0)
  {
  }

  lemma Distribute(p: int, m: int, n: int)
    ensures p * m + p * n == p * (m + n)
  {
  }
}
