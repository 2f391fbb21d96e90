/** Order-book snapshots: resting orders aggregated by price. */
module PriceLevels {
  import opened Numbers
  import opened Orders
  import opened Matching
  import NumberTheory
  import Sorting

  datatype PriceLevel = PriceLevel(price: real, quantity: Uint64, orders: nat)

  function CountAt(h: seq<Order>, p: real): nat {
    if h == [] then 0 else CountAt(h[..|h| - 1], p) + if h[|h| - 1].price == p then 1 else 0
  }

  /** The level of price `p`: quantity (a uint64, which wraps) and number of its orders. */
  ghost function LevelOf(h: seq<Order>, p: real): PriceLevel {
    PriceLevel(p, Quantity(AtPrice(p), multiset(h)) % TWO_TO_THE_64, CountAt(h, p))
  }

  ghost predicate HasPrice(h: seq<Order>, p: real) {
    exists o :: o in h && o.price == p
  }

  /** The level with one more order. */
  function Bump(l: PriceLevel, o: Order): PriceLevel {
    PriceLevel(l.price, Add64(l.quantity, o.quantity), l.orders + 1)
  }

  lemma LevelOfAppend(h: seq<Order>, o: Order, p: real)
    ensures LevelOf(h + [o], p) == if o.price == p then Bump(LevelOf(h, p), o) else LevelOf(h, p)
  {
    hide Quantity;
    assert (h + [o])[..|h + [o]| - 1] == h;
    assert multiset(h + [o]) == multiset(h) + multiset{o};
    QuantityAdd(AtPrice(p), multiset(h), o);
    AddWraps(Quantity(AtPrice(p), multiset(h)), o.quantity);
  }

  lemma AddWraps(x: nat, y: nat)
    ensures (x + y) % TWO_TO_THE_64 == Add64(x % TWO_TO_THE_64, y)
  {
    var r := x % TWO_TO_THE_64;
    NumberTheory.CongBy(x + y, r + y, TWO_TO_THE_64, x / TWO_TO_THE_64);
    NumberTheory.CongSameMod(x + y, r + y, TWO_TO_THE_64);
  }

  lemma {:induction false} NoOrderNoLevel(h: seq<Order>, p: real)
    requires !HasPrice(h, p)
    ensures LevelOf(h, p) == PriceLevel(p, 0, 0)
    decreases |h|
  {
    if h != [] {
      var n := |h| - 1;
      assert h == h[..n] + [h[n]];
      NoOrderNoLevel(h[..n], p);
      LevelOfAppend(h[..n], h[n], p);
    }
  }

  lemma HasPriceAppend(h: seq<Order>, o: Order, p: real)
    ensures HasPrice(h + [o], p) <==> HasPrice(h, p) || p == o.price
  {
    assert o in h + [o];
    assert forall x :: x in h + [o] <==> x in h || x == o;
  }

  /** `levels` holds the level of every price among `h`, and nothing else. */
  ghost predicate Aggregates(levels: map<real, PriceLevel>, h: seq<Order>) {
    forall p :: (p in levels <==> HasPrice(h, p)) && (p in levels ==> levels[p] == LevelOf(h, p))
  }

  lemma AggregatesStep(levels: map<real, PriceLevel>, h: seq<Order>, o: Order, was: PriceLevel)
    requires Aggregates(levels, h)
    requires was == if o.price in levels then levels[o.price] else PriceLevel(o.price, 0, 0)
    ensures Aggregates(levels[o.price := Bump(was, o)], h + [o])
  {
    hide LevelOf, HasPrice, Bump;
    if o.price !in levels {
      NoOrderNoLevel(h, o.price);
    }
    forall p
      ensures LevelOf(h + [o], p) == if o.price == p then Bump(LevelOf(h, p), o) else LevelOf(h, p)
      ensures HasPrice(h + [o], p) <==> HasPrice(h, p) || p == o.price
    {
      LevelOfAppend(h, o, p);
      HasPriceAppend(h, o, p);
    }
  }

  predicate Before(isBuy: bool, a: PriceLevel, b: PriceLevel) {
    if isBuy then a.price > b.price else a.price < b.price
  }

  /** The levels of `h`, one for each price, the best price first. */
  ghost predicate Lists(result: seq<PriceLevel>, h: seq<Order>) {
    && (forall l :: l in result <==> HasPrice(h, l.price) && l == LevelOf(h, l.price))
    && (forall i, j :: 0 <= i < j < |result| ==> Before(h != [] && h[0].isBuy, result[i], result[j]))
  }

  function LevelRank(isBuy: bool): PriceLevel -> real {
    (l: PriceLevel) => if isBuy then -l.price else l.price
  }

  lemma RepeatedElement<T>(s: seq<T>, i: nat, j: nat)
    requires i < j < |s| && s[i] == s[j]
    ensures multiset(s)[s[i]] >= 2
  {
    assert s == s[..j] + [s[j]] + s[j + 1..];
    assert s[i] in s[..j];
    assert s[i] in multiset(s[..j]);
  }

  /** Reads the levels out of the map in an arbitrary order. */
  method Flatten(levels: map<real, PriceLevel>) returns (result: seq<PriceLevel>)
    requires forall p :: p in levels ==> levels[p].price == p
    ensures forall l :: l in result <==> l.price in levels && l == levels[l.price]
    ensures forall l :: multiset(result)[l] <= 1
  {
    result := [];
    var rest := levels.Items;
    while rest != {}
      invariant rest <= levels.Items
      invariant forall l :: l in result <==> (l.price, l) in levels.Items && (l.price, l) !in rest
      invariant forall l :: multiset(result)[l] <= 1
      decreases |rest|
    {
      var item :| item in rest;
      assert item in levels.Items;
      assert item.0 in levels && levels[item.0] == item.1;
      assert levels[item.0].price == item.0;
      assert item.1.price == item.0;
      assert item == (item.0, item.1);
      assert item.1 !in multiset(result) by { assert item.1 !in result; }
      result := result + [item.1];
      rest := rest - {item};
    }
  }

  lemma SortedDistinctLevels(flat: seq<PriceLevel>, s: seq<PriceLevel>, isBuy: bool)
    requires Sorting.SortedBy(s, LevelRank(isBuy)) && multiset(s) == multiset(flat)
    requires forall l :: multiset(flat)[l] <= 1
    requires forall a, b :: a in flat && b in flat && a.price == b.price ==> a == b
    ensures forall i, j :: 0 <= i < j < |s| ==> Before(isBuy, s[i], s[j])
  {
    Sorting.SameMembers(s, flat);
    forall i, j | 0 <= i < j < |s|
      ensures Before(isBuy, s[i], s[j])
    {
      assert LevelRank(isBuy)(s[i]) <= LevelRank(isBuy)(s[j]);
      assert s[i] in flat && s[j] in flat;
      if s[i].price == s[j].price {
        RepeatedElement(s, i, j);
      }
    }
  }

  /** Aggregates the orders of one heap by price and sorts the levels best price first. */
  method AggregatePriceLevels(h: seq<Order>) returns (result: seq<PriceLevel>)
    ensures Lists(result, h)
  {
    hide HasPrice, Before, LevelRank, Sorting.SortedBy;
    var levels: map<real, PriceLevel> := map[];
    assert Aggregates(levels, h[..0]) by { NoPrices(); }
    for i := 0 to |h|
      invariant Aggregates(levels, h[..i])
    {
      var o := h[i];
      var was := if o.price in levels then levels[o.price] else PriceLevel(o.price, 0, 0);
      AggregatesStep(levels, h[..i], o, was);
      assert h[..i + 1] == h[..i] + [o];
      levels := levels[o.price := PriceLevel(was.price, Add64(was.quantity, o.quantity), was.orders + 1)];
    }
    assert h[..|h|] == h;
    var flat := Flatten(levels);
    var isBuy := |h| > 0 && h[0].isBuy;
    result := Sorting.Sort(flat, LevelRank(isBuy));
    Sorting.SameMembers(result, flat);
    SortedDistinctLevels(flat, result, isBuy);
  }

  lemma NoPrices()
    ensures forall p :: !HasPrice([], p)
  {
  }

  /** Snapshots of the two sides of an uncrossed book do not cross either. */
  lemma SnapshotUncrossed(bids: seq<Order>, asks: seq<Order>, b: seq<PriceLevel>, a: seq<PriceLevel>)
    requires Uncrossed(Book(multiset(bids), multiset(asks)))
    requires Lists(b, bids) && Lists(a, asks)
    ensures forall x, y :: x in b && y in a ==> x.price < y.price
  {
    hide LevelOf, Before;
    forall x, y | x in b && y in a
      ensures x.price < y.price
    {
      assert HasPrice(bids, x.price) && HasPrice(asks, y.price);
      var o :| o in bids && o.price == x.price;
      var q :| q in asks && q.price == y.price;
      assert o in multiset(bids) && q in multiset(asks);
    }
  }
}
