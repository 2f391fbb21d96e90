/** Greedy matching as a relation on multisets of orders.

    A book is a pair of multisets. A fill pairs *some* best bid with *some* best ask, so every way
    of breaking ties between equal prices is a legal run of this relation. The heap loop of the Go
    engine and the sorted-vector loop of the C++ engine are both proved to perform legal runs, and
    the theorems below hold for every legal run. */
module Matching {
  import opened Numbers
  import opened Orders

  datatype Book = Book(bids: multiset<Order>, asks: multiset<Order>)

  datatype Fill = Fill(bid: Order, ask: Order, qty: Uint64)

  /** A selection of orders. */
  type Cut = Order -> bool

  function AtOrAbove(p: real): Cut { (o: Order) => o.price >= p }
  function Above(p: real): Cut { (o: Order) => o.price > p }
  function AtOrBelow(p: real): Cut { (o: Order) => o.price <= p }
  function Below(p: real): Cut { (o: Order) => o.price < p }
  function AtPrice(p: real): Cut { (o: Order) => o.price == p }
  function ByID(id: string): Cut { (o: Order) => o.id == id }

  /** A selection that does not look at quantities, so that a partial fill does not change it. */
  ghost predicate QuantityBlind(c: Cut) {
    forall o: Order, q: Uint64 {:trigger c(o.(quantity := q))} :: c(o.(quantity := q)) == c(o)
  }

  function Weight(c: Cut, o: Order): nat {
    if c(o) then o.quantity else 0
  }

  /** Total quantity of the selected orders. */
  ghost function Quantity(c: Cut, s: multiset<Order>): nat {
    if s == multiset{} then 0 else
    var o :| o in s;
    Weight(c, o) + Quantity(c, s - multiset{o})
  }

  // -------------------------------------------------------------------------------------------
  // The relation

  ghost predicate PricedAtMost(s: multiset<Order>, p: real) {
    forall x :: x in s ==> x.price <= p
  }

  ghost predicate PricedAtLeast(s: multiset<Order>, p: real) {
    forall x :: x in s ==> p <= x.price
  }

  ghost predicate BestBid(s: multiset<Order>, o: Order) {
    o in s && PricedAtMost(s, o.price)
  }

  ghost predicate BestAsk(s: multiset<Order>, o: Order) {
    o in s && PricedAtLeast(s, o.price)
  }

  /** What goes back into the book of an order filled by `qty`: nothing once it is used up. */
  function Rest(o: Order, qty: Uint64): multiset<Order> {
    if o.quantity <= qty then multiset{} else multiset{o.(quantity := o.quantity - qty)}
  }

  /** `f` pairs a best bid with a best ask that cross, for the smaller of the two quantities. */
  ghost predicate Enabled(b: Book, f: Fill) {
    && BestBid(b.bids, f.bid)
    && BestAsk(b.asks, f.ask)
    && f.bid.price >= f.ask.price
    && f.qty == Min(f.bid.quantity, f.ask.quantity)
  }

  ghost function Apply(b: Book, f: Fill): Book {
    Book(b.bids - multiset{f.bid} + Rest(f.bid, f.qty), b.asks - multiset{f.ask} + Rest(f.ask, f.qty))
  }

  /** The book after a list of fills. */
  ghost function After(b: Book, fills: seq<Fill>): Book {
    if fills == [] then b else Apply(After(b, fills[..|fills| - 1]), fills[|fills| - 1])
  }

  /** Each fill of the list is enabled when its turn comes. */
  ghost predicate Legal(b: Book, fills: seq<Fill>) {
    fills == [] ||
    (Legal(b, fills[..|fills| - 1]) && Enabled(After(b, fills[..|fills| - 1]), fills[|fills| - 1]))
  }

  ghost predicate Uncrossed(b: Book) {
    forall x, y :: x in b.bids && y in b.asks ==> x.price < y.price
  }

  lemma LegalExtend(b: Book, fills: seq<Fill>, f: Fill)
    requires Legal(b, fills) && Enabled(After(b, fills), f)
    ensures Legal(b, fills + [f]) && After(b, fills + [f]) == Apply(After(b, fills), f)
  {
    assert (fills + [f])[..|fills + [f]| - 1] == fills;
  }

  // -------------------------------------------------------------------------------------------
  // Quantities

  lemma {:induction false} QuantityAdd(c: Cut, s: multiset<Order>, o: Order)
    ensures Quantity(c, s + multiset{o}) == Quantity(c, s) + Weight(c, o)
    decreases |s|
  {
    var t := s + multiset{o};
    var x :| x in t && Quantity(c, t) == Weight(c, x) + Quantity(c, t - multiset{x});
    if x == o {
      assert t - multiset{x} == s;
    } else {
      var u := s - multiset{x};
      assert t - multiset{x} == u + multiset{o};
      assert u + multiset{x} == s;
      QuantityAdd(c, u, o);
      QuantityAdd(c, u, x);
    }
  }

  lemma QuantityRemove(c: Cut, s: multiset<Order>, o: Order)
    requires o in s
    ensures Quantity(c, s) == Quantity(c, s - multiset{o}) + Weight(c, o)
  {
    QuantityAdd(c, s - multiset{o}, o);
    assert s - multiset{o} + multiset{o} == s;
  }

  lemma QuantityRest(c: Cut, s: multiset<Order>, o: Order, qty: Uint64)
    requires QuantityBlind(c) && qty <= o.quantity
    ensures Quantity(c, s + Rest(o, qty)) == Quantity(c, s) + if c(o) then o.quantity - qty else 0
  {
    hide Quantity;
    if o.quantity == qty {
      assert s + Rest(o, qty) == s;
    } else {
      QuantityAdd(c, s, o.(quantity := o.quantity - qty));
    }
  }

  lemma {:induction false} QuantityNone(c: Cut, s: multiset<Order>)
    requires forall o :: o in s ==> !c(o)
    ensures Quantity(c, s) == 0
    decreases |s|
  {
    if s != multiset{} {
      var o :| o in s;
      QuantityNone(c, s - multiset{o});
      QuantityRemove(c, s, o);
    }
  }

  /** A fill takes its quantity exactly from the selections that contain its orders. */
  lemma FillQuantity(c: Cut, b: Book, f: Fill)
    requires QuantityBlind(c) && Enabled(b, f)
    ensures Quantity(c, b.bids) == Quantity(c, Apply(b, f).bids) + if c(f.bid) then f.qty else 0
    ensures Quantity(c, b.asks) == Quantity(c, Apply(b, f).asks) + if c(f.ask) then f.qty else 0
  {
    QuantityRemove(c, b.bids, f.bid);
    QuantityRest(c, b.bids - multiset{f.bid}, f.bid, f.qty);
    QuantityRemove(c, b.asks, f.ask);
    QuantityRest(c, b.asks - multiset{f.ask}, f.ask, f.qty);
  }

  ghost function Volume(fills: seq<Fill>): nat {
    if fills == [] then 0 else Volume(fills[..|fills| - 1]) + fills[|fills| - 1].qty
  }

  ghost function FilledBids(c: Cut, fills: seq<Fill>): nat {
    if fills == [] then 0 else
    FilledBids(c, fills[..|fills| - 1]) +
    if c(fills[|fills| - 1].bid) then fills[|fills| - 1].qty else 0
  }

  ghost function FilledAsks(c: Cut, fills: seq<Fill>): nat {
    if fills == [] then 0 else
    FilledAsks(c, fills[..|fills| - 1]) +
    if c(fills[|fills| - 1].ask) then fills[|fills| - 1].qty else 0
  }

  // -------------------------------------------------------------------------------------------
  // Theorems about every legal run

  /** On each side and for every selection (a price level, an order ID, everything), starting
      quantity = remaining quantity + filled quantity: no order is filled beyond its size. */
  lemma {:induction false} Conservation(c: Cut, b: Book, fills: seq<Fill>)
    requires QuantityBlind(c) && Legal(b, fills)
    ensures Quantity(c, b.bids) == Quantity(c, After(b, fills).bids) + FilledBids(c, fills)
    ensures Quantity(c, b.asks) == Quantity(c, After(b, fills).asks) + FilledAsks(c, fills)
    decreases |fills|
  {
    if fills != [] {
      var n := |fills| - 1;
      Conservation(c, b, fills[..n]);
      FillQuantity(c, After(b, fills[..n]), fills[n]);
    }
  }

  /** Each fill takes at least one order out of the book, so a run is no longer than the book. */
  lemma {:induction false} RunShrinksBook(b: Book, fills: seq<Fill>)
    requires Legal(b, fills)
    ensures |After(b, fills).bids| + |After(b, fills).asks| + |fills| <= |b.bids| + |b.asks|
    decreases |fills|
  {
    if fills != [] {
      var n := |fills| - 1;
      RunShrinksBook(b, fills[..n]);
      FillShrinksBook(After(b, fills[..n]), fills[n]);
    }
  }

  lemma FillShrinksBook(b: Book, f: Fill)
    requires Enabled(b, f)
    ensures |Apply(b, f).bids| + |Apply(b, f).asks| < |b.bids| + |b.asks|
  {
    assert |b.bids - multiset{f.bid}| == |b.bids| - 1;
    assert |b.asks - multiset{f.ask}| == |b.asks| - 1;
  }

  lemma FillKeepsBounds(b: Book, f: Fill, hi: real, lo: real)
    requires Enabled(b, f)
    requires PricedAtMost(b.bids, hi) && PricedAtLeast(b.asks, lo)
    ensures PricedAtMost(Apply(b, f).bids, hi) && PricedAtLeast(Apply(b, f).asks, lo)
  {
  }

  /** The orders still resting are no better priced than the ones any fill took. */
  lemma {:induction false} LeftBehind(b: Book, fills: seq<Fill>, i: nat)
    requires Legal(b, fills) && i < |fills|
    ensures PricedAtMost(After(b, fills).bids, fills[i].bid.price)
    ensures PricedAtLeast(After(b, fills).asks, fills[i].ask.price)
    decreases |fills|
  {
    hide Apply;
    var n := |fills| - 1;
    if i < n {
      LeftBehind(b, fills[..n], i);
    }
    FillKeepsBounds(After(b, fills[..n]), fills[n], fills[i].bid.price, fills[i].ask.price);
  }

  /** Orders are taken best first: matched bid limits never rise, matched ask prices never fall,
      and every pair crosses. */
  lemma {:induction false} BestFirst(b: Book, fills: seq<Fill>, i: nat, j: nat)
    requires Legal(b, fills) && i <= j < |fills|
    ensures fills[j].bid.price <= fills[i].bid.price
    ensures fills[i].ask.price <= fills[j].ask.price
    ensures fills[j].ask.price <= fills[j].bid.price
    decreases |fills|
  {
    hide Apply, After, PricedAtMost, PricedAtLeast;
    var n := |fills| - 1;
    if j < n {
      BestFirst(b, fills[..n], i, j);
    } else if i < n {
      LeftBehind(b, fills[..n], i);
      NoBetter(After(b, fills[..n]), fills[n], fills[i]);
    }
  }

  lemma NoBetter(b: Book, f: Fill, earlier: Fill)
    requires Enabled(b, f)
    requires PricedAtMost(b.bids, earlier.bid.price) && PricedAtLeast(b.asks, earlier.ask.price)
    ensures f.bid.price <= earlier.bid.price && earlier.ask.price <= f.ask.price
  {
  }

  /** The two selections whose difference is one price level: at or beyond it, and strictly beyond it. */
  function BidCut(p: real, strict: bool): Cut {
    if strict then Above(p) else AtOrAbove(p)
  }

  function AskCut(p: real, strict: bool): Cut {
    if strict then Below(p) else AtOrBelow(p)
  }

  lemma FillRemainder(b: Book, f: Fill, p: real, strict: bool)
    requires Enabled(b, f)
    ensures Quantity(BidCut(p, strict), Apply(b, f).bids) == Max(0, Quantity(BidCut(p, strict), b.bids) - f.qty)
    ensures Quantity(AskCut(p, strict), Apply(b, f).asks) == Max(0, Quantity(AskCut(p, strict), b.asks) - f.qty)
  {
    hide Quantity, Apply;
    FillQuantity(BidCut(p, strict), b, f);
    FillQuantity(AskCut(p, strict), b, f);
    if !BidCut(p, strict)(f.bid) {
      QuantityNone(BidCut(p, strict), b.bids);
    }
    if !AskCut(p, strict)(f.ask) {
      QuantityNone(AskCut(p, strict), b.asks);
    }
  }

  /** What a run leaves of the bids at or above any price is what its volume leaves of them,
      whichever of the equal prices it took first; asks are the mirror image. */
  lemma {:induction false} GreedyRemainder(b: Book, fills: seq<Fill>, p: real, strict: bool)
    requires Legal(b, fills)
    ensures Quantity(BidCut(p, strict), After(b, fills).bids)
         == Max(0, Quantity(BidCut(p, strict), b.bids) - Volume(fills))
    ensures Quantity(AskCut(p, strict), After(b, fills).asks)
         == Max(0, Quantity(AskCut(p, strict), b.asks) - Volume(fills))
    decreases |fills|
  {
    hide Quantity, Enabled, Apply;
    if fills != [] {
      var n := |fills| - 1;
      GreedyRemainder(b, fills[..n], p, strict);
      FillRemainder(After(b, fills[..n]), fills[n], p, strict);
    }
  }

  /** Quantity that could trade at the single price `p`. */
  ghost function TradableAt(b: Book, p: real): nat {
    Min(Quantity(AtOrAbove(p), b.bids), Quantity(AtOrBelow(p), b.asks))
  }

  lemma {:induction false} FilledWithin(c: Cut, fills: seq<Fill>)
    ensures (forall i :: 0 <= i < |fills| ==> c(fills[i].bid)) ==> FilledBids(c, fills) == Volume(fills)
    ensures (forall i :: 0 <= i < |fills| ==> c(fills[i].ask)) ==> FilledAsks(c, fills) == Volume(fills)
    decreases |fills|
  {
    if fills != [] {
      var n := |fills| - 1;
      FilledWithin(c, fills[..n]);
      assert forall i :: 0 <= i < n ==> fills[..n][i] == fills[i];
    }
  }

  /** No single price could trade more than a run that ends uncrossed. */
  lemma NoPriceTradesMore(b: Book, fills: seq<Fill>, p: real)
    requires Legal(b, fills) && Uncrossed(After(b, fills))
    ensures TradableAt(b, p) <= Volume(fills)
  {
    hide After, Legal, Quantity, Volume;
    var t := After(b, fills);
    GreedyRemainder(b, fills, p, false);
    if exists x :: x in t.bids && x.price >= p {
      QuantityNone(AtOrBelow(p), t.asks);
    } else {
      QuantityNone(AtOrAbove(p), t.bids);
    }
  }

  /** The price of the last matched ask supports the whole volume. */
  lemma LastAskTradesAll(b: Book, fills: seq<Fill>)
    requires Legal(b, fills) && fills != []
    ensures Volume(fills) <= TradableAt(b, fills[|fills| - 1].ask.price)
  {
    var p := fills[|fills| - 1].ask.price;
    forall i | 0 <= i < |fills|
      ensures AtOrAbove(p)(fills[i].bid) && AtOrBelow(p)(fills[i].ask)
    {
      BestFirst(b, fills, i, |fills| - 1);
    }
    Conservation(AtOrAbove(p), b, fills);
    Conservation(AtOrBelow(p), b, fills);
    FilledWithin(AtOrAbove(p), fills);
    FilledWithin(AtOrBelow(p), fills);
  }

  /** Greedy matching is optimal for a uniform price: its volume is the maximum over all prices of
      the smaller of demand at or above that price and supply at or below it. */
  lemma GreedyIsOptimal(b: Book, fills: seq<Fill>)
    requires Legal(b, fills) && Uncrossed(After(b, fills))
    ensures forall p: real :: TradableAt(b, p) <= Volume(fills)
    ensures exists p: real :: TradableAt(b, p) == Volume(fills)
  {
    forall p: real
      ensures TradableAt(b, p) <= Volume(fills)
    {
      NoPriceTradesMore(b, fills, p);
    }
    var best := if fills == [] then 0.0 else fills[|fills| - 1].ask.price;
    if fills != [] {
      LastAskTradesAll(b, fills);
    }
    assert TradableAt(b, best) == Volume(fills);
  }

  /** The orders at one price are those at or beyond it without those strictly beyond it. */
  lemma {:induction false} LevelFromCuts(s: multiset<Order>, p: real)
    ensures Quantity(AtPrice(p), s) == Quantity(AtOrAbove(p), s) - Quantity(Above(p), s)
    ensures Quantity(AtPrice(p), s) == Quantity(AtOrBelow(p), s) - Quantity(Below(p), s)
    decreases |s|
  {
    if s != multiset{} {
      var o :| o in s;
      LevelFromCuts(s - multiset{o}, p);
      QuantityRemove(AtPrice(p), s, o);
      QuantityRemove(AtOrAbove(p), s, o);
      QuantityRemove(Above(p), s, o);
      QuantityRemove(AtOrBelow(p), s, o);
      QuantityRemove(Below(p), s, o);
    }
  }

  lemma SameRemainder(b: Book, fills: seq<Fill>, fills': seq<Fill>, p: real, strict: bool)
    requires Legal(b, fills) && Legal(b, fills') && Volume(fills) == Volume(fills')
    ensures Quantity(BidCut(p, strict), After(b, fills).bids) == Quantity(BidCut(p, strict), After(b, fills').bids)
    ensures Quantity(AskCut(p, strict), After(b, fills).asks) == Quantity(AskCut(p, strict), After(b, fills').asks)
  {
    hide *;
    GreedyRemainder(b, fills, p, strict);
    GreedyRemainder(b, fills', p, strict);
  }

  /** Tie-breaking does not matter: two runs of the same book that both end uncrossed trade the same
      volume and leave the same quantity at every price level on both sides. */
  lemma TieBreakingDoesNotMatter(b: Book, fills: seq<Fill>, fills': seq<Fill>, p: real)
    requires Legal(b, fills) && Uncrossed(After(b, fills))
    requires Legal(b, fills') && Uncrossed(After(b, fills'))
    ensures Volume(fills) == Volume(fills')
    ensures Quantity(AtPrice(p), After(b, fills).bids) == Quantity(AtPrice(p), After(b, fills').bids)
    ensures Quantity(AtPrice(p), After(b, fills).asks) == Quantity(AtPrice(p), After(b, fills').asks)
  {
    hide After, Legal, Quantity, Volume, Uncrossed, TradableAt;
    assert Volume(fills) == Volume(fills') by {
      GreedyIsOptimal(b, fills);
      GreedyIsOptimal(b, fills');
    }
    LevelFromCuts(After(b, fills).bids, p);
    LevelFromCuts(After(b, fills').bids, p);
    LevelFromCuts(After(b, fills).asks, p);
    LevelFromCuts(After(b, fills').asks, p);
    SameRemainder(b, fills, fills', p, false);
    SameRemainder(b, fills, fills', p, true);
  }

  predicate SameOrder(x: Order, y: Order) {
    x.id == y.id && x.price == y.price && x.advertiser == y.advertiser && x.quantity <= y.quantity
  }

  /** Every order of `s` is an order of `t`, possibly reduced. */
  ghost predicate StemsFrom(s: multiset<Order>, t: multiset<Order>) {
    forall x :: x in s ==> exists y :: y in t && SameOrder(x, y)
  }

  lemma RestStems(s: multiset<Order>, t: multiset<Order>, o: Order, qty: Uint64)
    requires StemsFrom(s, t) && o in s
    ensures StemsFrom(s - multiset{o} + Rest(o, qty), t)
  {
    forall x | x in s - multiset{o} + Rest(o, qty)
      ensures exists y :: y in t && SameOrder(x, y)
    {
      if x in s {
      } else {
        var y :| y in t && SameOrder(o, y);
        assert SameOrder(x, y);
      }
    }
  }

  lemma {:induction false} BookStems(b: Book, fills: seq<Fill>)
    requires Legal(b, fills)
    ensures StemsFrom(After(b, fills).bids, b.bids) && StemsFrom(After(b, fills).asks, b.asks)
    decreases |fills|
  {
    hide StemsFrom, Rest;
    if fills == [] {
      StemsFromItself(b.bids);
      StemsFromItself(b.asks);
    } else {
      var n := |fills| - 1;
      var m, f := After(b, fills[..n]), fills[n];
      BookStems(b, fills[..n]);
      RestStems(m.bids, b.bids, f.bid, f.qty);
      RestStems(m.asks, b.asks, f.ask, f.qty);
    }
  }

  lemma StemsFromItself(s: multiset<Order>)
    ensures StemsFrom(s, s)
  {
    assert forall x :: x in s ==> SameOrder(x, x);
  }

  lemma FillStems(s: multiset<Order>, t: multiset<Order>, o: Order)
    requires StemsFrom(s, t) && o in s
    ensures exists y :: y in t && SameOrder(o, y)
  {
  }

  /** Each fill is between a bid and an ask of the starting book that cross, within what both offered. */
  lemma {:induction false} FillsNameOrders(b: Book, fills: seq<Fill>, i: nat) returns (x: Order, y: Order)
    requires Legal(b, fills) && i < |fills|
    ensures x in b.bids && SameOrder(fills[i].bid, x) && y in b.asks && SameOrder(fills[i].ask, y)
    ensures y.price <= x.price && fills[i].qty <= x.quantity && fills[i].qty <= y.quantity
    decreases |fills|
  {
    hide After, StemsFrom;
    var n := |fills| - 1;
    if i < n {
      x, y := FillsNameOrders(b, fills[..n], i);
    } else {
      BookStems(b, fills[..n]);
      FillStems(After(b, fills[..n]).bids, b.bids, fills[n].bid);
      FillStems(After(b, fills[..n]).asks, b.asks, fills[n].ask);
      x :| x in b.bids && SameOrder(fills[n].bid, x);
      y :| y in b.asks && SameOrder(fills[n].ask, y);
    }
  }
}
