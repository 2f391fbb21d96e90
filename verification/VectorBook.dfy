/** The C++ engine's limit books: sorted vectors matched from the front. */
module VectorBook {
  import opened Numbers
  import opened Orders
  import opened Matching
  import opened History
  import opened Sorting

  function BidKey(): Order -> real { (o: Order) => -o.price }
  function AskKey(): Order -> real { (o: Order) => o.price }

  ghost function Contents(bids: seq<Order>, asks: seq<Order>): Book {
    Book(multiset(bids), multiset(asks))
  }

  ghost predicate SortedBook(bids: seq<Order>, asks: seq<Order>) {
    SortedBy(bids, BidKey()) && SortedBy(asks, AskKey())
  }

  lemma FrontIsBest(bids: seq<Order>, asks: seq<Order>)
    requires SortedBook(bids, asks) && bids != [] && asks != []
    ensures BestBid(multiset(bids), bids[0]) && BestAsk(multiset(asks), asks[0])
    ensures bids[0].price < asks[0].price ==> Uncrossed(Contents(bids, asks))
  {
    forall x | x in multiset(bids)
      ensures x.price <= bids[0].price
    {
      var i :| 0 <= i < |bids| && bids[i] == x;
      assert BidKey()(bids[0]) <= BidKey()(bids[i]);
    }
    forall x | x in multiset(asks)
      ensures asks[0].price <= x.price
    {
      var i :| 0 <= i < |asks| && asks[i] == x;
      assert AskKey()(asks[0]) <= AskKey()(asks[i]);
    }
  }

  /** Erases the front order if it is used up and otherwise reduces it in place. */
  method ReduceFront(v: seq<Order>, qty: Uint64, ghost key: Order -> real) returns (r: seq<Order>)
    requires v != [] && qty <= v[0].quantity
    requires SortedBy(v, key) && QuantityBlindKey(key)
    ensures SortedBy(r, key)
    ensures multiset(r) == multiset(v) - multiset{v[0]} + Rest(v[0], qty)
    ensures |r| <= |v| && (qty == v[0].quantity ==> |r| < |v|)
  {
    hide SortedBy;
    if v[0].quantity == qty {
      DropFront(v, key);
      r := v[1..];
    } else {
      var o := v[0].(quantity := v[0].quantity - qty);
      ReplaceFront(v, o, key);
      r := v[0 := o];
    }
  }

  lemma DropFront(v: seq<Order>, key: Order -> real)
    requires v != [] && SortedBy(v, key)
    ensures SortedBy(v[1..], key) && multiset(v[1..]) == multiset(v) - multiset{v[0]}
  {
    assert v == [v[0]] + v[1..];
  }

  lemma ReplaceFront(v: seq<Order>, o: Order, key: Order -> real)
    requires v != [] && SortedBy(v, key) && key(o) == key(v[0])
    ensures SortedBy(v[0 := o], key) && multiset(v[0 := o]) == multiset(v) - multiset{v[0]} + multiset{o}
  {
    DropFront(v, key);
    assert v[0 := o] == [o] + v[1..];
    assert forall i :: 0 <= i < |v| ==> key(v[0 := o][i]) == key(v[i]);
  }

  ghost predicate QuantityBlindKey(key: Order -> real) {
    forall o: Order, q: Uint64 {:trigger key(o.(quantity := q))} :: key(o.(quantity := q)) == key(o)
  }

  /** The immediate-match loop performs a legal run and leaves the book sorted and uncrossed. */
  method MatchFronts(bidBook: seq<Order>, askBook: seq<Order>)
    returns (bids: seq<Order>, asks: seq<Order>, matches: nat, ghost fills: seq<Fill>)
    requires SortedBook(bidBook, askBook)
    ensures SortedBook(bids, asks)
    ensures Legal(Contents(bidBook, askBook), fills)
    ensures Contents(bids, asks) == After(Contents(bidBook, askBook), fills)
    ensures Uncrossed(Contents(bids, asks)) && matches == |fills|
  {
    hide SortedBy, BestBid, BestAsk, Legal, After, Uncrossed, Rest;
    ghost var start := Contents(bidBook, askBook);
    bids, asks, matches, fills := bidBook, askBook, 0, [];
    EmptyRun(start);
    while |bids| > 0 && |asks| > 0
      invariant SortedBook(bids, asks) && matches == |fills|
      invariant Legal(start, fills) && Contents(bids, asks) == After(start, fills)
      decreases |bids| + |asks|
    {
      FrontIsBest(bids, asks);
      var bid, ask := bids[0], asks[0];
      if bid.price < ask.price {
        return;
      }
      var qty := if ask.quantity < bid.quantity then ask.quantity else bid.quantity;
      ghost var f := Fill(bid, ask, qty);
      LegalExtend(start, fills, f);
      bids := ReduceFront(bids, qty, BidKey());
      asks := ReduceFront(asks, qty, AskKey());
      matches := matches + 1;
      fills := fills + [f];
    }
    OneSideEmpty(bids, asks);
  }

  lemma EmptyRun(b: Book)
    ensures Legal(b, []) && After(b, []) == b
  {
  }

  lemma OneSideEmpty(bids: seq<Order>, asks: seq<Order>)
    requires bids == [] || asks == []
    ensures Uncrossed(Contents(bids, asks))
  {
  }

  method PushAndSort(side: seq<Order>, order: Order, key: Order -> real) returns (sorted: seq<Order>)
    ensures SortedBy(sorted, key) && multiset(sorted) == multiset(side) + multiset{order}
  {
    hide SortedBy;
    sorted := Sort(side + [order], key);
    assert multiset(side + [order]) == multiset(side) + multiset{order};
  }

  class LimitBooks {
    var bidBooks: map<string, seq<Order>>
    var askBooks: map<string, seq<Order>>
    var totalOrders: Uint64
    var totalMatches: Uint64

    /** A slot without a vector yet has an empty one. */
    function Bids(slot: string): seq<Order>
      reads this`bidBooks
    {
      if slot in bidBooks then bidBooks[slot] else []
    }

    function Asks(slot: string): seq<Order>
      reads this`askBooks
    {
      if slot in askBooks then askBooks[slot] else []
    }

    ghost predicate Valid()
      reads this`bidBooks, this`askBooks
    {
      forall s :: SortedBook(Bids(s), Asks(s))
    }

    constructor ()
      ensures Valid() && bidBooks == map[] && askBooks == map[] && totalOrders == totalMatches == 0
    {
      bidBooks, askBooks, totalOrders, totalMatches := map[], map[], 0, 0;
    }

    /** Adds the order to its sorted vector; a market order is then matched at once. */
    method AddLimitOrder(order: Order, isMarket: bool) returns (ghost fills: seq<Fill>)
      requires Valid()
      modifies this
      ensures Valid() && totalOrders == Add64(old(totalOrders), 1)
      ensures forall s :: s != order.slot ==> Bids(s) == old(Bids(s)) && Asks(s) == old(Asks(s))
      ensures Legal(Happen(old(Contents(Bids(order.slot), Asks(order.slot))), Added(order)), fills)
      ensures Contents(Bids(order.slot), Asks(order.slot))
           == After(Happen(old(Contents(Bids(order.slot), Asks(order.slot))), Added(order)), fills)
      ensures if isMarket then Uncrossed(Contents(Bids(order.slot), Asks(order.slot))) else fills == []
      ensures totalMatches == Add64(old(totalMatches), |fills|)
    {
      hide SortedBook, Legal, After, Uncrossed;
      Enter(order);
      fills := [];
      EmptyRun(Contents(Bids(order.slot), Asks(order.slot)));
      if isMarket {
        fills := TryImmediateMatch(order.slot);
      }
    }

    method SetBids(slot: string, bids: seq<Order>)
      requires Valid() && SortedBy(bids, BidKey())
      modifies this`bidBooks
      ensures Valid() && Bids(slot) == bids && forall s :: s != slot ==> Bids(s) == old(Bids(s))
    {
      hide SortedBy;
      bidBooks := bidBooks[slot := bids];
      assert forall s :: Asks(s) == old(Asks(s));
      assert forall s :: s == slot || SortedBook(Bids(s), Asks(s));
    }

    method SetAsks(slot: string, asks: seq<Order>)
      requires Valid() && SortedBy(asks, AskKey())
      modifies this`askBooks
      ensures Valid() && Asks(slot) == asks && forall s :: s != slot ==> Asks(s) == old(Asks(s))
    {
      hide SortedBy;
      askBooks := askBooks[slot := asks];
      assert forall s :: Bids(s) == old(Bids(s));
      assert forall s :: s == slot || SortedBook(Bids(s), Asks(s));
    }

    /** Appends the order to its vector and sorts the vector. */
    method Enter(order: Order)
      requires Valid()
      modifies this
      ensures Valid() && totalOrders == Add64(old(totalOrders), 1) && totalMatches == old(totalMatches)
      ensures forall s :: s != order.slot ==> Bids(s) == old(Bids(s)) && Asks(s) == old(Asks(s))
      ensures Contents(Bids(order.slot), Asks(order.slot))
           == Happen(old(Contents(Bids(order.slot), Asks(order.slot))), Added(order))
    {
      hide SortedBy, SortedBook, Add64;
      if order.isBuy {
        var sorted := PushAndSort(Bids(order.slot), order, BidKey());
        SetBids(order.slot, sorted);
      } else {
        var sorted := PushAndSort(Asks(order.slot), order, AskKey());
        SetAsks(order.slot, sorted);
      }
      totalOrders := Add64(totalOrders, 1);
    }

    method TryImmediateMatch(slot: string) returns (ghost fills: seq<Fill>)
      requires Valid()
      modifies this
      ensures Valid() && totalOrders == old(totalOrders)
      ensures forall s :: s != slot ==> Bids(s) == old(Bids(s)) && Asks(s) == old(Asks(s))
      ensures Legal(old(Contents(Bids(slot), Asks(slot))), fills)
      ensures Contents(Bids(slot), Asks(slot)) == After(old(Contents(Bids(slot), Asks(slot))), fills)
      ensures Uncrossed(Contents(Bids(slot), Asks(slot)))
      ensures totalMatches == Add64(old(totalMatches), |fills|)
    {
      hide SortedBy, Legal, After, Uncrossed;
      var bids, asks, matches;
      bids, asks, matches, fills := MatchFronts(Bids(slot), Asks(slot));
      bidBooks := bidBooks[slot := bids];
      askBooks := askBooks[slot := asks];
      totalMatches := Add64(totalMatches, matches);
      forall s
        ensures SortedBook(Bids(s), Asks(s))
      {
        assert old(SortedBook(Bids(s), Asks(s)));
      }
    }
  }
}
