/** The pure-Go matching engine: one pair of price heaps per ad slot. */
module Engine {
  import opened Numbers
  import opened Orders
  import opened Matching
  import opened Clearing
  import opened History
  import opened PriceLevels
  import OrderHeap

  /** The record kept of a fill: the seller's price, the matched quantity. */
  function Record(f: Fill): MatchedOrder {
    MatchedOrder(f.bid.id, f.ask.id, f.bid.advertiser, f.ask.price, f.qty)
  }

  function Records(fills: seq<Fill>): seq<MatchedOrder> {
    seq(|fills|, i requires 0 <= i < |fills| => Record(fills[i]))
  }

  // -------------------------------------------------------------------------------------------
  // What the matches say about the book

  /** Whether the match names this order as the one it bought (sold) for. */
  predicate Names(m: MatchedOrder, id: string, isBuy: bool) {
    (if isBuy then m.buyOrderID else m.sellOrderID) == id
  }

  /** Quantity of all matches that name this order. */
  function QuantityFor(matches: seq<MatchedOrder>, id: string, isBuy: bool): nat {
    if matches == [] then 0 else
    var n := |matches| - 1;
    QuantityFor(matches[..n], id, isBuy) + if Names(matches[n], id, isBuy) then matches[n].quantity else 0
  }

  /** The matches tell exactly what changed between two books: for every order ID, the quantities of the
      matches that name it add up to what the orders with that ID lost, on either side; and all of them
      together are the most that could trade at a single price. */
  ghost predicate Accounts(before: Book, matches: seq<MatchedOrder>, after: Book) {
    && (forall id, isBuy ::
          QuantityFor(matches, id, isBuy)
          == Quantity(ByID(id), Side(before, isBuy)) - Quantity(ByID(id), Side(after, isBuy)))
    && (forall p: real :: TradableAt(before, p) <= TotalQuantity(matches))
    && (exists p: real :: TradableAt(before, p) == TotalQuantity(matches))
  }

  lemma RecordsPrefix(fills: seq<Fill>, n: nat)
    requires n <= |fills|
    ensures Records(fills)[..n] == Records(fills[..n])
  {
  }

  lemma {:induction false} RecordedFor(fills: seq<Fill>, id: string)
    ensures QuantityFor(Records(fills), id, true) == FilledBids(ByID(id), fills)
    ensures QuantityFor(Records(fills), id, false) == FilledAsks(ByID(id), fills)
    decreases |fills|
  {
    if fills != [] {
      RecordedFor(fills[..|fills| - 1], id);
      RecordsPrefix(fills, |fills| - 1);
    }
  }

  lemma {:induction false} RecordedVolume(fills: seq<Fill>)
    ensures TotalQuantity(Records(fills)) == Volume(fills)
    decreases |fills|
  {
    if fills != [] {
      RecordedVolume(fills[..|fills| - 1]);
      RecordsPrefix(fills, |fills| - 1);
    }
  }

  /** The matches of every complete run account for what it did to the book. */
  lemma MatchesAccount(b: Book, fills: seq<Fill>)
    requires Legal(b, fills) && Uncrossed(After(b, fills))
    ensures Accounts(b, Records(fills), After(b, fills))
  {
    hide Legal, After, Uncrossed, Quantity, QuantityFor, Records, TotalQuantity, Volume, TradableAt;
    forall id, isBuy
      ensures QuantityFor(Records(fills), id, isBuy)
           == Quantity(ByID(id), Side(b, isBuy)) - Quantity(ByID(id), Side(After(b, fills), isBuy))
    {
      Conservation(ByID(id), b, fills);
      RecordedFor(fills, id);
    }
    RecordedVolume(fills);
    GreedyIsOptimal(b, fills);
  }

  // -------------------------------------------------------------------------------------------
  // Books

  lemma BestOfHeaps(bids: seq<Order>, asks: seq<Order>, bid: Order, ask: Order)
    requires OrderHeap.Valid(bids, true) && OrderHeap.Best(multiset(bids), bid)
    requires OrderHeap.Valid(asks, false) && OrderHeap.Best(multiset(asks), ask)
    ensures BestBid(multiset(bids), bid) && BestAsk(multiset(asks), ask)
    ensures bid.isBuy && !ask.isBuy
    ensures bid.price < ask.price ==> Uncrossed(Book(multiset(bids), multiset(asks)))
  {
    hide OrderHeap.HeapOrdered;
    assert forall x :: x in multiset(bids) ==> x.isBuy;
    assert forall x :: x in multiset(asks) ==> !x.isBuy;
  }

  /** Puts an order filled by `qty` back into its heap unless it is used up. */
  method PushRest(h: seq<Order>, o: Order, qty: Uint64) returns (r: seq<Order>)
    requires OrderHeap.Valid(h, o.isBuy) && qty <= o.quantity
    ensures OrderHeap.Valid(r, o.isBuy) && multiset(r) == multiset(h) + Rest(o, qty) && |r| <= |h| + 1
    ensures qty == o.quantity ==> |r| == |h|
  {
    hide OrderHeap.Valid;
    r := h;
    if o.quantity - qty > 0 {
      r := OrderHeap.Push(h, o.(quantity := o.quantity - qty));
      assert |multiset(r)| == |r|;
    }
  }

  lemma BestAreThere(bids: seq<Order>, asks: seq<Order>, bid: Order, ask: Order)
    requires BestBid(multiset(bids), bid) && BestAsk(multiset(asks), ask)
    ensures bid in multiset(bids) && ask in multiset(asks)
  {
  }

  /** Two heaps that lost their best orders and got back the rests of a fill. */
  lemma FilledHeaps(bids: seq<Order>, asks: seq<Order>, f: Fill, bids': seq<Order>, asks': seq<Order>)
    requires multiset(bids') == multiset(bids) - multiset{f.bid} + Rest(f.bid, f.qty)
    requires multiset(asks') == multiset(asks) - multiset{f.ask} + Rest(f.ask, f.qty)
    ensures Book(multiset(bids'), multiset(asks')) == Apply(Book(multiset(bids), multiset(asks)), f)
  {
    hide Rest;
  }

  lemma PoppedAndPushed(h: seq<Order>, rest: seq<Order>, o: Order, h': seq<Order>)
    requires o in multiset(h) && multiset(rest) == multiset(h) - multiset{o}
    requires multiset(h') == multiset(rest) + multiset{o}
    ensures multiset(h') == multiset(h)
  {
  }

  predicate HasID(h: seq<Order>, orderID: string) {
    exists i :: 0 <= i < |h| && h[i].id == orderID
  }

  lemma HoldsEither(bids: seq<Order>, asks: seq<Order>, orderID: string)
    ensures Holds(Book(multiset(bids), multiset(asks)), orderID) <==> HasID(bids, orderID) || HasID(asks, orderID)
  {
    forall i | 0 <= i < |bids|
      ensures bids[i] in multiset(bids)
    {
      assert bids[i] in bids;
    }
    forall i | 0 <= i < |asks|
      ensures asks[i] in multiset(asks)
    {
      assert asks[i] in asks;
    }
  }

  /** One order taken out of its side is a cancellation in the history. */
  lemma CancelledBook(past: seq<Event>, b: Book, order: Order, rest: multiset<Order>)
    requires LegalHistory(past) && b == Replay(past) && order in Side(b, order.isBuy)
    requires rest == Side(b, order.isBuy) - multiset{order}
    ensures Possible(Replay(past), Cancelled(order)) && LegalHistory(past + [Cancelled(order)])
    ensures Replay(past + [Cancelled(order)]) == if order.isBuy then Book(rest, b.asks) else Book(b.bids, rest)
  {
    hide LegalHistory, Replay;
    HistoryExtend(past, Cancelled(order));
  }

  class OrderBook {
    const slotID: string
    var bids: seq<Order>
    var asks: seq<Order>

    ghost predicate Valid()
      reads this
    {
      OrderHeap.Valid(bids, true) && OrderHeap.Valid(asks, false)
    }

    /** The book as plain multisets of orders. */
    ghost function Contents(): Book
      reads this
    {
      Book(multiset(bids), multiset(asks))
    }

    /** Both sides are heaps that hold exactly what these events leave in plain multisets. */
    ghost predicate Tracks(events: seq<Event>)
      reads this
    {
      Valid() && LegalHistory(events) && Contents() == Replay(events)
    }

    constructor (slotID: string)
      ensures Tracks([]) && this.slotID == slotID
    {
      this.slotID := slotID;
      bids, asks := [], [];
    }

    /** Adds the order to its side and to nothing else. */
    method Add(order: Order, ghost past: seq<Event>)
      requires Tracks(past)
      modifies this
      ensures Tracks(past + [Added(order)])
    {
      hide OrderHeap.Valid, LegalHistory, Replay;
      HistoryExtend(past, Added(order));
      if order.isBuy {
        bids := OrderHeap.Push(bids, order);
      } else {
        asks := OrderHeap.Push(asks, order);
      }
    }

    /** One round of the matching loop: pops the two best orders and either fills them or, if they
        do not cross, puts them back. */
    method MatchBest() returns (crossed: bool, f: Fill)
      requires Valid() && bids != [] && asks != []
      modifies this
      ensures Valid()
      ensures crossed ==> Enabled(old(Contents()), f) && Contents() == Apply(old(Contents()), f)
      ensures crossed ==> |bids| + |asks| < old(|bids| + |asks|)
      ensures !crossed ==> Contents() == old(Contents()) && Uncrossed(Contents())
    {
      hide OrderHeap.Valid, OrderHeap.Best, Uncrossed, BestBid, BestAsk, Rest, Apply;
      var bid, ask, restBids, restAsks;
      restBids, bid := OrderHeap.Pop(bids, true);
      restAsks, ask := OrderHeap.Pop(asks, false);
      BestOfHeaps(bids, asks, bid, ask);
      var qty := if ask.quantity < bid.quantity then ask.quantity else bid.quantity;
      f := Fill(bid, ask, qty);
      crossed := bid.price >= ask.price;
      if crossed {
        restBids := PushRest(restBids, bid, qty);
        restAsks := PushRest(restAsks, ask, qty);
        FilledHeaps(bids, asks, f, restBids, restAsks);
        assert Enabled(Contents(), f);
        bids, asks := restBids, restAsks;
      } else {
        BestAreThere(bids, asks, bid, ask);
        ghost var bids', asks' := restBids, restAsks;
        restBids := OrderHeap.Push(restBids, bid);
        restAsks := OrderHeap.Push(restAsks, ask);
        PoppedAndPushed(bids, bids', bid, restBids);
        PoppedAndPushed(asks, asks', ask, restAsks);
        bids, asks := restBids, restAsks;
      }
    }

    /** The greedy matching loop performs a legal run and leaves the book uncrossed. */
    method MatchOrders() returns (matches: seq<MatchedOrder>, ghost fills: seq<Fill>)
      requires Valid()
      modifies this
      ensures Valid()
      ensures Legal(old(Contents()), fills) && Contents() == After(old(Contents()), fills)
      ensures Uncrossed(Contents())
      ensures matches == Records(fills) && Accounts(old(Contents()), matches, Contents())
    {
      hide OrderHeap.Valid, Apply, Enabled, Accounts;
      matches, fills := [], [];
      while |bids| > 0 && |asks| > 0
        invariant Valid() && Legal(old(Contents()), fills) && Contents() == After(old(Contents()), fills)
        invariant matches == Records(fills)
        decreases |bids| + |asks|
      {
        var crossed, f := MatchBest();
        if !crossed {
          break;
        }
        LegalExtend(old(Contents()), fills, f);
        matches := matches + [Record(f)];
        fills := fills + [f];
      }
      MatchesAccount(old(Contents()), fills);
    }

    method RunMatching(ghost past: seq<Event>) returns (matches: seq<MatchedOrder>, ghost fills: seq<Fill>)
      requires Tracks(past)
      modifies this
      ensures Tracks(past + [Auctioned(fills)])
      ensures Possible(Replay(past), Auctioned(fills)) && matches == Records(fills)
      ensures Accounts(Replay(past), matches, Replay(past + [Auctioned(fills)]))
    {
      hide OrderBook.Valid, LegalHistory, Replay, Records, Legal, After, Uncrossed, Accounts;
      matches, fills := MatchOrders();
      HistoryExtend(past, Auctioned(fills));
    }

    /** Removes the first order with this ID, looking through the bids before the asks. */
    method Cancel(orderID: string, ghost past: seq<Event>) returns (found: bool, ghost order: Order)
      requires Tracks(past)
      modifies this
      ensures found <==> Holds(Replay(past), orderID)
      ensures found ==>
        order.id == orderID && Possible(Replay(past), Cancelled(order)) && Tracks(past + [Cancelled(order)])
      ensures !found ==> Tracks(past)
    {
      hide OrderHeap.Valid, LegalHistory, Replay, Possible, Holds, HasID;
      HoldsEither(bids, asks, orderID);
      var rest;
      found, rest, order := Splice(bids, orderID, true);
      if found {
        CancelledBook(past, Contents(), order, multiset(rest));
        bids := rest;
        return;
      }
      found, rest, order := Splice(asks, orderID, false);
      if found {
        CancelledBook(past, Contents(), order, multiset(rest));
        asks := rest;
      }
    }
  }

  /** Cuts the first order with this ID out of the slice and rebuilds the heap. */
  method Splice(h: seq<Order>, orderID: string, ghost isBuy: bool)
    returns (found: bool, r: seq<Order>, ghost order: Order)
    requires OrderHeap.Valid(h, isBuy)
    ensures OrderHeap.Valid(r, isBuy)
    ensures found <==> HasID(h, orderID)
    ensures found ==> order in multiset(h) && order.id == orderID && order.isBuy == isBuy
                      && multiset(r) == multiset(h) - multiset{order}
    ensures !found ==> r == h
  {
    hide OrderHeap.HeapOrdered, OrderHeap.OneSided;
    var i := 0;
    while i < |h| && h[i].id != orderID
      invariant 0 <= i <= |h| && forall k :: 0 <= k < i ==> h[k].id != orderID
    {
      i := i + 1;
    }
    order := Order("", "", 0.0, 0, isBuy, "");
    found, r := i < |h|, h;
    if found {
      order := h[i];
      CutOut(h, i, isBuy);
      r := OrderHeap.Init(h[..i] + h[i + 1..], isBuy);
    }
  }

  lemma CutOut(h: seq<Order>, i: nat, isBuy: bool)
    requires i < |h| && OrderHeap.OneSided(h, isBuy)
    ensures h[i] in multiset(h) && h[i].isBuy == isBuy
    ensures multiset(h[..i] + h[i + 1..]) == multiset(h) - multiset{h[i]}
    ensures OrderHeap.OneSided(h[..i] + h[i + 1..], isBuy)
  {
    assert h[i].isBuy == isBuy;
    hide OrderHeap.OneSided;
    assert h == h[..i] + [h[i]] + h[i + 1..];
    assert h[i] in h;
    OrderHeap.OneSidedMultiset(h, h[..i] + h[i + 1..], isBuy);
  }

  const TWO_TO_THE_32: int := 0x1_0000_0000

  datatype BatchAuctionResult = BatchAuctionResult(
    slotID: string,
    clearingPrice: real,
    totalVolume: Uint64,
    matchedOrders: int,
    winners: seq<MatchedOrder>)

  /** Match prices come out nondecreasing, so sorting them does not change the median. */
  lemma MatchPricesNondecreasing(b: Book, fills: seq<Fill>)
    requires Legal(b, fills)
    ensures Nondecreasing(Records(fills))
  {
    hide Legal;
    forall i, j | 0 <= i <= j < |fills|
      ensures Records(fills)[i].price <= Records(fills)[j].price
    {
      BestFirst(b, fills, i, j);
    }
  }

  /** A match names a resting bid, with its advertiser, and a resting ask; it trades at the ask's price,
      which the bid accepts, for no more than either offered. */
  lemma MatchesNameOrders(b: Book, fills: seq<Fill>, i: nat) returns (x: Order, y: Order)
    requires Legal(b, fills) && i < |fills|
    ensures x in b.bids && y in b.asks
    ensures var m := Records(fills)[i];
      && m.buyOrderID == x.id && m.advertiser == x.advertiser && m.sellOrderID == y.id
      && m.price == y.price <= x.price && m.quantity <= x.quantity && m.quantity <= y.quantity
  {
    hide Legal;
    x, y := FillsNameOrders(b, fills, i);
  }

  class PureGoEngine {
    var orderBooks: map<string, OrderBook>
    var totalOrders: Uint64
    var totalAuctions: Uint64
    var totalVolume: Uint64
    /** Everything that happened to each book. */
    ghost var history: map<string, seq<Event>>

    ghost function Books(): set<OrderBook>
      reads this`orderBooks
    {
      set s | s in orderBooks :: orderBooks[s]
    }

    /** Each side is a heap, and each book holds exactly what its history leaves in a plain multiset. */
    ghost predicate Valid()
      reads this`orderBooks, this`history, Books()
    {
      && history.Keys == orderBooks.Keys
      && forall s :: s in orderBooks ==>
           orderBooks[s] in Books() && orderBooks[s].slotID == s && orderBooks[s].Tracks(history[s])
    }

    constructor ()
      ensures Valid() && orderBooks == map[] && totalOrders == totalAuctions == totalVolume == 0
    {
      orderBooks, history := map[], map[];
      totalOrders, totalAuctions, totalVolume := 0, 0, 0;
    }

    ghost function PastOf(slotID: string): seq<Event>
      reads this`history
    {
      if slotID in history then history[slotID] else []
    }

    /** The book of a slot, created empty if there is none yet. */
    method BookFor(slotID: string) returns (book: OrderBook)
      requires Valid()
      modifies this`orderBooks, this`history
      ensures Valid() && fresh(Books() - old(Books()))
      ensures slotID in orderBooks && book == orderBooks[slotID] && book in Books()
      ensures history == old(history)[slotID := old(PastOf(slotID))]
    {
      hide OrderBook.Tracks;
      if slotID in orderBooks {
        book := orderBooks[slotID];
      } else {
        book := new OrderBook(slotID);
        orderBooks := orderBooks[slotID := book];
        history := history[slotID := []];
      }
    }

    method AddTo(book: OrderBook, order: Order, ghost past: seq<Event>)
      requires Valid() && order.slot in orderBooks && book == orderBooks[order.slot] && history[order.slot] == past
      modifies this`history, book
      ensures Valid() && Books() == old(Books()) && history == old(history)[order.slot := past + [Added(order)]]
    {
      hide OrderBook.Tracks;
      book.Add(order, past);
      history := history[order.slot := past + [Added(order)]];
    }

    method AddOrder(order: Order)
      requires Valid()
      modifies this, Books()
      ensures Valid() && fresh(Books() - old(Books()))
      ensures history == old(history)[order.slot := old(PastOf(order.slot)) + [Added(order)]]
      ensures totalOrders == Add64(old(totalOrders), 1)
      ensures totalAuctions == old(totalAuctions) && totalVolume == old(totalVolume)
    {
      hide PureGoEngine.Valid, PureGoEngine.Books, Add64;
      ghost var past := PastOf(order.slot);
      var book := BookFor(order.slot);
      AddTo(book, order, past);
      totalOrders := Add64(totalOrders, 1);
    }

    /** A batch auction. The decay factor, between 0.1 and 1, is a parameter. */
    method RunBatchAuction(slotID: string, decay: real) returns (result: BatchAuctionResult, ghost fills: seq<Fill>)
      requires Valid() && 0.1 <= decay <= 1.0
      modifies this, Books()
      ensures Valid() && orderBooks == old(orderBooks) && totalOrders == old(totalOrders)
      ensures slotID !in orderBooks ==>
        && result == BatchAuctionResult(slotID, 0.0, 0, 0, [])
        && history == old(history) && totalAuctions == old(totalAuctions) && totalVolume == old(totalVolume)
      ensures slotID in orderBooks ==>
        && history == old(history)[slotID := old(history[slotID]) + [Auctioned(fills)]]
        && Possible(Replay(old(history[slotID])), Auctioned(fills))
        && Accounts(Replay(old(history[slotID])), Records(fills), Replay(history[slotID]))
        && IsOutcome(result, slotID, Records(fills), decay)
        && totalAuctions == Add64(old(totalAuctions), 1)
        && totalVolume == Add64(old(totalVolume), result.totalVolume)
    {
      hide OrderBook.Tracks, Replay, Possible, Records, Accounts, IsOutcome, Add64;
      fills := [];
      if slotID !in orderBooks {
        return BatchAuctionResult(slotID, 0.0, 0, 0, []), [];
      }
      var book := orderBooks[slotID];
      ghost var past := history[slotID];
      var matches;
      matches, fills := book.RunMatching(past);
      result := Clear(slotID, matches, decay);
      totalAuctions := Add64(totalAuctions, 1);
      totalVolume := Add64(totalVolume, result.totalVolume);
      history := history[slotID := past + [Auctioned(fills)]];
    }

    method CancelIn(slotID: string, orderID: string) returns (found: bool, ghost order: Order)
      requires Valid() && slotID in orderBooks
      modifies this`history, orderBooks[slotID]
      ensures Valid()
      ensures found <==> Holds(Replay(old(history)[slotID]), orderID)
      ensures found ==>
        && order.id == orderID && Possible(Replay(old(history)[slotID]), Cancelled(order))
        && history == old(history)[slotID := old(history)[slotID] + [Cancelled(order)]]
      ensures !found ==> history == old(history)
    {
      hide OrderBook.Tracks, Replay, Possible, Holds;
      var book := orderBooks[slotID];
      found, order := book.Cancel(orderID, history[slotID]);
      if found {
        history := history[slotID := history[slotID] + [Cancelled(order)]];
      }
    }

    /** Cancels one order with this ID, in whichever book it is found first; fails, and changes
        nothing, exactly if no book holds such an order. */
    method CancelOrder(orderID: string) returns (ok: bool, ghost slotID: string, ghost order: Order)
      requires Valid()
      modifies this, Books()
      ensures Valid() && orderBooks == old(orderBooks)
      ensures totalOrders == old(totalOrders) && totalAuctions == old(totalAuctions) && totalVolume == old(totalVolume)
      ensures ok <==> exists s :: s in orderBooks && Holds(Replay(old(history)[s]), orderID)
      ensures ok ==>
        && order.id == orderID && slotID in orderBooks
        && Possible(Replay(old(history)[slotID]), Cancelled(order))
        && history == old(history)[slotID := old(history)[slotID] + [Cancelled(order)]]
      ensures !ok ==> history == old(history)
    {
      hide OrderBook.Tracks, Replay, Possible, Holds;
      ok, slotID, order := false, "", Order("", "", 0.0, 0, true, "");
      var rest := orderBooks.Keys;
      while rest != {}
        invariant Valid() && rest <= orderBooks.Keys && orderBooks == old(orderBooks) && history == old(history)
        invariant totalOrders == old(totalOrders) && totalAuctions == old(totalAuctions)
        invariant totalVolume == old(totalVolume)
        invariant forall s :: s in orderBooks && s !in rest ==> !Holds(Replay(history[s]), orderID)
        decreases |rest|
      {
        var s :| s in rest;
        ok, order := CancelIn(s, orderID);
        if ok {
          slotID := s;
          return;
        }
        rest := rest - {s};
      }
    }

    /** The price levels of a slot; empty for an unknown slot. */
    method GetOrderBook(slotID: string) returns (bids: seq<PriceLevel>, asks: seq<PriceLevel>)
      requires Valid()
      ensures slotID !in orderBooks ==> bids == [] && asks == []
      ensures slotID in orderBooks ==> Lists(bids, orderBooks[slotID].bids) && Lists(asks, orderBooks[slotID].asks)
      ensures slotID in orderBooks && Uncrossed(Replay(history[slotID])) ==>
        forall x, y :: x in bids && y in asks ==> x.price < y.price
      ensures slotID in orderBooks && orderBooks[slotID].bids != [] ==>
        bids != [] && bids[0].price == orderBooks[slotID].bids[0].price
      ensures slotID in orderBooks && orderBooks[slotID].asks != [] ==>
        asks != [] && asks[0].price == orderBooks[slotID].asks[0].price
    {
      hide OrderHeap.Valid, LegalHistory, Replay, Lists, Uncrossed;
      bids, asks := [], [];
      if slotID in orderBooks {
        var book := orderBooks[slotID];
        bids := AggregatePriceLevels(book.bids);
        asks := AggregatePriceLevels(book.asks);
        if book.bids != [] {
          TopLevelIsRoot(book.bids, true, bids);
        }
        if book.asks != [] {
          TopLevelIsRoot(book.asks, false, asks);
        }
        if Uncrossed(book.Contents()) {
          SnapshotUncrossed(book.bids, book.asks, bids, asks);
        }
      }
    }
  }

  /** What an auction reports about its matches. */
  ghost predicate IsOutcome(r: BatchAuctionResult, slotID: string, matches: seq<MatchedOrder>, decay: real) {
    && r.slotID == slotID
    && (matches == [] ==> r.clearingPrice == 0.0)
    && (matches != [] ==> exists m :: IsMedian(Prices(matches), m) && r.clearingPrice == m * decay)
    && r.winners == Winners(matches, r.clearingPrice)
    && r.totalVolume == TotalQuantity(r.winners) % TWO_TO_THE_64
    && r.matchedOrders == |r.winners| % TWO_TO_THE_32
  }

  method Clear(slotID: string, matches: seq<MatchedOrder>, decay: real) returns (r: BatchAuctionResult)
    ensures IsOutcome(r, slotID, matches, decay)
  {
    hide IsMedian;
    var median := CalculateClearingPrice(matches);
    var clearing := median * decay;
    var winners, volume := SelectWinners(matches, clearing);
    r := BatchAuctionResult(slotID, clearing, volume, |winners| % TWO_TO_THE_32, winners);
  }

  /** What every auction on every reachable book reports: the clearing price is the decayed price of
      the middle match, the winners are a suffix of the matches, and for a nonnegative median they
      are at least half of them. The reported volume, a uint64, is what the run traded from the first
      winner on; if all matches win it is the most that could trade at a single price. */
  lemma AuctionOutcome(b: Book, fills: seq<Fill>, r: BatchAuctionResult, slotID: string, decay: real) returns (k: nat)
    requires Legal(b, fills) && fills != [] && 0.1 <= decay <= 1.0
    requires IsOutcome(r, slotID, Records(fills), decay)
    ensures r.slotID == slotID && r.matchedOrders == (|fills| - k) % TWO_TO_THE_32
    ensures r.clearingPrice == fills[|fills| / 2].ask.price * decay
    ensures k <= |fills| && r.winners == Records(fills)[k..]
    ensures k <= |fills| / 2 <==> fills[|fills| / 2].ask.price >= 0.0 || decay == 1.0
    ensures fills[|fills| / 2].ask.price >= 0.0 ==> 2 * |r.winners| >= |fills|
    ensures r.totalVolume == (Volume(fills) - Volume(fills[..k])) % TWO_TO_THE_64
    ensures k == 0 && Uncrossed(After(b, fills)) ==> exists p: real :: r.totalVolume == TradableAt(b, p) % TWO_TO_THE_64
  {
    hide Legal, IsMedian, Winners, TotalQuantity, Nondecreasing, Volume, After, Uncrossed, TradableAt;
    var matches := Records(fills);
    MatchPricesNondecreasing(b, fills);
    var m :| IsMedian(Prices(matches), m) && r.clearingPrice == m * decay;
    MedianIsMiddleMatch(matches, m);
    k := AtLeastHalfWin(matches, m, decay);
    VolumeFrom(fills, k);
    if k == 0 && Uncrossed(After(b, fills)) {
      NothingTraded(fills);
      GreedyIsOptimal(b, fills);
    }
  }

  /** An auction on a book that does not cross, and only such a one, matches nothing; it reports zeros and
      leaves the book as it was. */
  lemma EmptyAuction(b: Book, fills: seq<Fill>, r: BatchAuctionResult, slotID: string, decay: real)
    requires Possible(b, Auctioned(fills)) && IsOutcome(r, slotID, Records(fills), decay)
    ensures fills == [] <==> Uncrossed(b)
    ensures Uncrossed(b) ==> r == BatchAuctionResult(slotID, 0.0, 0, 0, []) && After(b, fills) == b
  {
    hide Apply, IsMedian;
    if fills != [] {
      FillsNameBook(b, fills);
    }
  }

  lemma FillsNameBook(b: Book, fills: seq<Fill>)
    requires Legal(b, fills) && fills != []
    ensures !Uncrossed(b)
  {
    hide Legal;
    var x, y := FillsNameOrders(b, fills, 0);
  }

  /** The snapshot of a side that holds orders begins with the price of its heap's root, and gets strictly
      worse from there. */
  lemma TopLevelIsRoot(h: seq<Order>, isBuy: bool, levels: seq<PriceLevel>)
    requires OrderHeap.Valid(h, isBuy) && h != [] && Lists(levels, h)
    ensures levels != [] && levels[0].price == h[0].price
    ensures forall i, j :: 0 <= i < j < |levels| ==>
      if isBuy then levels[j].price < levels[i].price else levels[i].price < levels[j].price
  {
    hide LevelOf;
    OrderHeap.RootIsBestOfAll(h);
    assert HasPrice(h, h[0].price) by { assert h[0] in h; }
    assert LevelOf(h, h[0].price).price == h[0].price by { LevelPrice(h, h[0].price); }
    assert LevelOf(h, h[0].price) in levels;
    var first := levels[0];
    assert HasPrice(h, first.price);
    var o :| o in h && o.price == first.price;
    assert o in multiset(h) && h[0].isBuy == isBuy == o.isBuy;
    assert OrderHeap.Rank(h[0]) <= OrderHeap.Rank(o);
    var k :| 0 <= k < |levels| && levels[k] == LevelOf(h, h[0].price);
    assert k > 0 ==> Before(isBuy, first, levels[k]);
  }

  lemma LevelPrice(h: seq<Order>, p: real)
    ensures LevelOf(h, p).price == p
  {
  }

  lemma NothingTraded(fills: seq<Fill>)
    ensures Volume(fills[..0]) == 0
  {
  }

  /** Later matches trade what the run traded less what it traded before them. */
  lemma {:induction false} VolumeFrom(fills: seq<Fill>, k: nat)
    requires k <= |fills|
    ensures TotalQuantity(Records(fills)[k..]) == Volume(fills) - Volume(fills[..k])
    decreases |fills|
  {
    if k < |fills| {
      var n := |fills| - 1;
      VolumeFrom(fills[..n], k);
      RecordsPrefix(fills, n);
      assert Records(fills)[k..][..n - k] == Records(fills[..n])[k..];
      assert fills[..n][..k] == fills[..k];
    } else {
      assert fills[..k] == fills;
    }
  }

  ghost predicate Holds(b: Book, orderID: string) {
    exists o :: (o in b.bids || o in b.asks) && o.id == orderID
  }
}
