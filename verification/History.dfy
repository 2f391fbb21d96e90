/** What happens to one book over a whole run of the engine. */
module History {
  import opened Orders
  import opened Matching

  datatype Event =
    | Added(order: Order)
    | Auctioned(fills: seq<Fill>)
    | Cancelled(order: Order)

  function Side(b: Book, isBuy: bool): multiset<Order> {
    if isBuy then b.bids else b.asks
  }

  ghost function Happen(b: Book, e: Event): Book {
    match e
    case Added(o) => if o.isBuy then Book(b.bids + multiset{o}, b.asks) else Book(b.bids, b.asks + multiset{o})
    case Auctioned(fills) => After(b, fills)
    case Cancelled(o) => if o.isBuy then Book(b.bids - multiset{o}, b.asks) else Book(b.bids, b.asks - multiset{o})
  }

  ghost predicate Possible(b: Book, e: Event) {
    match e
    case Added(o) => true
    case Auctioned(fills) => Legal(b, fills) && Uncrossed(After(b, fills))
    case Cancelled(o) => o in Side(b, o.isBuy)
  }

  /** The book that a list of events builds from an empty one. */
  ghost function Replay(events: seq<Event>): Book {
    if events == [] then Book(multiset{}, multiset{}) else
    Happen(Replay(events[..|events| - 1]), events[|events| - 1])
  }

  ghost predicate LegalHistory(events: seq<Event>) {
    events == [] ||
    (LegalHistory(events[..|events| - 1]) && Possible(Replay(events[..|events| - 1]), events[|events| - 1]))
  }

  lemma HistoryExtend(events: seq<Event>, e: Event)
    requires LegalHistory(events) && Possible(Replay(events), e)
    ensures LegalHistory(events + [e]) && Replay(events + [e]) == Happen(Replay(events), e)
  {
    assert (events + [e])[..|events + [e]| - 1] == events;
  }

  ghost function AddedBy(c: Cut, e: Event, isBuy: bool): nat {
    if e.Added? && e.order.isBuy == isBuy then Weight(c, e.order) else 0
  }

  ghost function CancelledBy(c: Cut, e: Event, isBuy: bool): nat {
    if e.Cancelled? && e.order.isBuy == isBuy then Weight(c, e.order) else 0
  }

  ghost function FilledBy(c: Cut, e: Event, isBuy: bool): nat {
    if !e.Auctioned? then 0 else if isBuy then FilledBids(c, e.fills) else FilledAsks(c, e.fills)
  }

  ghost function AllAdded(c: Cut, events: seq<Event>, isBuy: bool): nat {
    if events == [] then 0 else
    AllAdded(c, events[..|events| - 1], isBuy) + AddedBy(c, events[|events| - 1], isBuy)
  }

  ghost function AllCancelled(c: Cut, events: seq<Event>, isBuy: bool): nat {
    if events == [] then 0 else
    AllCancelled(c, events[..|events| - 1], isBuy) + CancelledBy(c, events[|events| - 1], isBuy)
  }

  ghost function AllFilled(c: Cut, events: seq<Event>, isBuy: bool): nat {
    if events == [] then 0 else
    AllFilled(c, events[..|events| - 1], isBuy) + FilledBy(c, events[|events| - 1], isBuy)
  }

  lemma EventConservation(c: Cut, b: Book, e: Event, isBuy: bool)
    requires QuantityBlind(c) && Possible(b, e)
    ensures Quantity(c, Side(b, isBuy)) + AddedBy(c, e, isBuy)
         == Quantity(c, Side(Happen(b, e), isBuy)) + FilledBy(c, e, isBuy) + CancelledBy(c, e, isBuy)
  {
    hide Quantity, Legal, After, FilledBids, FilledAsks, Weight;
    match e
    case Added(o) =>
      QuantityAdd(c, Side(b, o.isBuy), o);
    case Auctioned(fills) =>
      Conservation(c, b, fills);
    case Cancelled(o) =>
      QuantityRemove(c, Side(b, o.isBuy), o);
  }

  /** Over every run, on each side and for every selection of orders: all quantity ever added is
      resting, filled or cancelled. */
  lemma {:induction false} RunConservation(c: Cut, events: seq<Event>, isBuy: bool)
    requires QuantityBlind(c) && LegalHistory(events)
    ensures AllAdded(c, events, isBuy)
         == Quantity(c, Side(Replay(events), isBuy)) + AllFilled(c, events, isBuy) + AllCancelled(c, events, isBuy)
    decreases |events|
  {
    hide Happen, Possible, AddedBy, CancelledBy, FilledBy;
    if events != [] {
      var n := |events| - 1;
      RunConservation(c, events[..n], isBuy);
      EventConservation(c, Replay(events[..n]), events[n], isBuy);
    }
  }
}
