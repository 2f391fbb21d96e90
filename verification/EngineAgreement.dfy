/** The two implementations of the matching loop, side by side. */
module EngineAgreement {
  import opened Orders
  import opened Matching
  import Engine
  import VectorBook

  /** From equal books the heap loop and the sorted-vector loop trade the same volume and leave the same
      quantity at every price on both sides. */
  method MatchBoth(book: Engine.OrderBook, bidBook: seq<Order>, askBook: seq<Order>)
    returns (bids: seq<Order>, asks: seq<Order>, ghost heapFills: seq<Fill>, ghost vectorFills: seq<Fill>)
    requires book.Valid() && VectorBook.SortedBook(bidBook, askBook)
    requires book.Contents() == VectorBook.Contents(bidBook, askBook)
    modifies book
    ensures Volume(heapFills) == Volume(vectorFills)
    ensures forall p: real :: Quantity(AtPrice(p), multiset(book.bids)) == Quantity(AtPrice(p), multiset(bids))
    ensures forall p: real :: Quantity(AtPrice(p), multiset(book.asks)) == Quantity(AtPrice(p), multiset(asks))
  {
    hide Legal, After, Uncrossed, Quantity, Volume, VectorBook.SortedBook, Engine.OrderBook.Valid;
    ghost var start := book.Contents();
    var matches, count;
    matches, heapFills := book.MatchOrders();
    bids, asks, count, vectorFills := VectorBook.MatchFronts(bidBook, askBook);
    TieBreakingDoesNotMatter(start, heapFills, vectorFills, 0.0);
    forall p: real
      ensures Quantity(AtPrice(p), multiset(book.bids)) == Quantity(AtPrice(p), multiset(bids))
      ensures Quantity(AtPrice(p), multiset(book.asks)) == Quantity(AtPrice(p), multiset(asks))
    {
      TieBreakingDoesNotMatter(start, heapFills, vectorFills, p);
    }
  }
}
