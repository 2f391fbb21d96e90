/** Orders and matches of the ad-slot exchange, with Go's unsigned 64-bit quantities. */
module Orders {
  import opened Numbers

  /** An order as it rests in a book. Prices are exact. */
  datatype Order = Order(
    id: string,
    slot: string,
    price: real,
    quantity: Uint64,
    isBuy: bool,
    advertiser: string)

  datatype MatchedOrder = MatchedOrder(
    buyOrderID: string,
    sellOrderID: string,
    advertiser: string,
    price: real,
    quantity: Uint64)
}
