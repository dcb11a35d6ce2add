/**
 * Entities of the auction backend (internal/model) and the small vocabulary the
 * services share: optional values, results, error kinds and store faults.
 * Timestamps are integer ticks of one second; the caller passes the clock in.
 */
module Model {

  datatype Option<+T> = None | Some(value: T)

  /** The errors the services return; each names the Go error it stands for. */
  datatype Error =
    | AuctionClosed   // "auction already closed"
    | BidTooLow       // "bid too low"
    | AuctionNotFound // gorm.ErrRecordNotFound, "auction not found", "auction %d not found"
    | InvalidRequest  // "invalid request"
    | Forbidden       // "forbidden: not owner"
    | Unauthorized    // "unauthorized"
    | StoreError      // any other database error

  datatype Result<+T> = Ok(value: T) | Err(error: Error)

  /**
   * Which store call fails, if any. The database is outside the model, so a
   * failing call is a parameter: ReadFault is the first read of an operation,
   * WriteFault its first write, InsertFault and CommitFault the bid insert and
   * the commit of the bid transaction.
   */
  datatype Fault = NoFault | ReadFault | WriteFault | InsertFault | CommitFault

  /** An auction row (internal/model/auction.go); the Seller and Bids associations are left out. */
  datatype Auction = Auction(
    id: nat,
    title: string,
    description: string,
    startPrice: int,
    createdAt: int,
    endAt: int,
    sellerId: nat,
    maker: string,
    modelName: string,
    mileage: int,
    year: int,
    photoUrl: string)

  /** A bid row (internal/model/bid.go). */
  datatype Bid = Bid(id: nat, auctionId: nat, userId: nat, amount: int, createdAt: int)

  /** The payload PlaceBid broadcasts: the stored bid and the auction's end time after extension. */
  datatype Event = BidEvent(bid: Bid, newEndAt: int)

  const Minute: int := 60

  /** The anti-snipe window: five minutes. */
  const ExtensionWindow: int := 5 * Minute
}
