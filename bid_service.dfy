/**
 * Bid placement (internal/service/bid_service.go). PlaceBid runs as one
 * transaction under the auction's row lock, so it is one atomic step over the
 * store; its writes are staged in local copies that the commit publishes
 * (rollback discards them). The clock reading time.Now() is the parameter now.
 */
module Bidding {
  import opened Model
  import opened Repo
  import opened Paging
  import opened Ws

  /** now.After(EndAt): an auction is closed strictly after its end time. */
  predicate Closed(endAt: int, now: int) {
    now > endAt
  }

  /** An accepted bid falls in the anti-snipe window when at most five minutes remain. */
  predicate InWindow(endAt: int, now: int) {
    endAt - now <= ExtensionWindow
  }

  /**
   * The end time after an accepted bid: max(endAt, now + 5 minutes). A bid
   * inside the window pushes the end to five minutes after the bid; the end
   * never moves earlier, and at least five minutes remain after every bid.
   */
  function ExtendedEnd(endAt: int, now: int): (r: int)
    ensures r >= endAt
    ensures r >= now + ExtensionWindow
    ensures r == endAt || r == now + ExtensionWindow
  {
    if InWindow(endAt, now) then now + ExtensionWindow else endAt
  }

  /** What an accepted bid produces: the bid row and the end time broadcast with it. */
  datatype Placement = Placement(bid: Bid, newEndAt: int)

  /**
   * The outcome of PlaceBid from the store it starts in. The checks run in
   * order: row lock and load, closed, too low (against the start price only,
   * never an earlier bid), then the end_at update (only inside the window),
   * the insert and the commit; any failure leaves nothing behind.
   */
  function Attempt(auctions: seq<Auction>, nextBidId: nat, auctionId: nat, userId: nat, amount: int, now: int, fault: Fault): (r: Result<Placement>)
    ensures fault == ReadFault ==> r == Err(StoreError)
    ensures r == Err(AuctionNotFound) <==> fault != ReadFault && Lookup(auctions, auctionId).None?
    ensures r == Err(StoreError) <==>
      || fault == ReadFault
      || (&& Lookup(auctions, auctionId).Some?
          && var a := Lookup(auctions, auctionId).value;
          && !Closed(a.endAt, now) && amount > a.startPrice
          && (fault == InsertFault || fault == CommitFault || (fault == WriteFault && InWindow(a.endAt, now))))
    ensures r == Err(AuctionClosed) <==>
      fault != ReadFault && Lookup(auctions, auctionId).Some? && Closed(Lookup(auctions, auctionId).value.endAt, now)
    ensures r == Err(BidTooLow) <==>
      && fault != ReadFault && Lookup(auctions, auctionId).Some?
      && !Closed(Lookup(auctions, auctionId).value.endAt, now)
      && amount <= Lookup(auctions, auctionId).value.startPrice
    ensures r.Ok? <==>
      && fault != ReadFault && fault != InsertFault && fault != CommitFault
      && Lookup(auctions, auctionId).Some?
      && var a := Lookup(auctions, auctionId).value;
      && !Closed(a.endAt, now) && amount > a.startPrice
      && (fault == WriteFault ==> !InWindow(a.endAt, now))
    ensures r.Ok? ==>
      && r.value.bid == Bid(nextBidId, auctionId, userId, amount, now)
      && r.value.newEndAt == ExtendedEnd(Lookup(auctions, auctionId).value.endAt, now)
  {
    if fault == ReadFault then Err(StoreError)
    else match Lookup(auctions, auctionId) {
      case None => Err(AuctionNotFound)
      case Some(a) =>
        if Closed(a.endAt, now) then Err(AuctionClosed)
        else if amount <= a.startPrice then Err(BidTooLow)
        else if InWindow(a.endAt, now) && fault == WriteFault then Err(StoreError)
        else if fault == InsertFault || fault == CommitFault then Err(StoreError)
        else Ok(Placement(Bid(nextBidId, auctionId, userId, amount, now), ExtendedEnd(a.endAt, now)))
    }
  }

  /** Replays accepted bids at the given times on one auction's end time. */
  function EndAfter(endAt: int, times: seq<int>): (e: int)
    decreases |times|
  {
    if |times| == 0 then endAt else EndAfter(ExtendedEnd(endAt, times[0]), times[1..])
  }

  /**
   * However many bids are accepted, and whenever, the end time never moves
   * earlier; after at least one bid it lies five minutes or more after the
   * last one. There is no cap on the number of extensions.
   */
  lemma {:induction false} EndAfterMonotone(endAt: int, times: seq<int>)
    ensures EndAfter(endAt, times) >= endAt
    ensures |times| > 0 ==> EndAfter(endAt, times) >= times[|times| - 1] + ExtensionWindow
    decreases |times|
  {
    if |times| > 0 {
      var next := ExtendedEnd(endAt, times[0]);
      EndAfterMonotone(next, times[1..]);
      if |times| > 1 {
        assert times[1..][|times[1..]| - 1] == times[|times| - 1];
      }
    }
  }

  class BidService {
    const store: Store
    const hub: Hub

    constructor (store: Store, hub: Hub)
      ensures this.store == store && this.hub == hub
    {
      this.store := store;
      this.hub := hub;
    }

    /**
     * The transaction of PlaceBid, from locking and loading the auction
     * through the commit decision: check it, stage the end time extension and
     * the bid insert, and decide the commit. It returns the outcome and the staged tables; the store
     * itself is not touched, so a rollback has nothing to undo.
     */
    method Transact(auctionId: nat, userId: nat, amount: int, now: int, fault: Fault)
      returns (p: Result<Placement>, txAuctions: seq<Auction>, txBids: seq<Bid>)
      requires store.Valid()
      ensures p == Attempt(store.auctions, store.nextBidId, auctionId, userId, amount, now, fault)
      ensures p.Ok? ==>
        && txAuctions == WithEndAt(store.auctions, auctionId, p.value.newEndAt)
        && txBids == store.bids + [p.value.bid] && p.value.bid.id == store.nextBidId
    {
      txAuctions, txBids := store.auctions, store.bids;
      // SELECT ... FOR UPDATE on the auction row
      if fault == ReadFault {
        return Err(StoreError), txAuctions, txBids;
      }
      var k := IndexOf(store.auctions, auctionId);
      if k.None? {
        return Err(AuctionNotFound), txAuctions, txBids;
      }
      var auc := store.auctions[k.value];
      assert Lookup(store.auctions, auctionId) == Some(auc);
      if now > auc.endAt {
        return Err(AuctionClosed), txAuctions, txBids;
      }
      if amount <= auc.startPrice {
        return Err(BidTooLow), txAuctions, txBids;
      }
      if auc.endAt - now <= 5 * Minute {
        var newEnd := now + 5 * Minute;
        if fault == WriteFault {
          return Err(StoreError), txAuctions, txBids;
        }
        txAuctions := txAuctions[k.value := auc.(endAt := newEnd)];
        auc := auc.(endAt := newEnd);
      }
      var bid := Bid(store.nextBidId, auctionId, userId, amount, now);
      if fault == InsertFault {
        return Err(StoreError), txAuctions, txBids;
      }
      txBids := txBids + [bid];
      if fault == CommitFault {
        return Err(StoreError), txAuctions, txBids;
      }
      UpdateAtIndex(store.auctions, k.value, auc.endAt);
      p := Ok(Placement(bid, auc.endAt));
    }

    /**
     * Places a bid of amount by userId on auctionId at time now. On success the
     * auction's new end time and the bid are committed together and then, once,
     * the event (bid, new end time) goes to every viewer of that auction; on any
     * failure the store and the hub are as they were.
     */
    method PlaceBid(auctionId: nat, userId: nat, amount: int, now: int, fault: Fault) returns (r: Result<Bid>)
      requires store.Valid() && hub.Valid()
      modifies store, hub, hub.Members(auctionId)
      ensures store.Valid() && hub.Valid()
      ensures var p := Attempt(old(store.auctions), old(store.nextBidId), auctionId, userId, amount, now, fault);
        && r == (if p.Ok? then Ok(p.value.bid) else Err(p.error))
        && (p.Ok? ==>
          && store.auctions == WithEndAt(old(store.auctions), auctionId, p.value.newEndAt)
          && store.bids == old(store.bids) + [p.value.bid]
          && store.nextBidId == old(store.nextBidId) + 1
          && hub.topics == (if auctionId in old(hub.topics)
                            then old(hub.topics)[auctionId := old(Survivors(hub.topics[auctionId]))]
                            else old(hub.topics))
          && forall c :: c in old(hub.Members(auctionId)) ==> Delivered(c, old(c.send), BidEvent(p.value.bid, p.value.newEndAt)))
        && (p.Err? ==>
          && store.auctions == old(store.auctions) && store.bids == old(store.bids)
          && store.nextBidId == old(store.nextBidId)
          && hub.topics == old(hub.topics)
          && forall c :: c in old(hub.Members(auctionId)) ==> c.send == old(c.send) && c.closed == old(c.closed))
      ensures store.nextAuctionId == old(store.nextAuctionId)
    {
      var p, txAuctions, txBids := Transact(auctionId, userId, amount, now, fault);
      if p.Err? {
        return Err(p.error);
      }
      Publish(auctionId, p.value, txAuctions, txBids);
      r := Ok(p.value.bid);
    }

    /**
     * The rest of an accepted bid, commit then broadcast: the commit makes the
     * staged tables the store's, then the event goes once to the auction's viewers.
     */
    method Publish(auctionId: nat, p: Placement, txAuctions: seq<Auction>, txBids: seq<Bid>)
      requires store.Valid() && hub.Valid()
      requires txAuctions == WithEndAt(store.auctions, auctionId, p.newEndAt)
      requires txBids == store.bids + [p.bid] && p.bid.id == store.nextBidId
      modifies store, hub, hub.Members(auctionId)
      ensures store.Valid() && hub.Valid()
      ensures store.auctions == txAuctions && store.bids == txBids
      ensures store.nextBidId == old(store.nextBidId) + 1 && store.nextAuctionId == old(store.nextAuctionId)
      ensures hub.topics == if auctionId in old(hub.topics)
                            then old(hub.topics)[auctionId := old(Survivors(hub.topics[auctionId]))]
                            else old(hub.topics)
      ensures forall c :: c in old(hub.Members(auctionId)) ==> Delivered(c, old(c.send), BidEvent(p.bid, p.newEndAt))
    {
      store.auctions, store.bids, store.nextBidId := txAuctions, txBids, store.nextBidId + 1;
      hub.Broadcast(auctionId, BidEvent(p.bid, p.newEndAt));
    }

    /**
     * One page of an auction's bids, newest first, and how many bids it has.
     * page < 1 reads as 1 and size < 1 as 10; the page starts at row (page - 1) * size.
     */
    method PaginatedBids(auctionId: nat, page: int, size: int, fault: Fault) returns (r: Result<Listing<Bid>>)
      ensures r.Err? <==> fault == ReadFault
      ensures r.Err? ==> r.error == StoreError
      ensures r.Ok? ==>
        var n := Normalize(page, size);
        && r.value.items == Window(NewestBidsOf(store.bids, auctionId), Offset(n.page, n.size), n.size)
        && r.value.total == |NewestBidsOf(store.bids, auctionId)|
      ensures r.Ok? ==> |r.value.items| <= Normalize(page, size).size
      ensures r.Ok? ==> forall b :: b in r.value.items ==> b in store.bids && b.auctionId == auctionId
      ensures r.Ok? ==> r.value.total == |BidIndices(store.bids, auctionId)|
      ensures r.Ok? && store.Valid() ==> DescendingBidKeys(r.value.items)
    {
      var p, s := page, size;
      if p < 1 {
        p := 1;
      }
      if s < 1 {
        s := 10;
      }
      var offset := Offset(p, s); // (page - 1) * size
      if fault == ReadFault {
        return Err(StoreError);
      }
      var listing := NewestBidsOf(store.bids, auctionId);
      NewestBidsCount(store.bids, auctionId);
      if store.Valid() {
        NewestBidsDescending(store.bids, auctionId);
      }
      r := Ok(Listing(Window(listing, offset, s), |listing|));
    }
  }

  /**
   * Twelve bids on one auction read with page=2, size=5 give a page of five
   * and a total of twelve (tests/integration/api_test.go:118-132).
   */
  lemma SecondPageOfTwelve(bids: seq<Bid>, auctionId: nat)
    requires |bids| == 12
    requires forall i :: 0 <= i < |bids| ==> bids[i].auctionId == auctionId
    ensures |NewestBidsOf(bids, auctionId)| == 12
    ensures |Window(NewestBidsOf(bids, auctionId), Offset(2, 5), 5)| == 5
  {
    NewestBidsAllOf(bids, auctionId);
  }

  /** A bid exactly at the end time is still accepted, and it extends the auction by five minutes. */
  lemma BidAtEndTimeIsAccepted(auctions: seq<Auction>, nextBidId: nat, auctionId: nat, userId: nat, amount: int)
    requires Lookup(auctions, auctionId).Some?
    requires amount > Lookup(auctions, auctionId).value.startPrice
    ensures var now := Lookup(auctions, auctionId).value.endAt;
      Attempt(auctions, nextBidId, auctionId, userId, amount, now, NoFault)
        == Ok(Placement(Bid(nextBidId, auctionId, userId, amount, now), now + ExtensionWindow))
  {
  }

  /**
   * An auction with start price 100 that ends at 600: a bid of 150 at 0 keeps
   * the end time, a bid of 90 is too low, and a bid of 200 at 360, with four
   * minutes left, moves the end to 660, after which a bid at 661 is refused.
   */
  method AntiSnipeScenario()
  {
    var store := new Store();
    var hub := new Hub();
    var a := Auction(1, "car", "", 100, 0, 600, 7, "maker", "model", 0, 2020, "");
    store.auctions, store.nextAuctionId := [a], 2;
    var svc := new BidService(store, hub);
    var r1 := svc.PlaceBid(1, 10, 150, 0, NoFault);
    assert r1 == Ok(Bid(1, 1, 10, 150, 0));
    assert store.auctions == [a];
    var r2 := svc.PlaceBid(1, 11, 90, 60, NoFault);
    assert r2 == Err(BidTooLow);
    LateBids(svc, a);
  }

  /** The second half of AntiSnipeScenario: the extension and the refused late bid. */
  method LateBids(svc: BidService, a: Auction)
    requires svc.store.Valid() && svc.hub.Valid()
    requires a == Auction(1, "car", "", 100, 0, 600, 7, "maker", "model", 0, 2020, "")
    requires svc.store.auctions == [a] && |svc.store.bids| == 1
    modifies svc.store, svc.hub, svc.hub.Members(1)
  {
    var r3 := svc.PlaceBid(1, 12, 200, 360, NoFault);
    assert r3.Ok? && svc.store.auctions == [a.(endAt := 660)];
    var r4 := svc.PlaceBid(1, 13, 120, 661, NoFault);
    assert r4 == Err(AuctionClosed);
    assert |svc.store.bids| == 2;
  }
}
