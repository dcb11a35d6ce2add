/**
 * Auction rules (internal/service/auction_service.go): create with field
 * validation, owner-checked partial update and delete, lookup and paginated
 * listing, over the store of module Repo.
 */
module Auctions {
  import opened Model
  import opened Repo
  import opened Paging

  /** The create request body (CreateAuctionRequest). */
  datatype CreateRequest = CreateRequest(
    title: string,
    description: string,
    startPrice: int,
    endAt: int,
    maker: string,
    modelName: string,
    mileage: int,
    year: int,
    photoUrl: string)

  /** The update request body (UpdateAuctionRequest): None is a nil pointer, a field left alone. */
  datatype UpdateRequest = UpdateRequest(
    title: Option<string>,
    description: Option<string>,
    startPrice: Option<int>,
    endAt: Option<int>)

  /** A create request is accepted when title, maker and model name are given and the start price is positive. */
  predicate ValidCreate(req: CreateRequest) {
    req.title != "" && req.startPrice > 0 && req.maker != "" && req.modelName != ""
  }

  /** The row a valid create request becomes: the request's fields, the caller as seller, the given id and creation time. */
  function NewAuction(id: nat, sellerId: nat, req: CreateRequest, now: int): (a: Auction)
    ensures a.id == id && a.sellerId == sellerId && a.createdAt == now
    ensures a.title == req.title && a.description == req.description && a.startPrice == req.startPrice
    ensures a.endAt == req.endAt && a.maker == req.maker && a.modelName == req.modelName
    ensures a.mileage == req.mileage && a.year == req.year && a.photoUrl == req.photoUrl
  {
    Auction(id, req.title, req.description, req.startPrice, now, req.endAt,
            sellerId, req.maker, req.modelName, req.mileage, req.year, req.photoUrl)
  }

  /**
   * The update applied to a record: every field whose request value is given
   * takes it, every other field keeps its value. Nothing constrains the new
   * values: the end time may move earlier and the price may become non-positive.
   */
  function ApplyUpdate(a: Auction, req: UpdateRequest): (r: Auction)
    ensures r.title == (if req.title.Some? then req.title.value else a.title)
    ensures r.description == (if req.description.Some? then req.description.value else a.description)
    ensures r.startPrice == (if req.startPrice.Some? then req.startPrice.value else a.startPrice)
    ensures r.endAt == (if req.endAt.Some? then req.endAt.value else a.endAt)
    ensures r.(title := a.title, description := a.description, startPrice := a.startPrice, endAt := a.endAt) == a
  {
    a.(title := if req.title.Some? then req.title.value else a.title,
       description := if req.description.Some? then req.description.value else a.description,
       startPrice := if req.startPrice.Some? then req.startPrice.value else a.startPrice,
       endAt := if req.endAt.Some? then req.endAt.value else a.endAt)
  }

  /** Applying the same update twice is applying it once. */
  lemma ApplyUpdateIdempotent(a: Auction, req: UpdateRequest)
    ensures ApplyUpdate(ApplyUpdate(a, req), req) == ApplyUpdate(a, req)
  {
  }

  /** An update with every field nil changes nothing. */
  lemma EmptyUpdateIsIdentity(a: Auction)
    ensures ApplyUpdate(a, UpdateRequest(None, None, None, None)) == a
  {
  }

  /** Writing only the four updatable columns loses nothing: the stored row becomes exactly the updated record. */
  lemma PersistKeepsUpdate(a: Auction, req: UpdateRequest)
    ensures Persist(a, ApplyUpdate(a, req)) == ApplyUpdate(a, req)
  {
  }

  /**
   * With unique keys, writing the updated copy of row k through the
   * repository replaces row k by that copy and leaves every other row alone.
   */
  lemma UpdateReplacesRow(auctions: seq<Auction>, k: nat, req: UpdateRequest)
    requires k < |auctions| && UniqueKeys(auctions)
    ensures forall i :: 0 <= i < |auctions| ==>
      WithColumns(auctions, ApplyUpdate(auctions[k], req))[i]
        == if auctions[i].id == auctions[k].id then ApplyUpdate(auctions[k], req) else auctions[i]
  {
    PersistKeepsUpdate(auctions[k], req);
  }

  /**
   * The outcome of UpdateAuction from the store it starts in: the listing
   * must load, the auction must exist and belong to the caller, and the write
   * must succeed; the result is the updated record.
   */
  function UpdateResult(auctions: seq<Auction>, userId: nat, id: nat, req: UpdateRequest, fault: Fault): (r: Result<Auction>)
    ensures fault == ReadFault ==> r == Err(StoreError)
    ensures r == Err(AuctionNotFound) <==> fault != ReadFault && Lookup(auctions, id).None?
    ensures r == Err(Forbidden) <==>
      fault != ReadFault && Lookup(auctions, id).Some? && Lookup(auctions, id).value.sellerId != userId
    ensures r == Err(StoreError) <==>
      fault == ReadFault || (fault == WriteFault && Lookup(auctions, id).Some? && Lookup(auctions, id).value.sellerId == userId)
    ensures r.Ok? <==>
      fault != ReadFault && fault != WriteFault && Lookup(auctions, id).Some? && Lookup(auctions, id).value.sellerId == userId
    ensures r.Ok? ==> r.value == ApplyUpdate(Lookup(auctions, id).value, req)
  {
    if fault == ReadFault then Err(StoreError)
    else match Lookup(auctions, id) {
      case None => Err(AuctionNotFound)
      case Some(a) =>
        if a.sellerId != userId then Err(Forbidden)
        else if fault == WriteFault then Err(StoreError)
        else Ok(ApplyUpdate(a, req))
    }
  }

  /** The linear search of UpdateAuction over the listing: the first record with the id, if any. */
  method Find(list: seq<Auction>, id: nat) returns (k: Option<nat>)
    ensures k == IndexOf(list, id)
    ensures k.Some? ==> k.value < |list| && list[k.value].id == id
  {
    var i := 0;
    while i < |list|
      invariant 0 <= i <= |list|
      invariant forall j :: 0 <= j < i ==> list[j].id != id
    {
      if list[i].id == id {
        return Some(i);
      }
      i := i + 1;
    }
    return None;
  }

  /** The auctions whose title contains filter (title LIKE '%filter%'); all of them when filter is empty. */
  function TitleMatches(auctions: seq<Auction>, filter: string): (r: seq<Auction>)
    ensures |r| <= |auctions|
    ensures forall a :: a in r <==> a in auctions && (filter == "" || Contains(a.title, filter))
  {
    if |auctions| == 0 then []
    else
      (if filter == "" || Contains(auctions[0].title, filter) then [auctions[0]] else [])
      + TitleMatches(auctions[1..], filter)
  }

  lemma TitleMatchesAbove(auctions: seq<Auction>, filter: string, bound: int)
    requires forall k :: 0 <= k < |auctions| ==> auctions[k].id > bound
    ensures forall k :: 0 <= k < |TitleMatches(auctions, filter)| ==> TitleMatches(auctions, filter)[k].id > bound
  {
    var r := TitleMatches(auctions, filter);
    forall k | 0 <= k < |r| ensures r[k].id > bound {
      assert r[k] in r;
      var m :| 0 <= m < |auctions| && auctions[m] == r[k];
    }
  }

  /** Filtering by title keeps the matching rows in ascending key order. */
  lemma {:induction false} TitleMatchesSorted(auctions: seq<Auction>, filter: string)
    requires SortedKeys(auctions)
    ensures SortedKeys(TitleMatches(auctions, filter))
  {
    if |auctions| > 0 {
      SortedTail(auctions);
      TitleMatchesSorted(auctions[1..], filter);
      if filter == "" || Contains(auctions[0].title, filter) {
        TitleMatchesAbove(auctions[1..], filter, auctions[0].id);
        ConsSorted(auctions[0], TitleMatches(auctions[1..], filter));
      }
    }
  }

  /** pattern occurs in s starting at position i. */
  ghost predicate OccursAt(s: string, pattern: string, i: int) {
    0 <= i && i + |pattern| <= |s| && s[i..i + |pattern|] == pattern
  }

  lemma OccursAtShift(s: string, pattern: string, i: int)
    requires |s| > 0 && i >= 0
    ensures OccursAt(s[1..], pattern, i) <==> OccursAt(s, pattern, i + 1)
  {
    if 0 <= i && i + |pattern| <= |s| - 1 {
      assert s[1..][i..i + |pattern|] == s[i + 1..i + 1 + |pattern|];
    }
  }

  /** Whether pattern occurs in s as a contiguous piece. */
  function Contains(s: string, pattern: string): (b: bool)
    ensures b <==> exists i :: OccursAt(s, pattern, i)
  {
    if pattern <= s then
      assert OccursAt(s, pattern, 0);
      true
    else if |s| == 0 then false
    else
      var rest := Contains(s[1..], pattern);
      assert !OccursAt(s, pattern, 0);
      forall i | OccursAt(s[1..], pattern, i) ensures OccursAt(s, pattern, i + 1) {
        OccursAtShift(s, pattern, i);
      }
      forall j | OccursAt(s, pattern, j) ensures OccursAt(s[1..], pattern, j - 1) {
        OccursAtShift(s, pattern, j - 1);
      }
      rest
  }

  class AuctionService {
    const store: Store

    constructor (store: Store)
      ensures this.store == store
    {
      this.store := store;
    }

    /**
     * Creates an auction owned by sellerId. An invalid request fails with
     * InvalidRequest and stores nothing; otherwise the row gets the next id and
     * creation time now. The end time is not checked.
     */
    method CreateAuction(sellerId: nat, req: CreateRequest, now: int, fault: Fault) returns (r: Result<Auction>)
      requires store.Valid()
      modifies store
      ensures store.Valid()
      ensures !ValidCreate(req) ==> r == Err(InvalidRequest)
      ensures ValidCreate(req) && fault == WriteFault ==> r == Err(StoreError)
      ensures r.Ok? <==> ValidCreate(req) && fault != WriteFault
      ensures r.Ok? ==>
        && r.value == NewAuction(old(store.nextAuctionId), sellerId, req, now)
        && store.auctions == old(store.auctions) + [r.value]
        && store.nextAuctionId == old(store.nextAuctionId) + 1
      ensures r.Err? ==> store.auctions == old(store.auctions) && store.nextAuctionId == old(store.nextAuctionId)
      ensures store.bids == old(store.bids) && store.nextBidId == old(store.nextBidId)
    {
      if req.title == "" || req.startPrice <= 0 || req.maker == "" || req.modelName == "" {
        return Err(InvalidRequest);
      }
      var a := Auction(store.nextAuctionId, req.title, req.description, req.startPrice, now, req.endAt,
                       sellerId, req.maker, req.modelName, req.mileage, req.year, req.photoUrl);
      if fault == WriteFault {
        return Err(StoreError);
      }
      store.auctions, store.nextAuctionId := store.auctions + [a], store.nextAuctionId + 1;
      r := Ok(a);
    }

    /**
     * Steps 1 to 3 of UpdateAuction, which change nothing: a linear search of
     * the full listing, the owner check and a per-field overwrite of the copy
     * found. It also returns the position of that copy. The repository write
     * of step 4 is decided here from fault, so the store is written only when
     * the write succeeds.
     */
    method PrepareUpdate(userId: nat, id: nat, req: UpdateRequest, fault: Fault) returns (r: Result<Auction>, k: nat)
      ensures r == UpdateResult(store.auctions, userId, id, req, fault)
      ensures r.Ok? ==> k < |store.auctions| && store.auctions[k].id == id && r.value == ApplyUpdate(store.auctions[k], req)
    {
      k := 0;
      if fault == ReadFault {
        return Err(StoreError), k;
      }
      var list := store.auctions;
      var found := Find(list, id);
      if found.None? {
        return Err(AuctionNotFound), k;
      }
      k := found.value;
      var existing := list[k];
      assert Lookup(list, id) == Some(existing);
      if existing.sellerId != userId {
        return Err(Forbidden), k;
      }
      if req.title.Some? {
        existing := existing.(title := req.title.value);
      }
      if req.description.Some? {
        existing := existing.(description := req.description.value);
      }
      if req.startPrice.Some? {
        existing := existing.(startPrice := req.startPrice.value);
      }
      if req.endAt.Some? {
        existing := existing.(endAt := req.endAt.value);
      }
      if fault == WriteFault {
        return Err(StoreError), k;
      }
      r := Ok(existing);
    }

    /**
     * Updates auction id for its owner userId and returns the updated record;
     * the record's four updatable columns are written back. Any failure
     * changes nothing.
     */
    method UpdateAuction(userId: nat, id: nat, req: UpdateRequest, fault: Fault) returns (r: Result<Auction>)
      requires store.Valid()
      modifies store
      ensures store.Valid()
      ensures r == UpdateResult(old(store.auctions), userId, id, req, fault)
      ensures r.Ok? ==>
        && |store.auctions| == |old(store.auctions)|
        && forall i :: 0 <= i < |store.auctions| ==>
             store.auctions[i] == if old(store.auctions[i]).id == id then r.value else old(store.auctions[i])
      ensures r.Err? ==> store.auctions == old(store.auctions)
      ensures store.bids == old(store.bids)
      ensures store.nextAuctionId == old(store.nextAuctionId) && store.nextBidId == old(store.nextBidId)
    {
      var k;
      r, k := PrepareUpdate(userId, id, req, fault);
      if r.Ok? {
        // UPDATE auctions SET title, description, start_price, end_at WHERE id = id
        UpdateReplacesRow(store.auctions, k, req);
        store.UpdateColumns(r.value);
      }
    }

    /**
     * Deletes auction auctionId for its owner userId; its bids go with it (the
     * bids' foreign key cascades). A missing auction or another seller
     * changes nothing.
     */
    method DeleteAuction(auctionId: nat, userId: nat, fault: Fault) returns (err: Option<Error>)
      requires store.Valid()
      modifies store
      ensures store.Valid()
      ensures fault == ReadFault ==> err == Some(StoreError)
      ensures err == Some(AuctionNotFound) <==> fault != ReadFault && Lookup(old(store.auctions), auctionId).None?
      ensures err == Some(StoreError) <==>
        || fault == ReadFault
        || (&& fault == WriteFault && Lookup(old(store.auctions), auctionId).Some?
            && Lookup(old(store.auctions), auctionId).value.sellerId == userId)
      ensures err == Some(Unauthorized) <==>
        fault != ReadFault && Lookup(old(store.auctions), auctionId).Some?
        && Lookup(old(store.auctions), auctionId).value.sellerId != userId
      ensures err.None? <==>
        fault != ReadFault && fault != WriteFault && Lookup(old(store.auctions), auctionId).Some?
        && Lookup(old(store.auctions), auctionId).value.sellerId == userId
      ensures err.None? ==>
        && store.auctions == AuctionsExcept(old(store.auctions), auctionId)
        && (forall a :: a in store.auctions <==> a in old(store.auctions) && a.id != auctionId)
        && |store.auctions| == |old(store.auctions)| - 1
        && store.bids == BidsExcept(old(store.bids), auctionId)
      ensures err.Some? ==> store.auctions == old(store.auctions) && store.bids == old(store.bids)
      ensures store.nextAuctionId == old(store.nextAuctionId) && store.nextBidId == old(store.nextBidId)
    {
      if fault == ReadFault {
        return Some(StoreError);
      }
      var k := IndexOf(store.auctions, auctionId);
      if k.None? {
        return Some(AuctionNotFound);
      }
      if store.auctions[k.value].sellerId != userId {
        return Some(Unauthorized);
      }
      if fault == WriteFault {
        return Some(StoreError);
      }
      store.DeleteById(auctionId);
      err := None;
    }

    /** The auction with this id; every repository error, a failed read included, is reported as not found. */
    method GetAuction(id: nat, fault: Fault) returns (r: Result<Auction>)
      ensures r.Ok? <==> fault != ReadFault && Lookup(store.auctions, id).Some?
      ensures r.Ok? ==> r.value in store.auctions && r.value.id == id
      ensures r.Ok? ==> r.value == Lookup(store.auctions, id).value
      ensures r.Err? ==> r.error == AuctionNotFound
    {
      var k := IndexOf(store.auctions, id);
      if fault == ReadFault || k.None? {
        return Err(AuctionNotFound);
      }
      r := Ok(store.auctions[k.value]);
    }

    /**
     * One page of the auctions whose title contains titleFilter, in store
     * order, and how many there are. page < 1 reads as 1 and size < 1 as 10.
     */
    method PaginatedAuctions(page: int, size: int, titleFilter: string, fault: Fault) returns (r: Result<Listing<Auction>>)
      ensures r.Err? <==> fault == ReadFault
      ensures r.Err? ==> r.error == StoreError
      ensures r.Ok? ==>
        var n := Normalize(page, size);
        && r.value.items == Window(TitleMatches(store.auctions, titleFilter), Offset(n.page, n.size), n.size)
        && r.value.total == |TitleMatches(store.auctions, titleFilter)|
      ensures r.Ok? ==> |r.value.items| <= Normalize(page, size).size
      ensures r.Ok? && store.Valid() ==> SortedKeys(r.value.items)
    {
      var p, s := page, size;
      if p < 1 {
        p := 1;
      }
      if s < 1 {
        s := 10;
      }
      var offset := Offset(p, s); // (page - 1) * size
      if fault == ReadFault {
        return Err(StoreError);
      }
      var matches := TitleMatches(store.auctions, titleFilter);
      if store.Valid() {
        TitleMatchesSorted(store.auctions, titleFilter);
      }
      r := Ok(Listing(Window(matches, offset, s), |matches|));
    }
  }
}
