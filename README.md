# Car auction backend: bidding engine, broadcast hub and auction rules in Dafny

This project models the business core of a Go car-auction marketplace backend and proves
properties of that model. It covers three components.

- **Bid placement** (`internal/service/bid_service.go`). `PlaceBid` locks an auction row,
  rejects a bid on a closed auction, then rejects one that does not exceed the start price.
  A bid with five minutes or less to go moves the end time to five minutes after the bid.
  The bid is inserted and committed, then broadcast once to the auction's viewers.
  `PaginatedBids` lists an auction's bids page by page.
- **Broadcast hub** (`internal/ws/hub.go`). The hub maps each auction to the set of
  WebSocket clients watching it. Each client owns a `Send` channel with room for 16 pending
  messages. `Broadcast` never waits: a client whose channel is full is removed and its
  channel closed.
- **Auction rules** (`internal/service/auction_service.go`). Create with field validation.
  Owner-checked partial update and delete. Lookup and a paginated, title-filtered listing.

Files and modules:

- `model.dfy` (`Model`): entities, errors, store faults, the five-minute window.
- `paging.dfy` (`Paging`): page/size defaults, the OFFSET/LIMIT window, page tiling.
- `repo.dfy` (`Repo`): the database as one `Store` object, with lookups and the cascade.
- `hub.dfy` (`Ws`): `Client` (the channel) and `Hub`.
- `bid_service.dfy` (`Bidding`): `BidService`.
- `auction_service.dfy` (`Auctions`): `AuctionService`.

Modelling choices:

- **Time.** Time is integer seconds, and the clock reading `time.Now()` is the parameter
  `now`. The window is `5 * Minute` = 300.
- **Database.** The database is a `Store` object. It holds the auction table and the bid
  table, each a sequence in strictly ascending primary-key order, and the two auto-increment
  counters. Keys come from the counters, so ascending key order is insertion order;
  `Store.Valid` states the order, and every operation that writes the store keeps it.
- **Store failures.** A failing database call is an explicit `fault: Fault` parameter that
  names which call fails.
- **The bid transaction.** The row lock and the transaction make `PlaceBid` one atomic
  method. Its writes are staged in local copies. Commit assigns them to the store; rollback
  drops them.
- **The hub mutex.** The mutex makes each hub method one atomic update of the topic map and
  of the clients' channels.
- **Channels.** A client's channel is its `send` queue plus a `closed` flag. Go panics on a
  send to a closed channel and on closing a closed channel. Both are preconditions here
  (`Client.TrySend`, `Client.Close`), so a call sequence that would panic cannot verify.
- **Payload.** The broadcast payload is `Event = BidEvent(bid, newEndAt)` instead of JSON.

Behaviour of the code that a reader might not expect, kept as written:

- A bid at exactly `now == EndAt` is accepted: the check is `now.After(EndAt)`.
- `Unregister` removes the client but never deletes an emptied topic, and neither does
  `Broadcast`. Only the `Run` loop deletes empty topics, and nothing in the repository sends
  on its channels.
- The owner's `UpdateAuction` may set any end time, an earlier one included. So the end
  time is monotone under bidding (`EndAfterMonotone`), but not under owner updates
  (`ApplyUpdate`).
- Bids are compared with the start price only, never with the highest bid so far.
  `Attempt` does not even take the bid table as input.

## Model

| member | source | states |
|---|---|---|
| `Paging.Normalize` | internal/service/bid_service.go:96-102 | a page below 1 becomes 1 and a size below 1 becomes 10; valid values are kept; the result is always a normal request |
| `Paging.NormalizeIdempotent` | internal/service/auction_service.go:146-151 | applying the defaults twice gives the same request as applying them once |
| `Paging.OffsetStep` | internal/service/bid_service.go:103 | about `Paging.Offset`, the `(page - 1) * size` of bid_service.go:103 and auction_service.go:152, which its `nat` result type shows is never negative: page 1 starts at row 0 and page p+1 starts exactly `size` rows after page p |
| `Paging.Window` | internal/repo/bid_repo.go:51-62 | OFFSET/LIMIT: the result has min(limit, rows left) rows, and its i-th row is row offset+i of the listing |
| `Paging.WindowExtendsPrefix` | internal/repo/bid_repo.go:57-58 | the rows before an offset followed by the window at that offset are exactly the rows before offset + limit |
| `Paging.PagesTile` | internal/service/bid_service.go:96-106 | reading pages 1..n with a fixed size yields the first n*size rows in order, with no gap and no repeat |
| `Repo.IndexOf` | internal/repo/auction_repo.go:72-79 | returns the first position holding the id, or None exactly when no row has the id |
| `Repo.Lookup` | internal/repo/auction_repo.go:72-79 | finds a row exactly when some row has the id; the row found is in the table and has that id |
| `Repo.Store.constructor` | internal/model/auction.go:7 | an empty database with both auto-increment counters at 1 satisfies the invariant: both tables in ascending key order, every key below its counter |
| `Repo.WithEndAt` | internal/service/bid_service.go:55-56 | `UPDATE ... SET end_at`: the row with the key gets the new end time, every other row and column is unchanged |
| `Repo.UpdateAtIndex` | internal/service/bid_service.go:55-60 | with unique keys, updating the row found at position k is the keyed update, and writing the same end time changes nothing |
| `Repo.Persist` | internal/repo/auction_repo.go:60-69 | the stored row takes title, description, start_price and end_at from the record and keeps all other columns |
| `Repo.WithColumns` | internal/repo/auction_repo.go:60-69 | the row keyed by the record's id gets those four columns written, every other row is unchanged |
| `Repo.Store.UpdateColumns` | internal/repo/auction_repo.go:60-69 | `AuctionRepo.Update` writes the four columns, keeps the invariant (keys, hence key order, are not written) and touches no other table |
| `Repo.AuctionsExcept` | internal/repo/auction_repo.go:55-57 | the table after `DeleteByID` holds exactly the rows with another key, and no more rows than before |
| `Repo.AuctionsExceptSorted` | internal/repo/auction_repo.go:55-57 | deleting by key keeps the remaining rows in ascending key order |
| `Repo.AuctionsExceptKeys` | internal/repo/auction_repo.go:55-57 | with unique keys, deleting by a present key removes exactly one row, deleting an absent key removes none, and keys stay unique |
| `Repo.AuctionsExceptUnique` | internal/repo/auction_repo.go:55-57 | deleting by key keeps the primary keys unique |
| `Repo.AuctionsExceptLength` | internal/repo/auction_repo.go:55-57 | deleting by key shortens the table by one exactly when the key is present |
| `Repo.Store.DeleteById` | internal/repo/auction_repo.go:55-57 | removes the auction row and, by the cascade, its bids; one row fewer exactly when the key was present; both tables stay in ascending key order |
| `Repo.NewestBidsOf` | internal/repo/bid_repo.go:51-62 | contains exactly the stored bids of the auction and no more rows than the table |
| `Repo.NewestBidsCount` | internal/repo/bid_repo.go:65-75 | the listing has as many entries as the bid table has rows of the auction, the number `CountByAuction` returns |
| `Repo.NewestBidsAppend` | internal/repo/bid_repo.go:51-62 | a bid inserted last comes first in its auction's listing, ahead of the earlier listing, and leaves every other auction's listing unchanged |
| `Repo.NewestBidsDescending` | internal/repo/bid_repo.go:51-62 | with the bid table in ascending key order, an auction's listing is in strictly descending key order: newest first |
| `Repo.BidsExcept` | internal/model/auction.go:16 | the cascade on delete keeps exactly the bids of other auctions |
| `Repo.BidsExceptSorted` | internal/model/auction.go:16 | the cascade keeps the remaining bids in ascending key order |
| `Ws.Client.constructor` | internal/api/ws.go:34 | a new client channel is open and empty, with capacity 16 |
| `Ws.Client.TrySend` | internal/ws/hub.go:122-124 | the non-blocking send enqueues at the end iff fewer than 16 are pending, and does nothing otherwise; it requires an open channel |
| `Ws.Client.Close` | internal/ws/hub.go:127 | closes the channel and requires that it is not already closed |
| `Ws.Client.Receive` | internal/api/ws.go:52-54 | the writer takes the oldest pending event first (FIFO), or nothing when the queue is empty |
| `Ws.Hub.constructor` | internal/ws/hub.go:38-45 | a new hub has no topics and satisfies the hub invariant |
| `Ws.Hub.Clients` | internal/ws/hub.go:48-52 | returns the size of the auction's member set, and 0 when the auction has no topic |
| `Ws.Hub.Register` | internal/ws/hub.go:95-104 | creates the topic if absent and adds the client; registering a member again leaves the map unchanged |
| `Ws.Hub.Unregister` | internal/ws/hub.go:107-114 | when the topic exists, removes the client and closes it, member or not, and keeps the emptied topic; with no topic, nothing changes and nothing is closed |
| `Ws.Hub.UnregisterMember` | internal/ws/hub.go:107-114 | corrected Unregister: removes and closes the client only while it is a member, so an evicted client is never closed twice |
| `Ws.Hub.RunUnregister` | internal/ws/hub.go:67-76 | the Run loop's unregister removes the client, deletes the topic once it is empty, and never closes the client |
| `Ws.Hub.Broadcast` | internal/ws/hub.go:118-130 | each member with room gets the message at the end of its queue; each full member is removed and closed; other topics and their clients are unchanged |
| `Ws.TwoViewersWatch` | internal/ws/hub.go:95-130 | two registered viewers both receive the first broadcast and remain open members |
| `Ws.SuccessiveBroadcasts` | internal/ws/hub.go:121-123 | two broadcasts on a topic reach every member with room for both, in call order |
| `Ws.EvictedViewerDisconnects` | internal/ws/hub.go:110-113 | after an eviction the topic entry remains and the client is closed, so Unregister's close precondition fails (Go panics) |
| `Ws.EvictedViewerDisconnectsSafely` | internal/ws/hub.go:110-113 | the same disconnect through the corrected Unregister is allowed and leaves the topic empty |
| `Bidding.ExtendedEnd` | internal/service/bid_service.go:52-61 | the end after an accepted bid is max(endAt, now + 5 min): it never decreases, at least five minutes remain, and it is one of the two |
| `Bidding.Attempt` | internal/service/bid_service.go:27-73 | outcome order: read failure, not found iff the row is absent, then closed iff now > endAt, then too low iff amount <= startPrice; StoreError iff the read, the in-window end_at update, the insert or the commit fails; success iff none of these; the bid carries the given ids, amount and CreatedAt = now |
| `Bidding.EndAfterMonotone` | internal/service/bid_service.go:52-61 | over any series of accepted bids the end time never moves earlier and ends at least five minutes after the last bid; extensions are unbounded |
| `Bidding.BidAtEndTimeIsAccepted` | internal/service/bid_service.go:41-61 | a bid above the start price at exactly now == EndAt is accepted and moves the end to now + 5 min |
| `Bidding.BidService.Transact` | internal/service/bid_service.go:29-78 | the transaction's outcome is Attempt of the store it reads; on success the staged tables are the store with that auction's end_at set and the bid appended |
| `Bidding.BidService.Publish` | internal/service/bid_service.go:76-88 | the commit makes the staged tables the store's and keeps its invariant, then one broadcast delivers the event to every viewer with room and evicts the full ones |
| `Bidding.BidService.PlaceBid` | internal/service/bid_service.go:27-92 | result as Attempt; on success only that auction's end_at changes (WithEndAt), the bid is appended, and one broadcast follows the commit; on failure the store, the topics and every queue are unchanged |
| `Bidding.BidService.PaginatedBids` | internal/service/bid_service.go:95-116 | returns the normalized window of the auction's bids, newest first, and the number of the auction's rows in the bid table, or a store error iff a read fails |
| `Bidding.BidService.constructor` | internal/service/bid_service.go:22-24 | the service holds the repository and the hub it is given |
| `Bidding.SecondPageOfTwelve` | tests/integration/api_test.go:118-132 | with twelve bids on one auction, the total is twelve and page 2 of size 5 holds five bids |
| `Auctions.NewAuction` | internal/service/auction_service.go:54-66 | the created row copies every request field, has the caller as seller, and gets the new id and time |
| `Auctions.ApplyUpdate` | internal/service/auction_service.go:95-106 | each field with a non-nil request value takes it and all other fields keep theirs; no value is constrained |
| `Auctions.ApplyUpdateIdempotent` | internal/service/auction_service.go:95-106 | applying the same update twice gives the same record as applying it once |
| `Auctions.EmptyUpdateIsIdentity` | internal/service/auction_service.go:95-106 | an update with every field nil changes nothing |
| `Auctions.PersistKeepsUpdate` | internal/service/auction_service.go:107-111 | writing only those four columns stores exactly the updated record that is returned |
| `Auctions.UpdateReplacesRow` | internal/service/auction_service.go:107-111 | with unique keys, the repository write of the updated copy of row k replaces row k by it and leaves every other row alone |
| `Auctions.UpdateResult` | internal/service/auction_service.go:74-112 | not found iff the id is absent; forbidden iff the caller is not the seller; StoreError iff the read fails or the owner's write fails; otherwise the update applied to the stored record |
| `Auctions.Find` | internal/service/auction_service.go:80-86 | the linear search returns the first index holding the id, or None when no record has it |
| `Auctions.TitleMatches` | internal/repo/auction_repo.go:29-39 | contains exactly the auctions whose title contains the filter, or all auctions when the filter is empty |
| `Auctions.TitleMatchesSorted` | internal/repo/auction_repo.go:29-39 | the title filter keeps the matching rows in ascending key order |
| `Auctions.Contains` | internal/repo/auction_repo.go:33 | true iff the pattern occurs as a contiguous piece of the title |
| `Auctions.AuctionService.constructor` | internal/service/auction_service.go:40-42 | the service holds the repository it is given |
| `Auctions.AuctionService.CreateAuction` | internal/service/auction_service.go:50-71 | an empty title, maker or model name, or a start price <= 0, gives InvalidRequest and stores nothing; otherwise the new row is appended |
| `Auctions.AuctionService.PrepareUpdate` | internal/service/auction_service.go:74-110 | search, owner check and field overwrite give UpdateResult of the store, changing nothing; on success the copy is the update of the row at the returned position, which has the id |
| `Auctions.AuctionService.UpdateAuction` | internal/service/auction_service.go:74-112 | result as UpdateResult; on success only the row with that id changes, and it becomes the returned record; on failure nothing changes |
| `Auctions.AuctionService.DeleteAuction` | internal/service/auction_service.go:115-130 | by the owner, exactly the auction's row and its bids are removed; another caller gets Unauthorized, AuctionNotFound comes iff the id is absent, StoreError iff the read or the owner's delete fails, and on any error nothing changes |
| `Auctions.AuctionService.GetAuction` | internal/service/auction_service.go:134-140 | returns the row the keyed lookup finds, which has the id; every repository error is reported as not found |
| `Auctions.AuctionService.PaginatedAuctions` | internal/service/auction_service.go:145-167 | returns the normalized window of the title-filtered auctions, in ascending key order, and their total, or a store error iff a read fails |

Three scenario methods have no contract of their own; their asserts are proved in their bodies:
`Bidding.AntiSnipeScenario` (internal/service/bid_service.go:41-88) places an early bid that
keeps the end time, a bid that is too low, a bid with four minutes left that moves the end to
five minutes after it, and a bid after that new end, which is refused as closed (the last
two in its second half, `Bidding.LateBids`); and `Ws.TwoViewers` (internal/ws/hub.go:95-130)
registers two viewers, unregisters one and checks that a later broadcast reaches only the other.

## Findings

| source | as written | input that shows it | evidently intended | confidence | as-written member | corrected member |
|---|---|---|---|---|---|---|
| internal/ws/hub.go:110-113 | `Unregister` closes `c.Send` whenever the auction has a topic entry, even when `c` is no longer a member of it | A client's 16-slot queue is full. `Broadcast` evicts it and closes its channel (hub.go:126-127), and the topic entry stays. The client then disconnects, and internal/api/ws.go:40 calls `Unregister`, which closes the channel a second time. Go panics at that close. | close only a client that is still a member | high (not executed) | `Ws.Hub.Unregister`, `Ws.EvictedViewerDisconnects` | `Ws.Hub.UnregisterMember`, `Ws.EvictedViewerDisconnectsSafely` |

## Left out

- HTTP handlers, routing, JSON decoding, status codes, JWT, auth middleware, the user
  service, uploads, configuration, logging, metrics, tracing and `main`: outside the core.
  This includes the log line at bid_service.go:86-87, which only reads `Clients`.
- The `Run` loop's register and broadcast branches (hub.go:59-66, 77-89): they do the same
  thing as `Register` and `Broadcast`, so those members model them. Only the unregister
  branch differs, and `RunUnregister` models it. No channel ever feeds the loop.
- Concurrency: goroutines, the mutex, the row lock and lock waits. Each operation is one
  atomic step. Cross-auction parallelism and lock timeouts are not modelled.
- Network transport and JSON encoding of the payload. A connection's reader and writer
  goroutines are reduced to `Client.Receive` and to the `Unregister` call they make.
- `Bidding.BidService.PaginatedBids`: the database orders by `created_at DESC`. The model
  orders newest inserted first, which is descending bid key (`Repo.NewestBidsDescending`). The two agree when bids are inserted in clock order, which
  the model does not prove. Ties are in unspecified order in the database.
- `Auctions.TitleMatches`: a SQL `LIKE` treats `%` and `_` inside the filter as wildcards,
  and its case sensitivity depends on the collation. The model matches the filter as a
  literal substring.
- `Auctions.AuctionService.PaginatedAuctions`: `FindAll` and the filtered listing have no
  ORDER BY. The model uses primary-key order.
- Integer widths: Go's `int` and `uint` are unbounded here. Overflow of `(page - 1) * size`,
  of `now + 5 min` and of `time.Duration` is not modelled.
- Sub-second time and the datetime precision of the `end_at` column: time is whole ticks.
- Bid and auction ids: the model advances the bid counter only on commit, and the auction
  counter only on a successful insert (`CreateAuction` leaves it unchanged on a write failure).
  A real auto-increment counter may advance anyway and leave gaps after a rollback or a
  failed insert.
- Failures of the store are a `fault` parameter. `Bidding.BidService.PlaceBid` distinguishes
  a missing auction (`AuctionNotFound`) from other read failures (`StoreError`).
  `Auctions.AuctionService.DeleteAuction` does the same for its first read.
