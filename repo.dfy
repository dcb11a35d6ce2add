/**
 * The database behind the repositories (internal/repo), as one in-memory store:
 * the auction table in primary-key order, the bid table in insertion order and
 * the two auto-increment counters.
 */
module Repo {
  import opened Model

  class Store {
    var auctions: seq<Auction>
    var bids: seq<Bid>
    var nextAuctionId: nat
    var nextBidId: nat

    /**
     * Both tables are in ascending primary-key order (hence keys are unique),
     * and every key is below the next value of its counter.
     */
    ghost predicate Valid()
      reads this
    {
      && SortedKeys(auctions)
      && SortedBidKeys(bids)
      && (forall i :: 0 <= i < |auctions| ==> auctions[i].id < nextAuctionId)
      && (forall i :: 0 <= i < |bids| ==> bids[i].id < nextBidId)
    }

    /** An empty database; auto-increment keys start at 1. */
    constructor ()
      ensures Valid()
      ensures auctions == [] && bids == [] && nextAuctionId == 1 && nextBidId == 1
    {
      auctions, bids := [], [];
      nextAuctionId, nextBidId := 1, 1;
    }

    /**
     * AuctionRepo.Update: UPDATE auctions SET title, description, start_price,
     * end_at WHERE id = a.id. No row matching is not an error.
     */
    method UpdateColumns(a: Auction)
      requires Valid()
      modifies this
      ensures Valid()
      ensures auctions == WithColumns(old(auctions), a)
      ensures bids == old(bids) && nextAuctionId == old(nextAuctionId) && nextBidId == old(nextBidId)
    {
      auctions := WithColumns(auctions, a);
    }

    /**
     * AuctionRepo.DeleteByID: DELETE FROM auctions WHERE id = id, with the
     * bids' foreign key cascading (ON DELETE CASCADE).
     */
    method DeleteById(id: nat)
      requires Valid()
      modifies this
      ensures Valid()
      ensures auctions == AuctionsExcept(old(auctions), id)
      ensures |auctions| == if Lookup(old(auctions), id).Some? then |old(auctions)| - 1 else |old(auctions)|
      ensures bids == BidsExcept(old(bids), id)
      ensures nextAuctionId == old(nextAuctionId) && nextBidId == old(nextBidId)
    {
      SortedUnique(auctions);
      AuctionsExceptKeys(auctions, id);
      AuctionsExceptSorted(auctions, id);
      BidsExceptSorted(bids, id);
      auctions, bids := AuctionsExcept(auctions, id), BidsExcept(bids, id);
    }
  }

  /** No two rows of the auction table share a primary key. */
  ghost predicate UniqueKeys(auctions: seq<Auction>) {
    forall i, j :: 0 <= i < j < |auctions| ==> auctions[i].id != auctions[j].id
  }

  /** The auction table is in ascending primary-key order. */
  ghost predicate SortedKeys(auctions: seq<Auction>) {
    forall i, j :: 0 <= i < j < |auctions| ==> auctions[i].id < auctions[j].id
  }

  /** The bid table is in ascending primary-key order, which is insertion order. */
  ghost predicate SortedBidKeys(bids: seq<Bid>) {
    forall i, j :: 0 <= i < j < |bids| ==> bids[i].id < bids[j].id
  }

  lemma SortedUnique(auctions: seq<Auction>)
    requires SortedKeys(auctions)
    ensures UniqueKeys(auctions)
  {
  }

  /** The position of the auction with primary key id; the lookup behind First(&auc, id) and FindByID. */
  function IndexOf(auctions: seq<Auction>, id: nat): (r: Option<nat>)
    ensures r.Some? ==> r.value < |auctions| && auctions[r.value].id == id
    ensures r.Some? ==> forall j :: 0 <= j < r.value ==> auctions[j].id != id
    ensures r.None? <==> forall j :: 0 <= j < |auctions| ==> auctions[j].id != id
  {
    if |auctions| == 0 then None
    else if auctions[0].id == id then Some(0)
    else match IndexOf(auctions[1..], id) {
      case None => None
      case Some(k) => Some(k + 1)
    }
  }

  /** The auction with primary key id, if there is one. */
  function Lookup(auctions: seq<Auction>, id: nat): (r: Option<Auction>)
    ensures r.Some? <==> exists i :: 0 <= i < |auctions| && auctions[i].id == id
    ensures r.Some? ==> r.value in auctions && r.value.id == id
  {
    match IndexOf(auctions, id) {
      case None => None
      case Some(k) => Some(auctions[k])
    }
  }

  /** The auction table after UPDATE auctions SET end_at = endAt WHERE id = id. */
  function WithEndAt(auctions: seq<Auction>, id: nat, endAt: int): (r: seq<Auction>)
    ensures |r| == |auctions|
    ensures forall i :: 0 <= i < |r| ==>
      r[i] == if auctions[i].id == id then auctions[i].(endAt := endAt) else auctions[i]
  {
    seq(|auctions|, i requires 0 <= i < |auctions| =>
      if auctions[i].id == id then auctions[i].(endAt := endAt) else auctions[i])
  }

  /** With unique keys, updating the row found at k is the keyed update of the table. */
  lemma UpdateAtIndex(auctions: seq<Auction>, k: nat, endAt: int)
    requires k < |auctions|
    requires UniqueKeys(auctions)
    ensures auctions[k := auctions[k].(endAt := endAt)] == WithEndAt(auctions, auctions[k].id, endAt)
    ensures auctions[k].endAt == endAt ==> WithEndAt(auctions, auctions[k].id, endAt) == auctions
  {
  }

  /** Writes title, description, start_price and end_at of a into row; the other columns keep theirs. */
  function Persist(row: Auction, a: Auction): (r: Auction)
    ensures r.title == a.title && r.description == a.description
    ensures r.startPrice == a.startPrice && r.endAt == a.endAt
    ensures r.(title := row.title, description := row.description, startPrice := row.startPrice, endAt := row.endAt) == row
  {
    row.(title := a.title, description := a.description, startPrice := a.startPrice, endAt := a.endAt)
  }

  /** The auction table after the four updatable columns of the row keyed a.id are written from a. */
  function WithColumns(auctions: seq<Auction>, a: Auction): (r: seq<Auction>)
    ensures |r| == |auctions|
    ensures forall i :: 0 <= i < |r| ==>
      r[i] == if auctions[i].id == a.id then Persist(auctions[i], a) else auctions[i]
  {
    seq(|auctions|, i requires 0 <= i < |auctions| =>
      if auctions[i].id == a.id then Persist(auctions[i], a) else auctions[i])
  }

  /** The auction table without the row keyed id, in the order of the others. */
  function AuctionsExcept(auctions: seq<Auction>, id: nat): (r: seq<Auction>)
    ensures |r| <= |auctions|
    ensures forall a :: a in r <==> a in auctions && a.id != id
  {
    if |auctions| == 0 then []
    else (if auctions[0].id != id then [auctions[0]] else []) + AuctionsExcept(auctions[1..], id)
  }

  /** With unique keys, deleting by key removes exactly one row when the key is present, and keys stay unique. */
  lemma AuctionsExceptKeys(auctions: seq<Auction>, id: nat)
    requires UniqueKeys(auctions)
    ensures UniqueKeys(AuctionsExcept(auctions, id))
    ensures |AuctionsExcept(auctions, id)| == if Lookup(auctions, id).Some? then |auctions| - 1 else |auctions|
  {
    AuctionsExceptUnique(auctions, id);
    AuctionsExceptLength(auctions, id);
  }

  lemma UniqueTail(auctions: seq<Auction>)
    requires |auctions| > 0 && UniqueKeys(auctions)
    ensures UniqueKeys(auctions[1..])
    ensures forall a :: a in auctions[1..] ==> a.id != auctions[0].id
  {
    var tail := auctions[1..];
    forall i, j | 0 <= i < j < |tail| ensures tail[i].id != tail[j].id {
      assert tail[i] == auctions[i + 1] && tail[j] == auctions[j + 1];
    }
    forall a | a in tail ensures a.id != auctions[0].id {
      var m :| 0 <= m < |tail| && tail[m] == a;
      assert auctions[m + 1] == a;
    }
  }

  lemma {:induction false} AuctionsExceptUnique(auctions: seq<Auction>, id: nat)
    requires UniqueKeys(auctions)
    ensures UniqueKeys(AuctionsExcept(auctions, id))
  {
    if |auctions| > 0 {
      UniqueTail(auctions);
      AuctionsExceptUnique(auctions[1..], id);
      var rest := AuctionsExcept(auctions[1..], id);
      if auctions[0].id != id {
        var r := [auctions[0]] + rest;
        forall i, j | 0 <= i < j < |r| ensures r[i].id != r[j].id {
          if i == 0 {
            assert r[j] == rest[j - 1] && rest[j - 1] in rest;
          } else {
            assert r[i] == rest[i - 1] && r[j] == rest[j - 1];
          }
        }
      }
    }
  }

  lemma {:induction false} AuctionsExceptLength(auctions: seq<Auction>, id: nat)
    requires UniqueKeys(auctions)
    ensures |AuctionsExcept(auctions, id)| == if IndexOf(auctions, id).Some? then |auctions| - 1 else |auctions|
  {
    if |auctions| > 0 {
      UniqueTail(auctions);
      AuctionsExceptLength(auctions[1..], id);
      if auctions[0].id == id {
        assert IndexOf(auctions[1..], id).None? by {
          forall i | 0 <= i < |auctions[1..]| ensures auctions[1..][i].id != id {
            assert auctions[1..][i] in auctions[1..];
          }
        }
      }
    }
  }

  lemma SortedTail(auctions: seq<Auction>)
    requires |auctions| > 0 && SortedKeys(auctions)
    ensures SortedKeys(auctions[1..])
  {
    var tail := auctions[1..];
    forall i, j | 0 <= i < j < |tail| ensures tail[i].id < tail[j].id {
      assert tail[i] == auctions[i + 1] && tail[j] == auctions[j + 1];
    }
  }

  /** A row with a smaller key in front of a table in ascending key order keeps the order. */
  lemma ConsSorted(x: Auction, rest: seq<Auction>)
    requires SortedKeys(rest)
    requires forall k :: 0 <= k < |rest| ==> x.id < rest[k].id
    ensures SortedKeys([x] + rest)
  {
    var r := [x] + rest;
    forall i, j | 0 <= i < j < |r| ensures r[i].id < r[j].id {
      assert r[j] == rest[j - 1];
      if i > 0 {
        assert r[i] == rest[i - 1];
      }
    }
  }

  lemma AuctionsExceptAbove(auctions: seq<Auction>, id: nat, bound: int)
    requires forall k :: 0 <= k < |auctions| ==> auctions[k].id > bound
    ensures forall k :: 0 <= k < |AuctionsExcept(auctions, id)| ==> AuctionsExcept(auctions, id)[k].id > bound
  {
    var r := AuctionsExcept(auctions, id);
    forall k | 0 <= k < |r| ensures r[k].id > bound {
      assert r[k] in r;
      var m :| 0 <= m < |auctions| && auctions[m] == r[k];
    }
  }

  /** Deleting by key keeps the other rows in ascending key order. */
  lemma {:induction false} AuctionsExceptSorted(auctions: seq<Auction>, id: nat)
    requires SortedKeys(auctions)
    ensures SortedKeys(AuctionsExcept(auctions, id))
  {
    if |auctions| > 0 {
      SortedTail(auctions);
      AuctionsExceptSorted(auctions[1..], id);
      if auctions[0].id != id {
        AuctionsExceptAbove(auctions[1..], id, auctions[0].id);
        ConsSorted(auctions[0], AuctionsExcept(auctions[1..], id));
      }
    }
  }

  /** The bids of one auction, newest inserted first (ORDER BY created_at DESC for bids inserted in clock order). */
  function NewestBidsOf(bids: seq<Bid>, auctionId: nat): (r: seq<Bid>)
    ensures |r| <= |bids|
    ensures forall b :: b in r <==> b in bids && b.auctionId == auctionId
  {
    if |bids| == 0 then []
    else
      var last := bids[|bids| - 1];
      (if last.auctionId == auctionId then [last] else []) + NewestBidsOf(bids[..|bids| - 1], auctionId)
  }

  /** The indices of the bid table holding bids of one auction: what COUNT(*) WHERE auction_id = auctionId counts. */
  ghost function BidIndices(bids: seq<Bid>, auctionId: nat): set<int> {
    set i | 0 <= i < |bids| && bids[i].auctionId == auctionId
  }

  /** NewestBidsOf lists each of the auction's bids once: as many as the rows that match. */
  lemma {:induction false} NewestBidsCount(bids: seq<Bid>, auctionId: nat)
    ensures |NewestBidsOf(bids, auctionId)| == |BidIndices(bids, auctionId)|
  {
    if |bids| > 0 {
      var n := |bids| - 1;
      var prefix := bids[..n];
      var before := BidIndices(prefix, auctionId);
      NewestBidsCount(prefix, auctionId);
      BidIndicesSplit(bids, auctionId);
      if bids[n].auctionId == auctionId {
        assert NewestBidsOf(bids, auctionId) == [bids[n]] + NewestBidsOf(prefix, auctionId);
        CardAddFresh(before, n);
        assert BidIndices(bids, auctionId) == before + {n};
      } else {
        assert NewestBidsOf(bids, auctionId) == NewestBidsOf(prefix, auctionId);
        assert BidIndices(bids, auctionId) == before;
      }
    }
  }

  lemma CardAddFresh(s: set<int>, x: int)
    requires x !in s
    ensures |s + {x}| == |s| + 1
  {
  }

  lemma BidIndicesSplit(bids: seq<Bid>, auctionId: nat)
    requires |bids| > 0
    ensures var n := |bids| - 1;
      BidIndices(bids, auctionId) ==
        BidIndices(bids[..n], auctionId) + (if bids[n].auctionId == auctionId then {n} else {})
    ensures |bids| - 1 !in BidIndices(bids[..|bids| - 1], auctionId)
  {
    var n := |bids| - 1;
    var prefix := bids[..n];
    forall i ensures i in BidIndices(bids, auctionId) <==>
      i in BidIndices(prefix, auctionId) || (i == n && bids[n].auctionId == auctionId)
    {
      if 0 <= i < n {
        assert prefix[i] == bids[i];
      }
    }
  }

  /** When every bid belongs to the auction, its listing holds them all. */
  lemma {:induction false} NewestBidsAllOf(bids: seq<Bid>, auctionId: nat)
    requires forall i :: 0 <= i < |bids| ==> bids[i].auctionId == auctionId
    ensures |NewestBidsOf(bids, auctionId)| == |bids|
  {
    if |bids| > 0 {
      NewestBidsAllOf(bids[..|bids| - 1], auctionId);
    }
  }

  /** A bid inserted last comes first among its auction's bids; the other auctions' listings are unchanged. */
  lemma NewestBidsAppend(bids: seq<Bid>, b: Bid, auctionId: nat)
    ensures NewestBidsOf(bids + [b], auctionId) == (if b.auctionId == auctionId then [b] else []) + NewestBidsOf(bids, auctionId)
  {
    assert (bids + [b])[..|bids|] == bids;
  }

  lemma SortedBidPrefix(bids: seq<Bid>)
    requires |bids| > 0 && SortedBidKeys(bids)
    ensures SortedBidKeys(bids[..|bids| - 1])
  {
    var prefix := bids[..|bids| - 1];
    forall i, j | 0 <= i < j < |prefix| ensures prefix[i].id < prefix[j].id {
      assert prefix[i] == bids[i] && prefix[j] == bids[j];
    }
  }

  lemma NewestBidsBelow(bids: seq<Bid>, auctionId: nat, bound: int)
    requires forall k :: 0 <= k < |bids| ==> bids[k].id < bound
    ensures forall k :: 0 <= k < |NewestBidsOf(bids, auctionId)| ==> NewestBidsOf(bids, auctionId)[k].id < bound
  {
    var r := NewestBidsOf(bids, auctionId);
    forall k | 0 <= k < |r| ensures r[k].id < bound {
      assert r[k] in r;
      var m :| 0 <= m < |bids| && bids[m] == r[k];
    }
  }

  lemma SortedBidTail(bids: seq<Bid>)
    requires |bids| > 0 && SortedBidKeys(bids)
    ensures SortedBidKeys(bids[1..])
  {
    var tail := bids[1..];
    forall i, j | 0 <= i < j < |tail| ensures tail[i].id < tail[j].id {
      assert tail[i] == bids[i + 1] && tail[j] == bids[j + 1];
    }
  }

  /** A bid with a smaller key in front of bids in ascending key order keeps the order. */
  lemma ConsBidSorted(x: Bid, rest: seq<Bid>)
    requires SortedBidKeys(rest)
    requires forall k :: 0 <= k < |rest| ==> x.id < rest[k].id
    ensures SortedBidKeys([x] + rest)
  {
    var r := [x] + rest;
    forall i, j | 0 <= i < j < |r| ensures r[i].id < r[j].id {
      assert r[j] == rest[j - 1];
      if i > 0 {
        assert r[i] == rest[i - 1];
      }
    }
  }

  lemma BidsExceptAbove(bids: seq<Bid>, auctionId: nat, bound: int)
    requires forall k :: 0 <= k < |bids| ==> bids[k].id > bound
    ensures forall k :: 0 <= k < |BidsExcept(bids, auctionId)| ==> BidsExcept(bids, auctionId)[k].id > bound
  {
    var r := BidsExcept(bids, auctionId);
    forall k | 0 <= k < |r| ensures r[k].id > bound {
      assert r[k] in r;
      var m :| 0 <= m < |bids| && bids[m] == r[k];
    }
  }

  /** Bids in strictly descending primary-key order. */
  ghost predicate DescendingBidKeys(bids: seq<Bid>) {
    forall i, j :: 0 <= i < j < |bids| ==> bids[i].id > bids[j].id
  }

  /** With bids in ascending key order, an auction's listing is in strictly descending key order: newest first. */
  lemma {:induction false} NewestBidsDescending(bids: seq<Bid>, auctionId: nat)
    requires SortedBidKeys(bids)
    ensures DescendingBidKeys(NewestBidsOf(bids, auctionId))
  {
    if |bids| > 0 {
      var n := |bids| - 1;
      var prefix := bids[..n];
      SortedBidPrefix(bids);
      NewestBidsDescending(prefix, auctionId);
      NewestBidsBelow(prefix, auctionId, bids[n].id);
      var rest := NewestBidsOf(prefix, auctionId);
      if bids[n].auctionId == auctionId {
        var r := [bids[n]] + rest;
        forall i, j | 0 <= i < j < |r| ensures r[i].id > r[j].id {
          assert r[j] == rest[j - 1];
          if i > 0 {
            assert r[i] == rest[i - 1];
          }
        }
      }
    }
  }

  /** The bids left once an auction's bids are cascaded away (ON DELETE CASCADE), in their order. */
  function BidsExcept(bids: seq<Bid>, auctionId: nat): (r: seq<Bid>)
    ensures |r| <= |bids|
    ensures forall b :: b in r <==> b in bids && b.auctionId != auctionId
  {
    if |bids| == 0 then []
    else (if bids[0].auctionId != auctionId then [bids[0]] else []) + BidsExcept(bids[1..], auctionId)
  }

  /** Cascading an auction's bids away keeps the others in ascending key order. */
  lemma {:induction false} BidsExceptSorted(bids: seq<Bid>, auctionId: nat)
    requires SortedBidKeys(bids)
    ensures SortedBidKeys(BidsExcept(bids, auctionId))
  {
    if |bids| > 0 {
      SortedBidTail(bids);
      BidsExceptSorted(bids[1..], auctionId);
      if bids[0].auctionId != auctionId {
        BidsExceptAbove(bids[1..], auctionId, bids[0].id);
        ConsBidSorted(bids[0], BidsExcept(bids[1..], auctionId));
      }
    }
  }
}
