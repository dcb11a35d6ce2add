/**
 * Page/size normalisation shared by PaginatedBids and PaginatedAuctions, and
 * the OFFSET/LIMIT window the repositories apply to a listing.
 */
module Paging {

  const DefaultPage: int := 1
  const DefaultSize: int := 10

  /** A page of a listing and the listing's total size. */
  datatype Listing<T> = Listing(items: seq<T>, total: nat)

  /** A page request after the defaults have been applied. */
  datatype Request = Request(page: int, size: int)

  ghost predicate Normal(r: Request) {
    r.page >= 1 && r.size >= 1
  }

  /** Page numbers below 1 become 1; sizes below 1 become 10; anything else is kept. */
  function Normalize(page: int, size: int): (r: Request)
    ensures Normal(r)
    ensures page >= 1 ==> r.page == page
    ensures size >= 1 ==> r.size == size
    ensures page < 1 ==> r.page == DefaultPage
    ensures size < 1 ==> r.size == DefaultSize
  {
    Request(if page < 1 then DefaultPage else page, if size < 1 then DefaultSize else size)
  }

  /** Normalising twice is normalising once: a normal request is left alone. */
  lemma NormalizeIdempotent(page: int, size: int)
    ensures Normalize(Normalize(page, size).page, Normalize(page, size).size) == Normalize(page, size)
  {
  }

  /** The number of rows skipped, (page - 1) * size; its type says it is never negative for a normal request. */
  function Offset(page: int, size: int): (r: nat)
    requires page >= 1 && size >= 1
  {
    (page - 1) * size
  }

  /** The first page starts at row 0, and each page starts where the previous one ends. */
  lemma OffsetStep(page: int, size: int)
    requires page >= 1 && size >= 1
    ensures Offset(1, size) == 0
    ensures Offset(page + 1, size) == Offset(page, size) + size
  {
    assert page * size == (page - 1) * size + size;
  }

  function Min(a: int, b: int): (m: int) {
    if a <= b then a else b
  }

  /** OFFSET offset LIMIT limit applied to a listing: the rows offset, offset + 1, ... that exist, at most limit of them. */
  function Window<T>(xs: seq<T>, offset: nat, limit: nat): (r: seq<T>)
    ensures |r| == if offset >= |xs| then 0 else Min(limit, |xs| - offset)
    ensures forall i :: 0 <= i < |r| ==> r[i] == xs[offset + i]
  {
    if offset >= |xs| then [] else xs[offset..offset + Min(limit, |xs| - offset)]
  }

  /** Pages 1..n of one size, concatenated. */
  function Pages<T>(xs: seq<T>, size: int, n: nat): (r: seq<T>)
    requires size >= 1
  {
    if n == 0 then [] else Pages(xs, size, n - 1) + Window(xs, Offset(n, size), size)
  }

  /** The rows before offset followed by the window at offset are the rows before offset + limit. */
  lemma WindowExtendsPrefix<T>(xs: seq<T>, offset: nat, limit: nat)
    ensures xs[..Min(offset, |xs|)] + Window(xs, offset, limit) == xs[..Min(offset + limit, |xs|)]
  {
    if offset < |xs| {
      var hi := Min(offset + limit, |xs|);
      assert Window(xs, offset, limit) == xs[offset..hi];
      assert xs[..offset] + xs[offset..hi] == xs[..hi];
    }
  }

  /**
   * Walking pages 1, 2, ..., n with a fixed size yields the listing's first
   * n * size rows in order: no row is skipped and none is repeated.
   */
  lemma {:induction false} PagesTile<T>(xs: seq<T>, size: int, n: nat)
    requires size >= 1
    ensures Pages(xs, size, n) == xs[..Min(n * size, |xs|)]
  {
    if n > 0 {
      PagesTile(xs, size, n - 1);
      OffsetStep(n, size);
      WindowExtendsPrefix(xs, Offset(n, size), size);
    }
  }
}
