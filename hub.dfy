/**
 * The WebSocket broadcast hub (internal/ws/hub.go). A client's Send channel is
 * modelled by the client object itself: its queue of pending events and a
 * closed flag. The hub's mutex makes each method one atomic step, so the
 * methods below are sequential updates of the topic map and of the clients'
 * channels.
 */
module Ws {
  import opened Model

  /** The Send buffer capacity every client gets when it connects (internal/api/ws.go:34). */
  const SendBuffer: nat := 16

  /** A connected viewer: the buffered channel Send, as its pending queue and whether it is closed. */
  class Client {
    var send: seq<Event>
    var closed: bool

    /** The channel holds at most SendBuffer pending events. */
    ghost predicate Valid()
      reads this
    {
      |send| <= SendBuffer
    }

    /** make(chan []byte, 16): an open, empty channel. */
    constructor ()
      ensures Valid() && send == [] && !closed
    {
      send, closed := [], false;
    }

    /**
     * A non-blocking send (select with a default case): it enqueues when the
     * buffer has room and otherwise does nothing. Sending on a closed channel
     * panics in Go, hence the precondition.
     */
    method TrySend(m: Event) returns (sent: bool)
      requires Valid() && !closed
      modifies this
      ensures Valid() && !closed
      ensures sent <==> |old(send)| < SendBuffer
      ensures send == if sent then old(send) + [m] else old(send)
    {
      sent := |send| < SendBuffer;
      if sent {
        send := send + [m];
      }
    }

    /** close(c.Send). Closing a closed channel panics in Go, hence the precondition. */
    method Close()
      requires !closed
      modifies this
      ensures closed && send == old(send)
    {
      closed := true;
    }

    /**
     * One receive of the connection's writer loop (range client.Send in
     * internal/api/ws.go): the oldest pending event, or None when nothing is
     * pending (the writer then waits, or stops if the channel is closed).
     */
    method Receive() returns (m: Option<Event>)
      requires Valid()
      modifies this
      ensures Valid() && closed == old(closed)
      ensures old(send) == [] ==> m == None && send == []
      ensures old(send) != [] ==> m == Some(old(send)[0]) && send == old(send)[1..]
    {
      if send == [] {
        m := None;
      } else {
        m := Some(send[0]);
        send := send[1..];
      }
    }
  }

  /** After one delivery attempt of msg to c, whose queue held before: enqueued if there was room, else closed. */
  ghost predicate Delivered(c: Client, before: seq<Event>, msg: Event)
    reads c
  {
    if |before| < SendBuffer then c.send == before + [msg] && !c.closed
    else c.send == before && c.closed
  }

  /** The clients of s whose queue has room: the ones a broadcast keeps. */
  ghost function Survivors(s: set<Client>): set<Client>
    reads s
  {
    set c | c in s && |c.send| < SendBuffer
  }

  class Hub {
    /** auction id -> the set of clients watching it */
    var topics: map<nat, set<Client>>

    /** The clients registered for auction a; none when a has no topic. */
    function Members(a: nat): (s: set<Client>)
      reads this
    {
      if a in topics then topics[a] else {}
    }

    ghost function AllMembers(): set<Client>
      reads this
    {
      set a, c | a in topics && c in topics[a] :: c
    }

    /**
     * Every registered client is open and within its capacity, and watches one
     * auction only (the transport registers each connection once, for the
     * auction in its URL).
     */
    ghost predicate Valid()
      reads this, AllMembers()
    {
      && (forall a, c :: a in topics && c in topics[a] ==> !c.closed && c.Valid())
      && (forall a, b, c :: a in topics && b in topics && c in topics[a] && c in topics[b] ==> a == b)
    }

    /** NewHub: no topics. */
    constructor ()
      ensures Valid() && topics == map[]
    {
      topics := map[];
    }

    /** The number of clients watching auction a; 0 when a has no topic. */
    method Clients(a: nat) returns (n: nat)
      ensures n == |Members(a)|
      ensures a !in topics ==> n == 0
    {
      n := if a in topics then |topics[a]| else 0;
    }

    /**
     * Adds c to auction a's topic, creating the topic when it is absent.
     * Registering a member again changes nothing. The transport registers a
     * freshly connected client, which is open and not yet in any topic.
     */
    method Register(a: nat, c: Client)
      requires Valid()
      requires !c.closed && c.Valid()
      requires forall b :: b in topics && b != a ==> c !in topics[b]
      modifies this
      ensures Valid()
      ensures topics == old(topics)[a := old(Members(a)) + {c}]
      ensures c in old(Members(a)) ==> topics == old(topics)
    {
      var conns := if a in topics then topics[a] else {};
      if c in conns {
        assert conns + {c} == conns;
        assert topics[a := conns] == topics;
      }
      topics := topics[a := conns + {c}];
    }

    /**
     * Unregister as written: whenever auction a has a topic entry, removes c
     * from it and closes c's channel, member or not; the emptied topic stays.
     * The close is only safe when c is still open: a client that Broadcast has
     * already evicted and closed makes this close panic (see
     * EvictedViewerDisconnects).
     */
    method Unregister(a: nat, c: Client)
      requires Valid()
      requires a in topics ==> !c.closed
      requires forall b :: b in topics && b != a ==> c !in topics[b]
      modifies this, c
      ensures Valid()
      ensures a in old(topics) ==> topics == old(topics)[a := old(topics)[a] - {c}] && c.closed
      ensures a !in old(topics) ==> topics == old(topics) && c.closed == old(c.closed)
      ensures c.send == old(c.send)
    {
      if a in topics {
        topics := topics[a := topics[a] - {c}];
        c.Close();
      }
    }

    /**
     * Unregister corrected: removes and closes c only while it is still a
     * member of a's topic, so a client evicted by Broadcast is not closed twice.
     */
    method UnregisterMember(a: nat, c: Client)
      requires Valid()
      modifies this, c
      ensures Valid()
      ensures topics == if c in old(Members(a)) then old(topics)[a := old(topics)[a] - {c}] else old(topics)
      ensures c.closed == (old(c.closed) || c in old(Members(a)))
      ensures c.send == old(c.send)
    {
      if a in topics && c in topics[a] {
        topics := topics[a := topics[a] - {c}];
        c.Close();
      }
    }

    /**
     * The unregister branch of the Run loop: removes c, deletes the topic once
     * it is empty, and never closes c.
     */
    method RunUnregister(a: nat, c: Client)
      requires Valid()
      modifies this
      ensures Valid()
      ensures a in old(topics) && old(topics)[a] - {c} == {} ==> topics == old(topics) - {a}
      ensures a in old(topics) && old(topics)[a] - {c} != {} ==> topics == old(topics)[a := old(topics)[a] - {c}]
      ensures a !in old(topics) ==> topics == old(topics)
    {
      if a in topics {
        var conns := topics[a] - {c};
        if conns == {} {
          topics := topics - {a};
        } else {
          topics := topics[a := conns];
        }
      }
    }

    /**
     * Offers msg to every client of auction a without waiting: a client with
     * room gets msg at the end of its queue, a client whose queue is full is
     * removed from the topic and closed. Other topics and their clients are
     * untouched, and the topic itself stays even if it empties.
     */
    method Broadcast(a: nat, msg: Event)
      requires Valid()
      modifies this, Members(a)
      ensures Valid()
      ensures topics == if a in old(topics) then old(topics)[a := old(Survivors(topics[a]))] else old(topics)
      ensures forall c :: c in old(Members(a)) ==> Delivered(c, old(c.send), msg)
      ensures forall b, c :: b in topics && b != a && c in topics[b] ==> c.send == old(c.send) && !c.closed
    {
      ghost var members := Members(a);
      var pending := Members(a);
      while pending != {}
        invariant pending <= members
        invariant a !in old(topics) ==> members == {} && topics == old(topics)
        invariant a in old(topics) ==> a in topics && topics == old(topics)[a := topics[a]]
        invariant a in old(topics) ==> topics[a] == pending + old(Survivors(members - pending))
        invariant forall c :: c in pending ==> c.send == old(c.send) && !c.closed && c.Valid()
        invariant forall c :: c in members - pending ==> Delivered(c, old(c.send), msg) && c.Valid()
        decreases pending
      {
        var c :| c in pending;
        var sent := c.TrySend(msg);
        if !sent {
          topics := topics[a := topics[a] - {c}];
          c.Close();
        }
        pending := pending - {c};
      }
      assert members - pending == members;
      if a in old(topics) {
        assert members == old(topics[a]);
        assert topics[a] == old(Survivors(members));
        assert old(Survivors(topics[a])) == old(Survivors(members));
      }
    }
  }

  /**
   * A viewer whose queue is full is evicted and closed by Broadcast, yet its
   * auction keeps a topic entry; when the viewer then disconnects, the
   * transport calls Unregister for that auction, whose precondition (the
   * channel is still open) is false: in Go the second close panics.
   */
  method EvictedViewerDisconnects(a: nat, e: Event) returns (h: Hub, c: Client)
    ensures fresh(h) && fresh(c)
    ensures h.Valid()
    ensures a in h.topics && h.topics[a] == {}
    ensures c.closed && |c.send| == SendBuffer
    ensures !(a in h.topics ==> !c.closed)
  {
    h := new Hub();
    c := new Client();
    assert h.Members(a) == {};
    h.Register(a, c);
    assert {} + {c} == {c};
    assert h.topics == map[a := {c}];
    var i := 0;
    while i < SendBuffer
      invariant 0 <= i <= SendBuffer
      invariant h.Valid() && h.topics == map[a := {c}]
      invariant |c.send| == i && !c.closed
    {
      ghost var before := c.send;
      label Before:
      h.Broadcast(a, e);
      assert Delivered(c, before, e);
      assert old@Before(Survivors({c})) == {c};
      i := i + 1;
    }
    h.Broadcast(a, e);
  }

  /** The same sequence with the corrected Unregister: the disconnect is harmless and the topic is left empty. */
  method EvictedViewerDisconnectsSafely(a: nat, e: Event) returns (h: Hub, c: Client)
    ensures h.Valid()
    ensures a in h.topics && h.topics[a] == {}
    ensures c.closed
  {
    h, c := EvictedViewerDisconnects(a, e);
    h.UnregisterMember(a, c);
  }

  /**
   * Each client's queue is first in, first out: two successive broadcasts on
   * one topic reach a client with room for both in call order.
   */
  method SuccessiveBroadcasts(h: Hub, a: nat, m1: Event, m2: Event)
    requires h.Valid()
    modifies h, h.Members(a)
    ensures h.Valid()
    ensures forall c :: c in old(h.Members(a)) && |old(c.send)| + 2 <= SendBuffer ==>
      c in h.Members(a) && c.send == old(c.send) + [m1, m2]
  {
    ghost var members := h.Members(a);
    h.Broadcast(a, m1);
    label Between:
    assert h.Members(a) <= members;
    h.Broadcast(a, m2);
    forall c | c in members && |old(c.send)| + 2 <= SendBuffer
      ensures c in h.Members(a) && c.send == old(c.send) + [m1, m2]
    {
      assert c in old@Between(h.Members(a));
    }
  }

  /** Two viewers of one auction, both open, each holding the one event broadcast so far. */
  method TwoViewersWatch(a: nat, e: Event) returns (h: Hub, v1: Client, v2: Client)
    ensures fresh(h) && fresh(v1) && fresh(v2) && v1 != v2
    ensures h.Valid() && h.topics == map[a := {v1, v2}]
    ensures v1.send == [e] && v2.send == [e] && !v1.closed && !v2.closed
  {
    h := new Hub();
    v1 := new Client();
    v2 := new Client();
    assert h.Members(a) == {};
    h.Register(a, v1);
    assert h.topics == map[a := {v1}] by { assert {} + {v1} == {v1}; }
    h.Register(a, v2);
    assert h.topics == map[a := {v1, v2}] by { assert {v1} + {v2} == {v1, v2}; }
    label BeforeE:
    h.Broadcast(a, e);
    assert old@BeforeE(Survivors({v1, v2})) == {v1, v2};
  }

  /** Two viewers receive the first event; after the first leaves, only the second receives the next one. */
  method TwoViewers(a: nat, e: Event, f: Event)
  {
    var h, v1, v2 := TwoViewersWatch(a, e);
    h.Unregister(a, v1);
    assert h.topics == map[a := {v2}] by { assert {v1, v2} - {v1} == {v2}; }
    label BeforeF:
    h.Broadcast(a, f);
    assert old@BeforeF(Survivors({v2})) == {v2};
    assert v1.send == [e] && v1.closed;
    assert v2.send == [e, f];
    var n := h.Clients(a);
    assert n == 1;
  }
}
