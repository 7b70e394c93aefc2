/** The hub and the write pump of the chat example as they update their objects in place, each case of their selects by
    itself. Module ChatHub interleaves the same steps. */
module ChatObjects {
  import opened ChatHub

  /** A buffered channel. Sending on a closed channel and closing it again panic: they must not be asked for. */
  class Channel {
    var queue: seq<Text>
    var closed: bool

    constructor ()
      ensures queue == [] && !closed
    {
      queue, closed := [], false;
    }

    /** A send in a select with a default case. */
    method TrySend(m: Text) returns (sent: bool)
      requires !closed
      modifies `queue
      ensures sent == HasRoom(old(queue)) && queue == if sent then old(queue) + [m] else old(queue)
    {
      sent := HasRoom(queue);
      if sent {
        queue := queue + [m];
      }
    }

    method Close()
      requires !closed
      modifies `closed
      ensures closed
    {
      closed := true;
    }

    /** A receive; from a closed channel that is empty it gives nothing. */
    method Receive() returns (m: Text, ok: bool)
      requires queue != [] || closed
      modifies `queue
      ensures if old(queue) != [] then ok && m == old(queue[0]) && queue == old(queue[1..])
              else !ok && m == [] && queue == []
    {
      ok := queue != [];
      if ok {
        m, queue := queue[0], queue[1..];
      } else {
        m := [];
      }
    }
  }

  /** What a broadcast makes of a registered client's channel. */
  twostate predicate Offered(c: Channel, m: Text, new kept: bool)
    reads c
  {
    && kept == HasRoom(old(c.queue))
    && c.closed == !kept
    && c.queue == if kept then old(c.queue) + [m] else old(c.queue)
  }

  /** A client is known by its send channel. */
  class Hub {
    var clients: set<Channel>

    constructor ()
      ensures Valid() && clients == {}
    {
      clients := {};
    }

    /** The registered clients have open channels. */
    ghost predicate Valid()
      reads this, clients
    {
      forall c :: c in clients ==> !c.closed
    }

    method Register(c: Channel)
      requires Valid() && !c.closed
      modifies this
      ensures Valid() && clients == old(clients) + {c}
    {
      clients := clients + {c};
    }

    /** Only a client that is still registered has its channel closed, so that no channel is closed twice. */
    method Unregister(c: Channel)
      requires Valid()
      modifies this, c`closed
      ensures Valid() && clients == old(clients) - {c}
      ensures c.closed == (old(c.closed) || c in old(clients))
    {
      if c in clients {
        clients := clients - {c};
        c.Close();
      }
    }

    /** Every registered client either gets the message or, if its channel is full, is closed and removed; it does not
        matter in which order the map gives them, nor that clients are removed on the way. */
    method Broadcast(m: Text)
      requires Valid()
      modifies this, clients
      ensures Valid() && clients <= old(clients)
      ensures forall c :: c in old(clients) ==> Offered(c, m, c in clients)
    {
      var left := clients;
      while left != {}
        invariant Valid() && left <= clients <= old(clients)
        invariant forall c :: c in left ==> c.queue == old(c.queue) && !c.closed
        invariant forall c :: c in old(clients) - left ==> Offered(c, m, c in clients)
        decreases |left|
      {
        var c :| c in left;
        left := left - {c};
        var sent := c.TrySend(m);
        if !sent {
          c.Close();
          clients := clients - {c};
        }
      }
    }
  }

  /** The case of writePump that has a message to send: everything that is queued goes into one frame, which comes apart
      into the messages again. */
  method SendQueued(send: Channel) returns (frame: Text)
    requires send.queue != []
    modifies send`queue
    ensures send.queue == [] && frame == Join(old(send.queue))
    ensures (forall m :: m in old(send.queue) ==> NoNewline(m)) ==> Split(frame) == old(send.queue)
  {
    ghost var all := send.queue;
    var message, _ := send.Receive();
    frame := message;
    var n := |send.queue|;
    ghost var taken := [message];
    var i := 0;
    while i < n
      invariant 0 <= i <= n && |send.queue| == n - i
      invariant taken != [] && taken + send.queue == all && frame == Join(taken)
    {
      var next, _ := send.Receive();
      assert (taken + [next])[..|taken|] == taken;
      taken := taken + [next];
      frame := frame + [NEWLINE] + next;
      i := i + 1;
    }
    assert taken == all;
    if forall m :: m in all ==> NoNewline(m) {
      SplitJoin(all);
    }
  }
}
