/** Connections that share a pool of write buffers (conn.go). */
module SharedPool {
  import opened Masking
  import opened Frames
  import opened WriteConn
  import Truncation

  /** Two connections hold different buffers, if any. */
  ghost predicate Apart(c: Conn, d: Conn)
    reads c`writeBuf, d`writeBuf
  {
    c.writeBuf == null || c.writeBuf != d.writeBuf
  }

  /** The connections use this pool, with buffers of one size; each may be called, and no two of them hold the same
      buffer. */
  ghost predicate Sharing(conns: set<Conn>, pool: BufferPool)
    reads conns, pool, set c | c in conns :: c.open
  {
    && (forall c :: c in conns ==> c.writePool == pool && c.Ready())
    && (forall c, d :: c in conns && d in conns ==> c.writeBufSize == d.writeBufSize && (c != d ==> Apart(c, d)))
  }

  /** What any call does with the buffers, whatever else it does: those that the connection and its pool have afterwards
      they had before, or they are new. */
  twostate predicate OwnBuffers(c: Conn)
    reads c`writeBuf, c.writePool
  {
    fresh(c.Buffers() - old(c.Buffers()))
  }

  twostate predicate Untouched(d: Conn)
    reads d, d.open
  {
    unchanged(d) && (d.open != null ==> unchanged(d.open))
  }

  datatype Two = Two(c: Conn, d: Conn)

  /** A call of the connection c leaves d as it was, with a buffer of its own. */
  twostate lemma OtherKept(t: Two)
    requires t.c != t.d && t.c.writePool == t.d.writePool != null && t.c.writeBufSize == t.d.writeBufSize
    requires old(t.c.Ready()) && old(t.d.Ready()) && old(Apart(t.c, t.d)) && old(Apart(t.d, t.c))
    requires t.c.Ready() && OwnBuffers(t.c) && Untouched(t.d)
    ensures t.d.Ready() && Apart(t.c, t.d) && Apart(t.d, t.c)
  {
    hide Assemble, EncodeAll, Conn.WireOk, Progress;
    var c, d := t.c, t.d;
    assert forall b :: b in c.writePool.free ==> b in c.Buffers();
    assert forall b :: b in old(c.Buffers()) ==> b in old(c.writePool.free) || b == old(c.writeBuf);
    assert d.Stream() == old(d.Stream());
    assert d.writeBuf == old(d.writeBuf) && d.open == old(d.open);
  }

  lemma WritersApart(c: Conn, d: Conn)
    requires c != d && c.Ready() && d.Ready()
    ensures d.open == null || d.open != c.open
  {
    hide Conn.WireOk, Conn.BuffersOk, Assemble, Progress;
  }

  /** A call of one of the connections that share a pool. */
  datatype Turn = Turn(conns: set<Conn>, pool: BufferPool, caller: Conn)

  twostate lemma StillSharing(t: Turn)
    requires old(Sharing(t.conns, t.pool)) && t.caller in t.conns && t.caller.Ready() && OwnBuffers(t.caller)
    requires forall d :: d in t.conns && d != t.caller ==> Untouched(d)
    ensures Sharing(t.conns, t.pool)
  {
    hide Conn.Ready, OwnBuffers;
    forall d | d in t.conns && d != t.caller
      ensures d.Ready() && Apart(t.caller, d) && Apart(d, t.caller)
    {
      OtherKept(Two(t.caller, d));
    }
    forall d, e | d in t.conns && e in t.conns && d != e
      ensures Apart(d, e)
    {
      assert old(Apart(d, e));
    }
  }

  /** The writers and buffers that calls may change. */
  ghost function Parts(conns: set<Conn>, pool: BufferPool): set<object>
    reads conns, pool
  {
    (set c | c in conns && c.open != null :: c.open as object)
    + (set c | c in conns && c.writeBuf != null :: c.writeBuf as object)
    + (set b | b in pool.free :: b as object)
  }

  twostate lemma PartsKept(t: Turn)
    requires t.caller in t.conns && t.caller.writePool == t.pool && OwnBuffers(t.caller)
    requires forall d :: d in t.conns && d != t.caller ==> Untouched(d)
    requires t.caller.open == old(t.caller.open) || t.caller.open == null || fresh(t.caller.open)
    ensures fresh(Parts(t.conns, t.pool) - old(Parts(t.conns, t.pool)))
  {
    forall x | x in Parts(t.conns, t.pool)
      ensures x in old(Parts(t.conns, t.pool)) || fresh(x)
    {
      if b: array<byte> :| b in t.pool.free && x == b {
        assert b in t.caller.Buffers();
      }
    }
  }

  // The calls

  /** Some call of a connection, or of its open writer. */
  method Call(c: Conn, messageType: int, data: seq<byte>)
    requires c.writePool != null && c.Ready() && |data| < MAX_SLICE
    modifies c, c.writePool, c.open, c.Buffers()
    ensures c.Ready() && OwnBuffers(c) && (c.open == old(c.open) || c.open == null || fresh(c.open))
  {
    hide Assemble, EncodeAll, LateMessages, Conn.WireOk, Progress;
    var choice: nat := *;
    var w := c.writer;
    if choice == 0 {
      var _, _ := c.NextWriter(messageType);
    } else if choice == 1 && !(c.compression && IsData(messageType)) {
      var _ := c.WriteMessage(messageType, data);
    } else if choice == 1 && w == null {
      var flush: seq<byte> := *;
      if |flush| < MAX_SLICE {
        var _ := Truncation.SendCompressed(c, messageType, [[data]], [flush]);
      }
    } else if choice == 2 {
      var late: bool := *;
      var _ := c.WriteControl(messageType, data, late);
    } else if w != null {
      if choice == 3 {
        var _, _ := w.Write(data);
      } else if choice == 4 {
        var _, _ := w.WriteString(data);
      } else if choice == 5 {
        var idle: nat := *;
        var r := new Source(data, true, idle);
        var _, _ := w.ReadFrom(r);
      } else {
        var _ := w.Close();
      }
    }
  }

  /** A call of one of the connections: they all may be called afterwards, and no two hold the same buffer. */
  method OneCall(conns: set<Conn>, pool: BufferPool, c: Conn, messageType: int, data: seq<byte>)
    requires Sharing(conns, pool) && c in conns && |data| < MAX_SLICE
    modifies c, pool, c.open, c.Buffers()
    ensures Sharing(conns, pool) && fresh(Parts(conns, pool) - old(Parts(conns, pool)))
  {
    hide Conn.Ready, OwnBuffers, Parts, Apart;
    forall d | d in conns && d != c
      ensures d.open == null || d.open != c.open
    {
      WritersApart(c, d);
    }
    Call(c, messageType, data);
    StillSharing(Turn(conns, pool, c));
    PartsKept(Turn(conns, pool, c));
  }

  /** Calls of all the connections, one after the other in any order. */
  method AnyCalls(conns: set<Conn>, pool: BufferPool, calls: nat)
    requires Sharing(conns, pool)
    modifies conns, pool, Parts(conns, pool)
    ensures Sharing(conns, pool)
  {
    hide Conn.Ready, Apart;
    if calls > 0 && conns != {} {
      var c :| c in conns;
      var messageType: int, data: seq<byte> := *, *;
      if |data| < MAX_SLICE {
        OneCall(conns, pool, c, messageType, data);
      }
      AnyCalls(conns, pool, calls - 1);
    }
  }
}
