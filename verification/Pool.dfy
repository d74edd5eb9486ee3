/**
  connectionpool.py.  Calls to the server (connect, ping, reset, rollback, close) are
  parameters that say whether the call succeeds; a null result stands for an exception.
 */
module Pool {
  import PoolSpec
  import Wrappers

  class Connection {
    var pool: ConnectionPool?    // _Connection__pool
    var used: nat                // _used
    var inTrans: bool            // server_status & IN_TRANS
    var tpcActive: bool          // tpc_state > NONE
    var closed: bool

    constructor ()
      ensures pool == null && used == 0 && !inTrans && !tpcActive && !closed
    {
      pool, used, inTrans, tpcActive, closed := null, 0, false, false, false;
    }

    /** rollback() is refused while a two-phase transaction is active. */
    method Rollback(works: bool) returns (ok: bool)
      modifies this`inTrans
      ensures ok == (works && !tpcActive)
      ensures inTrans == (old(inTrans) && !ok)
    {
      ok := works && !tpcActive;
      if ok {
        inTrans := false;
      }
    }

    method Reset(works: bool) returns (ok: bool)
      modifies this`inTrans
      ensures ok == works && inTrans == (old(inTrans) && !ok)
    {
      ok := works;
      if ok {
        inTrans := false;
      }
    }
  }

  class ConnectionPool {
    const size: nat
    var resetConnection: bool
    var free: seq<Connection>     // _connections_free
    var inUse: seq<Connection>    // _connections_used
    ghost var known: set<Connection>

    /** The pool as a value. */
    ghost function Abs(): PoolSpec.Pool<Connection>
      reads this, known`pool, known`used, known`inTrans
    {
      PoolSpec.Pool(size, free, inUse,
                    set c | c in known && c.pool == this,
                    map c | c in known :: c.used,
                    set c | c in known && c.inTrans)
    }

    ghost predicate Shaped()
      reads this
    {
      PoolSpec.Elems(free) <= known && PoolSpec.Elems(inUse) <= known
    }

    ghost predicate Valid()
      reads this, known`pool, known`used, known`inTrans
    {
      Shaped() && PoolSpec.Valid(Abs())
    }

    constructor (size: nat, resetConnection: bool)
      ensures Valid() && Abs() == PoolSpec.Pool(size, [], [], {}, map[], {})
      ensures this.resetConnection == resetConnection
    {
      this.size, this.resetConnection := size, resetConnection;
      free, inUse, known := [], [], {};
    }

    /** A connection of the caller's, or a new one; null when the pool is full or connecting fails. */
    method AddConnection(connection: Connection?, connects: bool) returns (c: Connection?)
      requires Shaped()
      modifies this`free, this`known, if connection == null then {} else {connection}
      ensures Shaped() && known == old(known) + if c == null then {} else {c}
      ensures c == null <==> old(|free| + |inUse|) >= size || (connection == null && !connects)
      ensures c == null ==> Abs() == old(Abs())
      ensures c != null && connection != null ==> c == connection
      ensures c != null && connection != null ==>
        Abs() == PoolSpec.Add(old(Abs()), c, old(connection.used), old(connection.inTrans)).0
      ensures c != null && connection == null ==> fresh(c) && Abs() == PoolSpec.Add(old(Abs()), c, 0, false).0
    {
      if |free| + |inUse| >= size {
        return null;
      }
      if connection == null {
        if !connects {
          return null;
        }
        c := new Connection();
      } else {
        c := connection;
      }
      c.pool := this;
      free := free + [c];
      known := known + {c};
      PoolSpec.ElemsSnoc(old(free), c);
    }

    /** Takes a connection out of the pool, closes it, and adds a new one. */
    method ReplaceConnection(connection: Connection, closes: bool, connects: bool) returns (c: Connection?)
      requires Valid() && connection in known && connection.pool == this
      modifies this`free, this`inUse, this`known, connection
      ensures Valid() && known >= old(known)
      ensures c == null <==> !(closes && connects)
      ensures c != null ==> fresh(c)
      ensures Abs() == PoolSpec.Replace(old(Abs()), connection, Maybe(c)).0
    {
      TakeOut(connection);
      connection.closed := true;
      ghost var dropped := Abs();
      if closes {
        c := AddConnection(null, connects);
      } else {
        c := null;
      }
      if c != null {
        PoolSpec.AddKeepsValid(dropped, c, 0, false);
      }
    }

    /** The connection leaves its list and no longer points back. */
    method TakeOut(connection: Connection)
      requires Valid() && connection in known && connection.pool == this
      modifies this`free, this`inUse, connection`pool
      ensures Valid() && Abs() == PoolSpec.Drop(old(Abs()), connection)
      ensures |free| + |inUse| < size
    {
      PoolSpec.DropKeepsValid(Abs(), connection);
      assert connection in PoolSpec.Elems(free) + PoolSpec.Elems(inUse);
      if connection in free {
        PoolSpec.WithoutDistinct(free, connection);
        free := PoolSpec.Without(free, connection);
      } else if connection in inUse {
        PoolSpec.WithoutDistinct(inUse, connection);
        inUse := PoolSpec.Without(inUse, connection);
      }
      connection.pool := null;
      assert Abs().owned == old(Abs().owned) - {connection};
    }

    static function Maybe(c: Connection?): Wrappers.Option<Connection> {
      if c == null then Wrappers.None else var d: Connection := c; Wrappers.Some(d)
    }

    /** Moves a free connection to the used list and counts it. */
    method HandOut(c: Connection)
      requires Valid() && c in free
      modifies this`free, this`inUse, c`used
      ensures Valid() && Abs() == PoolSpec.HandOut(old(Abs()), c)
    {
      PoolSpec.HandOutKeepsValid(Abs(), c);
      assert c in PoolSpec.Elems(free);
      PoolSpec.WithoutDistinct(free, c);
      PoolSpec.ElemsSnoc(inUse, c);
      c.used := c.used + 1;
      inUse := inUse + [c];
      free := PoolSpec.Without(free, c);
      assert Abs().uses == old(Abs().uses)[c := old(c.used) + 1];
    }

    /** The oldest free connection, validated if it is stale; null when there is none to be had. */
    method GetConnection(stale: bool, alive: bool, closes: bool, connects: bool) returns (c: Connection?)
      requires Valid()
      modifies this`free, this`inUse, this`known, known
      ensures Valid()
      ensures var dead := stale && !alive;
        Abs() == PoolSpec.Get(old(Abs()), dead, if dead && old(free) != [] then Maybe(c) else Wrappers.None).0
      ensures var dead := stale && !alive;
        Maybe(c) == PoolSpec.Get(old(Abs()), dead, if dead && old(free) != [] then Maybe(c) else Wrappers.None).1
      ensures c == null <==> old(free) == [] || (stale && !alive && !(closes && connects))
    {
      if free == [] {
        return null;
      }
      var first := free[0];
      assert first in free && first in PoolSpec.Elems(free);
      assert first in Abs().owned;
      c := first;
      if stale && !alive {
        c := ReplaceConnection(first, closes, connects);
        if c == null {
          return;
        }
        assert free[|free| - 1] == c;
      }
      HandOut(c);
    }

    /** Resets the connection, or rolls back its open transaction. */
    method CleanUp(connection: Connection, works: bool) returns (ok: bool)
      requires Valid() && connection in known
      modifies connection`inTrans
      ensures Valid()
      ensures ok == !((resetConnection || old(connection.inTrans)) &&
                      !(works && (resetConnection || !connection.tpcActive)))
      ensures Abs() == if ok then old(Abs()).(trans := old(Abs()).trans - {connection}) else old(Abs())
    {
      ok := true;
      if resetConnection {
        ok := connection.Reset(works);
      } else if connection.inTrans {
        ok := connection.Rollback(works);
      }
      assert Abs().trans == if ok then old(Abs()).trans - {connection} else old(Abs()).trans;
    }

    method TakeBack(connection: Connection)
      requires Valid() && connection in known
      modifies this`free, this`inUse
      ensures Valid()
      ensures Abs() == if connection in old(inUse)
        then old(Abs()).(used := PoolSpec.Without(old(inUse), connection), free := old(free) + [connection])
        else old(Abs())
    {
      if connection in inUse {
        assert connection in PoolSpec.Elems(inUse);
        PoolSpec.WithoutDistinct(inUse, connection);
        PoolSpec.ElemsSnoc(free, connection);
        inUse := PoolSpec.Without(inUse, connection);
        free := free + [connection];
      }
    }

    /** Returning a connection: it goes back clean, or it is replaced. */
    method CloseConnection(connection: Connection, works: bool, closes: bool, connects: bool)
      returns (replacement: Connection?)
      requires Valid() && connection in known && connection.pool == this
      modifies this`free, this`inUse, this`known, connection
      ensures Valid()
      ensures var ok := works && (resetConnection || !old(connection.tpcActive));
        Abs() == PoolSpec.Close(old(Abs()), connection, resetConnection, ok, Maybe(replacement))
    {
      var ok := CleanUp(connection, works);
      if ok {
        replacement := null;
        TakeBack(connection);
      } else {
        replacement := ReplaceConnection(connection, closes, connects);
      }
    }
  }
}
