/** The storage connection pool (internal/storage/pool.go): the shared record, its atomic sections as
    functions, and the class whose methods are those sections.

    A section is what one goroutine does between two points where others can run: one critical section of
    the pool's mutex, or one operation on the buffered channel. Module `PoolRuns` interleaves them. */
module Pool {

  /** The limits after NewConnectionPool has put defaults and clamps in place. */
  datatype Config = Config(maxSize: int, maxIdle: int)

  function Normalise(maxSize: int, maxIdle: int): (c: Config)
    ensures 1 <= c.maxIdle <= c.maxSize
    ensures c.maxSize == maxSize || (maxSize <= 0 && c.maxSize == 100)
    ensures c.maxIdle == c.maxSize || c.maxIdle == maxIdle || (maxIdle <= 0 && c.maxIdle == 10)
    ensures 1 <= maxIdle ==> c.maxIdle <= maxIdle
    ensures maxIdle <= 0 ==> c.maxIdle <= 10
  {
    var size := if maxSize <= 0 then 100 else maxSize;
    var idle := if maxIdle <= 0 then 10 else maxIdle;
    Config(size, if idle > size then size else idle)
  }

  /** What all goroutines share: the channel's contents, oldest first, and the three counters. */
  datatype Shared<C> = Shared(channel: seq<C>, created: int, active: int, idle: int)

  // Receiving from the channel; the counters move later, in another section.
  function Received<C>(s: Shared<C>): Shared<C>
    requires s.channel != []
  {
    s.(channel := s.channel[1..])
  }

  function CountedReceived<C>(s: Shared<C>): Shared<C> {
    s.(idle := s.idle - 1, active := s.active + 1)
  }

  function Created<C>(s: Shared<C>): Shared<C> {
    s.(created := s.created + 1)
  }

  function CountedCreated<C>(s: Shared<C>): Shared<C> {
    s.(active := s.active + 1)
  }

  predicate HasRoom<C>(cfg: Config, s: Shared<C>) {
    s.created < cfg.maxSize
  }

  // Put's critical section keeps the connection exactly when the idle counter is below its limit.
  predicate Keeps<C>(cfg: Config, s: Shared<C>) {
    s.idle < cfg.maxIdle
  }

  function PutCounted<C>(cfg: Config, s: Shared<C>): Shared<C> {
    if Keeps(cfg, s) then s.(active := s.active - 1, idle := s.idle + 1)
    else s.(active := s.active - 1, created := s.created - 1)
  }

  function Sent<C>(s: Shared<C>, c: C): Shared<C> {
    s.(channel := s.channel + [c])
  }

  // The "pool is full" arm of Put.
  function Dropped<C>(s: Shared<C>): Shared<C> {
    s.(idle := s.idle - 1, created := s.created - 1)
  }

  /** How many of the first n calls of the factory succeed. */
  function Successes(factory: nat -> bool, n: nat): (k: nat)
    ensures k <= n
  {
    if n == 0 then 0 else Successes(factory, n - 1) + (if factory(n - 1) then 1 else 0)
  }

  class PooledConnection {
    const pool: ConnectionPool
    var inUse: bool

    constructor (pool: ConnectionPool)
      ensures this.pool == pool && !inUse
    {
      this.pool := pool;
      inUse := false;
    }
  }

  class ConnectionPool {
    const cfg: Config
    var connections: seq<PooledConnection>
    var created: int
    var active: int
    var idle: int

    ghost function View(): Shared<PooledConnection>
      reads this
    {
      Shared(connections, created, active, idle)
    }

    /** Every entry of the channel belongs to this pool. */
    ghost predicate Owned()
      reads this
    {
      forall c <- connections :: c.pool == this
    }

    /** `factory(k)` says whether call k of the connection factory succeeds. The idle counter ends at the limit
        even when some calls failed. */
    constructor (factory: nat -> bool, maxSize: int, maxIdle: int)
      ensures cfg == Normalise(maxSize, maxIdle)
      ensures created == |connections| == Successes(factory, cfg.maxIdle)
      ensures active == 0 && idle == cfg.maxIdle
      ensures Owned() && forall i, j :: 0 <= i < j < |connections| ==> connections[i] != connections[j]
      ensures forall c <- connections :: fresh(c) && !c.inUse
    {
      cfg := Normalise(maxSize, maxIdle);
      connections, created, active, idle := [], 0, 0, 0;
      new;
      for i := 0 to cfg.maxIdle
        invariant created == |connections| == Successes(factory, i)
        invariant active == 0
        invariant Owned() && forall j, k :: 0 <= j < k < |connections| ==> connections[j] != connections[k]
        invariant forall c <- connections :: fresh(c) && !c.inUse
      {
        if factory(i) {
          var conn := CreateConnection();
          connections := connections + [conn];
        }
      }
      idle := cfg.maxIdle;
    }

    // createConnection once the factory has succeeded
    method CreateConnection() returns (conn: PooledConnection)
      modifies this`created
      ensures fresh(conn) && conn.pool == this && !conn.inUse
      ensures View() == Created(old(View()))
    {
      created := created + 1;
      conn := new PooledConnection(this);
    }

    method Receive() returns (conn: PooledConnection)
      requires connections != [] && Owned()
      modifies this`connections
      ensures conn == old(connections[0]) && conn.pool == this && Owned()
      ensures View() == Received(old(View()))
    {
      conn := connections[0];
      connections := connections[1..];
    }

    method CountReceived(conn: PooledConnection)
      modifies this`idle, this`active, conn
      ensures conn.inUse && View() == CountedReceived(old(View()))
    {
      conn.inUse := true;
      idle := idle - 1;
      active := active + 1;
    }

    method CountCreated(conn: PooledConnection)
      modifies this`active, conn
      ensures conn.inUse && View() == CountedCreated(old(View()))
    {
      conn.inUse := true;
      active := active + 1;
    }

    /** Put up to the end of its critical section. A nil connection or one of another pool is ignored. */
    method PutLocked(conn: PooledConnection?) returns (send: bool)
      modifies this`active, this`idle, this`created, conn
      ensures send <==> conn != null && conn.pool == this && old(Keeps(cfg, View()))
      ensures conn == null || conn.pool != this ==> View() == old(View())
      ensures conn != null ==> conn.inUse == (old(conn.inUse) && conn.pool != this)
      ensures conn != null && conn.pool == this ==> View() == PutCounted(cfg, old(View()))
    {
      if conn == null || conn.pool != this {
        return false;
      }
      conn.inUse := false;
      active := active - 1;
      send := idle < cfg.maxIdle;
      if send {
        idle := idle + 1;
      } else {
        created := created - 1;
      }
    }

    /** Put's non-blocking send: it fails exactly when the channel is at capacity. */
    method Send(conn: PooledConnection) returns (sent: bool)
      requires conn.pool == this && Owned()
      modifies this`connections
      ensures Owned() && (sent <==> |old(connections)| < cfg.maxSize)
      ensures View() == if sent then Sent(old(View()), conn) else old(View())
    {
      sent := |connections| < cfg.maxSize;
      if sent {
        connections := connections + [conn];
      }
    }

    method Drop()
      modifies this`idle, this`created
      ensures View() == Dropped(old(View()))
    {
      idle := idle - 1;
      created := created - 1;
    }
  }
}
