/** The connection pool's methods, with `urlopen` as one thread runs it. */
module ConnectionPool {
  import opened Outcomes
  import P = PoolProtocol

  class HTTPConnectionPool {
    const cfg: P.Config
    var pool: Option<seq<Option<P.Conn>>>
    var numConnections: nat
    /** The connections that were not closed since they were last used. */
    var open: set<P.Conn>

    function State(): P.Pool
      reads this
    {
      P.Pool(pool, numConnections, open)
    }

    constructor (maxsize: nat, block: bool)
      ensures cfg == P.Config(maxsize, block) && State() == P.NewPool(cfg)
    {
      cfg := P.Config(maxsize, block);
      pool, numConnections, open := Some([]), 0, {};
      new;
      for i := 0 to maxsize
        invariant pool.Some? && |pool.value| == i && numConnections == 0 && open == {}
        invariant forall j :: 0 <= j < i ==> pool.value[j] == None
      {
        pool := Some(pool.value + [None]);
      }
      assert pool.value == P.NewPool(cfg).queue.value;
    }

    method CloseConn(conn: P.Conn)
      modifies this`open
      ensures State() == P.CloseConn(old(State()), Some(conn))
    {
      open := open - {conn};
    }

    method NewConn() returns (conn: P.Conn)
      modifies this`numConnections
      ensures conn == old(numConnections) && numConnections == conn + 1
    {
      numConnections := numConnections + 1;
      return numConnections - 1;
    }

    /** `_get_conn`; `dropped` is what `is_connection_dropped` says of the connection found. */
    method GetConn(dropped: bool) returns (r: Result<P.Conn, P.PoolError>)
      modifies this
      ensures (State(), r) == P.GetConn(cfg, old(State()), dropped)
    {
      if pool.None? {
        return Err(P.ClosedPool);
      }
      var conn: Option<P.Conn> := None;
      if pool.value == [] {
        if cfg.block {
          return Err(P.EmptyPool);
        }
      } else {
        var last := |pool.value| - 1;
        conn := pool.value[last];
        pool := Some(pool.value[..last]);
      }
      if conn.Some? && dropped {
        CloseConn(conn.value);
      }
      if conn.Some? {
        return Ok(conn.value);
      }
      var made := NewConn();
      return Ok(made);
    }

    /** `_put_conn`; true is the FullPoolError. */
    method PutConn(conn: Option<P.Conn>) returns (full: bool)
      modifies this
      ensures (State(), full) == P.PutConn(cfg, old(State()), conn)
    {
      if pool.Some? {
        if !(0 < cfg.maxsize <= |pool.value|) {
          pool := Some(pool.value + [conn]);
          return false;
        }
        if conn.Some? {
          CloseConn(conn.value);
        }
        if cfg.block {
          return true;
        }
      }
      if conn.Some? {
        CloseConn(conn.value);
        assert old(open) - {conn.value} - {conn.value} == old(open) - {conn.value};
      }
      return false;
    }

    /** `close`, with the loop of `_close_pool_connections`. */
    method Close()
      modifies this
      ensures State() == P.ClosePool(old(State()))
    {
      if pool.None? {
        return;
      }
      var q := pool.value;
      ghost var all := q;
      pool := None;
      while q != []
        invariant pool.None? && numConnections == old(numConnections)
        invariant q <= all && forall k :: k in open <==> k in old(open) && Some(k) !in all[|q|..]
        decreases |q|
      {
        var last := |q| - 1;
        var conn := q[last];
        assert all[last..] == [conn] + all[|q|..];
        q := q[..last];
        if conn.Some? {
          CloseConn(conn.value);
        }
      }
      assert all[0..] == all;
    }

    /** The finally block of `urlopen`: what is left in `conn`, and whether the put met a FullPoolError. */
    method CleanUp(conn: Option<P.Conn>, cleanExit: bool, releaseConn: bool)
      returns (left: Option<P.Conn>, full: bool)
      modifies this
      ensures left == if cleanExit then conn else None
      ensures (State(), full) ==
              if cleanExit then if releaseConn then P.PutConn(cfg, old(State()), conn) else (old(State()), false)
              else P.PutConn(cfg, P.CloseConn(old(State()), conn), None)
    {
      var releaseThisConn := releaseConn;
      left, full := conn, false;
      if !cleanExit {
        if conn.Some? {
          CloseConn(conn.value);
          left := None;
        }
        releaseThisConn := true;
      }
      if releaseThisConn {
        full := PutConn(left);
      }
    }

    /**
     The try statement of `urlopen`: get a connection, make the request, and clean up. The result is the
     connection left, the response if there is one, and whether an exception leaves the statement.
     */
    method TryRequest(release: bool, plan: P.Plan, ghost c: P.Call)
      returns (conn: Option<P.Conn>, response: HTTPResponse?, raising: bool, ghost c': P.Call)
      requires c.at.Getting? && c.release == release
      modifies this
      ensures (State(), c') == Tried(cfg, old(State()), c, plan)
      ensures raising <==> c'.at.Ended?
      ensures !raising ==> (conn.None? <==> c'.at.Getting?) && (conn.Some? <==> c'.at.Deciding?)
      ensures !raising && conn.Some? ==> response != null && fresh(response)
                                         && response.pool == this && response.connection == c'.response
    {
      conn, response, raising := None, null, true;
      var releaseThisConn, cleanExit := release, false;
      if !plan.rejected {
        var got := GetConn(plan.dropped);
        match got {
          case Err(EmptyPool) =>
            cleanExit, releaseThisConn := true, false;
          case Err(_) =>
          case Ok(taken) =>
            conn, open := Some(taken), open + {taken};
            match plan.outcome {
              case Response(_) =>
                response := new HTTPResponse(this, if release then None else conn);
                cleanExit, raising := true, false;
              case Failure(again) =>
                raising := again.None?;
              case Crash =>
            }
        }
      }
      var full;
      conn, full := CleanUp(conn, cleanExit, releaseThisConn);
      raising := raising || full;
      c' := Tried(cfg, old(State()), c, plan).1;
    }

    /**
     `urlopen`: try the request, then retry, redirect, return or raise. The plan says what the network and
     the retry budget do; `c` is the call's state in the protocol.
     */
    method UrlOpen(release: bool, plan: P.Plan, ghost c: P.Call)
      returns (ending: P.Ending, response: HTTPResponse?, ghost c': P.Call)
      requires c.at.Getting? && c.release == release
      modifies this
      ensures (State(), c') == P.Alone(cfg, old(State()), c, plan) && c'.at == P.Ended(ending)
      ensures ending.Returned? ==> response != null && fresh(response)
                                   && response.pool == this && response.connection == c'.response
      decreases plan
    {
      var conn, raising;
      conn, response, raising, c' := TryRequest(release, plan, c);
      if raising {
        return P.Raised, null, c';
      }
      if conn.None? {
        ending, response, c' := UrlOpen(release, plan.outcome.retry.value, c');
        return;
      }
      match plan.outcome.next {
        case Keep =>
          return P.Returned, response, P.DecideStep(cfg, State(), c', P.HandOver).1;
        case Discard(clean, again) =>
          c' := P.DecideStep(cfg, State(), c', P.Drain(clean, again.Some?)).1;
          response.DrainConn(clean);
          if again.None? {
            return P.Raised, null, c';
          }
          ending, response, c' := UrlOpen(release, again.value, c');
      }
    }
  }

  /** The steps of the protocol that make up the try statement. */
  function Tried(cfg: P.Config, p: P.Pool, c: P.Call, plan: P.Plan): (P.Pool, P.Call) {
    var (p', c') := if plan.rejected then P.RejectStep(cfg, p, c) else P.GetStep(cfg, p, c, plan.dropped);
    if c'.at.Ended? then (p', c') else P.FinishStep(cfg, p', c', P.FateOf(plan.outcome))
  }

  class HTTPResponse {
    const pool: HTTPConnectionPool
    /** `_connection`: the connection this response still has to give back. */
    var connection: Option<P.Conn>

    constructor (pool: HTTPConnectionPool, connection: Option<P.Conn>)
      ensures this.pool == pool && this.connection == connection
    {
      this.pool, this.connection := pool, connection;
    }

    /** `release_conn`; true is the FullPoolError, which leaves the connection set. */
    method ReleaseConn() returns (full: bool)
      modifies this, pool
      ensures connection == if full then old(connection) else None
      ensures if old(connection).None? then pool.State() == old(pool.State()) && !full
              else (pool.State(), full) == P.PutConn(pool.cfg, old(pool.State()), old(connection))
    {
      if connection.None? {
        return false;
      }
      full := pool.PutConn(connection);
      if !full {
        connection := None;
      }
    }

    /** `drain_conn`: read to the end, or until the read fails, which closes the connection; errors are dropped. */
    method DrainConn(clean: bool)
      modifies this, pool
      ensures forall c: P.Call :: c.response == old(connection) ==>
                var (p, c') := P.ReleaseStep(pool.cfg, old(pool.State()), c, clean);
                pool.State() == p && connection == c'.response
    {
      if !clean && connection.Some? {
        pool.CloseConn(connection.value);
      }
      var _ := ReleaseConn();
    }
  }
}
