// The connection pool of a node: utils/rediscluster/node.go.
//
// A call of `do` is many steps: the node's lock is held to take a connection and
// to give one back, and dialling, sending and receiving happen outside it, on a
// connection of the caller's own. Between any two steps other callers may take
// any number of theirs (Others). Every step keeps Valid() and leaves the
// connections of other callers alone.
module Pool {
  import opened Bytes

  type Cmd = string

  // A reply remembers the command it answers.
  datatype Reply = Reply(to: Cmd, body: int)

  datatype Outcome = Got(reply: Reply) | NodeTimeout | ConnectionFailed

  // time.Now, never going back.
  class Clock {
    var now: int

    method Now() returns (t: int)
      modifies this
      ensures t == now >= old(now)
    {
      var step: nat :| true;
      now := now + step;
      t := now;
    }
  }

  class Conn {
    var t: int
    var pending: int
    var open: bool

    // The far end: commands received there and not yet answered.
    var wire: seq<Cmd>
    // Some write or read failed.
    var broken: bool
    // Every command ever sent here.
    ghost var sent: seq<Cmd>

    ghost predicate Sound()
      reads this
    {
      !broken ==> pending == |wire|
    }

    // Nothing is owed in either direction.
    ghost predicate Clean()
      reads this
    {
      open && !broken && pending == 0 && wire == []
    }

    constructor ()
      ensures Clean()
    {
      t, pending, open, wire, broken, sent := 0, 0, true, [], false, [];
    }

    method Shutdown()
      modifies this`open
      ensures !open
    {
      open := false;
    }

    method Send(cmd: Cmd) returns (ok: bool)
      requires Sound()
      modifies this`pending, this`wire, this`broken, this`sent
      ensures Sound() && (broken <==> old(broken) || !ok)
      ensures wire == old(wire) + [cmd] && sent == old(sent) + [cmd]
    {
      pending, wire, sent := pending + 1, wire + [cmd], sent + [cmd];
      ok := *;
      broken := broken || !ok;
    }

    method Flush() returns (ok: bool)
      requires Sound()
      modifies this`broken
      ensures Sound() && (broken <==> old(broken) || !ok)
    {
      ok := *;
      broken := broken || !ok;
    }

    // Replies come in the order of the commands.
    method Receive() returns (r: Option<Reply>)
      requires Sound() && !broken
      modifies this`pending, this`wire, this`broken
      ensures Sound()
      ensures match r
              case Some(reply) => !broken && old(wire) != [] && reply.to == old(wire)[0] && wire == old(wire)[1..]
              case None => if old(wire) == [] then !broken && wire == [] else broken
    {
      if pending <= 0 {
        return None;
      }
      pending := pending - 1;
      var ok: bool, body: int := *, *;
      if ok {
        r := Some(Reply(wire[0], body));
        wire := wire[1..];
      } else {
        r, broken := None, true;
      }
    }
  }

  ghost predicate EndsWith(sent: seq<Cmd>, last: seq<Cmd>) {
    |last| <= |sent| && sent[|sent| - |last|..] == last
  }

  class Node {
    // Front (most recently released) to back.
    var conns: seq<Conn>
    const keepAlive: int
    const aliveTime: int
    var closed: bool
    const clock: Clock

    // Connections callers have taken, those dropped for their age, and all.
    var inUse: set<Conn>
    ghost var dropped: set<Conn>
    ghost var all: set<Conn>

    ghost predicate Valid()
      reads this, clock, all
    {
      // A connection is in one place only, and open exactly while in one.
      && (forall c :: c in conns ==> c in all && c !in inUse && c !in dropped)
      && (forall i, k :: 0 <= i < k < |conns| ==> conns[i] != conns[k])
      && inUse <= all && dropped <= all && inUse !! dropped
      && (forall c :: c in all ==> (c.open <==> c in conns || c in inUse || c in dropped))
      && (forall c :: c in all ==> c.Sound())
      // Pooled connections owe nothing and were released in this order.
      && (forall c :: c in conns ==> c.Clean() && c.t <= clock.now)
      && (forall i, k :: 0 <= i < k < |conns| ==> conns[i].t >= conns[k].t)
      // The pool is bounded, and closed for good.
      && (conns != [] ==> |conns| <= keepAlive && aliveTime > 0 && !closed)
    }

    constructor (keepAlive: int, aliveTime: int, clock: Clock)
      ensures Valid() && conns == [] && all == {} && !closed && this.clock == clock
    {
      this.keepAlive, this.aliveTime, this.clock := keepAlive, aliveTime, clock;
      conns, closed := [], false;
      inUse, dropped, all := {}, {}, {};
    }

    // The locked part of getConn: expired connections are dropped from the back
    // of the pool up to the first that is not; then the last is taken, or one
    // must be dialled.
    method TakePooled() returns (r: Conn?, dial: bool)
      requires Valid()
      modifies this`conns, this`inUse, this`dropped, clock
      ensures Valid()
      ensures r != null ==> r in old(conns) && r.Clean() && r !in old(inUse) && inUse == old(inUse) + {r}
      // It is the one at the back once the expired ones are gone.
      ensures r != null ==> conns + [r] <= old(conns)
      ensures r == null ==> inUse == old(inUse)
      ensures dial <==> r == null && !closed
      ensures clock.now >= old(clock.now)
      ensures closed ==> r == null
      ensures old(dropped) <= dropped && forall c :: c in dropped && c !in old(dropped) ==> c in old(conns)
      // The early exit leaves no expired connection behind.
      ensures !closed && aliveTime > 0 ==> forall c :: c in conns ==> c.t + aliveTime > clock.now
      ensures r != null ==> r.t + aliveTime > clock.now
      ensures dial ==> conns == []
      // A pooled connection that has not expired is handed out.
      ensures !closed && (exists c :: c in old(conns) && c.t + aliveTime > clock.now) ==> r != null
    {
      r, dial := null, false;
      if closed {
        return;
      }
      if aliveTime > 0 {
        Purge();
      }
      if |conns| == 0 {
        return null, true;
      }
      r := conns[|conns| - 1];
      conns := conns[..|conns| - 1];
      inUse := inUse + {r};
    }

    // Dialling, without the lock; `up` tells whether it succeeds.
    method Dial(up: bool) returns (r: Conn?)
      requires Valid()
      modifies this`inUse, this`all
      ensures Valid() && (r != null <==> up)
      ensures r != null ==> fresh(r) && r.Clean() && inUse == old(inUse) + {r} && all == old(all) + {r}
      ensures r == null ==> inUse == old(inUse) && all == old(all)
    {
      r := null;
      if up {
        r := new Conn();
        inUse, all := inUse + {r}, all + {r};
      }
    }

    // getConn: other callers may act, and the node may be shut down, while the
    // connection is dialled.
    method GetConn(up: bool) returns (r: Conn?)
      requires Valid()
      modifies this`conns, this`inUse, this`dropped, this`all, this`closed, clock, all
      ensures Kept()
      ensures r != null ==> r.Clean() && r in inUse && r in all
      // A connection is handed out when the node is open and can be dialled or has
      // one pooled that is not expired; no expired one is.
      ensures old(closed) ==> r == null
      ensures !old(closed) && up ==> r != null
      ensures !old(closed) && (exists c :: c in old(conns) && old(c.t) + aliveTime > clock.now) ==> r != null
      ensures r != null && !up ==> r in old(conns)
    {
      var dial;
      r, dial := TakePooled();
      if dial {
        Others({});
        r := Dial(up);
      }
    }

    // ---- other callers ----

    // What any number of steps keep: a closed node stays closed, time does not go
    // back, and only new connections join.
    twostate predicate Kept()
      reads this, clock, all
    {
      && Valid()
      && (old(closed) ==> closed)
      && clock.now >= old(clock.now)
      && old(all) <= all && fresh(all - old(all))
    }

    // Any number of steps of callers other than the owner of `mine`.
    method Others(mine: set<Conn>)
      requires Valid() && mine <= inUse
      modifies this`conns, this`inUse, this`dropped, this`all, this`closed, clock, all - mine
      ensures Kept() && mine <= inUse
    {
      var steps: nat :| true;
      for i := 0 to steps
        invariant Kept() && mine <= inUse
      {
        OtherStep(mine);
      }
    }

    // One step of another caller, on the node or on a connection of its own.
    method OtherStep(mine: set<Conn>)
      requires Valid() && mine <= inUse
      modifies this`conns, this`inUse, this`dropped, this`all, this`closed, clock, all - mine
      ensures Kept() && mine <= inUse
    {
      var choice: nat :| true;
      if choice == 0 {
        var _, _ := TakePooled();
      } else if choice == 1 {
        var up: bool := *;
        var _ := Dial(up);
      } else if choice == 2 {
        Shutdown();
      } else if c :| c in inUse - mine {
        StepOn(c, choice, mine);
      }
    }

    // What a caller may do with its own connection.
    method StepOn(c: Conn, choice: nat, ghost mine: set<Conn>)
      requires Valid() && mine <= inUse && c in inUse && c !in mine
      modifies this`conns, this`inUse, clock, c
      ensures Valid() && mine <= inUse && all == old(all) && closed == old(closed) && clock.now >= old(clock.now)
    {
      if choice == 3 {
        var cmd: Cmd := *;
        var _ := c.Send(cmd);
      } else if choice == 4 {
        var _ := c.Flush();
      } else if choice == 5 && !c.broken {
        var _ := c.Receive();
      } else if choice == 6 && !c.broken {
        ReleaseConn(c);
      } else {
        Discard(c);
      }
    }

    method Purge()
      requires Valid() && aliveTime > 0
      modifies this`conns, this`dropped, clock
      ensures Valid() && conns <= old(conns) && clock.now >= old(clock.now)
      ensures forall c :: c in conns ==> c.t + aliveTime > clock.now
      ensures forall c :: c in old(conns) && c !in conns ==> c.t + aliveTime <= clock.now
      ensures old(dropped) <= dropped && forall c :: c in dropped && c !in old(dropped) ==> c in old(conns)
    {
      hide Valid;
      while conns != []
        invariant Valid() && conns <= old(conns)
        invariant forall c :: c in old(conns) && c !in conns ==> c.t + aliveTime <= clock.now
        invariant clock.now >= old(clock.now)
        invariant old(dropped) <= dropped && forall c :: c in dropped && c !in old(dropped) ==> c in old(conns)
        decreases |conns|
      {
        var conn := conns[|conns| - 1];
        assert conn in old(conns);
        var now := Look();
        if conn.t + aliveTime > now {
          OldestLast();
          return;
        }
        DropLast();
      }
    }

    // The time, later than any release.
    method Look() returns (now: int)
      requires Valid()
      modifies clock
      ensures Valid() && now == clock.now >= old(clock.now)
    {
      now := clock.Now();
    }

    // Nothing in the pool was released before its last connection.
    lemma OldestLast()
      requires Valid() && conns != []
      ensures forall c :: c in conns ==> c.t >= conns[|conns| - 1].t
    {
    }

    method DropLast()
      requires Valid() && conns != []
      modifies this`conns, this`dropped
      ensures Valid() && conns == old(conns)[..|old(conns)| - 1]
      ensures dropped == old(dropped) + {old(conns)[|old(conns)| - 1]}
    {
      var n := |conns| - 1;
      ghost var conn := conns[n];
      conns := conns[..n];
      dropped := dropped + {conn};
    }

    // Give a connection back: pooled if it owes nothing and there is room.
    method ReleaseConn(c: Conn)
      requires Valid() && c in inUse && !c.broken
      modifies this`conns, this`inUse, clock, c`t, c`open
      ensures Valid() && inUse == old(inUse) - {c} && closed == old(closed) && clock.now >= old(clock.now)
      ensures if c.open then conns == [c] + old(conns) else conns == old(conns)
      ensures c.open <==> c.pending <= 0 && !closed && |old(conns)| < keepAlive && aliveTime > 0
    {
      if c.pending > 0 || closed {
        Discard(c);
        return;
      }
      if |conns| >= keepAlive || aliveTime <= 0 {
        Discard(c);
        return;
      }
      var now := Look();
      PushFront(c, now);
    }

    method PushFront(c: Conn, now: int)
      requires Valid() && c in inUse && !c.broken && c.pending == 0 && now == clock.now
      requires !closed && |conns| < keepAlive && aliveTime > 0
      modifies this`conns, this`inUse, c`t
      ensures Valid() && inUse == old(inUse) - {c} && conns == [c] + old(conns) && c.open
    {
      ghost var rest := conns;
      c.t := now;
      conns := [c] + conns;
      inUse := inUse - {c};
      assert forall k :: 0 < k < |conns| ==> conns[k] == rest[k - 1];
    }

    // A caller gives up a connection that failed.
    method Discard(c: Conn)
      requires Valid() && c in inUse
      modifies this`inUse, c`open
      ensures Valid() && inUse == old(inUse) - {c} && !c.open
    {
      c.Shutdown();
      inUse := inUse - {c};
    }

    // Close the pool for good.
    method Shutdown()
      requires Valid()
      modifies this`conns, this`closed, conns
      ensures Valid() && closed && conns == []
      ensures forall c :: c in old(conns) ==> !c.open
      // What stays open is in use, or was dropped for its age without closing.
      ensures forall c :: c in all ==> (c.open <==> c in inUse || c in dropped)
    {
      while conns != []
        invariant Valid() && conns <= old(conns) && closed == old(closed)
        invariant forall c :: c in old(conns) && c !in conns ==> !c.open
        decreases |conns|
      {
        hide Valid;
        CloseLast();
      }
      closed := true;
    }

    method CloseLast()
      requires Valid() && conns != []
      modifies this`conns, {conns[|conns| - 1]}`open
      ensures Valid() && conns == old(conns)[..|old(conns)| - 1]
      ensures !old(conns)[|old(conns)| - 1].open
    {
      var n := |conns| - 1;
      var conn := conns[n];
      conn.Shutdown();
      conns := conns[..n];
    }

    // ---- whole calls, with other callers in between ----

    // The connection a call used is given back: pooled or closed, and owing
    // nothing if the call succeeded; it fails only by the connection breaking.
    ghost predicate GivenBack(used: Conn?, r: Outcome)
      reads this, used
    {
      && (used == null <==> r == NodeTimeout)
      && (used != null ==> (r.Got? <==> !used.broken))
      && (used != null ==> used !in inUse && (used.open <==> used in conns))
      && (r.Got? ==> !used.broken && used.pending == 0 && used.wire == [])
    }

    // The end of a call: a connection that failed is closed, another released.
    method Finish(conn: Conn, reply: Option<Reply>) returns (r: Outcome)
      requires Valid() && conn in inUse && (conn.broken <==> reply.None?)
      requires reply.Some? ==> conn.wire == []
      modifies this`conns, this`inUse, this`dropped, this`all, this`closed, clock, all
      ensures Kept() && GivenBack(conn, r) && conn.sent == old(conn.sent)
      ensures r == if reply.Some? then Got(reply.value) else ConnectionFailed
    {
      Others({conn});
      if reply.None? {
        Discard(conn);
        return ConnectionFailed;
      }
      ReleaseConn(conn);
      r := Got(reply.value);
    }

    // A caller's steps on its own connection do not disturb the pool.
    method SendOn(conn: Conn, cmd: Cmd) returns (ok: bool)
      requires Valid() && conn in inUse && conn in all
      modifies conn`pending, conn`wire, conn`broken, conn`sent
      ensures Valid() && conn.Sound() && (conn.broken <==> old(conn.broken) || !ok)
      ensures conn.wire == old(conn.wire) + [cmd] && conn.sent == old(conn.sent) + [cmd]
    {
      ok := conn.Send(cmd);
    }

    method FlushOn(conn: Conn) returns (ok: bool)
      requires Valid() && conn in inUse && conn in all
      modifies conn`broken
      ensures Valid() && conn.Sound() && (conn.broken <==> old(conn.broken) || !ok)
    {
      ok := conn.Flush();
    }

    method ReceiveOn(conn: Conn) returns (r: Option<Reply>)
      requires Valid() && conn in inUse && conn in all && !conn.broken && conn.wire != []
      modifies conn`pending, conn`wire, conn`broken
      ensures Valid() && conn.Sound() && (conn.broken <==> r.None?)
      ensures r.Some? ==> r.value.to == old(conn.wire)[0] && conn.wire == old(conn.wire)[1..]
    {
      r := conn.Receive();
    }

    // Send, flush and receive, other callers acting in between.
    method Exchange(conn: Conn, cmd: Cmd) returns (reply: Option<Reply>)
      requires Valid() && conn in inUse && conn in all && conn.Clean()
      modifies this`conns, this`inUse, this`dropped, this`all, this`closed, clock, all
      ensures Kept() && conn in inUse && conn in all && (conn.broken <==> reply.None?)
      ensures reply.Some? ==> reply.value.to == cmd && conn.wire == []
      ensures conn.sent == old(conn.sent) + [cmd]
    {
      hide Valid;
      var ok := SendOn(conn, cmd);
      Others({conn});
      if ok {
        ok := FlushOn(conn);
      }
      if !ok {
        return None;
      }
      Others({conn});
      reply := ReceiveOn(conn);
    }

    // One command, one reply: whatever other callers do meanwhile, the reply is
    // to this command.
    method Do(cmd: Cmd, up: bool) returns (r: Outcome, ghost used: Conn?)
      requires Valid()
      modifies this`conns, this`inUse, this`dropped, this`all, this`closed, clock, all
      ensures Kept() && GivenBack(used, r)
      ensures r.Got? ==> r.reply.to == cmd
      // The last thing its connection was sent is the command.
      ensures used != null ==> EndsWith(used.sent, [cmd])
      // There is no connection only if it could not be dialled or the node is closed.
      ensures old(closed) ==> r == NodeTimeout
      ensures r == NodeTimeout ==> !up || closed
    {
      hide Valid;
      Others({});
      var conn := GetConn(up);
      used := conn;
      if conn == null {
        return NodeTimeout, used;
      }
      Others({conn});
      var reply := Exchange(conn, cmd);
      r := Finish(conn, reply);
    }

    // Two commands in one pipeline.
    method SendBoth(conn: Conn, a: Cmd, b: Cmd) returns (ok: bool)
      requires Valid() && conn in inUse && conn in all && conn.Clean()
      modifies this`conns, this`inUse, this`dropped, this`all, this`closed, clock, all
      ensures Kept() && conn in inUse && conn in all
      ensures (conn.broken <==> !ok) && (ok ==> conn.wire == [a, b])
      ensures ok ==> conn.sent == old(conn.sent) + [a, b]
    {
      hide Valid;
      ok := SendOn(conn, a);
      Others({conn});
      if ok {
        ok := SendOn(conn, b);
      }
      Others({conn});
      if ok {
        ok := FlushOn(conn);
      }
    }

    // Both replies, of which the first counts.
    method ReceiveBoth(conn: Conn) returns (first: Option<Reply>)
      requires Valid() && conn in inUse && conn in all && !conn.broken && |conn.wire| == 2
      modifies this`conns, this`inUse, this`dropped, this`all, this`closed, clock, all
      ensures Kept() && conn in inUse && conn in all
      ensures conn.broken <==> first.None?
      ensures first.Some? ==> first.value.to == old(conn.wire)[0] && conn.wire == []
      ensures conn.sent == old(conn.sent)
    {
      hide Valid;
      first := ReceiveOn(conn);
      if first.None? {
        return;
      }
      Others({conn});
      var second := ReceiveOn(conn);
      if second.None? {
        first := None;
      }
    }

    // A push and its expiry in one pipeline: the reply is the push's, and both
    // replies are consumed.
    method DoRpushExpire(push: Cmd, expire: Cmd, up: bool) returns (r: Outcome, ghost used: Conn?)
      requires Valid()
      modifies this`conns, this`inUse, this`dropped, this`all, this`closed, clock, all
      ensures Kept() && GivenBack(used, r)
      ensures r.Got? ==> r.reply.to == push
      // Its connection was sent the push and then the expiry, and nothing after.
      ensures r.Got? ==> EndsWith(used.sent, [push, expire])
      // There is no connection only if it could not be dialled or the node is closed.
      ensures old(closed) ==> r == NodeTimeout
      ensures r == NodeTimeout ==> !up || closed
    {
      hide Valid;
      Others({});
      var conn := GetConn(up);
      used := conn;
      if conn == null {
        return NodeTimeout, used;
      }
      Others({conn});
      var ok := SendBoth(conn, push, expire);
      Others({conn});
      var reply := None;
      if ok {
        reply := ReceiveBoth(conn);
      }
      r := Finish(conn, reply);
    }
  }
}
