// Redirection: Do, handleMove, handleAsk, handleConnTimeout and checkReply of
// utils/rediscluster/cluster.go, against nodes that may do anything a node can.
module Redirect {
  import opened Bytes

  type Addr = string

  datatype Reply = Nil | Data(value: int) | RedisError(msg: string)

  datatype Command = Command(name: string, args: seq<string>)

  // What one exchange with a node comes to.
  datatype Hop =
    | Refused                                 // no connection
    | Lost(applied: bool)                     // the connection broke on the way
    | Answered(reply: Reply, applied: bool)

  // What a call of Do met, in order.
  datatype Event =
    | Contact(addr: Addr, cmds: seq<Command>, hop: Hop)
    | UnknownNode(addr: Addr)
    | BadRedirect(msg: string)

  // ---- checkReply ----

  datatype Kind = Fine | Move | Ask | ConnTimeout | Failure | ClusterDown

  predicate HasPrefix(s: string, p: string) { |p| <= |s| && s[..|p|] == p }

  function CheckReply(r: Reply): (k: Kind)
    ensures k != Fine <==> r.RedisError?
  {
    if !r.RedisError? then Fine
    else if HasPrefix(r.msg, "ASK") then Ask
    else if HasPrefix(r.msg, "MOVED") then Move
    else if HasPrefix(r.msg, "ECONNTIMEOUT") then ConnTimeout
    else if HasPrefix(r.msg, "CLUSTERDOWN") then ClusterDown
    else Failure
  }

  // The kind of an error reply is told by how its text begins.
  lemma KindIsPrefix(msg: string)
    ensures var kind := CheckReply(RedisError(msg));
            && (kind == Ask <==> "ASK" <= msg)
            && (kind == Move <==> "MOVED" <= msg)
            && (kind == ConnTimeout <==> "ECONNTIMEOUT" <= msg)
            && (kind == ClusterDown <==> "CLUSTERDOWN" <= msg)
            && (kind == Failure <==> !("ASK" <= msg) && !("MOVED" <= msg) && !("ECONNTIMEOUT" <= msg)
                                     && !("CLUSTERDOWN" <= msg))
            && kind != Fine
  {
    PrefixBegins(msg, "ASK", 'A');
    PrefixBegins(msg, "MOVED", 'M');
    PrefixBegins(msg, "ECONNTIMEOUT", 'E');
    PrefixBegins(msg, "CLUSTERDOWN", 'C');
    hide HasPrefix;
  }

  lemma PrefixBegins(s: string, p: string, c: char)
    requires p != [] && p[0] == c
    ensures HasPrefix(s, p) <==> p <= s
    ensures p <= s ==> s != [] && s[0] == c
  {
  }

  // strings.Split(s, " ").
  function Split(s: string): (f: seq<string>)
    ensures f != []
  {
    if s == [] then [""]
    else if s[0] == ' ' then [""] + Split(s[1..])
    else var rest := Split(s[1..]); [[s[0]] + rest[0]] + rest[1..]
  }

  function Unsplit(f: seq<string>): string
    requires f != []
  {
    if |f| == 1 then f[0] else f[0] + " " + Unsplit(f[1..])
  }

  // Splitting at spaces: no field has one, and the fields with single spaces
  // between them are the text.
  lemma {:induction false} SplitUnsplit(s: string)
    ensures Unsplit(Split(s)) == s && forall i :: 0 <= i < |Split(s)| ==> ' ' !in Split(s)[i]
  {
    if s != [] {
      var rest := Split(s[1..]);
      SplitUnsplit(s[1..]);
      assert s == [s[0]] + s[1..];
      if s[0] == ' ' {
        assert ([""] + rest)[1..] == rest;
        assert "" + " " + s[1..] == s;
      } else {
        var f := [[s[0]] + rest[0]] + rest[1..];
        assert f[1..] == rest[1..];
        if |rest| > 1 {
          assert [s[0]] + rest[0] + " " + Unsplit(rest[1..]) == [s[0]] + (rest[0] + " " + Unsplit(rest[1..]));
        }
      }
    }
  }

  const TIMEOUT := RedisError("ECONNTIMEOUT")

  lemma TimeoutKind()
    ensures CheckReply(TIMEOUT) == ConnTimeout
  {
    assert "ECONNTIMEOUT"[0] != "ASK"[0] && "ECONNTIMEOUT"[0] != "MOVED"[0];
    assert HasPrefix("ECONNTIMEOUT", "ECONNTIMEOUT");
    assert "ECONNTIMEOUT"[..3][0] != "ASK"[0];
    assert "ECONNTIMEOUT"[..5][0] != "MOVED"[0];
  }

  // Nodes of a Redis cluster do not execute what they redirect, and do not
  // answer with the client's own pseudo-error.
  predicate NodeLike(h: Hop) {
    h.Answered? ==> match CheckReply(h.reply)
                    case Move => !h.applied
                    case Ask => !h.applied
                    case ClusterDown => !h.applied
                    case ConnTimeout => false
                    case _ => true
  }

  predicate Applies(e: Event) {
    e.Contact? && ((e.hop.Lost? && e.hop.applied) || (e.hop.Answered? && e.hop.applied))
  }

  function Applications(t: seq<Event>): nat {
    if t == [] then 0 else Applications(t[..|t| - 1]) + if Applies(t[|t| - 1]) then 1 else 0
  }

  predicate Moved(e: Event) { e.Contact? && e.hop.Answered? && CheckReply(e.hop.reply) == Move }

  predicate Asked(e: Event) { e.Contact? && e.hop.Answered? && CheckReply(e.hop.reply) == Ask }

  // The event a redirection message leads to: its third field is the node.
  predicate Targets(msg: string, e: Event) {
    var f := Split(msg);
    if |f| != 3 then e == BadRedirect(msg)
    else match e
         case Contact(addr, _, _) => addr == f[2]
         case UnknownNode(addr) => addr == f[2]
         case BadRedirect(_) => false
  }

  // Each redirection is followed to the node it names.
  predicate Routed(t: seq<Event>) {
    forall i :: 0 < i < |t| && (Moved(t[i - 1]) || Asked(t[i - 1])) ==> Targets(t[i - 1].hop.reply.msg, t[i])
  }

  // A chain of MOVED replies, not yet resolved.
  predicate AllMoved(t: seq<Event>) { forall i :: 0 <= i < |t| ==> Moved(t[i]) }

  predicate FailedHop(e: Event) { !e.Contact? || e.hop.Lost? }

  // A chain of MOVED replies whose last target could not be used.
  predicate LostMove(t: seq<Event>) {
    |t| >= 2 && AllMoved(t[..|t| - 1]) && FailedHop(t[|t| - 1])
  }

  // ---- the outside world ----

  // Nodes, the connection pools and the node map, which other goroutines
  // replace (Update) and empty (Close) while exchanges are on their way.
  class Net {
    ghost var trace: seq<Event>
    var nodes: set<Addr>
    var closed: bool
    // How many more times nodes will answer MOVED: any number.
    var moves: nat
    // Addresses taken out of the node map so far.
    ghost var gone: set<Addr>

    constructor (nodes: set<Addr>, moves: nat)
      ensures trace == [] && this.nodes == nodes && !closed && this.moves == moves
    {
      this.nodes, closed, this.moves := nodes, false, moves;
      trace, gone := [], {};
    }

    // What time may bring: only Close empties the node map.
    twostate predicate Onward()
      reads this
    {
      && moves <= old(moves)
      && (old(closed) ==> closed)
      && (nodes == {} ==> closed || old(nodes) == {})
      && old(gone) <= gone && old(nodes) <= nodes + gone
    }

    // A node that stays in the map is found; whoever is asked was in the map.
    twostate predicate Lookups(es: seq<Event>)
      reads this
    {
      forall i :: 0 <= i < |es| ==>
        match es[i]
        case UnknownNode(addr) => addr !in old(nodes) || addr in gone || closed
        case Contact(addr, _, _) => addr in nodes || addr in gone
        case BadRedirect(_) => true
    }

    // Other goroutines.
    method Others()
      modifies this`nodes, this`closed, this`gone
      ensures Onward()
    {
      var updates: bool, closes: bool, replacement: set<Addr> := *, *, *;
      if updates && replacement != {} {
        gone := gone + (nodes - replacement);
        nodes := replacement;
      }
      if closes {
        gone := gone + nodes;
        nodes, closed := {}, true;
      }
    }

    // One exchange, with any outcome a node can have.
    method Exchange(addr: Addr, cmds: seq<Command>) returns (h: Hop)
      modifies this
      ensures NodeLike(h) && trace == old(trace) + [Contact(addr, cmds, h)]
      ensures Onward() && (Moved(Contact(addr, cmds, h)) ==> moves < old(moves))
    {
      var choice: nat, applied: bool, value: int, msg: string := *, *, *, *;
      var reply := if choice % 4 == 0 then Nil else if choice % 4 == 1 then Data(value) else RedisError(msg);
      h := if choice % 5 == 0 then Refused else if choice % 5 == 1 then Lost(applied) else Answered(reply, applied);
      if !NodeLike(h) || (Moved(Contact(addr, cmds, h)) && moves == 0) {
        h := Refused;
      }
      if Moved(Contact(addr, cmds, h)) {
        moves := moves - 1;
      }
      trace := trace + [Contact(addr, cmds, h)];
      Others();
    }

    // getNodeByAddr.
    method Lookup(addr: Addr) returns (found: bool)
      modifies this`trace
      ensures found <==> addr in nodes && !closed
      ensures trace == if found then old(trace) else old(trace) + [UnknownNode(addr)]
    {
      found := addr in nodes && !closed;
      if !found {
        trace := trace + [UnknownNode(addr)];
      }
    }

    // The loop of handleConnTimeout: a node of the map, the given one only if
    // there is no other.
    method PickNode(other: Addr) returns (r: Option<Addr>)
      ensures r.None? <==> nodes == {}
      ensures r.Some? ==> r.value in nodes && (r.value == other ==> nodes == {other})
    {
      r := None;
      var todo := nodes;
      while todo != {}
        invariant todo <= nodes && (r.None? <==> todo == nodes)
        invariant r.Some? ==> r.value == other && nodes == todo + {other}
      {
        var a :| a in todo;
        if a != other {
          return Some(a);
        }
        r, todo := Some(a), todo - {a};
      }
    }

    ghost method Reject(msg: string)
      modifies this`trace
      ensures trace == old(trace) + [BadRedirect(msg)]
    {
      trace := trace + [BadRedirect(msg)];
    }
  }

  // ---- the client ----

  datatype DoError = NoKey | NoNode | ConnectionLost | BadResponse | NotFound | TimedOut | Rejected(msg: string) | Down

  // A reply together with an error, as Go returns them; or a nil dereference.
  datatype Outcome = Returned(reply: Reply, err: Option<DoError>) | Panicked

  // redisNode.do: a refused connection becomes a pseudo-error reply.
  method NodeDo(net: Net, addr: Addr, cmds: seq<Command>) returns (reply: Reply, err: Option<DoError>, ghost h: Hop)
    modifies net
    ensures NodeLike(h) && net.trace == old(net.trace) + [Contact(addr, cmds, h)]
    ensures net.Onward() && (Moved(Contact(addr, cmds, h)) ==> net.moves < old(net.moves))
    ensures match h
            case Refused => reply == RedisError("ECONNTIMEOUT") && err.None?
            case Lost(_) => reply == Nil && err == Some(ConnectionLost)
            case Answered(r, _) => reply == r && err.None?
  {
    var hop := net.Exchange(addr, cmds);
    h := hop;
    match hop
    case Refused => reply, err := TIMEOUT, None;
    case Lost(_) => reply, err := Nil, Some(ConnectionLost);
    case Answered(r, _) => reply, err := r, None;
  }

  // What a redirection attempt adds to the trace, and what it returns.
  ghost predicate Attempt(msg: string, events: seq<Event>, cmd: Command, reply: Reply, err: Option<DoError>) {
    && |events| == 1 && Targets(msg, events[0])
    && match events[0]
       case Contact(_, cmds, h) =>
         && cmds == [cmd] && NodeLike(h)
         && (match h
             case Refused => reply == TIMEOUT && err.None?
             case Lost(_) => reply == Nil && err.Some?
             case Answered(r, _) => reply == r && err.None?)
       case _ => reply == Nil && err.Some?
  }

  method HandleMove(net: Net, msg: string, cmd: Command)
    returns (reply: Reply, err: Option<DoError>, ghost events: seq<Event>)
    modifies net
    ensures net.trace == old(net.trace) + events && Attempt(msg, events, cmd, reply, err) && net.Lookups(events)
    ensures net.Onward() && (Moved(events[0]) ==> net.moves < old(net.moves))
  {
    var fields := Split(msg);
    if |fields| != 3 {
      net.Reject(msg);
      return Nil, Some(BadResponse), [BadRedirect(msg)];
    }
    var found := net.Lookup(fields[2]);
    if !found {
      return Nil, Some(NotFound), [UnknownNode(fields[2])];
    }
    ghost var h;
    reply, err, h := NodeDo(net, fields[2], [cmd]);
    events := [Contact(fields[2], [cmd], h)];
  }

  // ASKING and the command travel together; only full success counts.
  method HandleAsk(net: Net, msg: string, cmd: Command) returns (out: Outcome, ghost e: Event)
    modifies net
    ensures net.trace == old(net.trace) + [e] && Targets(msg, e) && net.Onward() && net.Lookups([e])
    ensures e.Contact? ==> e.cmds == [Command("ASKING", []), cmd] && NodeLike(e.hop)
    ensures match e
            case Contact(_, _, Answered(r, _)) => out == Returned(r, None)
            case _ => out.Returned? && out.reply == Nil && out.err.Some?
  {
    var fields := Split(msg);
    if |fields| != 3 {
      net.Reject(msg);
      e := BadRedirect(msg);
      return Returned(Nil, Some(BadResponse)), e;
    }
    var found := net.Lookup(fields[2]);
    if !found {
      e := UnknownNode(fields[2]);
      return Returned(Nil, Some(NotFound)), e;
    }
    var h := net.Exchange(fields[2], [Command("ASKING", []), cmd]);
    e := Contact(fields[2], [Command("ASKING", []), cmd], h);
    match h
    case Refused => out := Returned(Nil, Some(NotFound));
    case Lost(_) => out := Returned(Nil, Some(ConnectionLost));
    case Answered(r, _) => out := Returned(r, None);
  }

  // Only the last event may apply the command.
  predicate Quiet(t: seq<Event>) { forall i :: 0 <= i < |t| - 1 ==> !Applies(t[i]) }

  lemma {:induction false} NoneApplies(t: seq<Event>)
    requires forall i :: 0 <= i < |t| ==> !Applies(t[i])
    ensures Applications(t) == 0
  {
    if t != [] {
      NoneApplies(t[..|t| - 1]);
    }
  }

  lemma QuietAppliesOnce(t: seq<Event>)
    requires Quiet(t)
    ensures Applications(t) <= 1
    ensures Applications(t) == 1 <==> t != [] && Applies(t[|t| - 1])
  {
    if t != [] {
      NoneApplies(t[..|t| - 1]);
    }
  }

  // The reply is the one the exchange brought.
  predicate Delivers(e: Event, reply: Reply) {
    e.Contact? && match e.hop
                  case Refused => reply == TIMEOUT
                  case Lost(_) => false
                  case Answered(r, _) => reply == r
  }

  // What an outcome owes to the last event: success means its reply.
  predicate Honest(t: seq<Event>, out: Outcome) {
    out.Returned? && out.err.None? ==> t != [] && Delivers(t[|t| - 1], out.reply)
  }

  // An answer of the last node asked is not lost: data is returned, an error
  // reply is returned or becomes an error with its text, and after ASK any
  // reply at all is returned as it is.
  predicate Delivered(t: seq<Event>, out: Outcome) {
    t != [] && t[|t| - 1].Contact? && t[|t| - 1].hop.Answered? ==>
      var r := t[|t| - 1].hop.reply;
      && (!r.RedisError? ==> out == Returned(r, None))
      && (CheckReply(r) == Failure ==> out == Returned(r, None) || out == Returned(Nil, Some(Rejected(r.msg))))
      && (|t| >= 2 && Asked(t[|t| - 2]) ==> out == Returned(r, None))
  }

  // A chain of MOVED replies that ends at a refused connection.
  predicate RefusedChain(t: seq<Event>) {
    t != [] && AllMoved(t[..|t| - 1]) && t[|t| - 1].Contact? && t[|t| - 1].hop.Refused?
  }

  predicate Sends(t: seq<Event>, cmd: Command) {
    forall i :: 0 <= i < |t| && t[i].Contact? ==> t[i].cmds == [cmd] || t[i].cmds == [Command("ASKING", []), cmd]
  }

  // ---- how a run goes on ----

  predicate SentAs(e: Event, cmds: seq<Command>) { e.Contact? ==> e.cmds == cmds }

  predicate Fails(out: Outcome) { out.Returned? && out.reply == Nil && out.err.Some? }

  // After ASK any reply is returned as it is.
  predicate AfterAsk(e: Event, out: Outcome) {
    match e
    case Contact(_, _, Answered(r, _)) => out == Returned(r, None)
    case _ => Fails(out)
  }

  // After a refused connection to `owner`: a node of the map is asked, and then
  // the one it redirects to, unless that is `owner` again.
  predicate AfterRefusal(es: seq<Event>, cmd: Command, owner: Addr, out: Outcome) {
    if es == [] then out.Panicked? else
    && es[0].Contact? && es[0].cmds == [cmd]
    && match es[0].hop
       case Answered(RedisError(msg), _) =>
         if "MOVED" <= msg && |Split(msg)| == 3 && Split(msg)[2] != owner then
           |es| == 2 && Targets(msg, es[1]) && SentAs(es[1], [cmd]) && AfterSecond(es[1], out)
         else |es| == 1 && if "MOVED" <= msg then Fails(out) else out == Returned(Nil, Some(Rejected(msg)))
       case Answered(r, _) => |es| == 1 && out == Returned(r, None)
       case _ => |es| == 1 && Fails(out)
  }

  predicate AfterSecond(e: Event, out: Outcome) {
    match e
    case Contact(_, _, Answered(r, _)) => out == Returned(r, None)
    case Contact(_, _, Refused) => out == Returned(TIMEOUT, None)
    case _ => Fails(out)
  }

  // What follows event i, and what the run comes to, when the replies before it
  // were all MOVED.
  predicate GoesOn(t: seq<Event>, i: nat, cmd: Command, owner: Addr, out: Outcome)
    requires i < |t|
  {
    match t[i]
    case Contact(_, _, Answered(RedisError(msg), _)) =>
      if "ASK" <= msg then
        |t| == i + 2 && Targets(msg, t[i + 1]) && SentAs(t[i + 1], [Command("ASKING", []), cmd]) && AfterAsk(t[i + 1], out)
      else if "MOVED" <= msg then
        |t| > i + 1 && Targets(msg, t[i + 1]) && SentAs(t[i + 1], [cmd])
      else
        |t| == i + 1 && out == Returned(RedisError(msg), if "CLUSTERDOWN" <= msg then Some(Down) else None)
    case Contact(_, _, Answered(r, _)) => |t| == i + 1 && out == Returned(r, None)
    case Contact(_, _, Refused) => AfterRefusal(t[i + 1..], cmd, owner, out)
    case _ => |t| == i + 1 && out == Returned(Nil, if i == 0 then Some(ConnectionLost) else None)
  }

  // The whole run, event by event.
  predicate Follows(t: seq<Event>, cmd: Command, owner: Addr, out: Outcome) {
    forall i :: 0 <= i < |t| && AllMoved(t[..i]) ==> GoesOn(t, i, cmd, owner, out)
  }

  predicate SendsPlain(t: seq<Event>, cmd: Command) { forall i :: 0 <= i < |t| ==> SentAs(t[i], [cmd]) }

  lemma MovedGoesOn(t: seq<Event>, i: nat, cmd: Command, owner: Addr, out: Outcome)
    requires i + 1 < |t| && Moved(t[i]) && Routed(t) && SentAs(t[i + 1], [cmd])
    ensures GoesOn(t, i, cmd, owner, out)
  {
    KindIsPrefix(t[i].hop.reply.msg);
    hide CheckReply, Targets;
  }

  // A run is as its last event before anything but MOVED replies has it.
  lemma FollowsChain(t: seq<Event>, es: seq<Event>, cmd: Command, owner: Addr, out: Outcome)
    requires t != [] && AllMoved(t[..|t| - 1]) && Routed(t + es) && SendsPlain(t[1..], cmd)
    requires !Moved(t[|t| - 1]) && GoesOn(t + es, |t| - 1, cmd, owner, out)
    ensures Follows(t + es, cmd, owner, out)
  {
    hide Moved, GoesOn, Routed, SentAs;
    var all := t + es;
    forall i | 0 <= i < |all| && AllMoved(all[..i])
      ensures GoesOn(all, i, cmd, owner, out)
    {
      if i < |t| - 1 {
        assert Moved(t[..|t| - 1][i]);
        assert SentAs(t[1..][i], [cmd]);
        MovedGoesOn(all, i, cmd, owner, out);
      } else if i > |t| - 1 {
        MovedThere(all[..i], |t| - 1);
      }
    }
  }

  lemma MovedThere(t: seq<Event>, i: nat)
    requires AllMoved(t) && i < |t|
    ensures Moved(t[i])
  {
  }

  lemma FollowsLost(t: seq<Event>, cmd: Command, owner: Addr)
    requires LostMove(t) && Routed(t) && SendsPlain(t[1..], cmd)
    ensures Follows(t, cmd, owner, Returned(Nil, None))
  {
    assert t + [] == t;
    FollowsChain(t, [], cmd, owner, Returned(Nil, None));
  }

  lemma FollowsFirst(e: Event, cmd: Command, owner: Addr)
    requires e.Contact? && e.hop.Lost?
    ensures Follows([e], cmd, owner, Returned(Nil, Some(ConnectionLost)))
  {
  }

  // After a refused connection: another node may hold the slot now, or tell who
  // does.
  method HandleConnTimeout(net: Net, node: Addr, cmd: Command) returns (out: Outcome, ghost events: seq<Event>)
    modifies net
    ensures net.trace == old(net.trace) + events
    ensures Quiet(events) && Sends(events, cmd) && Honest(events, out) && Routed(events)
    ensures out.Returned? && out.err.Some? ==> out.reply == Nil
    // It uses a nil node when there is none.
    ensures out.Panicked? <==> old(net.nodes) == {}
    ensures out.Panicked? <==> events == []
    ensures net.Onward() && (out.Panicked? ==> net.nodes == {})
    ensures Delivered(events, out)
    // A second node is asked exactly when the first says the slot has left `node`.
    ensures AfterRefusal(events, cmd, node, out)
    // The first is `node` itself only when the map has no other.
    ensures events != [] ==> events[0].addr in old(net.nodes) && (events[0].addr == node ==> old(net.nodes) == {node})
    ensures net.Lookups(events)
  {
    out, events := TryAnother(net, node, cmd);
    RefusalOwes(events, cmd, node, out);
    hide *;
  }

  lemma TimeoutIsNoRedirection()
    ensures !HasPrefix(TIMEOUT.msg, "MOVED")
  {
    assert "ECONNTIMEOUT"[..5][0] != "MOVED"[0];
  }

  method TryAnother(net: Net, node: Addr, cmd: Command) returns (out: Outcome, ghost events: seq<Event>)
    modifies net
    ensures net.trace == old(net.trace) + events && net.Onward() && net.Lookups(events)
    ensures AfterRefusal(events, cmd, node, out)
    ensures forall i :: 0 <= i < |events| && events[i].Contact? ==> NodeLike(events[i].hop)
    ensures (out.Panicked? <==> old(net.nodes) == {}) && (out.Panicked? ==> net.nodes == {})
    ensures events != [] ==> events[0].addr in old(net.nodes) && (events[0].addr == node ==> old(net.nodes) == {node})
  {
    TimeoutIsNoRedirection();
    hide CheckReply, Split, NodeLike;
    var picked := net.PickNode(node);
    if picked.None? {
      events := [];
      return Panicked, events;
    }
    ghost var h;
    var reply, err;
    reply, err, h := NodeDo(net, picked.value, [cmd]);
    events := [Contact(picked.value, [cmd], h)];
    if err.Some? {
      return Returned(Nil, err), events;
    }
    if !reply.RedisError? {
      return Returned(reply, None), events;
    }
    PrefixBegins(reply.msg, "MOVED", 'M');
    if !HasPrefix(reply.msg, "MOVED") {
      return Returned(Nil, Some(Rejected(reply.msg))), events;
    }
    var fields := Split(reply.msg);
    if |fields| != 3 {
      return Returned(Nil, Some(BadResponse)), events;
    }
    if fields[2] == node {
      return Returned(Nil, Some(TimedOut)), events;
    }
    ghost var e;
    hide HasPrefix;
    out, e := AskSecond(net, fields[2], cmd);
    events := events + [e];
  }

  // The node that the first one named.
  method AskSecond(net: Net, addr: Addr, cmd: Command) returns (out: Outcome, ghost e: Event)
    modifies net
    ensures net.trace == old(net.trace) + [e] && net.Onward() && net.Lookups([e])
    ensures AfterSecond(e, out) && match e
                                   case Contact(a, cmds, h) => a == addr && cmds == [cmd] && NodeLike(h)
                                   case UnknownNode(a) => a == addr
                                   case BadRedirect(_) => false
    ensures out.Returned?
  {
    hide NodeLike;
    var found := net.Lookup(addr);
    if !found {
      return Returned(Nil, Some(NotFound)), UnknownNode(addr);
    }
    ghost var h;
    var reply, err;
    reply, err, h := NodeDo(net, addr, [cmd]);
    e := Contact(addr, [cmd], h);
    out := Returned(reply, err);
  }

  // The first exchange may have been the last, and only the last executes.
  lemma RefusalOwes(es: seq<Event>, cmd: Command, owner: Addr, out: Outcome)
    requires AfterRefusal(es, cmd, owner, out)
    requires forall i :: 0 <= i < |es| && es[i].Contact? ==> NodeLike(es[i].hop)
    ensures Quiet(es) && Sends(es, cmd) && Honest(es, out) && Routed(es) && Delivered(es, out)
    ensures out.Panicked? <==> es == []
    ensures out.Returned? && out.err.Some? ==> out.reply == Nil
  {
    hide Split;
    TimeoutKind();
    if es != [] && es[0].hop.Answered? && es[0].hop.reply.RedisError? {
      KindIsPrefix(es[0].hop.reply.msg);
    }
    hide CheckReply, Targets;
  }

  lemma MovedIsMove(msg: string)
    requires HasPrefix(msg, "MOVED")
    ensures CheckReply(RedisError(msg)) == Move
  {
    assert msg[..3][0] == msg[..5][0];
    assert "ASK"[0] != "MOVED"[0];
  }

  // The commands of the first exchange: a push is pipelined with its expiry.
  function FirstSend(cmd: Command): seq<Command>
    requires cmd.name == "RPUSH" ==> |cmd.args| >= 2
  {
    if cmd.name == "RPUSH" then
      var expire := if |cmd.args| <= 2 then "600" else cmd.args[2];
      [Command(cmd.name, cmd.args[..2]), Command("expire", [cmd.args[0], expire])]
    else [cmd]
  }

  lemma FirstSendIs(cmd: Command)
    requires cmd.name == "RPUSH" ==> |cmd.args| >= 2
    ensures cmd.name != "RPUSH" ==> FirstSend(cmd) == [cmd]
    ensures cmd.name == "RPUSH" ==>
              FirstSend(cmd) == [Command("RPUSH", [cmd.args[0], cmd.args[1]]),
                                 Command("expire", [cmd.args[0], if |cmd.args| == 2 then "600" else cmd.args[2]])]
  {
    if cmd.name == "RPUSH" {
      assert cmd.args[..2] == [cmd.args[0], cmd.args[1]];
    }
  }

  predicate MultiKey(name: string) { name == "MSET" || name == "MSETNX" || name == "MGET" }

  // A chain of MOVED replies up to the last exchange, which went through or was
  // refused, and brought this reply.
  ghost predicate Chain(t: seq<Event>, reply: Reply) {
    && t != [] && AllMoved(t[..|t| - 1])
    && (forall i :: 0 <= i < |t| ==> t[i].Contact? && NodeLike(t[i].hop))
    && Delivers(t[|t| - 1], reply) && Routed(t)
  }

  // A chain that ends with an answer other than a redirection returns it.
  ghost predicate Verdict(t: seq<Event>, out: Outcome) {
    t != [] && AllMoved(t[..|t| - 1]) && t[|t| - 1].Contact? && t[|t| - 1].hop.Answered? ==>
      var r := t[|t| - 1].hop.reply;
      match CheckReply(r)
      case Fine => out == Returned(r, None)
      case Failure => out == Returned(r, None)
      case ClusterDown => out == Returned(r, Some(Down))
      case _ => true
  }

  lemma RoutedAppend(t: seq<Event>, es: seq<Event>)
    requires t != [] && Routed(t) && Routed(es)
    requires es != [] && (Moved(t[|t| - 1]) || Asked(t[|t| - 1])) ==> Targets(t[|t| - 1].hop.reply.msg, es[0])
    ensures Routed(t + es)
  {
    hide CheckReply, Targets;
    var all := t + es;
    forall i | 0 < i < |all| && (Moved(all[i - 1]) || Asked(all[i - 1]))
      ensures Targets(all[i - 1].hop.reply.msg, all[i])
    {
      if i > |t| {
        assert all[i - 1] == es[i - 1 - |t|] && all[i] == es[i - |t|];
      }
    }
  }

  // What follows a reply that redirects nowhere decides about nothing said here.
  lemma VerdictElsewhere(t: seq<Event>, es: seq<Event>)
    requires t != [] && es != [] && !Moved(t[|t| - 1])
    ensures !AllMoved((t + es)[..|t + es| - 1])
  {
    hide CheckReply;
    assert (t + es)[..|t + es| - 1][|t| - 1] == t[|t| - 1];
  }

  // The chain grows by an exchange with the node that MOVED names ...
  lemma ChainStep(t: seq<Event>, reply: Reply, e: Event, reply': Reply)
    requires Chain(t, reply) && CheckReply(reply) == Move
    requires e.Contact? && NodeLike(e.hop) && Delivers(e, reply') && Targets(reply.msg, e)
    ensures Chain(t + [e], reply')
  {
    TimeoutKind();
    hide Targets;
    assert (t + [e])[..|t|] == t;
    RoutedAppend(t, [e]);
  }

  // ... or is lost with an attempt that fails ...
  lemma ChainLost(t: seq<Event>, reply: Reply, e: Event)
    requires Chain(t, reply) && CheckReply(reply) == Move && FailedHop(e) && Targets(reply.msg, e)
    ensures LostMove(t + [e]) && Quiet(t + [e]) && Applications(t + [e]) <= 1
    ensures Routed(t + [e]) && forall out :: Verdict(t + [e], out)
    ensures !RefusedChain(t + [e]) && forall out :: Delivered(t + [e], out)
  {
    TimeoutKind();
    hide Targets, Applications;
    assert (t + [e])[..|t|] == t;
    QuietAppliesOnce(t + [e]);
    RoutedAppend(t, [e]);
  }

  // ... or ends here ...
  lemma ChainDone(t: seq<Event>, reply: Reply)
    requires Chain(t, reply)
    ensures !LostMove(t) && Quiet(t) && Applications(t) <= 1 && Routed(t)
    ensures CheckReply(reply) == Fine || CheckReply(reply) == Failure ==> Verdict(t, Returned(reply, None))
    ensures CheckReply(reply) == ClusterDown ==> Verdict(t, Returned(reply, Some(Down)))
  {
    hide Applications, Routed;
    TimeoutKind();
    QuietAppliesOnce(t);
  }

  // ... or turns to other nodes, nothing having been applied yet.
  lemma ChainThen(t: seq<Event>, reply: Reply, es: seq<Event>)
    requires Chain(t, reply) && Quiet(es) && Routed(es)
    requires CheckReply(reply) == Ask || CheckReply(reply) == ConnTimeout
    requires CheckReply(reply) == Ask ==> es != [] && Targets(reply.msg, es[0])
    ensures !LostMove(t + es) && Quiet(t + es) && Applications(t + es) <= 1
  {
    ChainQuiet(t, reply);
    QuietAppend(t, es);
    QuietAppliesOnce(t + es);
    NotLost(t, es);
    hide *;
  }

  lemma NotLost(t: seq<Event>, es: seq<Event>)
    requires t != [] && !Moved(t[|t| - 1]) && !FailedHop(t[|t| - 1])
    ensures !LostMove(t + es)
  {
    hide Moved, FailedHop;
    if es == [] {
      assert t + es == t;
    } else {
      VerdictElsewhere(t, es);
    }
  }

  // Up to here nothing was executed.
  lemma ChainQuiet(t: seq<Event>, reply: Reply)
    requires Chain(t, reply) && (CheckReply(reply) == Ask || CheckReply(reply) == ConnTimeout)
    ensures forall i :: 0 <= i < |t| ==> !Applies(t[i])
    ensures t != [] && !Moved(t[|t| - 1]) && !FailedHop(t[|t| - 1])
  {
    hide Routed;
    forall i | 0 <= i < |t| - 1
      ensures !Applies(t[i])
    {
      assert Moved(t[..|t| - 1][i]);
    }
  }

  lemma QuietAppend(t: seq<Event>, es: seq<Event>)
    requires Quiet(es) && forall i :: 0 <= i < |t| ==> !Applies(t[i])
    ensures Quiet(t + es)
  {
    var all := t + es;
    forall i | 0 <= i < |all| - 1
      ensures !Applies(all[i])
    {
      assert i >= |t| ==> all[i] == es[i - |t|];
    }
  }

  lemma ChainThenRouted(t: seq<Event>, reply: Reply, es: seq<Event>)
    requires Chain(t, reply) && Routed(es)
    requires CheckReply(reply) == Ask || CheckReply(reply) == ConnTimeout
    requires CheckReply(reply) == Ask ==> es != [] && Targets(reply.msg, es[0])
    ensures Routed(t + es)
    ensures es != [] ==> forall out :: Verdict(t + es, out)
  {
    hide Routed, Targets;
    TimeoutKind();
    RoutedAppend(t, es);
    if es != [] {
      VerdictElsewhere(t, es);
    }
  }

  lemma NoVerdict(t: seq<Event>, reply: Reply, out: Outcome)
    requires Chain(t, reply) && CheckReply(reply) == ConnTimeout
    ensures Verdict(t, out)
  {
  }

  lemma DeliveredAtOnce(t: seq<Event>, reply: Reply)
    requires Chain(t, reply)
    ensures CheckReply(reply) == Fine || CheckReply(reply) == Failure ==> Delivered(t, Returned(reply, None))
    ensures CheckReply(reply) == ClusterDown ==> Delivered(t, Returned(reply, Some(Down)))
    ensures RefusedChain(t) <==> CheckReply(reply) == ConnTimeout
  {
    hide Routed;
    TimeoutKind();
    if |t| >= 2 {
      assert t[..|t| - 1][|t| - 2] == t[|t| - 2];
    }
  }

  // Past the chain only what follows it counts.
  lemma DeliveredAfter(t: seq<Event>, reply: Reply, es: seq<Event>, out: Outcome)
    requires Chain(t, reply) && Delivered(es, out)
    requires CheckReply(reply) == Ask || CheckReply(reply) == ConnTimeout
    requires |es| == 1 && CheckReply(reply) == Ask && es[0].Contact? && es[0].hop.Answered? ==>
               out == Returned(es[0].hop.reply, None)
    ensures Delivered(t + es, out)
    ensures RefusedChain(t + es) <==> es == [] && CheckReply(reply) == ConnTimeout
  {
    hide Routed;
    TimeoutKind();
    var all := t + es;
    if es == [] {
      assert all == t;
      DeliveredAtOnce(t, reply);
    } else {
      assert all[..|all| - 1][|t| - 1] == t[|t| - 1];
      assert |es| >= 2 ==> all[|all| - 2] == es[|es| - 2];
      assert |es| == 1 ==> all[|all| - 2] == t[|t| - 1];
      assert all[|all| - 1] == es[|es| - 1];
    }
  }

  // What Do owes when events es follow chain t, the node map being empty or not
  // in the end.
  ghost predicate Settled(t: seq<Event>, es: seq<Event>, cmd: Command, out: Outcome, empty: bool) {
    && Sends(es, cmd) && Routed(t + es)
    && !LostMove(t + es) && Quiet(t + es) && Applications(t + es) <= 1
    && Honest(t + es, out) && Verdict(t + es, out) && Delivered(t + es, out)
    && (out.Panicked? <==> RefusedChain(t + es) && empty)
  }

  // The last event of the chain goes on as es and comes to out.
  predicate Ends(t: seq<Event>, es: seq<Event>, cmd: Command, owner: Addr, out: Outcome) {
    t != [] && GoesOn(t + es, |t| - 1, cmd, owner, out)
  }

  lemma EndsAtOnce(t: seq<Event>, reply: Reply, cmd: Command, owner: Addr)
    requires Chain(t, reply)
    ensures CheckReply(reply) == Fine || CheckReply(reply) == Failure ==> Ends(t, [], cmd, owner, Returned(reply, None))
    ensures CheckReply(reply) == ClusterDown ==> Ends(t, [], cmd, owner, Returned(reply, Some(Down)))
  {
    assert t + [] == t;
    TimeoutKind();
    if reply.RedisError? {
      KindIsPrefix(reply.msg);
    }
    hide CheckReply, Routed;
  }

  lemma EndsByAsk(t: seq<Event>, reply: Reply, cmd: Command, owner: Addr, e: Event, out: Outcome)
    requires Chain(t, reply) && CheckReply(reply) == Ask && Targets(reply.msg, e)
    requires SentAs(e, [Command("ASKING", []), cmd]) && AfterAsk(e, out)
    ensures Ends(t, [e], cmd, owner, out)
  {
    TimeoutKind();
    KindIsPrefix(reply.msg);
    hide CheckReply, Routed, Targets, SentAs, AfterAsk;
    assert (t + [e])[|t| - 1] == t[|t| - 1];
  }

  lemma EndsByTimeout(t: seq<Event>, reply: Reply, cmd: Command, owner: Addr, es: seq<Event>, out: Outcome)
    requires Chain(t, reply) && CheckReply(reply) == ConnTimeout && AfterRefusal(es, cmd, owner, out)
    ensures Ends(t, es, cmd, owner, out)
  {
    hide Routed, AfterRefusal;
    assert (t + es)[|t|..] == es;
    assert (t + es)[|t| - 1] == t[|t| - 1];
  }

  lemma SettledAtOnce(t: seq<Event>, reply: Reply, cmd: Command, empty: bool)
    requires Chain(t, reply)
    ensures CheckReply(reply) == Fine || CheckReply(reply) == Failure ==> Settled(t, [], cmd, Returned(reply, None), empty)
    ensures CheckReply(reply) == ClusterDown ==> Settled(t, [], cmd, Returned(reply, Some(Down)), empty)
  {
    assert t + [] == t;
    ChainDone(t, reply);
    DeliveredAtOnce(t, reply);
    hide CheckReply, LostMove, Quiet, Applications, AllMoved, NodeLike, Routed, Verdict, Delivered, RefusedChain;
  }

  lemma HonestAfter(t: seq<Event>, es: seq<Event>, out: Outcome)
    requires Honest(es, out)
    ensures Honest(t + es, out)
  {
  }

  lemma SettledByAsk(t: seq<Event>, reply: Reply, cmd: Command, e: Event, out: Outcome, empty: bool)
    requires Chain(t, reply) && CheckReply(reply) == Ask && Targets(reply.msg, e)
    requires e.Contact? ==> e.cmds == [Command("ASKING", []), cmd]
    requires match e
             case Contact(_, _, Answered(r, _)) => out == Returned(r, None)
             case _ => out.Returned? && out.reply == Nil && out.err.Some?
    ensures Settled(t, [e], cmd, out, empty)
  {
    assert Delivered([e], out) && Quiet([e]) && Honest([e], out) && Routed([e]) && Sends([e], cmd);
    hide Chain, CheckReply, LostMove, Quiet, Applications, AllMoved, NodeLike, Routed, Verdict, Delivered, RefusedChain,
         Honest, Sends, Targets;
    ChainThen(t, reply, [e]);
    ChainThenRouted(t, reply, [e]);
    DeliveredAfter(t, reply, [e], out);
    HonestAfter(t, [e], out);
  }

  lemma SettledByTimeout(t: seq<Event>, reply: Reply, cmd: Command, es: seq<Event>, out: Outcome, empty: bool)
    requires Chain(t, reply) && CheckReply(reply) == ConnTimeout
    requires Quiet(es) && Sends(es, cmd) && Honest(es, out) && Routed(es) && Delivered(es, out)
    requires (out.Panicked? <==> es == []) && (out.Panicked? ==> empty)
    ensures Settled(t, es, cmd, out, empty)
  {
    hide Chain, CheckReply, LostMove, Quiet, Applications, AllMoved, NodeLike, Routed, Verdict, Delivered, RefusedChain,
         Honest, Sends, Targets;
    ChainThen(t, reply, es);
    ChainThenRouted(t, reply, es);
    NoVerdict(t, reply, out);
    assert es == [] ==> t + es == t;
    DeliveredAfter(t, reply, es, out);
    HonestAfter(t, es, out);
  }

  // The end of Do, once the replies are no longer MOVED.
  method Settle(net: Net, node: Addr, reply: Reply, cmd: Command, ghost t: seq<Event>)
    returns (out: Outcome, ghost es: seq<Event>)
    requires Chain(t, reply) && CheckReply(reply) != Move
    modifies net
    ensures net.trace == old(net.trace) + es && net.Onward()
    ensures Settled(t, es, cmd, out, net.nodes == {}) && Ends(t, es, cmd, node, out)
    ensures net.Lookups(es)
  {
    KindOfError(reply);
    hide Ends, AfterRefusal, Chain, CheckReply, Settled, Quiet, NodeLike, Routed, Delivered, Honest, Sends, Targets;
    es := [];
    var kind := CheckReply(reply);
    if kind == Ask {
      ghost var e;
      out, e := HandleAsk(net, reply.msg, cmd);
      es := [e];
      SettledByAsk(t, reply, cmd, e, out, net.nodes == {});
      EndsByAsk(t, reply, cmd, node, e, out);
    } else if kind == ConnTimeout {
      out, es := HandleConnTimeout(net, node, cmd);
      SettledByTimeout(t, reply, cmd, es, out, net.nodes == {});
      EndsByTimeout(t, reply, cmd, node, es, out);
    } else {
      SettledAtOnce(t, reply, cmd, net.nodes == {});
      EndsAtOnce(t, reply, cmd, node);
      out := Returned(reply, if kind == ClusterDown then Some(Down) else None);
    }
  }

  lemma KindOfError(reply: Reply)
    ensures CheckReply(reply) != Fine <==> reply.RedisError?
  {
  }

  // Do, for single-key commands, stopped after `fuel` MOVED replies beyond the
  // first (so every finite part of every run is covered; DoToEnd needs no fuel).
  // `owner` is the node found for the key.
  method Do(net: Net, owner: Option<Addr>, cmd: Command, fuel: nat)
    returns (finished: bool, out: Outcome, ghost events: seq<Event>)
    requires !MultiKey(cmd.name) && (cmd.name == "RPUSH" ==> |cmd.args| >= 2)
    modifies net
    ensures net.trace == old(net.trace) + events
    // At most one node executes the command, and no exchange follows it.
    ensures Quiet(events) && Applications(events) <= 1
    // It goes on only while nodes answer MOVED.
    ensures !finished ==> |events| == fuel + 1 && AllMoved(events) && fuel < old(net.moves)
    // Success means the last exchange's reply, but for a chain of MOVED replies
    // that ends in a failure: that is reported as a nil reply without error.
    ensures finished && LostMove(events) ==> out == Returned(Nil, None)
    ensures finished && !LostMove(events) ==> Honest(events, out)
    ensures finished ==> Verdict(events, out) && Delivered(events, out)
    // It crashes exactly where the chain ends at a refused connection while the
    // node map is empty, which takes a Close.
    ensures finished ==> (out.Panicked? <==> RefusedChain(events) && net.nodes == {})
    ensures net.Onward()
    // Whom it is sent to: the owner, and then whoever a redirection names.
    ensures events == [] <==> cmd.args == [] || owner.None?
    ensures events == [] ==> finished && Fails(out)
    ensures events != [] ==> events[0].Contact? && Some(events[0].addr) == owner
    ensures Routed(events)
    // Every event is followed by what its reply asks for, up to the result.
    ensures finished && events != [] ==> Follows(events, cmd, owner.value, out)
    // A node that stays in the map is found.
    ensures events != [] ==> net.Lookups(events[1..])
    // What is sent: the command itself, except for a push at first.
    ensures events != [] ==> events[0].cmds == FirstSend(cmd)
    ensures events != [] ==> Sends(events[1..], cmd)
  {
    hide Follows, Ends, Chain, CheckReply, LostMove, Quiet, Applications, AllMoved, Honest, Split, FirstSend,
         NodeLike, Routed, Verdict, Targets, Delivered, RefusedChain, Moved;
    Beginning();
    events, finished, out := [], true, Returned(Nil, None);
    if |cmd.args| < 1 {
      out := Returned(Nil, Some(NoKey));
      return;
    }
    if owner.None? {
      out := Returned(Nil, Some(NoNode));
      return;
    }
    var node := owner.value;
    ghost var h;
    var reply, err;
    reply, err, h := NodeDo(net, node, FirstSend(cmd));
    ghost var first := Contact(node, FirstSend(cmd), h);
    events := [first];
    FirstHop(first, reply);
    if err.Some? {
      FollowsFirst(first, cmd, node);
      out := Returned(Nil, err);
      return;
    }
    ghost var es;
    var how;
    how, reply, es := FollowMoves(net, cmd, reply, fuel, events);
    Longer(old(net.trace), events, es);
    events := events + es;
    assert events[1..] == es;
    match how
    case Endless =>
      finished := false;
      ChainMoved(events, reply);
    case Strayed =>
      // The error is dropped: a nil reply counts as a good one.
      FollowsLost(events, cmd, node);
    case Arrived =>
      ghost var chain := events;
      out, es := Settle(net, node, reply, cmd, events);
      ChainFollows(chain, reply, es, cmd, node, out);
      Longer(old(net.trace), events, es);
      events := events + es;
  }

  lemma ChainFollows(t: seq<Event>, reply: Reply, es: seq<Event>, cmd: Command, owner: Addr, out: Outcome)
    requires Chain(t, reply) && CheckReply(reply) != Move && Routed(t + es) && SendsPlain(t[1..], cmd)
    requires Ends(t, es, cmd, owner, out)
    ensures Follows(t + es, cmd, owner, out)
  {
    MovedShowsNot(t[|t| - 1], reply);
    hide CheckReply, GoesOn, Moved, Follows, Routed;
    FollowsChain(t, es, cmd, owner, out);
  }

  lemma MovedShowsNot(e: Event, reply: Reply)
    requires Delivers(e, reply) && CheckReply(reply) != Move
    ensures !Moved(e)
  {
  }

  lemma Longer(before: seq<Event>, t: seq<Event>, es: seq<Event>)
    requires t != []
    ensures before + t + es == before + (t + es) && (t + es)[1..] == t[1..] + es && (t + es)[0] == t[0]
  {
  }

  datatype Ending = Arrived | Strayed | Endless

  // The loop over MOVED replies.
  method FollowMoves(net: Net, cmd: Command, reply0: Reply, fuel: nat, ghost t: seq<Event>)
    returns (how: Ending, reply: Reply, ghost es: seq<Event>)
    requires Chain(t, reply0)
    modifies net
    ensures net.trace == old(net.trace) + es && Sends(es, cmd) && net.Onward()
    ensures SendsPlain(es, cmd) && net.Lookups(es)
    ensures match how
            case Arrived => Chain(t + es, reply) && CheckReply(reply) != Move
            case Endless => Chain(t + es, reply) && CheckReply(reply) == Move && |es| == fuel
                            && CheckReply(reply0) == Move && fuel <= old(net.moves)
            case Strayed =>
              && !RefusedChain(t + es) && (forall out :: Delivered(t + es, out))
              && LostMove(t + es) && Quiet(t + es) && Applications(t + es) <= 1
              && Routed(t + es) && forall out :: Verdict(t + es, out)
  {
    hide Chain, CheckReply, LostMove, Quiet, Applications, AllMoved, Split, NodeLike, Routed, Verdict, Targets,
         Delivered, RefusedChain, Moved;
    reply, es := reply0, [];
    assert t + es == t;
    var left := fuel;
    while CheckReply(reply) == Move
      invariant net.trace == old(net.trace) + es && |es| == fuel - left
      invariant Chain(t + es, reply) && Sends(es, cmd) && net.Onward()
      invariant SendsPlain(es, cmd) && net.Lookups(es)
      invariant if es == [] then reply == reply0 else CheckReply(reply0) == Move
      invariant net.moves + |es| <= old(net.moves) + if CheckReply(reply) == Move then 0 else 1
      decreases left
    {
      if left == 0 {
        return Endless, reply, es;
      }
      left := left - 1;
      ghost var one;
      var before, next, failure := reply, Nil, None;
      next, failure, one := HandleMove(net, reply.msg, cmd);
      assert one == [one[0]];
      assert t + (es + one) == t + es + one;
      if failure.Some? {
        ChainLost(t + es, before, one[0]);
        SendsOne(es, one[0], cmd);
        return Strayed, Nil, es + one;
      }
      ChainStep(t + es, before, one[0], next);
      SendsOne(es, one[0], cmd);
      MovedShows(one[0], next);
      reply, es := next, es + one;
    }
    how := Arrived;
  }

  lemma SendsOne(es: seq<Event>, e: Event, cmd: Command)
    requires Sends(es, cmd) && (e.Contact? ==> e.cmds == [cmd])
    ensures Sends(es + [e], cmd)
  {
  }

  lemma MovedShows(e: Event, reply: Reply)
    requires Delivers(e, reply)
    ensures CheckReply(reply) == Move ==> Moved(e)
  {
    TimeoutKind();
  }

  lemma Beginning()
    ensures Quiet([]) && Applications([]) == 0 && !LostMove([]) && Routed([])
    ensures !RefusedChain([]) && forall out :: Verdict([], out) && Delivered([], out)
    ensures forall r, e :: Honest([], Returned(r, Some(e)))
  {
  }

  lemma FirstHop(e: Event, reply: Reply)
    requires e.Contact? && NodeLike(e.hop)
    ensures Delivers(e, reply) ==> Chain([e], reply)
    ensures e.hop.Lost? ==> Quiet([e]) && Applications([e]) <= 1 && !LostMove([e]) && Routed([e])
    ensures e.hop.Lost? ==> !RefusedChain([e]) && forall out :: Verdict([e], out) && Delivered([e], out)
    ensures Delivers(e, reply) && CheckReply(reply) == Move ==> Moved(e)
    ensures forall r, err :: Honest([e], Returned(r, Some(err)))
  {
    TimeoutKind();
    QuietAppliesOnce([e]);
  }

  lemma ChainMoved(t: seq<Event>, reply: Reply)
    requires Chain(t, reply) && CheckReply(reply) == Move
    ensures AllMoved(t) && Quiet(t) && Applications(t) <= 1 && Routed(t)
  {
    TimeoutKind();
    QuietAppliesOnce(t);
  }

  // The exchange brought data.
  predicate Answers(e: Event) { e.Contact? && e.hop.Answered? && !e.hop.reply.RedisError? }

  // Do without any bound, for nodes that answer MOVED finitely often.
  method DoToEnd(net: Net, owner: Option<Addr>, cmd: Command) returns (out: Outcome, ghost events: seq<Event>)
    requires !MultiKey(cmd.name) && (cmd.name == "RPUSH" ==> |cmd.args| >= 2)
    modifies net
    ensures net.trace == old(net.trace) + events && Applications(events) <= 1 && Routed(events)
    // If a node executes the command and answers with data, that is the reply.
    ensures forall i :: 0 <= i < |events| && Applies(events[i]) && Answers(events[i]) ==>
              out == Returned(events[i].hop.reply, None)
    ensures Delivered(events, out)
    ensures events == [] <==> cmd.args == [] || owner.None?
    ensures if events == [] then Fails(out) else Follows(events, cmd, owner.value, out)
    ensures LostMove(events) ==> out == Returned(Nil, None)
    ensures !LostMove(events) ==> Honest(events, out)
    // No crash, unless the node map was empty or the cluster has been closed.
    ensures out.Panicked? <==> RefusedChain(events) && net.nodes == {}
    ensures old(net.nodes) != {} && !net.closed ==> !out.Panicked?
  {
    hide LostMove, Applications, Honest, Routed, RefusedChain, FirstSend, Verdict, Follows;
    var finished;
    finished, out, events := Do(net, owner, cmd, net.moves);
    assert finished;
  }

  // ---- what a redirected push loses ----

  // A redirected exchange is never the pipeline that was sent at first: the
  // expiry is not sent again, and an expiry that was given is pushed as one
  // more element.
  lemma RedirectedPush(cmd: Command, later: seq<Event>)
    requires cmd.name == "RPUSH" && |cmd.args| >= 2 && Sends(later, cmd)
    ensures FirstSend(cmd) == [Command("RPUSH", cmd.args[..2]),
                               Command("expire", [cmd.args[0], if |cmd.args| == 2 then "600" else cmd.args[2]])]
    ensures forall i :: 0 <= i < |later| && later[i].Contact? ==>
              later[i].cmds != FirstSend(cmd) && forall c :: c in later[i].cmds ==> c.name != "expire"
    ensures cmd.args == FirstSend(cmd)[0].args + cmd.args[2..]
    ensures FirstSend(cmd)[0] == cmd <==> |cmd.args| == 2
  {
    assert "RPUSH"[0] != "expire"[0] && "ASKING"[0] != "expire"[0];
  }

  // ---- the failures at concrete inputs ----

  lemma {:induction false} SplitWord(w: string, rest: string)
    requires ' ' !in w
    ensures Split(w) == [w] && Split(w + " " + rest) == [w] + Split(rest)
  {
    if w == [] {
      assert (w + " " + rest)[1..] == rest;
    } else {
      SplitWord(w[1..], rest);
      var all := w + " " + rest;
      assert [w[0]] + w[1..] == w && all[0] == w[0] != ' ';
      assert all[1..] == w[1..] + " " + rest;
      assert ([w[1..]] + Split(rest))[1..] == Split(rest);
    }
  }

  // An exchange with this node, or the failure to find it.
  predicate AddressedTo(e: Event, addr: Addr) { !e.BadRedirect? && e.addr == addr }

  // A redirection as nodes send it names its target.
  lemma SplitMoved(slot: string, addr: Addr)
    requires ' ' !in slot && ' ' !in addr
    ensures Split("MOVED" + " " + (slot + " " + addr)) == ["MOVED", slot, addr]
    ensures CheckReply(RedisError("MOVED" + " " + (slot + " " + addr))) == Move
    ensures forall e: Event :: Targets("MOVED" + " " + (slot + " " + addr), e) <==> AddressedTo(e, addr)
  {
    hide Split;
    SplitWord("MOVED", slot + " " + addr);
    SplitWord(slot, addr);
    SplitWord(addr, "");
    var msg := "MOVED" + " " + (slot + " " + addr);
    assert msg[..5] == "MOVED";
    MovedIsMove(msg);
  }

  // So does an ASK.
  lemma SplitAsk(slot: string, addr: Addr)
    requires ' ' !in slot && ' ' !in addr
    ensures Split("ASK" + " " + (slot + " " + addr)) == ["ASK", slot, addr]
    ensures CheckReply(RedisError("ASK" + " " + (slot + " " + addr))) == Ask
    ensures forall e: Event :: Targets("ASK" + " " + (slot + " " + addr), e) <==> AddressedTo(e, addr)
  {
    hide Split;
    SplitWord("ASK", slot + " " + addr);
    SplitWord(slot, addr);
    SplitWord(addr, "");
    KindIsPrefix("ASK" + " " + (slot + " " + addr));
    hide CheckReply;
  }

  // The trace in which node a redirects to node b, which executes the command
  // while its answer is lost.
  function LostAnswer(cmd: Command): seq<Event> {
    [Contact("a", [cmd], Answered(RedisError("MOVED" + " " + ("1" + " " + "b")), false)),
     Contact("b", [cmd], Lost(true))]
  }

  // On it Do owes a nil reply and no error, although the command was executed.
  lemma NilSuccess(cmd: Command)
    ensures var t := LostAnswer(cmd);
            && LostMove(t) && Routed(t) && Quiet(t) && Sends(t, cmd) && Applications(t) == 1
            && NodeLike(t[0].hop) && NodeLike(t[1].hop)
  {
    SplitMoved("1", "b");
    var t := LostAnswer(cmd);
    hide Split, Applications, CheckReply;
    assert t[..1] == [t[0]] && Moved(t[0]) && Quiet(t);
    QuietAppliesOnce(t);
  }

  // After a Close has emptied the node map, a connection timeout is a crash.
  method TimeoutAfterClose(node: Addr, cmd: Command) returns (out: Outcome)
    ensures out.Panicked?
  {
    var net := new Net({}, 0);
    ghost var events;
    out, events := HandleConnTimeout(net, node, cmd);
  }
}
