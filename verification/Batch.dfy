// Pipelined batches: Put, doBatch and RunBatch of utils/rediscluster/batch.go.
module Batch {
  import opened Bytes
  import opened Redirect

  // A command put into a batch, and the node that was found for it.
  datatype Entry = Entry(node: Addr, cmd: Command)

  datatype NodeCommand = NodeCommand(cmd: Command, reply: Reply)

  datatype NodeBatch = NodeBatch(node: Addr, cmds: seq<NodeCommand>, failed: bool)

  datatype PutError = NoKeyGiven | NotSupported | NodeNotFound

  // The commands for a node, in the order put.
  function OnNode(puts: seq<Entry>, node: Addr): seq<Command> {
    if puts == [] then [] else
    var n := |puts| - 1;
    OnNode(puts[..n], node) + if puts[n].node == node then [puts[n].cmd] else []
  }

  // The place of put k in its node's pipeline.
  function Place(puts: seq<Entry>, k: nat): nat
    requires k < |puts|
  {
    |OnNode(puts[..k], puts[k].node)|
  }

  function Commands(b: NodeBatch): seq<Command> { seq(|b.cmds|, i requires 0 <= i < |b.cmds| => b.cmds[i].cmd) }

  function Replies(b: NodeBatch): seq<Reply> { seq(|b.cmds|, i requires 0 <= i < |b.cmds| => b.cmds[i].reply) }

  // The replies a node's pipeline yields (each after following redirections)
  // before it breaks, if it does.
  type Wire = (Addr, seq<Command>) -> seq<Reply>

  // What command k's slot holds once its pipeline has ended ...
  function Recorded(puts: seq<Entry>, k: nat, wire: Wire): Reply
    requires k < |puts|
  {
    var got := wire(puts[k].node, OnNode(puts, puts[k].node));
    if Place(puts, k) < |got| then got[Place(puts, k)] else Nil
  }

  // ... and whether that pipeline broke.
  predicate Broke(puts: seq<Entry>, k: nat, wire: Wire)
    requires k < |puts|
  {
    |wire(puts[k].node, OnNode(puts, puts[k].node))| < |OnNode(puts, puts[k].node)|
  }

  // The reply RunBatch owes to put k.
  function Owed(puts: seq<Entry>, k: nat, wire: Wire): Reply
    requires k < |puts|
  {
    if Broke(puts, k, wire) then Nil else Recorded(puts, k, wire)
  }

  lemma OnNodeSnoc(puts: seq<Entry>, put: Entry)
    ensures forall n :: OnNode(puts + [put], n) == OnNode(puts, n) + if put.node == n then [put.cmd] else []
  {
    assert (puts + [put])[..|puts|] == puts;
  }

  lemma {:induction false} OnNodeNone(puts: seq<Entry>, node: Addr)
    requires forall k :: 0 <= k < |puts| ==> puts[k].node != node
    ensures OnNode(puts, node) == []
  {
    if puts != [] {
      OnNodeNone(puts[..|puts| - 1], node);
    }
  }

  lemma {:induction false} PlaceFits(puts: seq<Entry>, k: nat)
    requires k < |puts|
    ensures var mine := OnNode(puts, puts[k].node);
            Place(puts, k) < |mine| && mine[Place(puts, k)] == puts[k].cmd
    decreases |puts|
  {
    var n := |puts| - 1;
    if k < n {
      PlaceFits(puts[..n], k);
      assert puts[..n][..k] == puts[..k];
    }
  }

  // Commands to one node keep their order in its pipeline.
  lemma {:induction false} PlacesKeepOrder(puts: seq<Entry>, j: nat, k: nat)
    requires j < k < |puts| && puts[j].node == puts[k].node
    ensures Place(puts, j) < Place(puts, k)
  {
    PlaceFits(puts[..k], j);
    assert puts[..k][..j] == puts[..j];
  }

  // A pipeline holds the commands put for its node and nothing else.
  lemma {:induction false} PlacesCover(puts: seq<Entry>, node: Addr, place: nat)
    requires place < |OnNode(puts, node)|
    ensures exists k :: 0 <= k < |puts| && puts[k].node == node && Place(puts, k) == place
    decreases |puts|
  {
    var n := |puts| - 1;
    if place < |OnNode(puts[..n], node)| {
      PlacesCover(puts[..n], node, place);
      var k :| 0 <= k < n && puts[..n][k].node == node && Place(puts[..n], k) == place;
      assert puts[..n][..k] == puts[..k];
      assert Place(puts, k) == place;
    } else {
      assert Place(puts, n) == place;
    }
  }

  // Each put is indexed to the batch of its node, and no node has two batches.
  ghost predicate Sorted(batches: seq<NodeBatch>, index: seq<nat>, puts: seq<Entry>) {
    && |index| == |puts|
    && (forall k :: 0 <= k < |puts| ==> index[k] < |batches| && batches[index[k]].node == puts[k].node)
    && forall b, c :: 0 <= b < c < |batches| ==> batches[b].node != batches[c].node
  }

  ghost predicate AllFresh(batches: seq<NodeBatch>, puts: seq<Entry>) {
    forall b :: 0 <= b < |batches| ==> Fresh(batches[b], OnNode(puts, batches[b].node))
  }

  // Other nodes' batches do not notice a put.
  lemma FreshKept(b: NodeBatch, puts: seq<Entry>, put: Entry)
    requires Fresh(b, OnNode(puts, b.node)) && b.node != put.node
    ensures Fresh(b, OnNode(puts + [put], b.node))
  {
    OnNodeSnoc(puts, put);
    hide OnNode;
    assert OnNode(puts, b.node) + [] == OnNode(puts, b.node);
  }

  lemma FirstOnNode(puts: seq<Entry>, put: Entry)
    requires forall k :: 0 <= k < |puts| ==> puts[k].node != put.node
    ensures OnNode(puts + [put], put.node) == [put.cmd]
  {
    OnNodeSnoc(puts, put);
    OnNodeNone(puts, put.node);
  }

  lemma FreshAdded(put: Entry)
    ensures Fresh(NodeBatch(put.node, [NodeCommand(put.cmd, Nil)], false), [put.cmd])
  {
  }

  lemma PutInto(batches: seq<NodeBatch>, index: seq<nat>, puts: seq<Entry>, i: nat, put: Entry)
    requires Sorted(batches, index, puts) && AllFresh(batches, puts)
    requires i < |batches| && batches[i].node == put.node
    ensures var batches' := batches[i := batches[i].(cmds := batches[i].cmds + [NodeCommand(put.cmd, Nil)])];
            Sorted(batches', index + [i], puts + [put]) && AllFresh(batches', puts + [put])
  {
    OnNodeSnoc(puts, put);
    hide OnNode, Fresh;
    FreshSnoc(batches[i], OnNode(puts, put.node), put.cmd);
    forall b | 0 <= b < |batches| && b != i
      ensures Fresh(batches[b], OnNode(puts + [put], batches[b].node))
    {
      FreshKept(batches[b], puts, put);
    }
  }

  lemma PutNew(batches: seq<NodeBatch>, index: seq<nat>, puts: seq<Entry>, put: Entry)
    requires Sorted(batches, index, puts) && AllFresh(batches, puts)
    requires forall b :: 0 <= b < |batches| ==> batches[b].node != put.node
    ensures var batches' := batches + [NodeBatch(put.node, [NodeCommand(put.cmd, Nil)], false)];
            Sorted(batches', index + [|batches|], puts + [put]) && AllFresh(batches', puts + [put])
  {
    hide OnNode, Fresh;
    FirstOnNode(puts, put);
    FreshAdded(put);
    forall b | 0 <= b < |batches|
      ensures Fresh(batches[b], OnNode(puts + [put], batches[b].node))
    {
      FreshKept(batches[b], puts, put);
    }
  }

  class CommandBatch {
    var batches: seq<NodeBatch>
    var index: seq<nat>

    // The successful puts so far.
    ghost var puts: seq<Entry>

    ghost predicate Valid()
      reads this
    {
      Sorted(batches, index, puts) && AllFresh(batches, puts)
    }

    constructor ()
      ensures Valid() && puts == []
    {
      batches, index, puts := [], [], [];
    }

    // `found` is the node chosen for the key (its master, or a replica).
    method Put(cmd: Command, found: Option<Addr>) returns (err: Option<PutError>)
      requires Valid()
      modifies this
      ensures Valid()
      ensures err.None? <==> cmd.args != [] && cmd.name !in ["MSET", "MSETNX", "MGET"] && found.Some?
      ensures puts == if err.None? then old(puts) + [Entry(found.value, cmd)] else old(puts)
    {
      if |cmd.args| < 1 {
        return Some(NoKeyGiven);
      }
      if MultiKey(cmd.name) {
        return Some(NotSupported);
      }
      if found.None? {
        return Some(NodeNotFound);
      }
      err := None;
      hide Sorted, AllFresh;
      var node := found.value;
      ghost var put := Entry(node, cmd);
      var i := FindBatch(node);
      if i < |batches| {
        PutInto(batches, index, puts, i, put);
        batches := batches[i := batches[i].(cmds := batches[i].cmds + [NodeCommand(cmd, Nil)])];
      } else {
        PutNew(batches, index, puts, put);
        batches := batches + [NodeBatch(node, [NodeCommand(cmd, Nil)], false)];
      }
      index := index + [i];
      puts := puts + [put];
    }

    method FindBatch(node: Addr) returns (i: nat)
      ensures i <= |batches| && (i < |batches| ==> batches[i].node == node)
      ensures forall b :: 0 <= b < i ==> batches[b].node != node
    {
      i := 0;
      while i < |batches| && batches[i].node != node
        invariant i <= |batches| && forall b :: 0 <= b < i ==> batches[b].node != node
      {
        i := i + 1;
      }
    }

    // Run every pipeline, then hand the replies back in the order of the puts:
    // to put k its own reply, or nil if its node's pipeline broke. One recorded
    // CLUSTERDOWN makes the whole call fail.
    method RunBatch(wire: Wire) returns (r: Option<seq<Reply>>)
      requires Valid()
      modifies this
      ensures puts == old(puts)
      ensures r.None? <==> exists k :: 0 <= k < |puts| && CheckReply(Recorded(puts, k, wire)) == ClusterDown
      ensures r.Some? ==> |r.value| == |puts| && forall k :: 0 <= k < |puts| ==> r.value[k] == Owed(puts, k, wire)
    {
      hide OnNode, CheckReply, AllTaken, Handed, Recorded, Owed, Sorted, AllRan;
      RunAll(wire);
      ghost var ran := batches;
      NothingTaken(ran, puts);
      NothingHanded(puts, wire);
      var replies := [];
      SortedSize(batches, index, puts);
      for k := 0 to |index|
        invariant puts == old(puts) && index == old(index)
        invariant AllTaken(ran, batches, puts, k) && Handed(replies, puts, k, wire)
      {
        var i := index[k];
        FrontIs(ran, batches, index, puts, k, wire);
        if CheckReply(batches[i].cmds[0].reply) == ClusterDown {
          return None;
        }
        HandedStep(replies, puts, k, wire);
        TakenStep(ran, batches, index, puts, k);
        var reply := Pop(i);
        replies := replies + [reply];
      }
      HandedAll(replies, puts, wire);
      r := Some(replies);
    }

    // The front reply of batch i, or nil if the pipeline broke.
    method Pop(i: nat) returns (reply: Reply)
      requires i < |batches| && batches[i].cmds != []
      modifies this`batches
      ensures batches == old(batches)[i := old(batches)[i].(cmds := old(batches)[i].cmds[1..])]
      ensures reply == if old(batches)[i].failed then Nil else old(batches)[i].cmds[0].reply
    {
      if batches[i].failed {
        batches := batches[i := batches[i].(cmds := batches[i].cmds[0 := batches[i].cmds[0].(reply := Nil)])];
      }
      reply := batches[i].cmds[0].reply;
      batches := batches[i := batches[i].(cmds := batches[i].cmds[1..])];
    }

    method RunAll(wire: Wire)
      requires Valid()
      modifies this`batches
      ensures Sorted(batches, index, puts) && AllRan(batches, puts, wire)
    {
      hide OnNode;
      for b := 0 to |batches|
        invariant |batches| == |old(batches)|
        invariant forall c :: 0 <= c < b ==>
                    batches[c].node == old(batches)[c].node && Ran(batches[c], OnNode(puts, batches[c].node), wire)
        invariant forall c :: b <= c < |batches| ==> batches[c] == old(batches)[c]
      {
        var done := DoBatch(batches[b], wire);
        batches := batches[b := done];
      }
    }
  }

  // doBatch: receive the replies one by one until the pipeline breaks.
  method DoBatch(b: NodeBatch, wire: Wire) returns (done: NodeBatch)
    requires Fresh(b, Commands(b))
    ensures done.node == b.node && Ran(done, Commands(b), wire)
  {
    var got := wire(b.node, Commands(b));
    done := b;
    for i := 0 to |b.cmds|
      invariant done.node == b.node && !done.failed && |done.cmds| == |b.cmds| && i <= |got|
      invariant forall k :: 0 <= k < |b.cmds| ==>
                  done.cmds[k] == b.cmds[k].(reply := if k < i then got[k] else Nil)
    {
      if i >= |got| {
        done := done.(failed := true);
        return;
      }
      done := done.(cmds := done.cmds[i := done.cmds[i].(reply := got[i])]);
    }
  }

  // A pipeline that has been run: replies up to where it broke, if it did.
  ghost predicate Ran(b: NodeBatch, cmds: seq<Command>, wire: Wire) {
    var got := wire(b.node, cmds);
    && Commands(b) == cmds
    && (b.failed <==> |got| < |cmds|)
    && forall i :: 0 <= i < |b.cmds| ==> b.cmds[i].reply == if i < |got| then got[i] else Nil
  }

  ghost predicate AllRan(ran: seq<NodeBatch>, puts: seq<Entry>, wire: Wire) {
    forall b :: 0 <= b < |ran| ==> Ran(ran[b], OnNode(puts, ran[b].node), wire)
  }

  // What is left of the pipelines after the first k replies were handed out.
  ghost predicate AllTaken(ran: seq<NodeBatch>, now: seq<NodeBatch>, puts: seq<Entry>, k: nat) {
    && |now| == |ran| && k <= |puts|
    && forall b :: 0 <= b < |ran| ==> Taken(ran[b], now[b], |OnNode(puts[..k], ran[b].node)|)
  }

  ghost predicate Taken(ran: NodeBatch, now: NodeBatch, n: nat) {
    now.node == ran.node && now.failed == ran.failed && n <= |ran.cmds| && now.cmds == ran.cmds[n..]
  }

  // The first k replies were handed out as owed, none of them CLUSTERDOWN.
  ghost predicate Handed(replies: seq<Reply>, puts: seq<Entry>, k: nat, wire: Wire) {
    && |replies| == k <= |puts|
    && forall j :: 0 <= j < k ==>
         CheckReply(Recorded(puts, j, wire)) != ClusterDown && replies[j] == Owed(puts, j, wire)
  }

  lemma NothingTaken(ran: seq<NodeBatch>, puts: seq<Entry>)
    ensures AllTaken(ran, ran, puts, 0)
  {
    assert forall n :: OnNode([], n) == [];
  }

  lemma NothingHanded(puts: seq<Entry>, wire: Wire)
    ensures Handed([], puts, 0, wire)
  {
  }

  lemma SortedSize(batches: seq<NodeBatch>, index: seq<nat>, puts: seq<Entry>)
    requires Sorted(batches, index, puts)
    ensures |index| == |puts|
  {
  }

  // The next reply in line for put k is the one recorded for it.
  lemma FrontIs(ran: seq<NodeBatch>, now: seq<NodeBatch>, index: seq<nat>, puts: seq<Entry>, k: nat, wire: Wire)
    requires Sorted(ran, index, puts) && AllRan(ran, puts, wire) && AllTaken(ran, now, puts, k) && k < |puts|
    ensures index[k] < |now| && now[index[k]].cmds != []
    ensures now[index[k]].cmds[0].reply == Recorded(puts, k, wire)
    ensures now[index[k]].failed <==> Broke(puts, k, wire)
  {
    hide OnNode;
    RanAt(ran[index[k]], puts, k, wire);
  }

  lemma HandedStep(replies: seq<Reply>, puts: seq<Entry>, k: nat, wire: Wire)
    requires Handed(replies, puts, k, wire) && k < |puts|
    requires CheckReply(Recorded(puts, k, wire)) != ClusterDown
    ensures Handed(replies + [Owed(puts, k, wire)], puts, k + 1, wire)
    ensures Owed(puts, k, wire) == if Broke(puts, k, wire) then Nil else Recorded(puts, k, wire)
  {
  }

  lemma HandedAll(replies: seq<Reply>, puts: seq<Entry>, wire: Wire)
    requires Handed(replies, puts, |puts|, wire)
    ensures |replies| == |puts|
    ensures forall k :: 0 <= k < |puts| ==>
              CheckReply(Recorded(puts, k, wire)) != ClusterDown && replies[k] == Owed(puts, k, wire)
  {
  }

  lemma TakenStep(ran: seq<NodeBatch>, now: seq<NodeBatch>, index: seq<nat>, puts: seq<Entry>, k: nat)
    requires Sorted(ran, index, puts) && AllTaken(ran, now, puts, k) && k < |puts|
    requires now[index[k]].cmds != []
    ensures var i := index[k];
            AllTaken(ran, now[i := now[i].(cmds := now[i].cmds[1..])], puts, k + 1)
  {
    OnNodeSnoc(puts[..k], puts[k]);
    assert puts[..k + 1] == puts[..k] + [puts[k]];
    hide OnNode;
  }

  lemma RanAt(b: NodeBatch, puts: seq<Entry>, k: nat, wire: Wire)
    requires k < |puts| && b.node == puts[k].node && Ran(b, OnNode(puts, b.node), wire)
    ensures Place(puts, k) < |b.cmds|
    ensures b.cmds[Place(puts, k)].reply == Recorded(puts, k, wire)
    ensures b.failed <==> Broke(puts, k, wire)
  {
    PlaceFits(puts, k);
    assert |Commands(b)| == |b.cmds|;
  }

  // A pipeline not yet run.
  ghost predicate Fresh(b: NodeBatch, cmds: seq<Command>) {
    Commands(b) == cmds && !b.failed && forall i :: 0 <= i < |b.cmds| ==> b.cmds[i].reply == Nil
  }

  lemma FreshSnoc(b: NodeBatch, cmds: seq<Command>, cmd: Command)
    requires Fresh(b, cmds)
    ensures Fresh(b.(cmds := b.cmds + [NodeCommand(cmd, Nil)]), cmds + [cmd])
  {
  }
}
