// The slot table of utils/rediscluster/cluster.go: Update, Close and the
// lookups by key.
module SlotTable {
  import Slots

  const SLOTS: nat := 16384

  type Addr = string

  // One row of a CLUSTER SLOTS reply.
  datatype Row = Row(start: nat, end: nat, master: Addr, slaves: seq<Addr>)

  datatype Range = Range(start: nat, end: nat) {
    predicate Has(j: nat) { start <= j <= end }
  }

  type Ranges = map<Addr, seq<Range>>

  predicate InRange(rows: seq<Row>) {
    forall i :: 0 <= i < |rows| ==> rows[i].start < SLOTS && rows[i].end < SLOTS
  }

  // ---- what a reply announces ----

  ghost predicate RowHas(rows: seq<Row>, i: int, j: nat) {
    0 <= i < |rows| && rows[i].start <= j <= rows[i].end
  }

  ghost predicate Covered(rows: seq<Row>, j: nat) { exists i :: RowHas(rows, i, j) }

  // The number of slots Update counts; an upside-down row counts negatively.
  function Total(rows: seq<Row>): int {
    if rows == [] then 0 else Total(rows[..|rows| - 1]) + (rows[|rows| - 1].end - rows[|rows| - 1].start + 1)
  }

  // How often the rows list a as a replica of slot j.
  ghost function Listings(rows: seq<Row>, a: Addr, j: nat): nat {
    if rows == [] then 0 else
    var n := |rows| - 1;
    Listings(rows[..n], a, j) + if rows[n].start <= j <= rows[n].end then multiset(rows[n].slaves)[a] else 0
  }

  ghost predicate ReplicaAt(rows: seq<Row>, a: Addr, j: nat) { exists i :: RowHas(rows, i, j) && a in rows[i].slaves }

  ghost predicate Disjoint(rows: seq<Row>) {
    forall i, k, j: nat :: i < k && RowHas(rows, i, j) ==> !RowHas(rows, k, j)
  }

  // No row is upside down (by more than an empty row).
  ghost predicate Upright(rows: seq<Row>) {
    forall i :: 0 <= i < |rows| ==> rows[i].start <= rows[i].end + 1
  }

  // The slots of the rows one by one, an upside-down row having none.
  function Sizes(rows: seq<Row>): nat {
    if rows == [] then 0 else
    var last := rows[|rows| - 1];
    Sizes(rows[..|rows| - 1]) + if last.start <= last.end then last.end - last.start + 1 else 0
  }

  lemma {:induction false} TotalIsSizes(rows: seq<Row>)
    ensures Total(rows) <= Sizes(rows)
    ensures Total(rows) == Sizes(rows) <==> Upright(rows)
  {
    if rows != [] {
      var n := |rows| - 1;
      TotalIsSizes(rows[..n]);
      assert Upright(rows) <==> Upright(rows[..n]) && rows[n].start <= rows[n].end + 1;
    }
  }

  // ---- the pigeonhole argument ----

  ghost function Interval(a: nat, b: nat): (s: set<nat>)
    ensures forall j :: j in s <==> a <= j < b
  {
    if a < b then Interval(a, b - 1) + {b - 1} else {}
  }

  lemma {:induction false} IntervalSize(a: nat, b: nat)
    requires a <= b
    ensures |Interval(a, b)| == b - a
    decreases b
  {
    if a < b {
      IntervalSize(a, b - 1);
    }
  }

  lemma NoInterval(a: nat, b: nat)
    requires b <= a
    ensures Interval(a, b) == {}
  {
  }

  ghost function Slotted(rows: seq<Row>): (s: set<nat>)
    ensures forall j :: j in s <==> Covered(rows, j)
  {
    if rows == [] then {} else
    var last := rows[|rows| - 1];
    var front := rows[..|rows| - 1];
    assert forall j: nat :: Covered(rows, j) <==> Covered(front, j) || last.start <= j <= last.end by {
      forall j: nat
        ensures Covered(rows, j) <==> Covered(front, j) || last.start <= j <= last.end
      {
        CoveredSplit(rows, j);
      }
    }
    Slotted(front) + Interval(last.start, last.end + 1)
  }

  lemma CoveredSplit(rows: seq<Row>, j: nat)
    requires rows != []
    ensures var n := |rows| - 1;
            Covered(rows, j) <==> Covered(rows[..n], j) || RowHas(rows, n, j)
  {
    var n := |rows| - 1;
    if i :| RowHas(rows, i, j) {
      assert i < n ==> RowHas(rows[..n], i, j);
    }
    if i :| RowHas(rows[..n], i, j) {
      assert RowHas(rows, i, j);
    }
  }

  // One row more.
  lemma SlottedStep(rows: seq<Row>)
    requires rows != []
    ensures var front, last := rows[..|rows| - 1], rows[|rows| - 1];
            && Slotted(rows) == Slotted(front) + Interval(last.start, last.end + 1)
            && Sizes(rows) == Sizes(front) + |Interval(last.start, last.end + 1)|
  {
    var last := rows[|rows| - 1];
    hide Interval, Covered;
    if last.start <= last.end {
      IntervalSize(last.start, last.end + 1);
    } else {
      NoInterval(last.start, last.end + 1);
    }
  }

  lemma NoRows()
    ensures Slotted([]) == {} && Sizes([]) == 0 && Disjoint([])
  {
  }

  // As many slots as the rows have are covered when no two rows overlap, and
  // fewer otherwise.
  lemma {:induction false} CountOfSlotted(rows: seq<Row>)
    ensures |Slotted(rows)| <= Sizes(rows)
    ensures |Slotted(rows)| == Sizes(rows) <==> Disjoint(rows)
  {
    hide *;
    if rows == [] {
      NoRows();
    } else {
      var front, last := rows[..|rows| - 1], rows[|rows| - 1];
      CountOfSlotted(front);
      SlottedStep(rows);
      DisjointSplit(rows);
      UnionSize(Slotted(front), Interval(last.start, last.end + 1));
    }
  }

  lemma UnionSize(a: set<nat>, b: set<nat>)
    ensures |a + b| <= |a| + |b|
    ensures |a + b| == |a| + |b| <==> a * b == {}
  {
    assert |a + b| == |a| + |b| - |a * b|;
  }

  lemma DisjointSplit(rows: seq<Row>)
    requires rows != []
    ensures var front, last := rows[..|rows| - 1], rows[|rows| - 1];
            Disjoint(rows) <==> Disjoint(front) && Slotted(front) * Interval(last.start, last.end + 1) == {}
  {
    var n := |rows| - 1;
    var front, mine := rows[..n], Interval(rows[n].start, rows[n].end + 1);
    assert forall i, j: nat :: RowHas(front, i, j) <==> RowHas(rows, i, j) && i < n;
    assert forall j: nat :: j in mine <==> RowHas(rows, n, j);
    if Slotted(front) * mine == {} {
      forall i, j: nat | RowHas(front, i, j)
        ensures !RowHas(rows, n, j)
      {
        assert Covered(front, j);
        assert j in Slotted(front);
        assert j !in mine;
      }
    } else {
      var j :| j in Slotted(front) && j in mine;
      var i :| RowHas(front, i, j);
      assert RowHas(rows, i, j) && RowHas(rows, n, j);
    }
  }

  // The rows of a reply that passes the count do not overlap exactly when they
  // cover every slot and none is upside down: the count alone says nothing about
  // coverage.
  lemma FullCoverage(rows: seq<Row>, n: nat)
    requires n == SLOTS && InRange(rows) && Total(rows) == n
    ensures Disjoint(rows) <==> (forall j: nat :: j < n ==> Covered(rows, j)) && Upright(rows)
  {
    hide Total, Slotted, Interval, Disjoint, Upright, Sizes;
    TotalIsSizes(rows);
    var all := Interval(0, n);
    CountOfSlotted(rows);
    IntervalSize(0, n);
    forall j | j in Slotted(rows)
      ensures j in all
    {
      var i :| RowHas(rows, i, j);
    }
    SubsetSize(Slotted(rows), all);
    assert (forall j: nat :: j < n ==> Covered(rows, j)) ==> Slotted(rows) == all;
  }

  lemma SubsetSize(a: set<nat>, b: set<nat>)
    requires a <= b
    ensures |a| <= |b| && (|a| == |b| ==> a == b)
  {
    assert b == a + (b - a);
  }

  // Two overlapping halves pass the count and leave slot 16383 to nobody.
  lemma CountIsNotCoverage()
    ensures exists rows :: InRange(rows) && Upright(rows) && Total(rows) == SLOTS && !Covered(rows, 16383)
  {
    var rows := [Row(0, 8191, "a", []), Row(0, 8191, "b", [])];
    assert rows[..1] == [rows[0]] && rows[..1][..0] == [];
    assert Total(rows[..1]) == Total([]) + 8192;
    assert Total(rows) == Total(rows[..1]) + 8192;
    assert forall i :: !RowHas(rows, i, 16383);
  }

  // ---- the reply regrouped by node ----

  // The ranges of address a, in row order.
  function MasterRanges(rows: seq<Row>, a: Addr): seq<Range> {
    if rows == [] then [] else
    var n := |rows| - 1;
    MasterRanges(rows[..n], a) + if rows[n].master == a then [Range(rows[n].start, rows[n].end)] else []
  }

  function SlaveRangesIn(row: Row, slaves: seq<Addr>, a: Addr): seq<Range> {
    if slaves == [] then [] else
    var n := |slaves| - 1;
    SlaveRangesIn(row, slaves[..n], a) + if slaves[n] == a then [Range(row.start, row.end)] else []
  }

  function SlaveRanges(rows: seq<Row>, a: Addr): seq<Range> {
    if rows == [] then [] else
    var n := |rows| - 1;
    SlaveRanges(rows[..n], a) + SlaveRangesIn(rows[n], rows[n].slaves, a)
  }

  function Get(m: Ranges, a: Addr): seq<Range> { if a in m then m[a] else [] }

  // Every listed address has a range, every other has none.
  ghost predicate Groups(m: Ranges, of: Addr -> seq<Range>) {
    && (forall a :: Get(m, a) == of(a))
    && (forall a :: a in m ==> m[a] != [])
  }

  lemma GroupAdd(m: Ranges, of: Addr -> seq<Range>, of': Addr -> seq<Range>, addr: Addr, r: Range)
    requires Groups(m, of)
    requires forall a :: of'(a) == of(a) + if a == addr then [r] else []
    ensures Groups(m[addr := Get(m, addr) + [r]], of')
  {
    var m' := m[addr := Get(m, addr) + [r]];
    forall a
      ensures Get(m', a) == of'(a)
    {
      assert Get(m, a) == of(a);
    }
  }

  // The first half of Update: count the slots and regroup the reply.
  method Collect(rows: seq<Row>) returns (nslots: int, masters: Ranges, slaves: Ranges)
    ensures nslots == Total(rows)
    ensures Groups(masters, a => MasterRanges(rows, a))
    ensures Groups(slaves, a => SlaveRanges(rows, a))
  {
    nslots, masters, slaves := 0, map[], map[];
    for i := 0 to |rows|
      invariant nslots == Total(rows[..i])
      invariant Groups(masters, a => MasterRanges(rows[..i], a))
      invariant Groups(slaves, a => SlaveRanges(rows[..i], a))
    {
      var row := rows[i];
      assert rows[..i + 1][..i] == rows[..i];
      nslots := nslots + (row.end - row.start + 1);
      GroupAdd(masters, a => MasterRanges(rows[..i], a), a => MasterRanges(rows[..i + 1], a),
               row.master, Range(row.start, row.end));
      masters := masters[row.master := Get(masters, row.master) + [Range(row.start, row.end)]];
      slaves := CollectSlaves(row, slaves, a => SlaveRanges(rows[..i], a));
    }
    assert rows[..|rows|] == rows;
  }

  lemma NoSlaves(row: Row, slaves: Ranges, of: Addr -> seq<Range>)
    requires Groups(slaves, of)
    ensures Groups(slaves, a => of(a) + SlaveRangesIn(row, row.slaves[..0], a))
  {
  }

  lemma SlavesSnoc(row: Row, slaves: seq<Addr>, k: nat, of: Addr -> seq<Range>)
    requires k < |slaves|
    ensures forall a :: of(a) + SlaveRangesIn(row, slaves[..k + 1], a)
                        == of(a) + SlaveRangesIn(row, slaves[..k], a)
                           + if a == slaves[k] then [Range(row.start, row.end)] else []
  {
    assert slaves[..k + 1][..k] == slaves[..k];
  }

  method CollectSlaves(row: Row, slaves0: Ranges, ghost of: Addr -> seq<Range>) returns (slaves: Ranges)
    requires Groups(slaves0, of)
    ensures Groups(slaves, a => of(a) + SlaveRangesIn(row, row.slaves, a))
  {
    hide SlaveRangesIn;
    slaves := slaves0;
    NoSlaves(row, slaves, of);
    for k := 0 to |row.slaves|
      invariant Groups(slaves, a => of(a) + SlaveRangesIn(row, row.slaves[..k], a))
    {
      var addr := row.slaves[k];
      SlavesSnoc(row, row.slaves, k, of);
      GroupAdd(slaves, a => of(a) + SlaveRangesIn(row, row.slaves[..k], a),
               a => of(a) + SlaveRangesIn(row, row.slaves[..k + 1], a), addr, Range(row.start, row.end));
      slaves := slaves[addr := Get(slaves, addr) + [Range(row.start, row.end)]];
    }
    assert row.slaves[..|row.slaves|] == row.slaves;
  }

  // ---- the cluster object ----

  datatype NodeType = Master | Slave

  class Node {
    const address: Addr
    const nodeType: NodeType
    var updateTime: int
    var closed: bool

    constructor (address: Addr, nodeType: NodeType)
      ensures this.address == address && this.nodeType == nodeType && !closed
    {
      this.address, this.nodeType := address, nodeType;
      updateTime, closed := 0, false;
    }

    method Shutdown()
      modifies this`closed
      ensures closed
    {
      closed := true;
    }
  }

  type Table = map<Addr, Node>

  // Nodes of one kind, under their own addresses, none shut down.
  ghost predicate TableOk(t: Table, kind: NodeType)
    reads t.Values
  {
    forall a :: a in t ==> t[a].address == a && t[a].nodeType == kind && !t[a].closed
  }

  ghost predicate Has(rs: seq<Range>, j: nat) { exists i :: 0 <= i < |rs| && rs[i].Has(j) }

  ghost predicate InBounds(rs: seq<Range>) {
    forall i :: 0 <= i < |rs| ==> rs[i].start < SLOTS && rs[i].end < SLOTS
  }

  // Some range of m gives slot j to `now`, or none mentions j and it is as before.
  ghost predicate Assigned(m: Ranges, done: set<Addr>, t: Table, j: nat, now: Node?, before: Node?) {
    || (exists a :: a in done && a in m && a in t && Has(m[a], j) && now == t[a])
    || ((forall a :: a in done && a in m ==> !Has(m[a], j)) && now == before)
  }

  // The same for the whole slot table.
  ghost predicate AllAssigned(m: Ranges, done: set<Addr>, t: Table, now: seq<Node?>, before: seq<Node?>) {
    && |now| == |before| == SLOTS
    && forall j: nat :: j < SLOTS ==> Assigned(m, done, t, j, now[j], before[j])
  }

  // ---- replica lists ----

  // How many of the ranges contain j.
  function Count(rs: seq<Range>, j: nat): nat {
    if rs == [] then 0 else Count(rs[..|rs| - 1], j) + if rs[|rs| - 1].Has(j) then 1 else 0
  }

  ghost function Copies(node: Node, k: nat): seq<Node> { seq(k, _ => node) }

  lemma NoCopies(node: Node)
    ensures forall j :: Copies(node, Count([], j)) == []
  {
  }

  lemma CopiesStep(node: Node, rs: seq<Range>, i: nat)
    requires i < |rs|
    ensures forall j :: Copies(node, Count(rs[..i + 1], j))
                        == if rs[i].Has(j) then Copies(node, Count(rs[..i], j)) + [node] else Copies(node, Count(rs[..i], j))
  {
    assert rs[..i + 1][..i] == rs[..i];
    forall j
      ensures Copies(node, Count(rs[..i], j) + 1) == Copies(node, Count(rs[..i], j)) + [node]
    {
    }
  }

  // Each key once, in some order.
  ghost predicate Enumerates(order: seq<Addr>, keys: set<Addr>) {
    && (forall a :: a in order <==> a in keys)
    && forall i, k :: 0 <= i < k < |order| ==> order[i] != order[k]
  }

  lemma NoneEnumerated()
    ensures Enumerates([], {})
  {
  }

  lemma EnumeratesStep(order: seq<Addr>, keys: set<Addr>, a: Addr)
    requires Enumerates(order, keys) && a !in keys
    ensures a !in order && Enumerates(order + [a], keys + {a})
  {
  }

  ghost predicate Listed(order: seq<Addr>, m: Ranges, t: Table) {
    forall i :: 0 <= i < |order| ==> order[i] in m && order[i] in t
  }

  // The nodes of these addresses in this order, each as many times as told.
  ghost function Replicas(order: seq<Addr>, t: Table, times: Addr -> nat): seq<Node>
    requires forall i :: 0 <= i < |order| ==> order[i] in t
  {
    if order == [] then [] else
    var n := |order| - 1;
    Replicas(order[..n], t, times) + Copies(t[order[n]], times(order[n]))
  }

  // How often each address has slot j in its ranges.
  ghost function Times(m: Ranges, j: nat): Addr -> nat { a => Count(Get(m, a), j) }

  ghost predicate AllReplicas(order: seq<Addr>, m: Ranges, t: Table, lists: seq<seq<Node>>) {
    && |lists| == SLOTS && Listed(order, m, t)
    && forall j: nat :: j < SLOTS ==> lists[j] == Replicas(order, t, Times(m, j))
  }

  // Only the nodes of the order and their numbers count.
  lemma {:induction false} ReplicasFrame(order: seq<Addr>, t: Table, t': Table, times: Addr -> nat, times': Addr -> nat)
    requires forall i :: 0 <= i < |order| ==> order[i] in t && order[i] in t' && t[order[i]] == t'[order[i]]
    requires forall i :: 0 <= i < |order| ==> times(order[i]) == times'(order[i])
    ensures Replicas(order, t, times) == Replicas(order, t', times')
  {
    if order != [] {
      ReplicasFrame(order[..|order| - 1], t, t', times, times');
    }
  }

  lemma NoReplicas(m: Ranges, t: Table, lists: seq<seq<Node>>)
    requires |lists| == SLOTS && forall j: nat :: j < SLOTS ==> lists[j] == []
    ensures AllReplicas([], m, t, lists)
  {
  }

  lemma AllReplicasStep(order: seq<Addr>, m: Ranges, t0: Table, t: Table, addr: Addr,
                        lists0: seq<seq<Node>>, lists: seq<seq<Node>>)
    requires addr in m && addr in t && t == t0[addr := t[addr]] && addr !in order
    requires AllReplicas(order, m, t0, lists0) && |lists| == SLOTS
    requires forall j: nat :: j < SLOTS ==> lists[j] == lists0[j] + Copies(t[addr], Count(m[addr], j))
    ensures AllReplicas(order + [addr], m, t, lists)
  {
    var order' := order + [addr];
    assert order'[..|order|] == order;
    forall j: nat | j < SLOTS
      ensures lists[j] == Replicas(order', t, Times(m, j))
    {
      ReplicasFrame(order, t0, t, Times(m, j), Times(m, j));
    }
  }

  // The addresses done so far were taken up in this order.
  ghost predicate ListsUp(order: seq<Addr>, done: set<Addr>, m: Ranges, t: Table, lists: seq<seq<Node>>) {
    Enumerates(order, done) && AllReplicas(order, m, t, lists)
  }

  lemma ListsUpNone(m: Ranges, t: Table, lists: seq<seq<Node>>)
    requires |lists| == SLOTS && forall j: nat :: j < SLOTS ==> lists[j] == []
    ensures ListsUp([], {}, m, t, lists)
  {
    NoneEnumerated();
    NoReplicas(m, t, lists);
  }

  lemma ListsUpStep(order: seq<Addr>, done: set<Addr>, m: Ranges, t0: Table, t: Table, addr: Addr,
                    lists0: seq<seq<Node>>, lists: seq<seq<Node>>)
    requires addr in m && addr in t && t == t0[addr := t[addr]] && addr !in done
    requires ListsUp(order, done, m, t0, lists0) && |lists| == SLOTS
    requires forall j: nat :: j < SLOTS ==> lists[j] == lists0[j] + Copies(t[addr], Count(m[addr], j))
    ensures ListsUp(order + [addr], done + {addr}, m, t, lists)
  {
    hide Count, Copies, AllReplicas, Enumerates;
    EnumeratesStep(order, done, addr);
    AllReplicasStep(order, m, t0, t, addr, lists0, lists);
  }

  // ---- the replica lists, told from the rows ----

  lemma {:induction false} CountAppend(rs: seq<Range>, more: seq<Range>, j: nat)
    ensures Count(rs + more, j) == Count(rs, j) + Count(more, j)
  {
    if more == [] {
      assert rs + more == rs;
    } else {
      var n := |more| - 1;
      CountAppend(rs, more[..n], j);
      assert (rs + more)[..|rs| + n] == rs + more[..n];
    }
  }

  lemma CountOne(r: Range, j: nat)
    ensures Count([r], j) == (if r.Has(j) then 1 else 0) && Count([], j) == 0
  {
    assert [r][..0] == [];
  }

  lemma {:induction false} CountOfRow(row: Row, slaves: seq<Addr>, a: Addr, j: nat)
    ensures Count(SlaveRangesIn(row, slaves, a), j) == if row.start <= j <= row.end then multiset(slaves)[a] else 0
  {
    var last := Range(row.start, row.end);
    CountOne(last, j);
    hide Count;
    if slaves != [] {
      var n := |slaves| - 1;
      CountOfRow(row, slaves[..n], a, j);
      MultisetSnoc(slaves, a);
      CountAppend(SlaveRangesIn(row, slaves[..n], a), if slaves[n] == a then [last] else [], j);
    }
  }

  lemma MultisetSnoc(slaves: seq<Addr>, a: Addr)
    requires slaves != []
    ensures var n := |slaves| - 1;
            multiset(slaves)[a] == multiset(slaves[..n])[a] + if slaves[n] == a then 1 else 0
  {
    assert slaves == slaves[..|slaves| - 1] + [slaves[|slaves| - 1]];
  }

  // The ranges collected for a replica have each slot as often as the rows list
  // it there.
  lemma {:induction false} CountIsListings(rows: seq<Row>, a: Addr, j: nat)
    ensures Count(SlaveRanges(rows, a), j) == Listings(rows, a, j)
  {
    if rows != [] {
      var n := |rows| - 1;
      CountIsListings(rows[..n], a, j);
      CountOfRow(rows[n], rows[n].slaves, a, j);
      CountAppend(SlaveRanges(rows[..n], a), SlaveRangesIn(rows[n], rows[n].slaves, a), j);
    }
  }

  ghost function TimesListed(rows: seq<Row>, j: nat): Addr -> nat { a => Listings(rows, a, j) }

  // One order for all slots, of all replicas the rows name: every slot's list has
  // each replica's node in that order, as often as the rows list it there.
  ghost predicate ListsAgree(rows: seq<Row>, order: seq<Addr>, t: Table, lists: seq<seq<Node>>) {
    && |lists| == SLOTS
    && (forall a :: a in order <==> IsReplica(rows, a))
    && (forall i, k :: 0 <= i < k < |order| ==> order[i] != order[k])
    && (forall i :: 0 <= i < |order| ==> order[i] in t)
    && forall j: nat :: j < SLOTS ==> lists[j] == Replicas(order, t, TimesListed(rows, j))
  }

  lemma AllReplicasIsAgreement(rows: seq<Row>, m: Ranges, order: seq<Addr>, t: Table, lists: seq<seq<Node>>)
    requires Groups(m, a => SlaveRanges(rows, a)) && Enumerates(order, m.Keys) && AllReplicas(order, m, t, lists)
    ensures ListsAgree(rows, order, t, lists)
  {
    ReplicasAreListed(rows, m);
    hide SlaveRanges, Count, Replicas, IsReplica;
    forall j: nat | j < SLOTS
      ensures lists[j] == Replicas(order, t, TimesListed(rows, j))
    {
      forall i | 0 <= i < |order|
        ensures Times(m, j)(order[i]) == TimesListed(rows, j)(order[i])
      {
        var a := order[i];
        assert Get(m, a) == SlaveRanges(rows, a);
        CountIsListings(rows, a, j);
      }
      ReplicasFrame(order, t, t, Times(m, j), TimesListed(rows, j));
    }
  }

  // How often a node occurs in such a list.
  lemma {:induction false} TimesInReplicas(order: seq<Addr>, t: Table, times: Addr -> nat, a: Addr)
    requires forall i :: 0 <= i < |order| ==> order[i] in t
    requires forall i, k :: 0 <= i < k < |order| ==> order[i] != order[k]
    requires a in t && forall b :: b in t && b != a ==> t[b] != t[a]
    ensures multiset(Replicas(order, t, times))[t[a]] == if a in order then times(a) else 0
  {
    if order != [] {
      var n := |order| - 1;
      TimesInReplicas(order[..n], t, times, a);
      CopiesOf(t[order[n]], times(order[n]), t[a]);
      assert order == order[..n] + [order[n]];
    }
  }

  lemma {:induction false} CopiesOf(node: Node, k: nat, other: Node)
    ensures multiset(Copies(node, k))[other] == if node == other then k else 0
  {
    if k > 0 {
      CopiesOf(node, k - 1, other);
      assert Copies(node, k) == Copies(node, k - 1) + [node];
    }
  }

  lemma {:induction false} ReplicasAreNodes(order: seq<Addr>, t: Table, times: Addr -> nat, node: Node)
    requires forall i :: 0 <= i < |order| ==> order[i] in t
    requires node in Replicas(order, t, times)
    ensures exists i :: 0 <= i < |order| && node == t[order[i]]
  {
    var n := |order| - 1;
    if node in Replicas(order[..n], t, times) {
      ReplicasAreNodes(order[..n], t, times, node);
    } else {
      assert node in Copies(t[order[n]], times(order[n]));
    }
  }

  lemma ReplicaAtSplit(rows: seq<Row>, a: Addr, j: nat)
    requires rows != []
    ensures var n := |rows| - 1;
            ReplicaAt(rows, a, j) <==> ReplicaAt(rows[..n], a, j) || (RowHas(rows, n, j) && a in rows[n].slaves)
  {
    var n := |rows| - 1;
    if i :| RowHas(rows, i, j) && a in rows[i].slaves {
      assert i < n ==> RowHas(rows[..n], i, j) && a in rows[..n][i].slaves;
    }
    if i :| RowHas(rows[..n], i, j) && a in rows[..n][i].slaves {
      assert RowHas(rows, i, j) && a in rows[i].slaves;
    }
  }

  lemma {:induction false} ListingsPositive(rows: seq<Row>, a: Addr, j: nat)
    ensures Listings(rows, a, j) > 0 <==> ReplicaAt(rows, a, j)
  {
    if rows != [] {
      ReplicaAtSplit(rows, a, j);
      hide ReplicaAt;
      ListingsPositive(rows[..|rows| - 1], a, j);
    }
  }

  lemma ReplicaIsReplica(rows: seq<Row>, a: Addr, j: nat)
    requires ReplicaAt(rows, a, j)
    ensures IsReplica(rows, a)
  {
  }

  // A node is in a slot's list exactly when it is the node of an address that a
  // row with that slot names, and it occurs as often as rows do so.
  ghost predicate ReplicasServed(rows: seq<Row>, t: Table, lists: seq<seq<Node>>) {
    && |lists| == SLOTS
    && (forall j: nat, a :: j < |lists| && ReplicaAt(rows, a, j) ==> a in t)
    && (forall j: nat, a :: j < |lists| && a in t ==>
          && multiset(lists[j])[t[a]] == Listings(rows, a, j)
          && (t[a] in lists[j] <==> ReplicaAt(rows, a, j)))
    && (forall j: nat, node :: j < |lists| && node in lists[j] ==> node in t.Values)
  }

  lemma ListsServe(rows: seq<Row>, order: seq<Addr>, t: Table, lists: seq<seq<Node>>)
    requires ListsAgree(rows, order, t, lists) && forall a, b :: a in t && b in t && a != b ==> t[a] != t[b]
    ensures ReplicasServed(rows, t, lists)
  {
    hide Replicas, Listings, IsReplica, ReplicaAt;
    forall j: nat, a | j < |lists|
      ensures ReplicaAt(rows, a, j) ==> a in t
      ensures a in t ==> multiset(lists[j])[t[a]] == Listings(rows, a, j)
      ensures a in t ==> (t[a] in lists[j] <==> ReplicaAt(rows, a, j))
    {
      if ReplicaAt(rows, a, j) {
        ReplicaIsReplica(rows, a, j);
      }
      ListingsPositive(rows, a, j);
      if a in t {
        TimesInReplicas(order, t, TimesListed(rows, j), a);
        if a !in order && Listings(rows, a, j) > 0 {
          ReplicaIsReplica(rows, a, j);
        }
      }
    }
    forall j: nat, node | j < |lists| && node in lists[j]
      ensures node in t.Values
    {
      ReplicasAreNodes(order, t, TimesListed(rows, j), node);
    }
  }

  // Slots that the rows list equally often for every replica have the same list ...
  lemma SameListingsSameReplicas(rows: seq<Row>, order: seq<Addr>, t: Table, lists: seq<seq<Node>>, j: nat, j': nat)
    requires ListsAgree(rows, order, t, lists) && j < |lists| && j' < |lists|
    requires forall a :: Listings(rows, a, j) == Listings(rows, a, j')
    ensures lists[j] == lists[j']
  {
    hide Replicas, Listings, IsReplica;
    ReplicasFrame(order, t, t, TimesListed(rows, j), TimesListed(rows, j'));
  }

  // No slot is given to a replica twice.
  ghost predicate ListedOnce(rows: seq<Row>) {
    && (forall i, a :: 0 <= i < |rows| ==> multiset(rows[i].slaves)[a] <= 1)
    && forall i, k, j: nat, a :: i < k && RowHas(rows, i, j) && RowHas(rows, k, j) && a in rows[i].slaves ==>
         a !in rows[k].slaves
  }

  lemma {:induction false} ListingsOnce(rows: seq<Row>, a: Addr, j: nat)
    requires ListedOnce(rows)
    ensures Listings(rows, a, j) <= 1
  {
    if rows != [] {
      var n := |rows| - 1;
      assert forall i :: RowHas(rows[..n], i, j) ==> RowHas(rows, i, j);
      OnceBefore(rows);
      ListingsOnce(rows[..n], a, j);
      ListingsPositive(rows[..n], a, j);
    }
  }

  lemma OnceBefore(rows: seq<Row>)
    requires rows != [] && ListedOnce(rows)
    ensures ListedOnce(rows[..|rows| - 1])
  {
    var front := rows[..|rows| - 1];
    assert forall i, j: nat :: RowHas(front, i, j) ==> RowHas(rows, i, j) && front[i] == rows[i];
  }

  // ... in particular slots that have the same replicas, when no slot is given to
  // a replica twice.
  lemma SameCoverSameReplicas(rows: seq<Row>, order: seq<Addr>, t: Table, lists: seq<seq<Node>>, j: nat, j': nat)
    requires ListsAgree(rows, order, t, lists) && j < |lists| && j' < |lists|
    requires ListedOnce(rows) && forall a :: ReplicaAt(rows, a, j) <==> ReplicaAt(rows, a, j')
    ensures lists[j] == lists[j']
  {
    hide ListsAgree, Listings, ReplicaAt, ListedOnce;
    forall a
      ensures Listings(rows, a, j) == Listings(rows, a, j')
    {
      ListingsOnce(rows, a, j);
      ListingsOnce(rows, a, j');
      ListingsPositive(rows, a, j);
      ListingsPositive(rows, a, j');
    }
    SameListingsSameReplicas(rows, order, t, lists, j, j');
  }

  // ---- nodes coming and going ----

  // The node of an address, created if need be, and stamped.
  method Adopt(t: Table, addr: Addr, kind: NodeType, time: int) returns (node: Node, t': Table)
    requires TableOk(t, kind)
    modifies if addr in t then {t[addr]} else {}
    ensures t' == t[addr := node] && TableOk(t', kind)
    ensures if addr in t then node == t[addr] else fresh(node)
    ensures forall a :: a in t' ==> t'[a].updateTime == if a == addr then time else old(t[a].updateTime)
  {
    if addr in t {
      node := t[addr];
    } else {
      node := new Node(addr, kind);
    }
    node.updateTime := time;
    t' := t[addr := node];
  }

  // Moving one key from those to do to those done.
  lemma KeysStep(others: set<Addr>, keys: set<Addr>, todo: set<Addr>, addr: Addr)
    requires addr in todo && todo <= keys
    ensures addr !in keys - todo && keys - (todo - {addr}) == (keys - todo) + {addr}
    ensures others + (keys - todo) + {addr} == others + (keys - (todo - {addr}))
  {
  }

  // Shut down and drop the nodes this update did not stamp.
  method Purge(t: Table, time: int, ghost kind: NodeType) returns (t': Table)
    requires TableOk(t, kind)
    modifies t.Values
    ensures TableOk(t', kind)
    ensures forall a :: a in t' <==> a in t && old(t[a].updateTime) == time
    ensures forall a :: a in t' ==> t'[a] == t[a]
    ensures forall a :: a in t ==> t[a].updateTime == old(t[a].updateTime)
    ensures forall a :: a in t && a !in t' ==> t[a].closed
  {
    t' := t;
    var todo := t.Keys;
    while todo != {}
      invariant todo <= t.Keys
      invariant forall a :: a in t' <==> a in t && (a in todo || old(t[a].updateTime) == time)
      invariant forall a :: a in t' ==> t'[a] == t[a]
      invariant forall a :: a in t ==> t[a].address == a && t[a].nodeType == kind && t[a].updateTime == old(t[a].updateTime)
      invariant forall a :: a in t ==> (t[a].closed <==> a !in t')
    {
      var a :| a in todo;
      todo := todo - {a};
      var node := t[a];
      if node.updateTime != time {
        node.Shutdown();
        t' := map k | k in t' && k != a :: t'[k];
      }
    }
  }

  // Shut down one node after the other.
  method ShutdownAll(t: Table)
    modifies t.Values
    ensures forall a :: a in t ==> t[a].closed
  {
    var todo := t.Keys;
    while todo != {}
      invariant todo <= t.Keys && forall a :: a in t && a !in todo ==> t[a].closed
    {
      var a :| a in todo;
      t[a].Shutdown();
      todo := todo - {a};
    }
  }

  class Cluster {
    const slots: array<Node?>
    const slaveSlots: array<seq<Node>>
    var nodes: Table
    var slaveNodes: Table
    var updateTime: int
    var closed: bool

    // Every node in the maps carries the stamp of the last accepted update.
    ghost predicate Valid()
      reads this, nodes.Values, slaveNodes.Values
    {
      && Tables()
      && (forall a :: a in nodes ==> nodes[a].updateTime == updateTime)
      && (forall a :: a in slaveNodes ==> slaveNodes[a].updateTime == updateTime)
    }

    ghost predicate Tables()
      reads this, nodes.Values, slaveNodes.Values
    {
      && slots.Length == SLOTS && slaveSlots.Length == SLOTS
      && TableOk(nodes, Master) && TableOk(slaveNodes, Slave)
      && nodes.Values !! slaveNodes.Values
    }

    // NewCluster, before its first update.
    constructor (time: int)
      ensures Valid() && fresh(slots) && fresh(slaveSlots)
      ensures nodes == map[] && slaveNodes == map[] && !closed && updateTime == time
      ensures forall j: nat :: j < SLOTS ==> slots[j] == null && slaveSlots[j] == []
    {
      slots := new Node?[SLOTS](_ => null);
      slaveSlots := new seq<Node>[SLOTS](_ => []);
      nodes, slaveNodes, updateTime, closed := map[], map[], time, false;
    }

    method AssignRange(node: Node, r: Range)
      requires slots.Length == SLOTS && r.start < SLOTS && r.end < SLOTS
      modifies slots
      ensures forall j: nat :: j < SLOTS ==> slots[j] == if r.Has(j) then node else old(slots[j])
    {
      var j := r.start;
      while j <= r.end
        invariant j <= SLOTS && (j > r.start ==> j <= r.end + 1)
        invariant forall k: nat :: k < SLOTS ==> slots[k] == if r.start <= k < j then node else old(slots[k])
      {
        slots[j] := node;
        j := j + 1;
      }
    }

    // Give every slot of the ranges to the node.
    method AssignRanges(node: Node, rs: seq<Range>)
      requires slots.Length == SLOTS && InBounds(rs)
      modifies slots
      ensures forall j: nat :: j < SLOTS ==> slots[j] == if Has(rs, j) then node else old(slots[j])
    {
      for i := 0 to |rs|
        invariant forall j: nat :: j < SLOTS ==> slots[j] == if Has(rs[..i], j) then node else old(slots[j])
      {
        AssignRange(node, rs[i]);
        forall k: nat | k < SLOTS
          ensures Has(rs[..i + 1], k) <==> Has(rs[..i], k) || rs[i].Has(k)
        {
          HasSnoc(rs, i, k);
        }
      }
      assert rs[..|rs|] == rs;
    }

    // One announced master: its node gets its slots.
    method AssignMaster(t: Table, addr: Addr, rs: seq<Range>, time: int) returns (t': Table)
      requires slots.Length == SLOTS && TableOk(t, Master) && InBounds(rs)
      modifies t.Values, slots
      ensures TableOk(t', Master) && addr in t' && t' == t[addr := t'[addr]]
      ensures if addr in t then t'[addr] == t[addr] else fresh(t'[addr])
      ensures forall a :: a in t' ==> t'[a].updateTime == if a == addr then time else old(t[a].updateTime)
      ensures forall j: nat :: j < SLOTS ==> slots[j] == if Has(rs, j) then t'[addr] else old(slots[j])
    {
      var node;
      node, t' := Adopt(t, addr, Master, time);
      AssignRanges(node, rs);
    }

    method AssignMasters(t0: Table, m: Ranges, time: int) returns (t: Table)
      requires slots.Length == SLOTS && TableOk(t0, Master) && forall a :: a in m ==> InBounds(m[a])
      modifies t0.Values, slots
      ensures TableOk(t, Master) && t.Keys == t0.Keys + m.Keys
      ensures forall a :: a in t ==> if a in t0 then t[a] == t0[a] else fresh(t[a])
      ensures forall a :: a in t ==> t[a].updateTime == if a in m then time else old(t0[a].updateTime)
      ensures AllAssigned(m, m.Keys, t, slots[..], old(slots[..]))
    {
      NoneAssigned(m, t0, slots[..]);
      hide *;
      ghost var done: set<Addr> := {};
      var todo := m.Keys;
      t := t0;
      while todo != {}
        invariant todo <= m.Keys && done == m.Keys - todo
        invariant TableOk(t, Master) && t.Keys == t0.Keys + done
        invariant forall a :: a in t ==> if a in t0 then t[a] == t0[a] else fresh(t[a])
        invariant forall a :: a in t ==> t[a].updateTime == if a in done then time else old(t0[a].updateTime)
        invariant AllAssigned(m, done, t, slots[..], old(slots[..]))
      {
        var addr :| addr in todo;
        ghost var was, t1 := slots[..], t;
        t := AssignMaster(t, addr, m[addr], time);
        AllAssignedStep(m, done, addr, t1, t, was, slots[..], old(slots[..]));
        KeysStep(t0.Keys, m.Keys, todo, addr);
        todo := todo - {addr};
        done := m.Keys - todo;
      }
      assert done == m.Keys;
    }

    method AppendRange(node: Node, r: Range)
      requires slaveSlots.Length == SLOTS && r.start < SLOTS && r.end < SLOTS
      modifies slaveSlots
      ensures forall j: nat :: j < SLOTS ==>
                slaveSlots[j] == if r.Has(j) then old(slaveSlots[j]) + [node] else old(slaveSlots[j])
    {
      var j := r.start;
      while j <= r.end
        invariant j <= SLOTS && (j > r.start ==> j <= r.end + 1)
        invariant forall k: nat :: k < SLOTS ==>
                    slaveSlots[k] == if r.start <= k < j then old(slaveSlots[k]) + [node] else old(slaveSlots[k])
      {
        slaveSlots[j] := slaveSlots[j] + [node];
        j := j + 1;
      }
    }

    method AppendRanges(node: Node, rs: seq<Range>)
      requires slaveSlots.Length == SLOTS && InBounds(rs)
      modifies slaveSlots
      ensures forall j: nat :: j < SLOTS ==> slaveSlots[j] == old(slaveSlots[j]) + Copies(node, Count(rs, j))
    {
      hide Copies, Count;
      NoCopies(node);
      for i := 0 to |rs|
        invariant forall j: nat :: j < SLOTS ==> slaveSlots[j] == old(slaveSlots[j]) + Copies(node, Count(rs[..i], j))
      {
        CopiesStep(node, rs, i);
        AppendRange(node, rs[i]);
      }
      assert rs[..|rs|] == rs;
    }

    // One announced replica: its node joins the lists of its slots.
    method AssignSlave(t: Table, addr: Addr, m: Ranges, time: int, ghost order: seq<Addr>, ghost done: set<Addr>)
      returns (t': Table)
      requires slaveSlots.Length == SLOTS && TableOk(t, Slave) && addr in m && addr !in done && InBounds(m[addr])
      requires ListsUp(order, done, m, t, slaveSlots[..])
      modifies t.Values, slaveSlots
      ensures TableOk(t', Slave) && addr in t' && t' == t[addr := t'[addr]]
      ensures if addr in t then t'[addr] == t[addr] else fresh(t'[addr])
      ensures forall a :: a in t' ==> t'[a].updateTime == if a == addr then time else old(t[a].updateTime)
      ensures ListsUp(order + [addr], done + {addr}, m, t', slaveSlots[..])
    {
      hide Count, Copies, ListsUp, InBounds, TableOk;
      ghost var was := slaveSlots[..];
      var node;
      node, t' := Adopt(t, addr, Slave, time);
      AppendRanges(node, m[addr]);
      ListsUpStep(order, done, m, t, t', addr, was, slaveSlots[..]);
    }

    method AssignSlaves(t0: Table, m: Ranges, time: int) returns (t: Table, ghost order: seq<Addr>)
      requires slaveSlots.Length == SLOTS && TableOk(t0, Slave) && forall a :: a in m ==> InBounds(m[a])
      requires forall j: nat :: j < SLOTS ==> slaveSlots[j] == []
      modifies t0.Values, slaveSlots
      ensures TableOk(t, Slave) && t.Keys == t0.Keys + m.Keys
      ensures forall a :: a in t ==> if a in t0 then t[a] == t0[a] else fresh(t[a])
      ensures forall a :: a in t ==> t[a].updateTime == if a in m then time else old(t0[a].updateTime)
      ensures ListsUp(order, m.Keys, m, t, slaveSlots[..])
    {
      ListsUpNone(m, t0, slaveSlots[..]);
      hide *;
      order := [];
      ghost var done: set<Addr> := {};
      var todo := m.Keys;
      t := t0;
      while todo != {}
        invariant todo <= m.Keys && done == m.Keys - todo
        invariant TableOk(t, Slave) && t.Keys == t0.Keys + done
        invariant forall a :: a in t ==> if a in t0 then t[a] == t0[a] else fresh(t[a])
        invariant forall a :: a in t ==> t[a].updateTime == if a in done then time else old(t0[a].updateTime)
        invariant ListsUp(order, done, m, t, slaveSlots[..])
      {
        var addr :| addr in todo;
        t := AssignSlave(t, addr, m, time, order, done);
        KeysStep(t0.Keys, m.Keys, todo, addr);
        todo, order := todo - {addr}, order + [addr];
        done := m.Keys - todo;
      }
      assert done == m.Keys;
    }

    // Install the reply to CLUSTER SLOTS, unless it does not count to all slots.
    // `order` is the order in which the map iteration took the replicas up.
    method Update(rows: seq<Row>, time: int) returns (ok: bool, ghost order: seq<Addr>)
      requires Valid() && InRange(rows)
      modifies this, nodes.Values, slaveNodes.Values, slots, slaveSlots
      ensures Valid() && closed == old(closed)
      ensures ok <==> Total(rows) == SLOTS
      ensures !ok ==> nodes == old(nodes) && slaveNodes == old(slaveNodes) && updateTime == old(updateTime)
                      && slots[..] == old(slots[..]) && slaveSlots[..] == old(slaveSlots[..])
      // If the clock has moved since the last update, the nodes are exactly the
      // announced ones; if it has not, the earlier ones stay as well.
      ensures ok ==> updateTime == time && forall a :: a in nodes <==>
                Announced(rows, a) || (a in old(nodes) && time == old(updateTime))
      ensures ok ==> forall a :: a in slaveNodes <==>
                IsReplica(rows, a) || (a in old(slaveNodes) && time == old(updateTime))
      // Nodes that stay keep their object, those that go are shut down.
      ensures ok ==> forall a :: a in old(nodes) ==> if a in nodes then nodes[a] == old(nodes[a]) else old(nodes[a]).closed
      ensures ok ==> forall a :: a in nodes && a !in old(nodes) ==> fresh(nodes[a])
      ensures ok ==> forall a :: a in old(slaveNodes) ==>
                if a in slaveNodes then slaveNodes[a] == old(slaveNodes[a]) else old(slaveNodes[a]).closed
      ensures ok ==> forall a :: a in slaveNodes && a !in old(slaveNodes) ==> fresh(slaveNodes[a])
      // Each slot of the reply points to the node of a row that has it.
      ensures ok ==> TableAgrees(rows, nodes, slots[..], old(slots[..]))
      // Without overlaps every slot points to the live node of its one master.
      ensures ok && Disjoint(rows) ==> AllServed(rows, nodes, slots[..])
      // The replica lists: who is in them, how often, and in which order.
      ensures ok ==> ReplicasServed(rows, slaveNodes, slaveSlots[..])
      ensures ok ==> ListsAgree(rows, order, slaveNodes, slaveSlots[..])
    {
      hide Total, Groups, InBounds, AllReplicas, Enumerates, Announced, TableAgrees,
           SlaveRanges, MasterRanges, AllServed, Disjoint, IsReplica, ListsAgree, ReplicasServed;
      var nslots, masters, replicas := Collect(rows);
      order := [];
      if nslots != SLOTS {
        return false, order;
      }
      ok := true;
      updateTime := time;
      UpdateMasters(rows, masters, time);
      order := UpdateReplicas(rows, replicas, time);
    }

    // The part of Update about masters.
    method UpdateMasters(rows: seq<Row>, m: Ranges, time: int)
      requires Tables() && InRange(rows) && Total(rows) == SLOTS && Groups(m, a => MasterRanges(rows, a))
      modifies this`nodes, nodes.Values, slots
      ensures Tables() && forall a :: a in nodes ==> nodes[a].updateTime == time
      ensures forall a :: a in nodes <==> Announced(rows, a) || (a in old(nodes) && old(nodes[a].updateTime) == time)
      ensures forall a :: a in old(nodes) ==> if a in nodes then nodes[a] == old(nodes[a]) else old(nodes[a]).closed
      ensures forall a :: a in nodes && a !in old(nodes) ==> fresh(nodes[a])
      ensures TableAgrees(rows, nodes, slots[..], old(slots[..]))
      ensures Disjoint(rows) ==> AllServed(rows, nodes, slots[..])
    {
      ghost var n := slots.Length;
      MastersInBounds(rows, m);
      KeysAreAnnounced(rows, m);
      hide Total, Groups, InBounds, AllAssigned, Announced, TableAgrees, MasterRanges, AllServed, Disjoint;
      nodes := InstallMasters(nodes, m, time);
      AllAssignedIsAgreement(rows, m, nodes, slots[..], old(slots[..]));
      if Disjoint(rows) {
        DisjointAgreement(rows, nodes, slots[..], old(slots[..]), n);
      }
    }

    // The part of Update about replicas; the masters do not notice.
    method UpdateReplicas(rows: seq<Row>, m: Ranges, time: int) returns (ghost order: seq<Addr>)
      requires Tables() && InRange(rows) && Groups(m, a => SlaveRanges(rows, a))
      modifies this`slaveNodes, slaveNodes.Values, slaveSlots
      ensures Tables() && (forall a :: a in slaveNodes ==> slaveNodes[a].updateTime == time)
      ensures forall a :: a in nodes ==> unchanged(nodes[a])
      ensures ListsAgree(rows, order, slaveNodes, slaveSlots[..]) && ReplicasServed(rows, slaveNodes, slaveSlots[..])
      ensures forall a :: a in slaveNodes <==>
                IsReplica(rows, a) || (a in old(slaveNodes) && old(slaveNodes[a].updateTime) == time)
      ensures forall a :: a in old(slaveNodes) ==>
                if a in slaveNodes then slaveNodes[a] == old(slaveNodes[a]) else old(slaveNodes[a]).closed
      ensures forall a :: a in slaveNodes && a !in old(slaveNodes) ==> fresh(slaveNodes[a])
    {
      hide Groups, IsReplica, ListsAgree, ReplicasServed;
      slaveNodes, order := InstallReplicas(slaveNodes, rows, m, time);
    }

    method InstallReplicas(t0: Table, rows: seq<Row>, m: Ranges, time: int) returns (t: Table, ghost order: seq<Addr>)
      requires slaveSlots.Length == SLOTS && TableOk(t0, Slave) && InRange(rows) && Groups(m, a => SlaveRanges(rows, a))
      modifies t0.Values, slaveSlots
      ensures TableOk(t, Slave) && forall a :: a in t ==> t[a].updateTime == time
      ensures forall a :: a in t <==> IsReplica(rows, a) || (a in t0 && old(t0[a].updateTime) == time)
      ensures forall a :: a in t0 ==> if a in t then t[a] == t0[a] else t0[a].closed
      ensures forall a :: a in t && a !in t0 ==> fresh(t[a])
      ensures ListsAgree(rows, order, t, slaveSlots[..]) && ReplicasServed(rows, t, slaveSlots[..])
    {
      SlavesInBounds(rows, m);
      ReplicasAreListed(rows, m);
      hide Groups, InBounds, AllReplicas, Enumerates, SlaveRanges, IsReplica, ListsAgree, ReplicasServed;
      t, order := InstallSlaves(t0, m, time);
      AllReplicasIsAgreement(rows, m, order, t, slaveSlots[..]);
      ListsServe(rows, order, t, slaveSlots[..]);
    }

    lemma Apart()
      requires Tables()
      ensures forall a :: a in nodes ==> nodes[a] !in slaveNodes.Values
    {
    }

    // Assign, then drop what was not stamped.
    method InstallMasters(t0: Table, m: Ranges, time: int) returns (t: Table)
      requires slots.Length == SLOTS && TableOk(t0, Master) && forall a :: a in m ==> InBounds(m[a])
      modifies t0.Values, slots
      ensures TableOk(t, Master) && forall a :: a in t ==> t[a].updateTime == time
      ensures forall a :: a in t <==> a in m || (a in t0 && old(t0[a].updateTime) == time)
      ensures forall a :: a in t0 ==> if a in t then t[a] == t0[a] else t0[a].closed
      ensures forall a :: a in t && a !in t0 ==> fresh(t[a])
      ensures AllAssigned(m, m.Keys, t, slots[..], old(slots[..]))
    {
      var stamped := AssignMasters(t0, m, time);
      hide AllAssigned, TableOk;
      t := Purge(stamped, time, Master);
      AllAssignedFrame(m, stamped, t, slots[..], old(slots[..]));
    }

    method ResetSlaveSlots()
      requires slaveSlots.Length == SLOTS
      modifies slaveSlots
      ensures forall j: nat :: j < SLOTS ==> slaveSlots[j] == []
    {
      for j := 0 to SLOTS
        invariant forall k: nat :: k < j ==> slaveSlots[k] == []
      {
        slaveSlots[j] := [];
      }
    }

    method InstallSlaves(t0: Table, m: Ranges, time: int) returns (t: Table, ghost order: seq<Addr>)
      requires slaveSlots.Length == SLOTS && TableOk(t0, Slave) && forall a :: a in m ==> InBounds(m[a])
      modifies t0.Values, slaveSlots
      ensures TableOk(t, Slave) && forall a :: a in t ==> t[a].updateTime == time
      ensures forall a :: a in t <==> a in m || (a in t0 && old(t0[a].updateTime) == time)
      ensures forall a :: a in t0 ==> if a in t then t[a] == t0[a] else t0[a].closed
      ensures forall a :: a in t && a !in t0 ==> fresh(t[a])
      ensures Enumerates(order, m.Keys) && AllReplicas(order, m, t, slaveSlots[..])
    {
      ResetSlaveSlots();
      var stamped;
      stamped, order := AssignSlaves(t0, m, time);
      hide AllReplicas, TableOk, Enumerates;
      t := Purge(stamped, time, Slave);
      AllReplicasFrame(order, m, stamped, t, slaveSlots[..]);
    }

    // The update loop: any number of replies, under a clock that moves. What
    // counts in the end is the last reply that passed the count.
    method HandleUpdates(replies: seq<seq<Row>>, times: seq<int>)
      requires Valid() && |times| == |replies| && forall i :: 0 <= i < |replies| ==> InRange(replies[i])
      requires forall i :: 0 <= i < |times| ==> updateTime < times[i]
      requires forall i, k :: 0 <= i < k < |times| ==> times[i] < times[k]
      modifies this, nodes.Values, slaveNodes.Values, slots, slaveSlots
      ensures Valid()
      ensures if LastCounted(replies) < 0 then Now() == old(Now()) else Serves(Now(), replies[LastCounted(replies)])
    {
      assert LastCounted([]) == -1 && replies[..0] == [];
      hide *;
      ghost var mine, before := nodes.Values + slaveNodes.Values, Now();
      NothingShown(before, replies);
      ghost var last: int := -1;
      for i := 0 to |replies|
        invariant Valid() && forall k :: i <= k < |times| ==> updateTime < times[k]
        invariant forall n :: n in nodes.Values || n in slaveNodes.Values ==> n in mine || fresh(n)
        invariant last == LastCounted(replies[..i])
        invariant Shows(before, replies, last)
      {
        LastCountedStep(replies, i);
        UpdateLater(replies, i, times[i], before, last);
        last := if Total(replies[i]) == SLOTS then i else last;
      }
      assert replies[..|replies|] == replies;
      ShowsIs(before, replies, last);
    }

    // The maps and slots are those of reply `last`, or as before when it is negative.
    ghost predicate Shows(before: View, replies: seq<seq<Row>>, last: int)
      reads this, slots, slaveSlots
    {
      last < |replies| && if last < 0 then Now() == before else Serves(Now(), replies[last])
    }

    lemma NothingShown(before: View, replies: seq<seq<Row>>)
      requires before == Now()
      ensures Shows(before, replies, -1)
    {
    }

    lemma ShowsIs(before: View, replies: seq<seq<Row>>, last: int)
      requires Shows(before, replies, last)
      ensures last < |replies| && if last < 0 then Now() == before else Serves(Now(), replies[last])
    {
    }

    // One update, the clock having moved.
    method UpdateLater(replies: seq<seq<Row>>, i: nat, time: int, ghost before: View, ghost last: int)
      requires i < |replies| && Valid() && InRange(replies[i]) && updateTime < time && Shows(before, replies, last)
      modifies this, nodes.Values, slaveNodes.Values, slots, slaveSlots
      ensures Valid() && updateTime <= time
      ensures forall n :: n in nodes.Values || n in slaveNodes.Values ==>
                n in old(nodes.Values) || n in old(slaveNodes.Values) || fresh(n)
      ensures Shows(before, replies, if Total(replies[i]) == SLOTS then i else last)
    {
      hide Total, Announced, IsReplica, AllServed, Disjoint, InRange, Valid, ListsAgree, ReplicasServed, TableAgrees,
           CoveredServed;
      ghost var was := slots[..];
      var ok, order := Update(replies[i], time);
      if ok {
        AgreementServes(replies[i], nodes, slots[..], was);
      }
    }

    // All that lookups see.
    ghost function Now(): View
      reads this, slots, slaveSlots
    {
      View(nodes, slaveNodes, slots[..], slaveSlots[..])
    }

    method Close()
      requires Valid()
      modifies this`nodes, this`closed, nodes.Values
      ensures Valid() && closed && nodes == map[]
      ensures forall a :: a in old(nodes) ==> old(nodes[a]).closed
    {
      Apart();
      ShutdownAll(nodes);
      nodes, closed := map[], true;
    }

    // ---- lookups ----

    method GetNodeByKey(key: Slots.Key) returns (node: Node?)
      requires Valid()
      ensures node == if closed then null else slots[Slots.SlotIndex(key)]
    {
      var slot := Slots.Hash(key);
      if closed {
        return null;
      }
      node := slots[slot as nat];
    }

    method GetNodeByAddr(addr: Addr) returns (node: Node?)
      requires Valid()
      // A node is found exactly where the maps have the address; it is that
      // node and it is not shut down.
      ensures node == null <==> closed || addr !in nodes
      ensures node != null ==> node in nodes.Values && node.address == addr && node.nodeType == Master && !node.closed
    {
      if closed || addr !in nodes {
        return null;
      }
      node := nodes[addr];
    }

    // A replica of the key's slot, chosen by the seed alone, with its master.
    method GetSlaveByNumSeed(key: Slots.Key, numSeed: nat) returns (slave: Node?, master: Node?)
      requires Valid()
      ensures var list := slaveSlots[Slots.SlotIndex(key)];
              if closed || list == [] then slave == null && master == null
              else slave == list[numSeed % |list|] && master == slots[Slots.SlotIndex(key)]
    {
      var slot := Slots.Hash(key);
      var list := slaveSlots[slot as nat];
      if closed || |list| == 0 {
        return null, null;
      }
      var nodeId := if |list| == 1 then 0 else numSeed % |list|;
      slave, master := list[nodeId], slots[slot as nat];
    }
  }

  datatype View = View(nodes: Table, slaveNodes: Table, slots: seq<Node?>, slaveSlots: seq<seq<Node>>)

  // The maps hold what these rows announce, and the slots follow them.
  ghost predicate Serves(v: View, rows: seq<Row>) {
    && (forall a :: a in v.nodes <==> Announced(rows, a))
    && (forall a :: a in v.slaveNodes <==> IsReplica(rows, a))
    && CoveredServed(rows, v.nodes, v.slots)
    && (Disjoint(rows) ==> AllServed(rows, v.nodes, v.slots))
    && ReplicasServed(rows, v.slaveNodes, v.slaveSlots)
    && exists order :: ListsAgree(rows, order, v.slaveNodes, v.slaveSlots)
  }

  // The last reply that counts to all slots, or -1.
  function LastCounted(replies: seq<seq<Row>>): (k: int)
    ensures -1 <= k < |replies| && (k >= 0 ==> Total(replies[k]) == SLOTS)
  {
    if replies == [] then -1 else
    var n := |replies| - 1;
    if Total(replies[n]) == SLOTS then n else LastCounted(replies[..n])
  }

  lemma LastCountedStep(replies: seq<seq<Row>>, i: nat)
    requires i < |replies|
    ensures LastCounted(replies[..i + 1]) == if Total(replies[i]) == SLOTS then i else LastCounted(replies[..i])
  {
    hide Total;
    assert replies[..i + 1][..i] == replies[..i];
  }

  ghost predicate Announced(rows: seq<Row>, a: Addr) { exists i :: 0 <= i < |rows| && rows[i].master == a }

  ghost predicate IsReplica(rows: seq<Row>, a: Addr) { exists i :: 0 <= i < |rows| && a in rows[i].slaves }

  lemma {:induction false} SlaveRangesInOf(row: Row, slaves: seq<Addr>, a: Addr)
    ensures SlaveRangesIn(row, slaves, a) != [] <==> a in slaves
  {
    if slaves != [] {
      var n := |slaves| - 1;
      SlaveRangesInOf(row, slaves[..n], a);
      assert slaves == slaves[..n] + [slaves[n]];
    }
  }

  lemma IsReplicaSplit(rows: seq<Row>, a: Addr)
    requires rows != []
    ensures IsReplica(rows, a) <==> IsReplica(rows[..|rows| - 1], a) || a in rows[|rows| - 1].slaves
  {
    var n := |rows| - 1;
    assert forall i :: 0 <= i < n ==> rows[..n][i] == rows[i];
  }

  lemma {:induction false} SlaveRangesOf(rows: seq<Row>, a: Addr)
    ensures SlaveRanges(rows, a) != [] <==> IsReplica(rows, a)
  {
    if rows != [] {
      var n := |rows| - 1;
      IsReplicaSplit(rows, a);
      hide IsReplica, SlaveRangesIn;
      SlaveRangesOf(rows[..n], a);
      SlaveRangesInOf(rows[n], rows[n].slaves, a);
    }
  }

  lemma ReplicasAreListed(rows: seq<Row>, m: Ranges)
    requires Groups(m, a => SlaveRanges(rows, a))
    ensures forall a :: a in m <==> IsReplica(rows, a)
  {
    hide SlaveRanges;
    forall a
      ensures a in m <==> IsReplica(rows, a)
    {
      SlaveRangesOf(rows, a);
      assert Get(m, a) == SlaveRanges(rows, a);
    }
  }

  // Slot j went to the node of a row that has it, or no row has it.
  ghost predicate SlotAgrees(rows: seq<Row>, t: Table, j: nat, now: Node?, before: Node?) {
    || (exists i :: RowHas(rows, i, j) && rows[i].master in t && now == t[rows[i].master])
    || (!Covered(rows, j) && now == before)
  }

  ghost predicate TableAgrees(rows: seq<Row>, t: Table, now: seq<Node?>, before: seq<Node?>) {
    && |now| == |before| == SLOTS
    && forall j: nat :: j < SLOTS ==> SlotAgrees(rows, t, j, now[j], before[j])
  }

  // Each announced slot points to the node of a row that has it.
  ghost predicate CoveredServed(rows: seq<Row>, t: Table, now: seq<Node?>) {
    && |now| == SLOTS
    && forall j: nat :: j < |now| && Covered(rows, j) ==>
         exists i :: RowHas(rows, i, j) && rows[i].master in t && now[j] == t[rows[i].master]
  }

  lemma AgreementServes(rows: seq<Row>, t: Table, now: seq<Node?>, before: seq<Node?>)
    requires TableAgrees(rows, t, now, before)
    ensures CoveredServed(rows, t, now)
  {
    forall j: nat | j < |now| && Covered(rows, j)
      ensures exists i :: RowHas(rows, i, j) && rows[i].master in t && now[j] == t[rows[i].master]
    {
      assert SlotAgrees(rows, t, j, now[j], before[j]);
    }
  }

  lemma AllAssignedIsAgreement(rows: seq<Row>, m: Ranges, t: Table, now: seq<Node?>, before: seq<Node?>)
    requires Groups(m, a => MasterRanges(rows, a)) && AllAssigned(m, m.Keys, t, now, before)
    ensures TableAgrees(rows, t, now, before)
  {
    forall j: nat | j < SLOTS
      ensures SlotAgrees(rows, t, j, now[j], before[j])
    {
      AssignedIsAgreement(rows, m, t, j, now[j], before[j]);
    }
  }

  lemma KeysAreAnnounced(rows: seq<Row>, m: Ranges)
    requires Groups(m, a => MasterRanges(rows, a))
    ensures forall a :: a in m <==> Announced(rows, a)
  {
    forall a
      ensures a in m <==> Announced(rows, a)
    {
      MasterRangesOf(rows, a);
      assert Get(m, a) == MasterRanges(rows, a);
    }
  }

  ghost predicate AllServed(rows: seq<Row>, t: Table, now: seq<Node?>) {
    && |now| == SLOTS
    && (forall j: nat :: j < |now| ==> Covered(rows, j))
    && forall i, j: nat :: j < |now| && RowHas(rows, i, j) ==>
         rows[i].master in t && now[j] == t[rows[i].master]
  }

  // With disjoint rows there is no choice: every slot points to the master that
  // announced it, whatever the order of the map iteration.
  lemma DisjointAgreement(rows: seq<Row>, t: Table, now: seq<Node?>, before: seq<Node?>, n: nat)
    requires n == SLOTS && InRange(rows) && Disjoint(rows) && Total(rows) == n
    requires TableAgrees(rows, t, now, before)
    ensures AllServed(rows, t, now)
  {
    FullCoverage(rows, n);
    hide Total;
    forall i, j: nat | j < n && RowHas(rows, i, j)
      ensures rows[i].master in t && now[j] == t[rows[i].master]
    {
      assert Covered(rows, j) && SlotAgrees(rows, t, j, now[j], before[j]);
      var k :| RowHas(rows, k, j) && rows[k].master in t && now[j] == t[rows[k].master];
      assert !(i < k) && !(k < i);
    }
  }

  lemma AnnouncedSplit(rows: seq<Row>, a: Addr)
    requires rows != []
    ensures Announced(rows, a) <==> Announced(rows[..|rows| - 1], a) || rows[|rows| - 1].master == a
  {
    var n := |rows| - 1;
    assert forall i :: 0 <= i < n ==> rows[..n][i] == rows[i];
  }

  lemma {:induction false} MasterRangesOf(rows: seq<Row>, a: Addr)
    ensures MasterRanges(rows, a) != [] <==> Announced(rows, a)
    ensures InRange(rows) ==> InBounds(MasterRanges(rows, a))
  {
    if rows != [] {
      AnnouncedSplit(rows, a);
      hide Announced;
      MasterRangesOf(rows[..|rows| - 1], a);
    }
  }

  lemma {:induction false} MasterRangesHas(rows: seq<Row>, a: Addr, j: nat)
    ensures Has(MasterRanges(rows, a), j) <==> exists i :: RowHas(rows, i, j) && rows[i].master == a
  {
    if rows != [] {
      var n := |rows| - 1;
      var before, all := MasterRanges(rows[..n], a), MasterRanges(rows, a);
      MasterRangesHas(rows[..n], a, j);
      assert forall i :: RowHas(rows[..n], i, j) <==> RowHas(rows, i, j) && i < n;
      assert forall i :: RowHas(rows[..n], i, j) ==> rows[..n][i].master == rows[i].master;
      if rows[n].master == a {
        HasSnoc(all, |before|, j);
        assert all[..|before|] == before && all[..|before| + 1] == all;
      } else {
        assert all == before;
      }
    }
  }

  lemma {:induction false} SlaveRangesInBounds(row: Row, slaves: seq<Addr>, a: Addr)
    requires row.start < SLOTS && row.end < SLOTS
    ensures InBounds(SlaveRangesIn(row, slaves, a))
  {
    if slaves != [] {
      SlaveRangesInBounds(row, slaves[..|slaves| - 1], a);
    }
  }

  lemma {:induction false} SlaveRangesBounds(rows: seq<Row>, a: Addr)
    requires InRange(rows)
    ensures InBounds(SlaveRanges(rows, a))
  {
    if rows != [] {
      var n := |rows| - 1;
      SlaveRangesBounds(rows[..n], a);
      SlaveRangesInBounds(rows[n], rows[n].slaves, a);
    }
  }

  lemma MastersInBounds(rows: seq<Row>, m: Ranges)
    requires InRange(rows) && Groups(m, a => MasterRanges(rows, a))
    ensures forall a :: a in m ==> InBounds(m[a])
  {
    forall a | a in m
      ensures InBounds(m[a])
    {
      MasterRangesOf(rows, a);
      assert Get(m, a) == MasterRanges(rows, a);
    }
  }

  lemma SlavesInBounds(rows: seq<Row>, m: Ranges)
    requires InRange(rows) && Groups(m, a => SlaveRanges(rows, a))
    ensures forall a :: a in m ==> InBounds(m[a])
  {
    forall a | a in m
      ensures InBounds(m[a])
    {
      SlaveRangesBounds(rows, a);
      assert Get(m, a) == SlaveRanges(rows, a);
    }
  }

  lemma AssignedIsAgreement(rows: seq<Row>, m: Ranges, t: Table, j: nat, now: Node?, before: Node?)
    requires Groups(m, a => MasterRanges(rows, a)) && Assigned(m, m.Keys, t, j, now, before)
    ensures SlotAgrees(rows, t, j, now, before)
  {
    if a :| a in m && a in t && Has(m[a], j) && now == t[a] {
      assert Get(m, a) == MasterRanges(rows, a);
      MasterRangesHas(rows, a, j);
      var i :| RowHas(rows, i, j) && rows[i].master == a;
      assert now == t[rows[i].master];
    } else {
      forall i | 0 <= i < |rows|
        ensures !RowHas(rows, i, j)
      {
        var a := rows[i].master;
        MasterRangesHas(rows, a, j);
        assert Get(m, a) == MasterRanges(rows, a);
      }
    }
  }

  lemma AllAssignedFrame(m: Ranges, t: Table, t': Table, now: seq<Node?>, before: seq<Node?>)
    requires AllAssigned(m, m.Keys, t, now, before)
    requires forall a :: a in m && a in t ==> a in t' && t'[a] == t[a]
    ensures AllAssigned(m, m.Keys, t', now, before)
  {
    forall j: nat | j < SLOTS
      ensures Assigned(m, m.Keys, t', j, now[j], before[j])
    {
      assert Assigned(m, m.Keys, t, j, now[j], before[j]);
    }
  }

  lemma AllReplicasFrame(order: seq<Addr>, m: Ranges, t: Table, t': Table, lists: seq<seq<Node>>)
    requires AllReplicas(order, m, t, lists)
    requires forall a :: a in m && a in t ==> a in t' && t'[a] == t[a]
    ensures AllReplicas(order, m, t', lists)
  {
    forall j: nat | j < SLOTS
      ensures lists[j] == Replicas(order, t', Times(m, j))
    {
      ReplicasFrame(order, t, t', Times(m, j), Times(m, j));
    }
  }

  lemma HasSnoc(rs: seq<Range>, i: nat, k: nat)
    requires i < |rs|
    ensures Has(rs[..i + 1], k) <==> Has(rs[..i], k) || rs[i].Has(k)
  {
    if Has(rs[..i], k) {
      var x :| 0 <= x < i && rs[..i][x].Has(k);
      assert rs[..i + 1][x].Has(k);
    }
    assert rs[..i + 1][i] == rs[i];
    if Has(rs[..i + 1], k) {
      var x :| 0 <= x < i + 1 && rs[..i + 1][x].Has(k);
      assert x < i ==> rs[..i][x].Has(k);
    }
  }

  lemma NoneAssigned(m: Ranges, t: Table, now: seq<Node?>)
    requires |now| == SLOTS
    ensures AllAssigned(m, {}, t, now, now)
  {
  }

  lemma AllAssignedStep(m: Ranges, done: set<Addr>, addr: Addr, t0: Table, t: Table,
                        now0: seq<Node?>, now: seq<Node?>, before: seq<Node?>)
    requires addr in m && addr !in done && addr in t && t == t0[addr := t[addr]]
    requires AllAssigned(m, done, t0, now0, before) && |now| == SLOTS
    requires forall j: nat :: j < SLOTS ==> now[j] == if Has(m[addr], j) then t[addr] else now0[j]
    ensures AllAssigned(m, done + {addr}, t, now, before)
  {
    forall j: nat | j < SLOTS
      ensures Assigned(m, done + {addr}, t, j, now[j], before[j])
    {
      if Has(m[addr], j) {
        assert addr in done + {addr};
      } else if a :| a in done && a in m && a in t0 && Has(m[a], j) && now0[j] == t0[a] {
        assert a in done + {addr} && a in t && now[j] == t[a];
      } else {
        assert Assigned(m, done, t0, j, now0[j], before[j]);
      }
    }
  }
}
