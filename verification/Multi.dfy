// Scatter and gather: multiSet and multiGet of utils/rediscluster/multi.go.
module Multi {
  import opened Bytes
  import Slots

  type Key = Slots.Key
  type Addr = string

  // ---- grouping by slot ----

  // The items whose key lies in the slot, in order.
  function InSlot<A>(items: seq<A>, keyOf: A -> Key, slot: nat): seq<A> {
    if items == [] then [] else
    var n := |items| - 1;
    InSlot(items[..n], keyOf, slot) + if Slots.SlotIndex(keyOf(items[n])) == slot then [items[n]] else []
  }

  // The slots that occur, in the order of their first items.
  function SlotsOf<A>(items: seq<A>, keyOf: A -> Key): seq<nat> {
    if items == [] then [] else
    var n := |items| - 1;
    var before, slot := SlotsOf(items[..n], keyOf), Slots.SlotIndex(keyOf(items[n]));
    if slot in before then before else before + [slot]
  }

  // multiTask: the part of a command that goes to one slot's node.
  class Task<A> {
    const node: Addr
    const slot: nat
    var args: seq<A>
    var replies: seq<Reply>
    var err: Option<MultiError>

    constructor (node: Addr, slot: nat, first: A)
      ensures this.node == node && this.slot == slot && args == [first] && err.None? && replies == []
    {
      this.node, this.slot, args := node, slot, [first];
      replies, err := [], None;
    }
  }

  datatype Reply = Nil | Data(value: Key)

  datatype MultiError = OddArgs | NoNode(slot: nat) | TaskFailed(code: int)

  // One task per slot that occurs, holding that slot's items in order.
  ghost predicate Grouped<A>(tasks: seq<Task<A>>, items: seq<A>, keyOf: A -> Key, owner: nat -> Option<Addr>)
    reads tasks
  {
    && (forall j :: 0 <= j < |tasks| ==>
          tasks[j].args == InSlot(items, keyOf, tasks[j].slot) && owner(tasks[j].slot) == Some(tasks[j].node))
    && (forall j, k :: 0 <= j < k < |tasks| ==> tasks[j] != tasks[k] && tasks[j].slot != tasks[k].slot)
    && (forall i :: 0 <= i < |items| ==> exists j :: 0 <= j < |tasks| && tasks[j].slot == Slots.SlotIndex(keyOf(items[i])))
  }

  // There is one task for each slot that occurs, in this order.
  ghost predicate InOrder<A>(tasks: seq<Task<A>>, items: seq<A>, keyOf: A -> Key) {
    && |tasks| == |SlotsOf(items, keyOf)|
    && forall j :: 0 <= j < |tasks| ==> tasks[j].slot == SlotsOf(items, keyOf)[j]
  }

  lemma SlotsOfSnoc<A>(items: seq<A>, item: A, keyOf: A -> Key)
    ensures var before, slot := SlotsOf(items, keyOf), Slots.SlotIndex(keyOf(item));
            SlotsOf(items + [item], keyOf) == if slot in before then before else before + [slot]
  {
    hide Slots.SlotIndex;
    assert (items + [item])[..|items|] == items;
  }

  lemma OrderKept<A>(tasks: seq<Task<A>>, items: seq<A>, item: A, keyOf: A -> Key, j: nat)
    requires InOrder(tasks, items, keyOf) && j < |tasks| && tasks[j].slot == Slots.SlotIndex(keyOf(item))
    ensures InOrder(tasks, items + [item], keyOf)
  {
    hide Slots.SlotIndex, SlotsOf;
    SlotsOfSnoc(items, item, keyOf);
    assert SlotsOf(items, keyOf)[j] == tasks[j].slot;
  }

  lemma OrderGrows<A>(tasks: seq<Task<A>>, items: seq<A>, item: A, keyOf: A -> Key, task: Task<A>)
    requires InOrder(tasks, items, keyOf) && task.slot == Slots.SlotIndex(keyOf(item))
    requires forall j :: 0 <= j < |tasks| ==> tasks[j].slot != task.slot
    ensures InOrder(tasks + [task], items + [item], keyOf)
  {
    hide Slots.SlotIndex, SlotsOf;
    SlotsOfSnoc(items, item, keyOf);
  }

  ghost predicate Indexed<A>(index: seq<Task<A>>, tasks: seq<Task<A>>, items: seq<A>, keyOf: A -> Key) {
    && |index| == |items|
    && forall i :: 0 <= i < |items| ==> index[i] in tasks && index[i].slot == Slots.SlotIndex(keyOf(items[i]))
  }

  // The common first half of multiSet and multiGet, under the read lock:
  // `owner` is the slot table. `index` tells the task of each item.
  method Group<A>(items: seq<A>, keyOf: A -> Key, owner: nat -> Option<Addr>)
    returns (tasks: seq<Task<A>>, index: seq<Task<A>>, err: Option<MultiError>)
    ensures forall j :: 0 <= j < |tasks| ==> fresh(tasks[j])
    ensures err.None? ==> Grouped(tasks, items, keyOf, owner) && Indexed(index, tasks, items, keyOf)
    ensures err.None? ==> InOrder(tasks, items, keyOf)
    ensures err.None? ==> forall j :: 0 <= j < |tasks| ==> tasks[j].err.None? && tasks[j].replies == []
    ensures var n := FirstUnowned(items, keyOf, owner);
            err == if n == |items| then None else Some(NoNode(Slots.SlotIndex(keyOf(items[n]))))
  {
    hide Slots.SlotIndex, InSlot, InOrder;
    tasks, index, err := [], [], None;
    NothingInSlots(keyOf);
    NothingInOrder<A>(keyOf);
    for i := 0 to |items|
      invariant forall j :: 0 <= j < |tasks| ==> fresh(tasks[j])
      invariant err.None? && Grouped(tasks, items[..i], keyOf, owner) && Indexed(index, tasks, items[..i], keyOf)
      invariant InOrder(tasks, items[..i], keyOf)
      invariant forall j :: 0 <= j < |tasks| ==> tasks[j].err.None? && tasks[j].replies == []
      invariant forall k :: 0 <= k < i ==> Owned(items, keyOf, owner)(k)
    {
      var task;
      ghost var before := tasks;
      tasks, task, err := Place(tasks, items[..i], items[i], keyOf, owner);
      assert forall j :: 0 <= j < |before| ==> tasks[j] == tasks[..|before|][j];
      if err.Some? {
        FirstNotIs(|items|, Owned(items, keyOf, owner), i);
        return;
      }
      index := index + [task];
      assert items[..i + 1] == items[..i] + [items[i]];
    }
    FirstNotIs(|items|, Owned(items, keyOf, owner), |items|);
    assert items[..|items|] == items;
  }

  // The first number below n that is not ok, or n when there is none.
  function FirstNot(n: nat, ok: nat -> bool, from: nat := 0): (m: nat)
    requires from <= n
    ensures from <= m <= n && forall i :: from <= i < m ==> ok(i)
    ensures m < n ==> !ok(m)
    decreases n - from
  {
    if from == n || !ok(from) then from else FirstNot(n, ok, from + 1)
  }

  lemma FirstNotIs(n: nat, ok: nat -> bool, m: nat)
    requires m <= n && (forall i :: 0 <= i < m ==> ok(i)) && (m < n ==> !ok(m))
    ensures FirstNot(n, ok) == m
  {
    var first := FirstNot(n, ok);
    assert !(first < m) && !(m < first);
  }

  function OwnerOf(key: Key, owner: nat -> Option<Addr>): Option<Addr> { owner(Slots.SlotIndex(key)) }

  function Owned<A>(items: seq<A>, keyOf: A -> Key, owner: nat -> Option<Addr>): nat -> bool {
    (i: nat) => i < |items| && OwnerOf(keyOf(items[i]), owner).Some?
  }

  // The first item whose slot has no owner, or |items| when there is none.
  function FirstUnowned<A>(items: seq<A>, keyOf: A -> Key, owner: nat -> Option<Addr>): (n: nat)
    ensures n <= |items|
  {
    FirstNot(|items|, Owned(items, keyOf, owner))
  }

  lemma NothingInOrder<A>(keyOf: A -> Key)
    ensures InOrder<A>([], [], keyOf)
  {
  }

  lemma NothingInSlots<A>(keyOf: A -> Key)
    ensures forall slot :: InSlot([], keyOf, slot) == []
  {
  }

  lemma InSlotSnoc<A>(items: seq<A>, item: A, keyOf: A -> Key)
    ensures forall slot :: InSlot(items + [item], keyOf, slot)
                           == InSlot(items, keyOf, slot) + if Slots.SlotIndex(keyOf(item)) == slot then [item] else []
  {
    hide Slots.SlotIndex;
    assert (items + [item])[..|items|] == items;
  }

  lemma {:induction false} InSlotNone<A>(items: seq<A>, keyOf: A -> Key, slot: nat)
    requires forall i :: 0 <= i < |items| ==> Slots.SlotIndex(keyOf(items[i])) != slot
    ensures InSlot(items, keyOf, slot) == []
  {
    if items != [] {
      InSlotNone(items[..|items| - 1], keyOf, slot);
    }
  }

  method FindTask<A>(tasks: seq<Task<A>>, slot: nat) returns (j: nat)
    ensures j <= |tasks| && (j < |tasks| ==> tasks[j].slot == slot)
    ensures forall k :: 0 <= k < j ==> tasks[k].slot != slot
  {
    j := 0;
    while j < |tasks| && tasks[j].slot != slot
      invariant j <= |tasks| && forall k :: 0 <= k < j ==> tasks[k].slot != slot
    {
      j := j + 1;
    }
  }

  // Add one item to the task of its slot, or open a new task.
  method Place<A>(tasks0: seq<Task<A>>, ghost items: seq<A>, item: A, keyOf: A -> Key, owner: nat -> Option<Addr>)
    returns (tasks: seq<Task<A>>, task: Task<A>, err: Option<MultiError>)
    requires Grouped(tasks0, items, keyOf, owner) && InOrder(tasks0, items, keyOf)
    requires forall j :: 0 <= j < |tasks0| ==> tasks0[j].err.None? && tasks0[j].replies == []
    modifies tasks0
    ensures |tasks0| <= |tasks| && tasks[..|tasks0|] == tasks0
    ensures forall j :: |tasks0| <= j < |tasks| ==> fresh(tasks[j])
    ensures err.None? ==> Grouped(tasks, items + [item], keyOf, owner) && InOrder(tasks, items + [item], keyOf)
    ensures err.None? ==> task in tasks && task.slot == Slots.SlotIndex(keyOf(item))
    ensures forall j :: 0 <= j < |tasks| ==> tasks[j].err.None? && tasks[j].replies == []
    ensures var slot := Slots.SlotIndex(keyOf(item));
            err == if owner(slot).Some? then None else Some(NoNode(slot))
  {
    hide Slots.SlotIndex, InSlot, InOrder;
    InSlotSnoc(items, item, keyOf);
    tasks, err := tasks0, None;
    var slot := Slots.HashIndex(keyOf(item));
    var j := FindTask(tasks, slot);
    if j < |tasks| {
      task := tasks[j];
      OrderKept(tasks, items, item, keyOf, j);
      task.args := task.args + [item];
    } else {
      if owner(slot).None? {
        err := Some(NoNode(slot));
        task := new Task("", slot, item);
        return;
      }
      InSlotNone(items, keyOf, slot);
      task := new Task(owner(slot).value, slot, item);
      OrderGrows(tasks, items, item, keyOf, task);
      tasks := tasks + [task];
      assert tasks[j] == task;
    }
    assert tasks[j].slot == slot;
  }

  // ---- multiSet ----

  datatype Pair = Pair(key: Key, value: Key)

  type Store = map<Key, Key>

  // The pairs of a flat argument list.
  function Pairs(args: seq<Key>): (p: seq<Pair>)
    requires |args| % 2 == 0
    ensures |p| == |args| / 2
    ensures forall i :: 0 <= i < |p| ==> p[i] == Pair(args[2 * i], args[2 * i + 1])
  {
    if args == [] then [] else [Pair(args[0], args[1])] + Pairs(args[2..])
  }

  // The writes in order, later ones winning.
  function Apply(s: Store, ws: seq<Pair>): Store {
    if ws == [] then s else Apply(s, ws[..|ws| - 1])[ws[|ws| - 1].key := ws[|ws| - 1].value]
  }

  // The last write to k, if any.
  function LastWrite(ws: seq<Pair>, k: Key): Option<Key> {
    if ws == [] then None
    else if ws[|ws| - 1].key == k then Some(ws[|ws| - 1].value)
    else LastWrite(ws[..|ws| - 1], k)
  }

  lemma {:induction false} ApplyIsLastWrite(s: Store, ws: seq<Pair>, k: Key)
    ensures match LastWrite(ws, k)
            case Some(v) => k in Apply(s, ws) && Apply(s, ws)[k] == v
            case None => (k in Apply(s, ws) <==> k in s) && (k in s ==> Apply(s, ws)[k] == s[k])
  {
    if ws != [] {
      ApplyIsLastWrite(s, ws[..|ws| - 1], k);
    }
  }

  // What happens to a key is decided by the writes to its slot.
  lemma {:induction false} LastWriteInSlot(ws: seq<Pair>, k: Key)
    ensures LastWrite(ws, k) == LastWrite(InSlot(ws, (p: Pair) => p.key, Slots.SlotIndex(k)), k)
  {
    hide Slots.SlotIndex;
    if ws != [] {
      var n := |ws| - 1;
      var f := InSlot(ws[..n], (p: Pair) => p.key, Slots.SlotIndex(k));
      LastWriteInSlot(ws[..n], k);
      assert (f + [ws[n]])[..|f|] == f;
      assert f + [] == f;
    }
  }

  // A schedule: the queues are emptied one write at a time, in any order.
  ghost predicate Interleaves(queues: seq<seq<Pair>>, ws: seq<Pair>)
    decreases |ws|
  {
    if ws == [] then forall i :: 0 <= i < |queues| ==> queues[i] == []
    else exists i :: 0 <= i < |queues| && Takes(queues, i, ws)
  }

  ghost predicate Takes(queues: seq<seq<Pair>>, i: nat, ws: seq<Pair>)
    requires i < |queues| && ws != []
    decreases |ws|, 0
  {
    queues[i] != [] && queues[i][0] == ws[0] && Interleaves(queues[i := queues[i][1..]], ws[1..])
  }

  // Queue i holds writes to slot slots[i] only, and no slot has two queues.
  ghost predicate Sorted(queues: seq<seq<Pair>>, slots: seq<nat>) {
    && |queues| == |slots|
    && (forall i, k :: 0 <= i < k < |slots| ==> slots[i] != slots[k])
    && forall i, k :: 0 <= i < |queues| && 0 <= k < |queues[i]| ==> Slots.SlotIndex(queues[i][k].key) == slots[i]
  }

  // Every schedule keeps each queue's own order.
  lemma {:induction false} ScheduleKeepsOrder(queues: seq<seq<Pair>>, slots: seq<nat>, ws: seq<Pair>, i: nat)
    requires Sorted(queues, slots) && Interleaves(queues, ws) && i < |queues|
    ensures InSlot(ws, (p: Pair) => p.key, slots[i]) == queues[i]
    decreases |ws|
  {
    hide Slots.SlotIndex;
    if ws != [] {
      var j :| 0 <= j < |queues| && Takes(queues, j, ws);
      var rest := queues[j := queues[j][1..]];
      assert Sorted(rest, slots);
      ScheduleKeepsOrder(rest, slots, ws[1..], i);
      InSlotCons(ws[0], ws[1..], slots[i]);
      assert ws == [ws[0]] + ws[1..];
      assert Slots.SlotIndex(queues[j][0].key) == slots[j];
      assert queues[j] == [queues[j][0]] + queues[j][1..];
    }
  }

  lemma {:induction false} InSlotCons(w: Pair, ws: seq<Pair>, slot: nat)
    ensures var f := (p: Pair) => p.key;
            InSlot([w] + ws, f, slot) == (if Slots.SlotIndex(w.key) == slot then [w] else []) + InSlot(ws, f, slot)
  {
    hide Slots.SlotIndex;
    var f := (p: Pair) => p.key;
    var n := |ws|;
    if ws == [] {
      assert [w] + ws == [w] && [w][..0] == [];
    } else {
      InSlotCons(w, ws[..n - 1], slot);
      assert ([w] + ws)[..n] == [w] + ws[..n - 1];
    }
  }

  // A slot without queue gets no writes.
  lemma {:induction false} NoQueueNoWrites(queues: seq<seq<Pair>>, slots: seq<nat>, ws: seq<Pair>, slot: nat)
    requires Sorted(queues, slots) && Interleaves(queues, ws) && slot !in slots
    ensures InSlot(ws, (p: Pair) => p.key, slot) == []
    decreases |ws|
  {
    hide Slots.SlotIndex;
    if ws != [] {
      var j :| 0 <= j < |queues| && Takes(queues, j, ws);
      var rest := queues[j := queues[j][1..]];
      assert Sorted(rest, slots);
      NoQueueNoWrites(rest, slots, ws[1..], slot);
      InSlotCons(ws[0], ws[1..], slot);
      assert ws == [ws[0]] + ws[1..];
      assert Slots.SlotIndex(queues[j][0].key) == slots[j];
    }
  }

  // MSET: the tasks that were executed (the others' queues are empty), in any
  // interleaving of their single writes, leave the keys of their slots as the
  // plain left-to-right command would, and all other keys alone.
  lemma MsetSchedule(pairs: seq<Pair>, slots: seq<nat>, queues: seq<seq<Pair>>, ws: seq<Pair>, s: Store, k: Key)
    requires Sorted(queues, slots) && Interleaves(queues, ws)
    requires forall i :: 0 <= i < |slots| ==>
               queues[i] == [] || queues[i] == InSlot(pairs, (p: Pair) => p.key, slots[i])
    ensures var slot := Slots.SlotIndex(k);
            var done := exists i :: 0 <= i < |slots| && slots[i] == slot && queues[i] != [];
            var expected := if done then Apply(s, pairs) else s;
            (k in Apply(s, ws) <==> k in expected) && (k in expected ==> Apply(s, ws)[k] == expected[k])
  {
    hide Slots.SlotIndex, Apply, LastWrite, InSlot;
    var slot := Slots.SlotIndex(k);
    LastWriteInSlot(ws, k);
    LastWriteInSlot(pairs, k);
    ApplyIsLastWrite(s, ws, k);
    ApplyIsLastWrite(s, pairs, k);
    assert LastWrite([], k) == None by { NothingWritten(k); }
    if slot in slots {
      var i :| 0 <= i < |slots| && slots[i] == slot;
      ScheduleKeepsOrder(queues, slots, ws, i);
    } else {
      NoQueueNoWrites(queues, slots, ws, slot);
    }
  }

  lemma NothingWritten(k: Key)
    ensures LastWrite([], k) == None
  {
  }

  // With every task executed, MSET is the plain command.
  lemma MsetConfluence(pairs: seq<Pair>, slots: seq<nat>, queues: seq<seq<Pair>>, ws: seq<Pair>, s: Store)
    requires Sorted(queues, slots) && Interleaves(queues, ws)
    requires forall i :: 0 <= i < |slots| ==> queues[i] == InSlot(pairs, (p: Pair) => p.key, slots[i])
    requires forall i :: 0 <= i < |pairs| ==> Slots.SlotIndex(pairs[i].key) in slots
    ensures Apply(s, ws) == Apply(s, pairs)
  {
    hide Slots.SlotIndex, Apply, LastWrite, InSlot;
    forall k: Key
      ensures k in Apply(s, ws) <==> k in Apply(s, pairs)
      ensures k in Apply(s, pairs) ==> Apply(s, ws)[k] == Apply(s, pairs)[k]
    {
      MsetSchedule(pairs, slots, queues, ws, s, k);
      var slot := Slots.SlotIndex(k);
      if !exists i :: 0 <= i < |slots| && slots[i] == slot && queues[i] != [] {
        NothingForSlot(pairs, slots, queues, slot);
        LastWriteInSlot(pairs, k);
        ApplyIsLastWrite(s, pairs, k);
        NothingWritten(k);
      }
    }
  }

  lemma NothingForSlot(pairs: seq<Pair>, slots: seq<nat>, queues: seq<seq<Pair>>, slot: nat)
    requires |queues| == |slots|
    requires forall i :: 0 <= i < |slots| ==> queues[i] == InSlot(pairs, (p: Pair) => p.key, slots[i])
    requires forall i :: 0 <= i < |pairs| ==> Slots.SlotIndex(pairs[i].key) in slots
    requires !exists i :: 0 <= i < |slots| && slots[i] == slot && queues[i] != []
    ensures InSlot(pairs, (p: Pair) => p.key, slot) == []
  {
    hide Slots.SlotIndex, InSlot;
    if slot in slots {
      var i :| 0 <= i < |slots| && slots[i] == slot;
      assert queues[i] == [];
    } else {
      InSlotNone(pairs, (p: Pair) => p.key, slot);
    }
  }

  lemma {:induction false} ApplyCons(s: Store, w: Pair, ws: seq<Pair>)
    ensures Apply(s, [w] + ws) == Apply(s[w.key := w.value], ws)
  {
    var n := |ws|;
    if ws == [] {
      assert [w] + ws == [w] && [w][..0] == [];
      assert Apply(s, []) == s;
    } else {
      ApplyCons(s, w, ws[..n - 1]);
      assert ([w] + ws)[..n] == [w] + ws[..n - 1];
    }
  }

  function Size(queues: seq<seq<Pair>>): nat { if queues == [] then 0 else |queues[0]| + Size(queues[1..]) }

  lemma {:induction false} SizeTake(queues: seq<seq<Pair>>, i: nat)
    requires i < |queues| && queues[i] != []
    ensures Size(queues[i := queues[i][1..]]) == Size(queues) - 1
  {
    var q := queues[i := queues[i][1..]];
    if i > 0 {
      SizeTake(queues[1..], i - 1);
      assert q[1..] == queues[1..][i - 1 := queues[i][1..]];
    } else {
      assert q[1..] == queues[1..];
    }
  }

  // The nodes' data.
  class Data {
    var store: Store

    // The tasks run at once: writes of non-empty queues happen in some order.
    method Run(queues: seq<seq<Pair>>) returns (ghost ws: seq<Pair>)
      modifies this
      ensures Interleaves(queues, ws) && store == Apply(old(store), ws)
      decreases Size(queues)
    {
      if i :| 0 <= i < |queues| && queues[i] != [] {
        var w := queues[i][0];
        var rest := queues[i := queues[i][1..]];
        SizeTake(queues, i);
        store := store[w.key := w.value];
        ghost var more := Run(rest);
        ApplyCons(old(store), w, more);
        ws := [w] + more;
        assert ws[1..] == more && Takes(queues, i, ws);
      } else {
        ws := [];
      }
    }
  }

  // Key by key, the slots in `done` are as after the whole command.
  ghost predicate Partly(before: Store, after: Store, pairs: seq<Pair>, done: iset<nat>) {
    forall k: Key ::
      var expected := if Slots.SlotIndex(k) in done then Apply(before, pairs) else before;
      (k in after <==> k in expected) && (k in expected ==> after[k] == expected[k])
  }

  // How a task ends: one that fails may or may not have been executed.
  datatype TaskEnd = Success | Failure(code: int, executed: bool)

  predicate Ran(e: TaskEnd) { e.Success? || e.executed }

  ghost function RanSlots(ends: nat -> TaskEnd): iset<nat> { iset slot: nat | Ran(ends(slot)) }

  // The failure of the first task in this order that failed.
  function FirstFailure(slots: seq<nat>, ends: nat -> TaskEnd): Option<MultiError> {
    if slots == [] then None else
    var n := |slots| - 1;
    var before := FirstFailure(slots[..n], ends);
    if before.Some? then before
    else match ends(slots[n])
         case Success => None
         case Failure(code, _) => Some(TaskFailed(code))
  }

  // multiSet; `ends` tells how each slot's task ends.
  method MultiSet(data: Data, args: seq<Key>, owner: nat -> Option<Addr>, ends: nat -> TaskEnd)
    returns (err: Option<MultiError>)
    modifies data
    ensures err == MsetError(args, owner, ends)
    // Nothing is written before every slot has its owner.
    ensures err.Some? && !err.value.TaskFailed? ==> data.store == old(data.store)
    // The slots whose task was executed are as after the whole command.
    ensures err.None? || err.value.TaskFailed? ==>
              |args| % 2 == 0 && Partly(old(data.store), data.store, Pairs(args), RanSlots(ends))
    ensures err.None? ==> data.store == Apply(old(data.store), Pairs(args))
  {
    hide Slots.SlotIndex, Pairs, InSlot, Apply, Grouped, Interleaves, Sorted, FirstUnowned, FirstFailure, SlotsOf;
    if |args| % 2 != 0 {
      return Some(OddArgs);
    }
    var pairs := Pairs(args);
    var tasks, index, e := Group(pairs, (p: Pair) => p.key, owner);
    if e.Some? {
      return e;
    }
    var queues, slots, failed := RunTasks(tasks, ends);
    assert slots == SlotsOf(pairs, (p: Pair) => p.key);
    GroupedQueues(tasks, pairs, owner, queues, slots);
    ghost var before := data.store;
    ghost var ws := data.Run(queues);
    forall k: Key
      ensures var expected := if Slots.SlotIndex(k) in RanSlots(ends) then Apply(before, pairs) else before;
              (k in data.store <==> k in expected) && (k in expected ==> data.store[k] == expected[k])
    {
      MsetSchedule(pairs, slots, queues, ws, before, k);
      RanOrUntouched(pairs, slots, queues, ends, before, k);
    }
    err := failed;
    FailureIsTask(slots, ends);
    if failed.None? {
      NoneFailed(slots, ends);
      MsetConfluence(pairs, slots, queues, ws, before);
    }
  }

  // A key whose slot ran is in an executed queue, or no write concerns it.
  lemma RanOrUntouched(pairs: seq<Pair>, slots: seq<nat>, queues: seq<seq<Pair>>, ends: nat -> TaskEnd, s: Store, k: Key)
    requires |queues| == |slots|
    requires forall i :: 0 <= i < |slots| ==>
               queues[i] == if Ran(ends(slots[i])) then InSlot(pairs, (p: Pair) => p.key, slots[i]) else []
    requires forall i :: 0 <= i < |pairs| ==> Slots.SlotIndex(pairs[i].key) in slots
    ensures var slot := Slots.SlotIndex(k);
            var done := exists i :: 0 <= i < |slots| && slots[i] == slot && queues[i] != [];
            done <==> (Ran(ends(slot)) && InSlot(pairs, (p: Pair) => p.key, slot) != [])
    ensures InSlot(pairs, (p: Pair) => p.key, Slots.SlotIndex(k)) == [] ==>
              (k in Apply(s, pairs) <==> k in s) && (k in s ==> Apply(s, pairs)[k] == s[k])
  {
    hide Slots.SlotIndex, InSlot, Apply, LastWrite;
    var slot := Slots.SlotIndex(k);
    LastWriteInSlot(pairs, k);
    ApplyIsLastWrite(s, pairs, k);
    NothingWritten(k);
    if slot !in slots {
      InSlotNone(pairs, (p: Pair) => p.key, slot);
    }
  }

  lemma {:induction false} NoneFailed(slots: seq<nat>, ends: nat -> TaskEnd)
    ensures FirstFailure(slots, ends).None? <==> forall i :: 0 <= i < |slots| ==> ends(slots[i]).Success?
  {
    if slots != [] {
      NoneFailed(slots[..|slots| - 1], ends);
    }
  }

  // multiSet's error, told from the arguments, the slot table and the tasks.
  function MsetError(args: seq<Key>, owner: nat -> Option<Addr>, ends: nat -> TaskEnd): Option<MultiError> {
    if |args| % 2 != 0 then Some(OddArgs) else
    var pairs, keyOf := Pairs(args), (p: Pair) => p.key;
    var n := FirstUnowned(pairs, keyOf, owner);
    if n < |pairs| then Some(NoNode(Slots.SlotIndex(pairs[n].key))) else FirstFailure(SlotsOf(pairs, keyOf), ends)
  }

  // How the task of pair i ends.
  function EndOf(pairs: seq<Pair>, i: nat, ends: nat -> TaskEnd): TaskEnd
    requires i < |pairs|
  {
    ends(Slots.SlotIndex(pairs[i].key))
  }

  // Pair i is the first, in argument order, whose task failed.
  ghost predicate FailsFirst(pairs: seq<Pair>, i: nat, ends: nat -> TaskEnd, code: int) {
    && i < |pairs| && EndOf(pairs, i, ends).Failure? && code == EndOf(pairs, i, ends).code
    && forall k :: 0 <= k < i ==> EndOf(pairs, k, ends).Success?
  }

  ghost predicate AllSucceed(pairs: seq<Pair>, ends: nat -> TaskEnd) {
    forall i :: 0 <= i < |pairs| ==> EndOf(pairs, i, ends).Success?
  }

  lemma PairAfter(pairs: seq<Pair>, ends: nat -> TaskEnd)
    requires pairs != []
    ensures var n := |pairs| - 1;
            var end := EndOf(pairs, n, ends);
            && (AllSucceed(pairs, ends) <==> AllSucceed(pairs[..n], ends) && end.Success?)
            && (AllSucceed(pairs[..n], ends) && end.Failure? ==> FailsFirst(pairs, n, ends, end.code))
            && (forall i, code :: FailsFirst(pairs[..n], i, ends, code) ==> FailsFirst(pairs, i, ends, code))
  {
    hide Slots.SlotIndex;
    var n := |pairs| - 1;
    assert forall i :: 0 <= i < n ==> EndOf(pairs[..n], i, ends) == EndOf(pairs, i, ends);
  }

  lemma SlotsOfPairs(pairs: seq<Pair>)
    requires pairs != []
    ensures var n, keyOf := |pairs| - 1, (p: Pair) => p.key;
            var before, slot := SlotsOf(pairs[..n], keyOf), Slots.SlotIndex(pairs[n].key);
            SlotsOf(pairs, keyOf) == if slot in before then before else before + [slot]
  {
    hide Slots.SlotIndex;
  }

  // The first failure among the slots is the one of the first pair, in argument
  // order, whose task failed.
  lemma {:induction false} FailureOfPairs(pairs: seq<Pair>, ends: nat -> TaskEnd)
    ensures match FirstFailure(SlotsOf(pairs, (p: Pair) => p.key), ends)
            case None => AllSucceed(pairs, ends)
            case Some(f) => f.TaskFailed? && exists i :: FailsFirst(pairs, i, ends, f.code)
  {
    if pairs != [] {
      var n := |pairs| - 1;
      var before, slot := SlotsOf(pairs[..n], (p: Pair) => p.key), Slots.SlotIndex(pairs[n].key);
      SlotsOfPairs(pairs);
      PairAfter(pairs, ends);
      assert EndOf(pairs, n, ends) == ends(slot);
      FailureOfPairs(pairs[..n], ends);
      FailureSnoc(before, slot, ends);
      NoneFailed(before, ends);
      hide Slots.SlotIndex, FirstFailure, SlotsOf, FailsFirst, AllSucceed, EndOf;
    } else {
      NoFailure(ends);
    }
  }

  lemma NoFailure(ends: nat -> TaskEnd)
    ensures FirstFailure(SlotsOf([], (p: Pair) => p.key), ends).None?
  {
  }

  lemma FailureSnoc(slots: seq<nat>, slot: nat, ends: nat -> TaskEnd)
    ensures FirstFailure(slots + [slot], ends)
            == if FirstFailure(slots, ends).Some? then FirstFailure(slots, ends)
               else match ends(slot) case Success => None case Failure(code, _) => Some(TaskFailed(code))
  {
    assert (slots + [slot])[..|slots|] == slots;
  }

  predicate KeyOwned(args: seq<Key>, i: nat, owner: nat -> Option<Addr>)
    requires 2 * i < |args|
  {
    owner(Slots.SlotIndex(args[2 * i])).Some?
  }

  lemma FirstUnownedPair(args: seq<Key>, owner: nat -> Option<Addr>)
    requires |args| % 2 == 0
    ensures var n := FirstUnowned(Pairs(args), (p: Pair) => p.key, owner);
            && 2 * n <= |args| && (forall i :: 0 <= i < n ==> KeyOwned(args, i, owner))
            && (2 * n < |args| ==> !KeyOwned(args, n, owner) && Pairs(args)[n].key == args[2 * n])
  {
    var keyOf := (p: Pair) => p.key;
    var ok := Owned(Pairs(args), keyOf, owner);
    hide Slots.SlotIndex, Pairs, FirstNot, KeyOwned, Owned;
    forall i: nat | 2 * i < |args|
      ensures ok(i) == KeyOwned(args, i, owner) && Pairs(args)[i].key == args[2 * i]
    {
      PairOwned(args, i, owner);
    }
  }

  lemma PairOwned(args: seq<Key>, i: nat, owner: nat -> Option<Addr>)
    requires |args| % 2 == 0 && 2 * i < |args|
    ensures Pairs(args)[i].key == args[2 * i]
    ensures Owned(Pairs(args), (p: Pair) => p.key, owner)(i) == KeyOwned(args, i, owner)
  {
    hide Slots.SlotIndex, Pairs;
    var pairs, keyOf := Pairs(args), (p: Pair) => p.key;
    assert keyOf(pairs[i]) == args[2 * i];
    assert Owned(pairs, keyOf, owner)(i) == OwnerOf(keyOf(pairs[i]), owner).Some?;
  }

  ghost predicate AllOwned(args: seq<Key>, owner: nat -> Option<Addr>) {
    forall i :: 0 <= 2 * i < |args| ==> KeyOwned(args, i, owner)
  }

  // The task of every key succeeds.
  ghost predicate TasksSucceed(args: seq<Key>, ends: nat -> TaskEnd) {
    forall i :: 0 <= 2 * i < |args| ==> ends(Slots.SlotIndex(args[2 * i])).Success?
  }

  lemma PairsSucceed(args: seq<Key>, ends: nat -> TaskEnd)
    requires |args| % 2 == 0
    ensures AllSucceed(Pairs(args), ends) <==> TasksSucceed(args, ends)
  {
    hide Slots.SlotIndex, Pairs;
    var pairs := Pairs(args);
    assert forall i :: 0 <= i < |pairs| ==> EndOf(pairs, i, ends) == ends(Slots.SlotIndex(args[2 * i]));
  }

  lemma SomeFails(pairs: seq<Pair>, i: nat, ends: nat -> TaskEnd, code: int)
    requires FailsFirst(pairs, i, ends, code)
    ensures !AllSucceed(pairs, ends)
  {
  }

  // The first key, in argument order, without owner.
  ghost predicate FirstWithoutOwner(args: seq<Key>, i: nat, owner: nat -> Option<Addr>) {
    2 * i < |args| && !KeyOwned(args, i, owner) && forall k :: 0 <= k < i ==> KeyOwned(args, k, owner)
  }

  lemma UnownedError(args: seq<Key>, owner: nat -> Option<Addr>, ends: nat -> TaskEnd)
    requires |args| % 2 == 0
    ensures AllOwned(args, owner) ==>
              MsetError(args, owner, ends) == FirstFailure(SlotsOf(Pairs(args), (p: Pair) => p.key), ends)
    ensures !AllOwned(args, owner) ==>
              exists i :: FirstWithoutOwner(args, i, owner)
                          && MsetError(args, owner, ends) == Some(NoNode(Slots.SlotIndex(args[2 * i])))
  {
    FirstUnownedPair(args, owner);
    hide Slots.SlotIndex, Pairs, FirstFailure, SlotsOf, KeyOwned, FirstUnowned;
    var n := FirstUnowned(Pairs(args), (p: Pair) => p.key, owner);
    assert 2 * n < |args| ==> FirstWithoutOwner(args, n, owner);
  }

  lemma TaskError(args: seq<Key>, ends: nat -> TaskEnd)
    requires |args| % 2 == 0
    ensures match FirstFailure(SlotsOf(Pairs(args), (p: Pair) => p.key), ends)
            case None => TasksSucceed(args, ends)
            case Some(f) => f.TaskFailed? && !TasksSucceed(args, ends)
                            && exists i :: FailsFirst(Pairs(args), i, ends, f.code)
  {
    var pairs := Pairs(args);
    PairsSucceed(args, ends);
    FailureOfPairs(pairs, ends);
    hide Slots.SlotIndex, Pairs, FirstFailure, SlotsOf, TasksSucceed, AllSucceed, FailsFirst;
    var f := FirstFailure(SlotsOf(pairs, (p: Pair) => p.key), ends);
    if f.Some? {
      var i :| FailsFirst(pairs, i, ends, f.value.code);
      SomeFails(pairs, i, ends, f.value.code);
    }
  }

  // Which error it is, each with its exact condition.
  lemma MsetCases(args: seq<Key>, owner: nat -> Option<Addr>, ends: nat -> TaskEnd)
    ensures var err := MsetError(args, owner, ends);
            && (err == Some(OddArgs) <==> |args| % 2 != 0)
            && (err.None? <==> |args| % 2 == 0 && AllOwned(args, owner) && TasksSucceed(args, ends))
            && (err.Some? && err.value.TaskFailed? <==>
                  |args| % 2 == 0 && AllOwned(args, owner) && !TasksSucceed(args, ends))
            && (err.Some? && err.value.NoNode? <==> |args| % 2 == 0 && !AllOwned(args, owner))
            && (err.Some? && err.value.NoNode? ==>
                  exists i :: FirstWithoutOwner(args, i, owner) && err.value.slot == Slots.SlotIndex(args[2 * i]))
            && (err.Some? && err.value.TaskFailed? ==>
                  exists i :: FailsFirst(Pairs(args), i, ends, err.value.code))
  {
    if |args| % 2 == 0 {
      UnownedError(args, owner, ends);
      TaskError(args, ends);
    }
    hide Slots.SlotIndex, Pairs, FirstFailure, SlotsOf, TasksSucceed, AllOwned, FailsFirst, FirstWithoutOwner, FirstUnowned;
  }

  lemma {:induction false} FailureIsTask(slots: seq<nat>, ends: nat -> TaskEnd)
    ensures var f := FirstFailure(slots, ends); f.Some? ==> f.value.TaskFailed?
  {
    if slots != [] {
      FailureIsTask(slots[..|slots| - 1], ends);
    }
  }

  // handleSetTask for every task: what was written, and the first failure.
  method RunTasks(tasks: seq<Task<Pair>>, ends: nat -> TaskEnd)
    returns (queues: seq<seq<Pair>>, slots: seq<nat>, failed: Option<MultiError>)
    ensures |queues| == |slots| == |tasks|
    ensures forall i :: 0 <= i < |tasks| ==> slots[i] == tasks[i].slot
    ensures forall i :: 0 <= i < |tasks| ==> queues[i] == if Ran(ends(tasks[i].slot)) then tasks[i].args else []
    ensures failed == FirstFailure(slots, ends)
  {
    queues, slots, failed := [], [], None;
    for i := 0 to |tasks|
      invariant |queues| == |slots| == i
      invariant forall k :: 0 <= k < i ==> slots[k] == tasks[k].slot
      invariant forall k :: 0 <= k < i ==> queues[k] == if Ran(ends(tasks[k].slot)) then tasks[k].args else []
      invariant failed == FirstFailure(slots, ends)
    {
      var end := ends(tasks[i].slot);
      ghost var before := slots;
      queues := queues + [if Ran(end) then tasks[i].args else []];
      slots := slots + [tasks[i].slot];
      assert slots[..i] == before;
      if end.Failure? && failed.None? {
        failed := Some(TaskFailed(end.code));
      }
    }
  }

  lemma GroupedQueues(tasks: seq<Task<Pair>>, pairs: seq<Pair>, owner: nat -> Option<Addr>,
                      queues: seq<seq<Pair>>, slots: seq<nat>)
    requires Grouped(tasks, pairs, (p: Pair) => p.key, owner)
    requires |queues| == |slots| == |tasks|
    requires forall i :: 0 <= i < |tasks| ==> slots[i] == tasks[i].slot && (queues[i] == tasks[i].args || queues[i] == [])
    ensures Sorted(queues, slots)
    ensures forall i :: 0 <= i < |slots| ==> tasks[i].args == InSlot(pairs, (p: Pair) => p.key, slots[i])
    ensures forall i :: 0 <= i < |slots| ==> queues[i] == [] || queues[i] == InSlot(pairs, (p: Pair) => p.key, slots[i])
    ensures forall i :: 0 <= i < |pairs| ==> Slots.SlotIndex(pairs[i].key) in slots
  {
    hide Slots.SlotIndex, InSlot;
    forall i | 0 <= i < |queues|
      ensures forall k :: 0 <= k < |queues[i]| ==> Slots.SlotIndex(queues[i][k].key) == slots[i]
    {
      QueueInSlot(pairs, slots[i], queues[i]);
    }
    forall i | 0 <= i < |pairs|
      ensures Slots.SlotIndex(pairs[i].key) in slots
    {
      var f := (p: Pair) => p.key;
      assert f(pairs[i]) == pairs[i].key;
      var j :| 0 <= j < |tasks| && tasks[j].slot == Slots.SlotIndex(f(pairs[i]));
      assert slots[j] == tasks[j].slot;
    }
  }

  lemma QueueInSlot(pairs: seq<Pair>, slot: nat, queue: seq<Pair>)
    requires queue == [] || queue == InSlot(pairs, (p: Pair) => p.key, slot)
    ensures forall k :: 0 <= k < |queue| ==> Slots.SlotIndex(queue[k].key) == slot
  {
    hide Slots.SlotIndex, InSlot;
    var f := (p: Pair) => p.key;
    InSlotAll(pairs, f, slot);
    forall k | 0 <= k < |queue|
      ensures Slots.SlotIndex(queue[k].key) == slot
    {
      assert f(queue[k]) == queue[k].key;
    }
  }

  lemma {:induction false} InSlotAll<A>(items: seq<A>, keyOf: A -> Key, slot: nat)
    ensures forall k :: 0 <= k < |InSlot(items, keyOf, slot)| ==>
              Slots.SlotIndex(keyOf(InSlot(items, keyOf, slot)[k])) == slot
  {
    hide Slots.SlotIndex;
    if items != [] {
      InSlotAll(items[..|items| - 1], keyOf, slot);
    }
  }

  // ---- multiGet ----

  // How many earlier arguments share the slot of argument i.
  function Rank(args: seq<Key>, i: nat): (r: nat)
    requires i < |args|
  {
    |InSlot(args[..i], (k: Key) => k, Slots.SlotIndex(args[i]))|
  }

  // A node answers a task with one reply per key.
  datatype Answer = Replies(replies: seq<Reply>) | Fails(code: int)

  datatype Gathered = Values(values: seq<Reply>) | Err(error: MultiError) | Panicked

  // The answer to the task that argument i went into.
  function AnswerFor(args: seq<Key>, i: nat, ask: (nat, seq<Key>) -> Answer): Answer
    requires i < |args|
  {
    var slot := Slots.SlotIndex(args[i]);
    ask(slot, InSlot(args, (k: Key) => k, slot))
  }

  predicate TooFew(args: seq<Key>, i: nat, ask: (nat, seq<Key>) -> Answer)
    requires i < |args|
  {
    var a := AnswerFor(args, i, ask);
    a.Replies? && |a.replies| <= Rank(args, i)
  }

  // What handleGetTask leaves in a task, less the replies taken since.
  ghost predicate Asked(t: Task<Key>, args: seq<Key>, ask: (nat, seq<Key>) -> Answer, taken: nat)
    reads t
  {
    Shows(ask(t.slot, InSlot(args, (k: Key) => k, t.slot)), t.replies, t.err, taken)
  }

  predicate Shows(a: Answer, replies: seq<Reply>, err: Option<MultiError>, taken: nat) {
    match a
    case Replies(rs) => err.None? && taken <= |rs| && replies == rs[taken..]
    case Fails(c) => err == Some(TaskFailed(c))
  }

  // What each slot's owner answers.
  function BySlot(owner: nat -> Option<Addr>, ask: (Addr, seq<Key>) -> Answer): (nat, seq<Key>) -> Answer {
    (slot: nat, keys: seq<Key>) => ask(match owner(slot) case Some(a) => a case None => "", keys)
  }

  method AskAll(tasks: seq<Task<Key>>, args: seq<Key>, owner: nat -> Option<Addr>, ask: (Addr, seq<Key>) -> Answer)
    requires forall j, k :: 0 <= j < k < |tasks| ==> tasks[j] != tasks[k]
    requires forall j :: 0 <= j < |tasks| ==>
               tasks[j].err.None? && tasks[j].args == InSlot(args, (k: Key) => k, tasks[j].slot)
    requires forall j :: 0 <= j < |tasks| ==> owner(tasks[j].slot) == Some(tasks[j].node)
    modifies tasks
    ensures forall j :: 0 <= j < |tasks| ==> Asked(tasks[j], args, BySlot(owner, ask), 0)
  {
    hide InSlot;
    for i := 0 to |tasks|
      invariant forall j :: 0 <= j < i ==> Asked(tasks[j], args, BySlot(owner, ask), 0)
      invariant forall j :: i <= j < |tasks| ==>
                  tasks[j].err.None? && tasks[j].args == InSlot(args, (k: Key) => k, tasks[j].slot)
    {
      var t := tasks[i];
      match ask(t.node, t.args)
      case Replies(rs) => t.replies := rs;
      case Fails(c) => t.err := Some(TaskFailed(c));
    }
  }

  // Argument i can be served: its node answered its task, with enough replies.
  predicate Served(args: seq<Key>, i: nat, ask: (nat, seq<Key>) -> Answer)
    requires i < |args|
  {
    AnswerFor(args, i, ask).Replies? && !TooFew(args, i, ask)
  }

  function Servable(args: seq<Key>, ask: (nat, seq<Key>) -> Answer): nat -> bool {
    (i: nat) => i < |args| && Served(args, i, ask)
  }

  // The first argument that cannot be served, or |args| when there is none.
  function FirstUnserved(args: seq<Key>, ask: (nat, seq<Key>) -> Answer): (n: nat)
    ensures n <= |args|
  {
    FirstNot(|args|, Servable(args, ask))
  }

  // The reply at the place of argument i within its task.
  function ReplyFor(args: seq<Key>, i: nat, ask: (nat, seq<Key>) -> Answer): Reply
    requires i < |args|
  {
    if Served(args, i, ask) then AnswerFor(args, i, ask).replies[Rank(args, i)] else Nil
  }

  // What the nodes' answers come to: every argument's reply in argument order,
  // or what the first argument that cannot be served runs into.
  ghost predicate Gathers(args: seq<Key>, ask: (nat, seq<Key>) -> Answer, r: Gathered) {
    var n := FirstUnserved(args, ask);
    if n == |args| then
      r.Values? && |r.values| == |args| && forall i :: 0 <= i < |args| ==> r.values[i] == ReplyFor(args, i, ask)
    else
      match AnswerFor(args, n, ask)
      case Fails(c) => r == Gathered.Err(TaskFailed(c))
      case Replies(_) => r == Panicked
  }

  // Hand the replies back in argument order, each task's from its front.
  method Gather(args: seq<Key>, tasks: seq<Task<Key>>, index: seq<Task<Key>>, ask: (nat, seq<Key>) -> Answer)
    returns (r: Gathered)
    requires forall j, k :: 0 <= j < k < |tasks| ==> tasks[j] != tasks[k] && tasks[j].slot != tasks[k].slot
    requires Indexed(index, tasks, args, (k: Key) => k)
    requires forall j :: 0 <= j < |tasks| ==> Asked(tasks[j], args, ask, 0)
    modifies tasks
    ensures Gathers(args, ask, r)
  {
    hide InSlot, Slots.SlotIndex, Shows, Served, ReplyFor;
    var f := (k: Key) => k;
    NothingInSlots(f);
    var values := [];
    for i := 0 to |args|
      invariant |values| == i
      invariant forall j :: 0 <= j < |tasks| ==> Asked(tasks[j], args, ask, |InSlot(args[..i], f, tasks[j].slot)|)
      invariant forall k :: 0 <= k < i ==> Served(args, k, ask) && values[k] == ReplyFor(args, k, ask)
    {
      var t := index[i];
      assert f(args[i]) == args[i];
      AskedFor(args, ask, i, t.replies, t.err);
      if t.err.Some? {
        FirstNotIs(|args|, Servable(args, ask), i);
        return Gathered.Err(t.err.value);
      }
      if t.replies == [] {
        FirstNotIs(|args|, Servable(args, ask), i);
        return Panicked;
      }
      InSlotSnoc(args[..i], args[i], f);
      assert args[..i + 1] == args[..i] + [args[i]];
      values := values + [t.replies[0]];
      TakenFront(AnswerFor(args, i, ask), t.replies, Rank(args, i));
      t.replies := t.replies[1..];
    }
    FirstNotIs(|args|, Servable(args, ask), |args|);
    r := Values(values);
  }

  // What the task of argument i shows when that argument's turn has come.
  lemma AskedFor(args: seq<Key>, ask: (nat, seq<Key>) -> Answer, i: nat, replies: seq<Reply>, err: Option<MultiError>)
    requires i < |args| && Shows(AnswerFor(args, i, ask), replies, err, Rank(args, i))
    ensures if err.Some? then !Served(args, i, ask) && AnswerFor(args, i, ask).Fails?
                              && err.value == TaskFailed(AnswerFor(args, i, ask).code)
            else if replies == [] then !Served(args, i, ask) && AnswerFor(args, i, ask).Replies?
            else Served(args, i, ask) && replies[0] == ReplyFor(args, i, ask)
  {
    hide InSlot, Slots.SlotIndex, Rank, AnswerFor;
  }

  // One reply more is taken from the front.
  lemma TakenFront(a: Answer, replies: seq<Reply>, taken: nat)
    requires Shows(a, replies, None, taken) && replies != []
    ensures Shows(a, replies[1..], None, taken + 1)
  {
  }

  // multiGet, told from the slot table and the nodes' answers.
  ghost predicate MgetOutcome(args: seq<Key>, owner: nat -> Option<Addr>, ask: (nat, seq<Key>) -> Answer, r: Gathered) {
    var n := FirstUnowned(args, (k: Key) => k, owner);
    if n < |args| then r == Gathered.Err(NoNode(Slots.SlotIndex(args[n]))) else Gathers(args, ask, r)
  }

  // Every node answers with one reply per key, in order.
  ghost predicate LooksUp(ask: (nat, seq<Key>) -> Answer, lookup: Key -> Reply) {
    forall slot, ks :: ask(slot, ks) == Replies(seq(|ks|, j requires 0 <= j < |ks| => lookup(ks[j])))
  }

  // multiGet; `ask` is what a node answers to a task.
  method MultiGet(args: seq<Key>, owner: nat -> Option<Addr>, ask: (Addr, seq<Key>) -> Answer) returns (r: Gathered)
    ensures MgetOutcome(args, owner, BySlot(owner, ask), r)
    // When all slots have owners and the nodes look their keys up, multiGet
    // looks up every argument, in the order given.
    ensures forall lookup: Key -> Reply ::
              LooksUp(BySlot(owner, ask), lookup) && FirstUnowned(args, (k: Key) => k, owner) == |args| ==>
              r == Values(seq(|args|, i requires 0 <= i < |args| => lookup(args[i])))
  {
    hide Slots.SlotIndex, InSlot, Gathers, LooksUp;
    var f := (k: Key) => k;
    var tasks, index, e := Group(args, f, owner);
    if e.Some? {
      return Gathered.Err(e.value);
    }
    AskAll(tasks, args, owner, ask);
    r := Gather(args, tasks, index, BySlot(owner, ask));
    forall lookup: Key -> Reply | LooksUp(BySlot(owner, ask), lookup)
      ensures r == Values(seq(|args|, i requires 0 <= i < |args| => lookup(args[i])))
    {
      MgetIsPointwise(args, BySlot(owner, ask), lookup, r);
    }
  }

  // Argument i stands at its rank within its slot's task.
  lemma {:induction false} RankIsPlace(args: seq<Key>, i: nat)
    requires i < |args|
    ensures var mine := InSlot(args, (k: Key) => k, Slots.SlotIndex(args[i]));
            Rank(args, i) < |mine| && mine[Rank(args, i)] == args[i]
    decreases |args|
  {
    hide Slots.SlotIndex;
    var n := |args| - 1;
    if i < n {
      RankIsPlace(args[..n], i);
      assert args[..n][..i] == args[..i];
    }
  }

  // Every place of a slot's task is the rank of an argument: nothing is asked
  // that was not among the arguments.
  lemma {:induction false} PlacesAreRanks(args: seq<Key>, slot: nat, place: nat)
    requires place < |InSlot(args, (k: Key) => k, slot)|
    ensures exists i :: 0 <= i < |args| && Slots.SlotIndex(args[i]) == slot && Rank(args, i) == place
    decreases |args|
  {
    hide Slots.SlotIndex;
    var n := |args| - 1;
    if place < |InSlot(args[..n], (k: Key) => k, slot)| {
      PlacesAreRanks(args[..n], slot, place);
      var i :| 0 <= i < n && Slots.SlotIndex(args[..n][i]) == slot && Rank(args[..n], i) == place;
      assert args[..n][..i] == args[..i];
      assert Rank(args, i) == place;
    } else {
      assert Rank(args, n) == place;
    }
  }

  // Arguments of one slot keep their order.
  lemma RanksKeepOrder(args: seq<Key>, i: nat, k: nat)
    requires i < k < |args| && Slots.SlotIndex(args[i]) == Slots.SlotIndex(args[k])
    ensures Rank(args, i) < Rank(args, k)
  {
    hide Slots.SlotIndex, InSlot;
    RankIsPlace(args[..k], i);
    assert args[..k][..i] == args[..i];
  }

  lemma LookedUp(args: seq<Key>, i: nat, ask: (nat, seq<Key>) -> Answer, lookup: Key -> Reply)
    requires i < |args| && LooksUp(ask, lookup)
    ensures Served(args, i, ask) && ReplyFor(args, i, ask) == lookup(args[i])
  {
    RankIsPlace(args, i);
    hide Slots.SlotIndex, InSlot;
  }

  // Nodes that look their keys up have the answers gathered to the pointwise
  // lookup of all arguments, duplicates and shared slots included.
  lemma MgetIsPointwise(args: seq<Key>, ask: (nat, seq<Key>) -> Answer, lookup: Key -> Reply, r: Gathered)
    requires LooksUp(ask, lookup)
    ensures Gathers(args, ask, r) <==> r == Values(seq(|args|, i requires 0 <= i < |args| => lookup(args[i])))
  {
    hide Slots.SlotIndex, InSlot, LooksUp, Served, ReplyFor;
    forall i: nat | i < |args|
      ensures Served(args, i, ask) && ReplyFor(args, i, ask) == lookup(args[i])
    {
      LookedUp(args, i, ask, lookup);
    }
    FirstNotIs(|args|, Servable(args, ask), |args|);
  }

  // Success, crash and failure, each with its exact condition on the answers.
  lemma MgetCases(args: seq<Key>, owner: nat -> Option<Addr>, ask: (nat, seq<Key>) -> Answer, r: Gathered)
    requires MgetOutcome(args, owner, ask, r)
    ensures var owned := forall i :: 0 <= i < |args| ==> owner(Slots.SlotIndex(args[i])).Some?;
            var n := FirstUnserved(args, ask);
            && (r.Values? <==> owned && forall i :: 0 <= i < |args| ==> Served(args, i, ask))
            && (r.Panicked? <==> owned && n < |args| && TooFew(args, n, ask))
            && (r.Err? && r.error.TaskFailed? <==> owned && n < |args| && AnswerFor(args, n, ask).Fails?)
            && (r.Err? && r.error.NoNode? <==> !owned)
  {
    hide Slots.SlotIndex, AnswerFor, TooFew;
    var f := (k: Key) => k;
    var n := FirstUnserved(args, ask);
    OwnedAll(args, owner);
    assert forall i: nat :: i < |args| ==> Servable(args, ask)(i) == Served(args, i, ask);
    assert n < |args| ==> !Servable(args, ask)(n);
    assert forall i: nat :: i < n ==> Servable(args, ask)(i);
    hide FirstUnserved, FirstUnowned;
    assert n < |args| ==> (AnswerFor(args, n, ask).Replies? <==> TooFew(args, n, ask)) by {
      TooFewReplies(args, n, ask);
    }
  }

  lemma TooFewReplies(args: seq<Key>, n: nat, ask: (nat, seq<Key>) -> Answer)
    requires n <= |args|
    ensures n < |args| && TooFew(args, n, ask) ==> AnswerFor(args, n, ask).Replies?
  {
  }

  lemma OwnedAll(args: seq<Key>, owner: nat -> Option<Addr>)
    ensures FirstUnowned(args, (k: Key) => k, owner) == |args| <==>
            forall i :: 0 <= i < |args| ==> owner(Slots.SlotIndex(args[i])).Some?
  {
    hide Slots.SlotIndex;
    var f := (k: Key) => k;
    var owned := Owned(args, f, owner);
    forall i: nat | i < |args|
      ensures owned(i) == owner(Slots.SlotIndex(args[i])).Some?
    {
      assert f(args[i]) == args[i];
      assert owned(i) == OwnerOf(f(args[i]), owner).Some?;
    }
    var n := FirstNot(|args|, owned);
    assert n < |args| ==> !owned(n);
    assert forall i: nat :: i < n ==> owned(i);
  }

  // A node that answers a key with an empty list crashes multiGet.
  method EmptyAnswer(key: Key) returns (r: Gathered)
    ensures r.Panicked?
  {
    hide Slots.SlotIndex;
    var owner, ask := (slot: nat) => Some("a"), (node: Addr, ks: seq<Key>) => Replies([]);
    r := MultiGet([key], owner, ask);
    MgetCases([key], owner, BySlot(owner, ask), r);
    assert !Served([key], 0, BySlot(owner, ask));
  }
}
