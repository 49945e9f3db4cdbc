// The capacity check of utils/memorycacher/cache.go under concurrency: Set and
// Add look at the item count first and insert later, in separate critical
// sections, so goroutines can overshoot the limit together.
module Capacity {
  type Key = string

  // A goroutine is between operations, or has passed the check of a Set or Add.
  datatype Pc = Idle | Passed

  datatype State = State(items: set<Key>, threads: seq<Pc>)

  function Init(k: nat): State { State({}, seq(k, _ => Idle)) }

  // One atomic step of goroutine i.
  datatype Action = Check | Insert(key: Key) | Remove(keys: set<Key>) | Other

  function Act(max: int, s: State, i: nat, a: Action): State
    requires i < |s.threads|
  {
    match (s.threads[i], a)
    case (Idle, Check) => if |s.items| >= max then s else s.(threads := s.threads[i := Passed])
    // Set inserts or overwrites; Add may find the key taken, and then does Other.
    case (Passed, Insert(key)) => State(s.items + {key}, s.threads[i := Idle])
    case (Passed, Other) => s.(threads := s.threads[i := Idle])
    // Delete, DeleteExpired and Flush.
    case (Idle, Remove(keys)) => s.(items := s.items - keys)
    case _ => s
  }

  datatype Move = Move(i: nat, a: Action)

  ghost predicate Schedule(k: nat, moves: seq<Move>) { forall n :: 0 <= n < |moves| ==> moves[n].i < k }

  // Any interleaving of k goroutines.
  function Run(max: int, s: State, moves: seq<Move>): (r: State)
    requires Schedule(|s.threads|, moves)
    ensures |r.threads| == |s.threads|
  {
    if moves == [] then s else
    var n := |moves| - 1;
    var before := Run(max, s, moves[..n]);
    Act(max, before, moves[n].i, moves[n].a)
  }

  function Waiting(threads: seq<Pc>): (w: nat)
    ensures w <= |threads|
  {
    if threads == [] then 0 else Waiting(threads[..|threads| - 1]) + if threads[|threads| - 1] == Passed then 1 else 0
  }

  lemma {:induction false} WaitingUpdate(threads: seq<Pc>, i: nat, pc: Pc)
    requires i < |threads|
    ensures Waiting(threads[i := pc])
            == Waiting(threads) - (if threads[i] == Passed then 1 else 0) + (if pc == Passed then 1 else 0)
  {
    var n := |threads| - 1;
    if i < n {
      WaitingUpdate(threads[..n], i, pc);
      assert threads[i := pc][..n] == threads[..n][i := pc];
    } else {
      assert threads[i := pc][..n] == threads[..n];
    }
  }

  lemma SetSizes(a: set<Key>, key: Key, b: set<Key>)
    ensures |a + {key}| <= |a| + 1
    ensures |a - b| <= |a|
  {
    assert a == (a - b) + (a * b);
    if key in a {
      assert a + {key} == a;
    }
  }

  // What the items and the goroutines past the check can amount to.
  function Limit(max: int, k: nat): int { if max <= 0 then 0 else max + k - 1 }

  ghost predicate Inv(max: int, s: State) {
    |s.items| + Waiting(s.threads) <= Limit(max, |s.threads|)
  }

  lemma ActKeepsInv(max: int, s: State, i: nat, a: Action)
    requires i < |s.threads| && Inv(max, s)
    ensures Inv(max, Act(max, s, i, a))
  {
    WaitingUpdate(s.threads, i, Passed);
    WaitingUpdate(s.threads, i, Idle);
    match a
    case Insert(key) => SetSizes(s.items, key, {});
    case Remove(keys) => SetSizes(s.items, "", keys);
    case _ =>
  }

  lemma {:induction false} WaitingIdle(k: nat)
    ensures Waiting(seq(k, _ => Idle)) == 0
  {
    if k > 0 {
      WaitingIdle(k - 1);
      assert seq(k, _ => Idle)[..k - 1] == seq(k - 1, _ => Idle);
    }
  }

  // In every interleaving of k goroutines, from an empty cache, there are never
  // more than max + k - 1 items (none at all if max is not positive).
  lemma {:induction false} Bounded(max: int, k: nat, moves: seq<Move>)
    requires k > 0 && Schedule(k, moves)
    ensures |Run(max, Init(k), moves).items| <= Limit(max, k)
    ensures Inv(max, Run(max, Init(k), moves))
  {
    WaitingIdle(k);
    if moves != [] {
      var n := |moves| - 1;
      Bounded(max, k, moves[..n]);
      ActKeepsInv(max, Run(max, Init(k), moves[..n]), moves[n].i, moves[n].a);
    }
  }

  // ---- the bound is reached ----

  function Name(n: nat): Key { seq(n, _ => 'k') }

  lemma NamesDiffer(m: nat, n: nat)
    ensures Name(m) == Name(n) ==> m == n
  {
    assert |Name(m)| == m && |Name(n)| == n;
  }

  function Names(n: nat): set<Key> { if n == 0 then {} else Names(n - 1) + {Name(n - 1)} }

  lemma {:induction false} NamesSize(n: nat)
    ensures |Names(n)| == n
    ensures forall m: nat :: n <= m ==> Name(m) !in Names(n)
  {
    if n > 0 {
      NamesSize(n - 1);
      forall m: nat | n <= m
        ensures Name(m) !in Names(n)
      {
        NamesDiffer(m, n - 1);
      }
    }
  }

  // The state in which n names are in and the first w goroutines wait.
  function Stage(n: nat, k: nat, w: nat): State { State(Names(n), seq(k, i => if i < w then Passed else Idle)) }

  // Some schedule leads there.
  ghost predicate Reached(max: int, k: nat, s: State) {
    exists moves :: Schedule(k, moves) && Run(max, Init(k), moves) == s
  }

  lemma ReachOne(max: int, k: nat, s: State, m: Move)
    requires Reached(max, k, s) && |s.threads| == k && m.i < k
    ensures Reached(max, k, Act(max, s, m.i, m.a))
  {
    var moves :| Schedule(k, moves) && Run(max, Init(k), moves) == s;
    assert (moves + [m])[..|moves|] == moves;
    assert Schedule(k, moves + [m]) && Run(max, Init(k), moves + [m]) == Act(max, s, m.i, m.a);
  }

  // A check and an insert of the first goroutine add one name.
  lemma OneMore(max: nat, k: nat, n: nat)
    requires k > 0 && n + 1 < max
    ensures var s := Act(max, Stage(n, k, 0), 0, Check);
            |s.threads| == k && Act(max, s, 0, Insert(Name(n))) == Stage(n + 1, k, 0)
  {
    NamesSize(n);
    hide Name;
  }

  lemma OnePass(max: nat, k: nat, w: nat)
    requires max > 0 && w < k
    ensures Act(max, Stage(max - 1, k, w), w, Check) == Stage(max - 1, k, w + 1)
  {
    NamesSize(max - 1);
    hide Name, Names;
  }

  lemma OneInsert(max: nat, k: nat, n: nat, w: nat)
    requires w < k
    ensures Act(max, Stage(n, k, w + 1), w, Insert(Name(n))) == Stage(n + 1, k, w)
  {
    hide Name;
  }

  // One goroutine fills the cache up to one below the limit.
  lemma {:induction false} FillUp(max: nat, k: nat, n: nat)
    requires k > 0 && n < max
    ensures Reached(max, k, Stage(n, k, 0))
  {
    if n == 0 {
      assert Run(max, Init(k), []) == Stage(0, k, 0);
    } else {
      FillUp(max, k, n - 1);
      OneMore(max, k, n - 1);
      hide Reached, Act;
      ReachOne(max, k, Stage(n - 1, k, 0), Move(0, Check));
      ReachOne(max, k, Act(max, Stage(n - 1, k, 0), 0, Check), Move(0, Insert(Name(n - 1))));
    }
  }

  // Then all of them pass the check ...
  lemma {:induction false} AllPass(max: nat, k: nat, w: nat)
    requires max > 0 && w <= k && k > 0
    ensures Reached(max, k, Stage(max - 1, k, w))
  {
    if w == 0 {
      FillUp(max, k, max - 1);
    } else {
      AllPass(max, k, w - 1);
      OnePass(max, k, w - 1);
      hide Reached, Act;
      ReachOne(max, k, Stage(max - 1, k, w - 1), Move(w - 1, Check));
    }
  }

  // ... and all of them insert.
  lemma {:induction false} AllInsert(max: nat, k: nat, done: nat)
    requires max > 0 && done <= k && k > 0
    ensures Reached(max, k, Stage(max - 1 + done, k, k - done))
  {
    if done == 0 {
      AllPass(max, k, k);
    } else {
      var n, w := max - 1 + (done - 1), k - done;
      AllInsert(max, k, done - 1);
      OneInsert(max, k, n, w);
      hide Reached, Act;
      ReachOne(max, k, Stage(n, k, w + 1), Move(w, Insert(Name(n))));
    }
  }

  lemma BoundIsReached(max: nat, k: nat)
    requires max > 0 && k > 0
    ensures exists moves :: Schedule(k, moves) && |Run(max, Init(k), moves).items| == max + k - 1
  {
    AllInsert(max, k, k);
    NamesSize(max - 1 + k);
    hide Names, Run;
    var moves :| Schedule(k, moves) && Run(max, Init(k), moves) == Stage(max - 1 + k, k, 0);
  }
}
