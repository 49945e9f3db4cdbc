// The expiring, capacity-limited map of utils/memorycacher/cache.go.
module Cache {
  import opened Bytes
  import opened FixedWidth

  type Key = seq<bv8>

  // A stored object: an integer of some width, or anything else.
  datatype Value = Number(width: Fixed, n: int) | Other(id: int)

  datatype Item = Item(value: Value, expiration: int)

  type Items = map<Key, Item>

  // `max` bounds the number of items, expired ones included.
  datatype Config = Config(defaultExpiration: int, max: int, janitor: bool)

  const DEFAULT_EXPIRATION := 0

  // ---- one operation, at a time ----

  datatype Op =
    | Set(k: Key, x: Value, d: int)
    | Add(k: Key, x: Value, d: int)
    | Replace(k: Key, x: Value, d: int)
    | Get(k: Key)
    | Delete(k: Key)
    | Increment(k: Key, n: int)
    | Decrement(k: Key, n: int)
    | DeleteExpired
    | Flush

  // Full and Crashed: what a full cache makes of Set and Add, with and without
  // a janitor to signal to.
  datatype Out = Done | Found(x: Value) | Missing | Exists | NotInteger | Full | Crashed

  datatype Effect = Effect(items: Items, out: Out)

  // get's test: 0 and below mean no expiration.
  predicate Visible(item: Item, now: int) { !(item.expiration > 0 && now > item.expiration) }

  // Item.Expired, which Increment and Decrement use instead.
  predicate Expired(item: Item, now: int) { item.expiration != 0 && now > item.expiration }

  // The two tests disagree exactly on past negative expirations.
  lemma ExpiredIsInvisible(item: Item, now: int)
    ensures (Expired(item, now) <==> !Visible(item, now)) <==> item.expiration >= 0 || now <= item.expiration
  {
  }

  function Expiry(c: Config, d: int, now: int): int {
    var e := if d == DEFAULT_EXPIRATION then c.defaultExpiration else d;
    if e > 0 then now + e else 0
  }

  predicate Live(items: Items, k: Key, now: int) { k in items && Visible(items[k], now) }

  function Bump(x: Value, n: int): Value
    requires x.Number?
  {
    x.(n := Wrap(x.n + Wrap(n, x.width), x.width))
  }

  function Lower(x: Value, n: int): Value
    requires x.Number?
  {
    x.(n := Wrap(x.n - Wrap(n, x.width), x.width))
  }

  function Stored(c: Config, items: Items, k: Key, x: Value, d: int, now: int): Effect {
    Effect(items[k := Item(x, Expiry(c, d, now))], Done)
  }

  function Counted(items: Items, k: Key, now: int, f: Value --> Value): Effect
    requires forall x: Value :: x.Number? ==> f.requires(x)
  {
    if k !in items || Expired(items[k], now) then Effect(items, Missing)
    else if !items[k].value.Number? then Effect(items, NotInteger)
    else Effect(items[k := items[k].(value := f(items[k].value))], Done)
  }

  // An operation that does not meet the capacity check.
  function Uncapped(c: Config, items: Items, op: Op, now: int): Effect {
    match op
    case Set(k, x, d) => Stored(c, items, k, x, d, now)
    case Add(k, x, d) => if Live(items, k, now) then Effect(items, Exists) else Stored(c, items, k, x, d, now)
    case Replace(k, x, d) => if Live(items, k, now) then Stored(c, items, k, x, d, now) else Effect(items, Missing)
    case Get(k) => Effect(items, if Live(items, k, now) then Found(items[k].value) else Missing)
    case Delete(k) => Effect(items - {k}, Done)
    case Increment(k, n) => Counted(items, k, now, (x: Value) requires x.Number? => Bump(x, n))
    case Decrement(k, n) => Counted(items, k, now, (x: Value) requires x.Number? => Lower(x, n))
    case DeleteExpired => Effect(map k | k in items && Visible(items[k], now) :: items[k], Done)
    case Flush => Effect(map[], Done)
  }

  predicate Meets(c: Config, items: Items, op: Op) { (op.Set? || op.Add?) && |items| >= c.max }

  function Step(c: Config, items: Items, op: Op, now: int): Effect {
    if Meets(c, items, op) then Effect(items, if c.janitor then Full else Crashed) else Uncapped(c, items, op, now)
  }

  // ---- expired items cannot be observed ----

  // b lacks some items of a, all of them expired for good.
  ghost predicate Thinner(b: Items, a: Items, now: int) {
    && (forall k :: k in b ==> k in a && b[k] == a[k])
    && (forall k :: k in a && k !in b ==> !Visible(a[k], now))
  }

  ghost predicate NoNegative(items: Items) { forall k :: k in items ==> items[k].expiration >= 0 }

  lemma StepKeepsSigns(c: Config, items: Items, op: Op, now: int)
    requires NoNegative(items) && now >= 0
    ensures NoNegative(Step(c, items, op, now).items)
  {
  }

  lemma ThinnerIsSmaller(b: Items, a: Items, now: int)
    requires Thinner(b, a, now)
    ensures |b| <= |a|
  {
    assert b.Keys <= a.Keys;
    KeysSize(b.Keys, a.Keys);
  }

  lemma KeysSize(b: set<Key>, a: set<Key>)
    requires b <= a
    ensures |b| <= |a|
  {
    assert a == b + (a - b);
  }

  // One operation with and without earlier cleaning: same result, same relation.
  lemma ThinnerStep(c: Config, b: Items, a: Items, op: Op, now: int)
    requires Thinner(b, a, now) && NoNegative(a) && !Meets(c, a, op) && !op.DeleteExpired?
    ensures Step(c, b, op, now).out == Step(c, a, op, now).out
    ensures Thinner(Step(c, b, op, now).items, Step(c, a, op, now).items, now)
  {
    ThinnerIsSmaller(b, a, now);
  }

  // Cleaning only makes it thinner.
  lemma ThinnerClean(c: Config, b: Items, a: Items, now: int)
    requires Thinner(b, a, now)
    ensures Thinner(Step(c, b, DeleteExpired, now).items, a, now)
  {
  }

  lemma ThinnerLater(b: Items, a: Items, now: int, later: int)
    requires Thinner(b, a, now) && now <= later
    ensures Thinner(b, a, later)
  {
  }

  // A timed operation.
  datatype Event = Event(op: Op, now: int)

  // Times do not go back.
  ghost predicate Ordered(run: seq<Event>, from: int) {
    run != [] ==> from <= run[0].now && Ordered(run[1..], run[0].now)
  }

  function WithoutCleaning(run: seq<Event>): seq<Event> {
    if run == [] then []
    else if run[0].op.DeleteExpired? then WithoutCleaning(run[1..])
    else [run[0]] + WithoutCleaning(run[1..])
  }

  // The results of a run; cleaning has none.
  function Results(c: Config, items: Items, run: seq<Event>): seq<Out>
    decreases |run|
  {
    if run == [] then [] else
    var e := Step(c, items, run[0].op, run[0].now);
    (if run[0].op.DeleteExpired? then [] else [e.out]) + Results(c, e.items, run[1..])
  }

  // The run never meets a full cache.
  predicate NeverMeets(c: Config, items: Items, run: seq<Event>)
    decreases |run|
  {
    run != [] ==>
      !Meets(c, items, run[0].op) && NeverMeets(c, Step(c, items, run[0].op, run[0].now).items, run[1..])
  }

  // Main theorem: whenever and however often expired items are cleaned out, no
  // result changes, as long as the capacity is not met without cleaning.
  lemma {:induction false} CleaningIsInvisible(c: Config, b: Items, a: Items, run: seq<Event>, from: int)
    requires Thinner(b, a, from) && NoNegative(a) && Ordered(run, from) && from >= 0
    requires NeverMeets(c, a, WithoutCleaning(run))
    ensures Results(c, b, run) == Results(c, a, WithoutCleaning(run))
    decreases |run|
  {
    hide Step, Thinner, NoNegative, Meets;
    if run != [] {
      var op, now := run[0].op, run[0].now;
      ThinnerLater(b, a, from, now);
      if op.DeleteExpired? {
        ThinnerClean(c, b, a, now);
        CleaningIsInvisible(c, Step(c, b, op, now).items, a, run[1..], now);
      } else {
        var rest := WithoutCleaning(run[1..]);
        assert WithoutCleaning(run)[1..] == rest;
        ThinnerStep(c, b, a, op, now);
        StepKeepsSigns(c, a, op, now);
        CleaningIsInvisible(c, Step(c, b, op, now).items, Step(c, a, op, now).items, run[1..], now);
      }
    }
  }

  // ---- what a cache holds, told from its history ----

  datatype Traced = Traced(op: Op, now: int, out: Out)

  // The last effective write to k, as later counting left it: no capacity, no
  // cleaning, nothing ever forgotten.
  function Kept(c: Config, trace: seq<Traced>, k: Key): Option<Item> {
    if trace == [] then None
    else KeptAfter(c, Kept(c, trace[..|trace| - 1], k), trace[|trace| - 1], k)
  }

  function KeptAfter(c: Config, before: Option<Item>, last: Traced, k: Key): Option<Item> {
    if last.out != Done then before else
    match last.op
    case Set(k', x, d) => if k' == k then Some(Item(x, Expiry(c, d, last.now))) else before
    case Add(k', x, d) => if k' == k then Some(Item(x, Expiry(c, d, last.now))) else before
    case Replace(k', x, d) => if k' == k then Some(Item(x, Expiry(c, d, last.now))) else before
    case Delete(k') => if k' == k then None else before
    case Increment(k', n) =>
      if k' == k && before.Some? && before.value.value.Number?
      then Some(before.value.(value := Bump(before.value.value, n))) else before
    case Decrement(k', n) =>
      if k' == k && before.Some? && before.value.value.Number?
      then Some(before.value.(value := Lower(before.value.value, n))) else before
    case Flush => None
    case _ => before
  }

  // Key k holds what was kept, unless that has expired and is gone.
  ghost predicate RepresentsKey(items: Items, kept: Option<Item>, k: Key, now: int) {
    if k in items then kept == Some(items[k]) else kept.None? || !Visible(kept.value, now)
  }

  ghost predicate Represents(c: Config, items: Items, trace: seq<Traced>, now: int) {
    forall k :: RepresentsKey(items, Kept(c, trace, k), k, now)
  }

  lemma RepresentsKeyStep(c: Config, items: Items, trace: seq<Traced>, time: int, op: Op, now: int, k: Key)
    requires RepresentsKey(items, Kept(c, trace, k), k, time) && NoNegative(items) && time <= now
    ensures var e := Step(c, items, op, now);
            RepresentsKey(e.items, Kept(c, trace + [Traced(op, now, e.out)], k), k, now)
  {
    var e := Step(c, items, op, now);
    KeptStep(c, trace, Traced(op, now, e.out), k);
    hide Bump, Lower, Expiry, Kept;
  }

  // History one operation longer.
  lemma KeptStep(c: Config, trace: seq<Traced>, last: Traced, k: Key)
    ensures Kept(c, trace + [last], k) == KeptAfter(c, Kept(c, trace, k), last, k)
  {
    assert (trace + [last])[..|trace|] == trace;
  }

  lemma RepresentsStep(c: Config, items: Items, trace: seq<Traced>, time: int, op: Op, now: int)
    requires Represents(c, items, trace, time) && NoNegative(items) && time <= now
    ensures var e := Step(c, items, op, now);
            Represents(c, e.items, trace + [Traced(op, now, e.out)], now)
  {
    hide Step, Kept, RepresentsKey;
    forall k
      ensures var e := Step(c, items, op, now);
              RepresentsKey(e.items, Kept(c, trace + [Traced(op, now, e.out)], k), k, now)
    {
      RepresentsKeyStep(c, items, trace, time, op, now, k);
    }
  }

  // What is live in the cache is what was last written and has not expired.
  lemma LiveIsKept(c: Config, items: Items, trace: seq<Traced>, time: int, k: Key, now: int)
    requires Represents(c, items, trace, time) && NoNegative(items) && time <= now
    ensures var kept := Kept(c, trace, k);
            && (Live(items, k, now) <==> kept.Some? && Visible(kept.value, now))
            && (Live(items, k, now) ==> items[k] == kept.value && !Expired(items[k], now))
            && (k in items && !Live(items, k, now) ==> Expired(items[k], now))
  {
    assert RepresentsKey(items, Kept(c, trace, k), k, time);
  }

  // Get finds exactly what was last written and has not expired.
  lemma GetIsLastLiveWrite(c: Config, items: Items, trace: seq<Traced>, time: int, k: Key, now: int)
    requires Represents(c, items, trace, time) && time <= now
    ensures var kept := Kept(c, trace, k);
            Step(c, items, Get(k), now).out
            == if kept.Some? && Visible(kept.value, now) then Found(kept.value.value) else Missing
  {
    assert RepresentsKey(items, Kept(c, trace, k), k, time);
  }

  // ---- lifetimes ----

  // The operation took place and wrote k.
  predicate Wrote(e: Traced, k: Key) {
    e.out == Done && match e.op
                     case Set(k', _, _) => k' == k
                     case Add(k', _, _) => k' == k
                     case Replace(k', _, _) => k' == k
                     case Delete(k') => k' == k
                     case Increment(k', _) => k' == k
                     case Decrement(k', _) => k' == k
                     case Get(_) => false
                     case DeleteExpired => false
                     case Flush => true
  }

  // A Set, Add or Replace of k with value x and duration d.
  predicate Puts(op: Op, k: Key, x: Value, d: int) { op == Set(k, x, d) || op == Add(k, x, d) || op == Replace(k, x, d) }

  // What was written last is kept, however long the history goes on.
  lemma {:induction false} KeptSince(c: Config, trace: seq<Traced>, i: nat, k: Key)
    requires i < |trace| && forall j :: i < j < |trace| ==> !Wrote(trace[j], k)
    ensures Kept(c, trace, k) == KeptAfter(c, Kept(c, trace[..i], k), trace[i], k)
  {
    var n := |trace| - 1;
    if i < n {
      assert trace[..n][..i] == trace[..i];
      KeptSince(c, trace[..n], i, k);
      hide Bump, Lower, Expiry;
    }
  }

  // Lifetimes in plain numbers: a value written at time `now` for a positive
  // lifetime (the default one where d is 0) and not written since is found up to
  // and including now + lifetime and never after; without a positive lifetime it
  // is found for ever.
  lemma FoundThroughLifetime(c: Config, items: Items, trace: seq<Traced>, time: int, i: nat,
                             k: Key, x: Value, d: int, t: int)
    requires Represents(c, items, trace, time) && time <= t
    requires i < |trace| && Puts(trace[i].op, k, x, d) && trace[i].out == Done && trace[i].now >= 0
    requires forall j :: i < j < |trace| ==> !Wrote(trace[j], k)
    ensures var lifetime := if d == 0 then c.defaultExpiration else d;
            Step(c, items, Get(k), t).out
            == if lifetime <= 0 || t <= trace[i].now + lifetime then Found(x) else Missing
  {
    KeptSince(c, trace, i, k);
    GetIsLastLiveWrite(c, items, trace, time, k, t);
    hide Kept, Represents, Step;
  }

  // ---- the cache object ----

  class ExpiringCache {
    var items: Items
    const config: Config
    const hasOnEvicted: bool
    var lastCleanTime: int

    ghost var trace: seq<Traced>
    ghost var time: int

    ghost predicate Valid()
      reads this
    {
      time >= 0 && NoNegative(items) && Represents(config, items, trace, time)
    }

    constructor (config: Config, hasOnEvicted: bool, now: nat)
      ensures Valid() && items == map[] && trace == [] && time == now
      ensures this.config == config && this.hasOnEvicted == hasOnEvicted
    {
      this.config, this.hasOnEvicted := config, hasOnEvicted;
      items, lastCleanTime, trace, time := map[], now, [], now;
    }

    // The operation took place: its effect is Step's, and history knows it.
    twostate predicate Performed(op: Op, now: int, out: Out)
      reads this
    {
      && Valid() && time == now
      && Effect(items, out) == Step(config, old(items), op, now)
      && trace == old(trace) + [Traced(op, now, out)]
    }

    ghost method Record(before: Items, op: Op, now: int, out: Out)
      requires time >= 0 && NoNegative(before) && Represents(config, before, trace, time) && now >= time
      requires Effect(items, out) == Step(config, before, op, now)
      modifies this`trace, this`time
      ensures Valid() && time == now && trace == old(trace) + [Traced(op, now, out)]
    {
      StepKeepsSigns(config, before, op, now);
      RepresentsStep(config, before, trace, time, op, now);
      trace, time := trace + [Traced(op, now, out)], now;
    }

    // ShoudClean: signals the janitor; without one it crashes.
    method OnFull() returns (out: Out)
      ensures out == if config.janitor then Full else Crashed
    {
      out := if config.janitor then Full else Crashed;
    }

    method Set(k: Key, x: Value, d: int, now: int) returns (out: Out)
      requires Valid() && now >= time
      modifies this
      ensures Performed(Op.Set(k, x, d), now, out)
      // It is dropped exactly when the cache is full.
      ensures out == if |old(items)| < config.max then Done else if config.janitor then Full else Crashed
    {
      ghost var before := items;
      if |items| >= config.max {
        out := OnFull();
      } else {
        var e, life := 0, if d == DEFAULT_EXPIRATION then config.defaultExpiration else d;
        if life > 0 {
          e := now + life;
        }
        items, out := items[k := Item(x, e)], Done;
      }
      Record(before, Op.Set(k, x, d), now, out);
    }

    // get and set, with the lock held.
    method Peek(k: Key, now: int) returns (x: Option<Value>)
      ensures x == if Live(items, k, now) then Some(items[k].value) else None
    {
      if k !in items {
        return None;
      }
      var item := items[k];
      if item.expiration > 0 {
        if now > item.expiration {
          return None;
        }
      }
      x := Some(item.value);
    }

    method Put(k: Key, x: Value, d: int, now: int)
      modifies this`items
      ensures items == Stored(config, old(items), k, x, d, now).items
    {
      var e, life := 0, if d == DEFAULT_EXPIRATION then config.defaultExpiration else d;
      if life > 0 {
        e := now + life;
      }
      items := items[k := Item(x, e)];
    }

    method Add(k: Key, x: Value, d: int, now: int) returns (out: Out)
      requires Valid() && now >= time
      modifies this
      ensures Performed(Op.Add(k, x, d), now, out)
      // With room it stores exactly where nothing live was written before.
      ensures var kept := Kept(config, old(trace), k);
              out == if |old(items)| >= config.max then if config.janitor then Full else Crashed
                     else if kept.Some? && Visible(kept.value, now) then Exists else Done
    {
      ghost var before := items;
      LiveIsKept(config, items, trace, time, k, now);
      if |items| >= config.max {
        out := OnFull();
      } else {
        var found := Peek(k, now);
        if found.Some? {
          out := Exists;
        } else {
          Put(k, x, d, now);
          out := Done;
        }
      }
      Record(before, Op.Add(k, x, d), now, out);
    }

    method Replace(k: Key, x: Value, d: int, now: int) returns (out: Out)
      requires Valid() && now >= time
      modifies this
      ensures Performed(Op.Replace(k, x, d), now, out)
      // It stores exactly where something live was written before.
      ensures var kept := Kept(config, old(trace), k);
              out == if kept.Some? && Visible(kept.value, now) then Done else Missing
    {
      ghost var before := items;
      LiveIsKept(config, items, trace, time, k, now);
      var found := Peek(k, now);
      if found.None? {
        out := Missing;
      } else {
        Put(k, x, d, now);
        out := Done;
      }
      Record(before, Op.Replace(k, x, d), now, out);
    }

    method Get(k: Key, now: int) returns (out: Out)
      requires Valid() && now >= time
      modifies this`trace, this`time
      ensures Performed(Op.Get(k), now, out)
      ensures var kept := Kept(config, old(trace), k);
              out == if kept.Some? && Visible(kept.value, now) then Found(kept.value.value) else Missing
    {
      var found := Peek(k, now);
      out := if found.Some? then Found(found.value) else Missing;
      GetIsLastLiveWrite(config, items, trace, time, k, now);
      Record(items, Op.Get(k), now, out);
    }

    // Increment (up) and Decrement: all integer widths alike.
    method Count(k: Key, n: int, up: bool, now: int) returns (out: Out)
      requires Valid() && now >= time
      modifies this
      ensures Performed(if up then Op.Increment(k, n) else Op.Decrement(k, n), now, out)
      // It counts exactly where the last live write was an integer.
      ensures var kept := Kept(config, old(trace), k);
              out == if kept.None? || !Visible(kept.value, now) then Missing
                     else if kept.value.value.Number? then Done else NotInteger
    {
      ghost var before := items;
      LiveIsKept(config, items, trace, time, k, now);
      if k !in items || Expired(items[k], now) {
        out := Missing;
      } else {
        var v := items[k];
        if v.value.Number? {
          v := v.(value := if up then Bump(v.value, n) else Lower(v.value, n));
          items, out := items[k := v], Done;
        } else {
          out := NotInteger;
        }
      }
      Record(before, if up then Op.Increment(k, n) else Op.Decrement(k, n), now, out);
    }

    // The evicted value goes to the callback, if there is one.
    method Delete(k: Key, now: int) returns (evicted: Option<Value>)
      requires Valid() && now >= time
      modifies this
      ensures Performed(Op.Delete(k), now, Done)
      ensures evicted == if hasOnEvicted && k in old(items) then Some(old(items)[k].value) else None
    {
      ghost var before := items;
      evicted := Remove(k);
      Record(before, Op.Delete(k), now, Done);
    }

    method Remove(k: Key) returns (evicted: Option<Value>)
      modifies this`items
      ensures items == old(items) - {k}
      ensures evicted == if hasOnEvicted && k in old(items) then Some(old(items)[k].value) else None
    {
      evicted := None;
      if hasOnEvicted && k in items {
        evicted := Some(items[k].value);
      }
      items := items - {k};
    }

    // One pass over the map; the callback sees each expired item once.
    method DeleteExpired(now: int) returns (evicted: map<Key, Value>)
      requires Valid() && now >= time
      modifies this
      ensures Performed(Op.DeleteExpired, now, Done) && lastCleanTime == now
      ensures evicted == if hasOnEvicted then map k | k in old(items) && !Visible(old(items)[k], now) :: old(items)[k].value
                         else map[]
    {
      ghost var before := items;
      evicted := Sweep(now);
      lastCleanTime := now;
      Record(before, Op.DeleteExpired, now, Done);
    }

    method Sweep(now: int) returns (evicted: map<Key, Value>)
      modifies this`items
      ensures items == map k | k in old(items) && Visible(old(items)[k], now) :: old(items)[k]
      ensures evicted == if hasOnEvicted then map k | k in old(items) && !Visible(old(items)[k], now) :: old(items)[k].value
                         else map[]
    {
      ghost var before := items;
      evicted := map[];
      var todo := items.Keys;
      while todo != {}
        invariant todo <= before.Keys
        invariant items == map k | k in before && (k in todo || Visible(before[k], now)) :: before[k]
        invariant evicted == if hasOnEvicted
                             then map k | k in before && k !in todo && !Visible(before[k], now) :: before[k].value
                             else map[]
      {
        var k :| k in todo;
        todo := todo - {k};
        if items[k].expiration > 0 && now > items[k].expiration {
          var v := Remove(k);
          if v.Some? {
            evicted := evicted[k := v.value];
          }
        }
      }
    }

    method Items(now: int) returns (m: Items)
      requires Valid()
      ensures m == map k | k in items && Visible(items[k], now) :: items[k]
    {
      m := map[];
      var todo := items.Keys;
      while todo != {}
        invariant todo <= items.Keys
        invariant m == map k | k in items && k !in todo && Visible(items[k], now) :: items[k]
      {
        var k :| k in todo;
        todo := todo - {k};
        if !(items[k].expiration > 0 && now > items[k].expiration) {
          m := m[k := items[k]];
        }
      }
    }

    method Flush(now: int)
      requires Valid() && now >= time
      modifies this
      ensures Performed(Op.Flush, now, Done)
    {
      ghost var before := items;
      items := map[];
      Record(before, Op.Flush, now, Done);
    }
  }

  // ---- counters ----

  lemma BumpIsWrappedSum(x: Value, n: int)
    requires x.Number?
    ensures Bump(x, n) == x.(n := Wrap(x.n + n, x.width))
    ensures Lower(x, n) == x.(n := Wrap(x.n - n, x.width))
  {
    WrapAdd(n, x.n, x.width);
    WrapMulAdd(n, -1, x.n, x.width);
  }

  // What a run leaves in the cache.
  function After(c: Config, items: Items, run: seq<Event>): Items
    decreases |run|
  {
    if run == [] then items else After(c, Step(c, items, run[0].op, run[0].now).items, run[1..])
  }

  // The operation does not write k, except by counting.
  predicate OnlyCounts(op: Op, k: Key) {
    match op
    case Set(k', _, _) => k' != k
    case Add(k', _, _) => k' != k
    case Replace(k', _, _) => k' != k
    case Delete(k') => k' != k
    case Flush => false
    case _ => true
  }

  // The item lives through the run.
  predicate Outlives(item: Item, run: seq<Event>) {
    forall i :: 0 <= i < |run| ==> item.expiration == 0 || run[i].now <= item.expiration
  }

  // By how much an operation moves k.
  function Amount(op: Op, k: Key): int {
    match op
    case Increment(k', n) => if k' == k then n else 0
    case Decrement(k', n) => if k' == k then -n else 0
    case _ => 0
  }

  function Amounts(run: seq<Event>, k: Key): int {
    if run == [] then 0 else Amount(run[0].op, k) + Amounts(run[1..], k)
  }

  lemma CountStep(c: Config, items: Items, op: Op, now: int, k: Key)
    requires k in items && items[k].value.Number? && OnlyCounts(op, k)
    requires items[k].expiration == 0 || now <= items[k].expiration
    requires var x := items[k].value; Wrap(x.n, x.width) == x.n
    ensures var after, x := Step(c, items, op, now).items, items[k].value;
            k in after && after[k] == items[k].(value := x.(n := Wrap(x.n + Amount(op, k), x.width)))
  {
    var x := items[k].value;
    if op.Increment? || op.Decrement? {
      BumpIsWrappedSum(x, op.n);
    }
    hide Wrap, Bump, Lower;
  }

  // A live integer item shows, after any run that only counts on it, its start
  // plus the signed sum of the counts, in two's complement of its width, however
  // often it overflowed on the way; its expiration is unchanged.
  lemma {:induction false} CounterIsWrappedSum(c: Config, items: Items, run: seq<Event>, k: Key)
    requires k in items && items[k].value.Number? && Outlives(items[k], run)
    requires var x := items[k].value; Wrap(x.n, x.width) == x.n
    requires forall i :: 0 <= i < |run| ==> OnlyCounts(run[i].op, k)
    ensures var after, x := After(c, items, run), items[k].value;
            k in after && after[k] == items[k].(value := x.(n := Wrap(x.n + Amounts(run, k), x.width)))
    decreases |run|
  {
    if run != [] {
      var x, op, now := items[k].value, run[0].op, run[0].now;
      CountStep(c, items, op, now, k);
      hide Step, Wrap, Amount;
      var next := Step(c, items, op, now).items;
      WrapAdd(x.n + Amount(op, k), 0, x.width);
      WrapAdd(x.n + Amount(op, k), Amounts(run[1..], k), x.width);
      CounterIsWrappedSum(c, next, run[1..], k);
    }
  }

  // Counting on k leaves every other key alone.
  lemma {:induction false} CountsAreLocal(c: Config, items: Items, run: seq<Event>, k: Key, other: Key)
    requires k != other
    requires forall i :: 0 <= i < |run| ==> var op := run[i].op; (op.Increment? || op.Decrement?) && op.k == k
    ensures var after := After(c, items, run);
            (other in after <==> other in items) && (other in items ==> after[other] == items[other])
    decreases |run|
  {
    hide Bump, Lower;
    if run != [] {
      CountsAreLocal(c, Step(c, items, run[0].op, run[0].now).items, run[1..], k, other);
    }
  }

  // Decrement undoes Increment, overflow or not.
  lemma DecrementUndoesIncrement(x: Value, n: int)
    requires x.Number? && Wrap(x.n, x.width) == x.n
    ensures Lower(Bump(x, n), n) == x && Bump(Lower(x, n), n) == x
  {
    BumpIsWrappedSum(x, n);
    BumpIsWrappedSum(Bump(x, n), n);
    BumpIsWrappedSum(Lower(x, n), n);
    WrapAdd(x.n + n, -n, x.width);
    WrapAdd(x.n - n, n, x.width);
  }
}
