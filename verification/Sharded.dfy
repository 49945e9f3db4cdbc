// The sharded cache of utils/memorycacher/sharded.go.
module Sharded {
  import opened Cache

  // ---- djb33 ----

  type Text = seq<bv8>

  // Multiply by 33 and mix in one byte.
  function Mix(d: bv32, b: bv8): bv32 { (d * 33) ^ b as bv32 }

  function Fold(d: bv32, k: Text): bv32
    decreases |k|
  {
    if k == [] then d else Fold(Mix(d, k[0]), k[1..])
  }

  function Uint32(n: nat): bv32 { (n % 0x1_0000_0000) as bv32 }

  function Finish(d: bv32): bv32 { d ^ (d >> 16) }

  function Start(seed: bv32, l: nat): bv32 { 5381 + seed + Uint32(l) }

  // All bytes but the last are hashed (of a text below 4 GiB).
  function Djb33(seed: bv32, k: Text): bv32 {
    var l := |k| % 0x1_0000_0000;
    Finish(Fold(Start(seed, |k|), if l == 0 then [] else k[..l - 1]))
  }

  lemma {:induction false} FoldSnoc(d: bv32, k: Text, b: bv8)
    ensures Fold(d, k + [b]) == Mix(Fold(d, k), b)
    decreases |k|
  {
    hide Mix;
    if k == [] {
      assert k + [b] == [b] && [b][1..] == [];
    } else {
      assert (k + [b])[1..] == k[1..] + [b];
      FoldSnoc(Mix(d, k[0]), k[1..], b);
    }
  }

  lemma FoldNext(d: bv32, k: Text, i: nat)
    requires i < |k|
    ensures Fold(d, k[..i + 1]) == Mix(Fold(d, k[..i]), k[i])
  {
    hide Mix;
    assert k[..i + 1] == k[..i] + [k[i]];
    FoldSnoc(d, k[..i], k[i]);
  }

  // The unrolled loop and its tail: every index is in range, and the result is
  // the plain fold.
  method Djb33Unrolled(seed: bv32, k: Text) returns (h: bv32)
    ensures h == Djb33(seed, k)
  {
    hide Mix, Fold, Finish, Start;
    var l := |k| % 0x1_0000_0000;
    var d := Start(seed, |k|);
    ghost var d0 := d;
    FoldNothing(d0);
    assert k[..0] == [];
    var i := 0;
    if l >= 4 {
      while i < l - 4
        invariant 0 <= i && (i == 0 || i <= l - 1) && i <= l
        invariant d == Fold(d0, k[..i])
      {
        FoldNext(d0, k, i);
        FoldNext(d0, k, i + 1);
        FoldNext(d0, k, i + 2);
        FoldNext(d0, k, i + 3);
        d := Mix(d, k[i]);
        d := Mix(d, k[i + 1]);
        d := Mix(d, k[i + 2]);
        d := Mix(d, k[i + 3]);
        i := i + 4;
      }
    }
    match l - i {
      case 2 =>
        FoldNext(d0, k, i);
        d := Mix(d, k[i]);
      case 3 =>
        FoldNext(d0, k, i);
        FoldNext(d0, k, i + 1);
        d := Mix(d, k[i]);
        d := Mix(d, k[i + 1]);
      case 4 =>
        FoldNext(d0, k, i);
        FoldNext(d0, k, i + 1);
        FoldNext(d0, k, i + 2);
        d := Mix(d, k[i]);
        d := Mix(d, k[i + 1]);
        d := Mix(d, k[i + 2]);
      case _ =>
    }
    h := Finish(d);
  }

  lemma FoldNothing(d: bv32)
    ensures Fold(d, []) == d
  {
  }

  // Two texts that differ in the last byte only share their hash, and so their
  // shard, for every seed.
  lemma LastByteIgnored(seed: bv32, k: Text, a: bv8, b: bv8)
    requires |k| + 1 < 0x1_0000_0000
    ensures Djb33(seed, k + [a]) == Djb33(seed, k + [b])
  {
    hide Fold, Finish, Start;
    assert (k + [a])[..|k|] == k == (k + [b])[..|k|];
  }

  // The hash of "redis" for one seed.
  lemma HashOfRedis()
    ensures Djb33(0x01234567, [0x72, 0x65, 0x64, 0x69, 0x73]) == 0x3f69a6c2
  {
    var k: Text := [0x72, 0x65, 0x64, 0x69, 0x73];
    assert k[..4] == [0x72, 0x65, 0x64, 0x69];
    assert Start(0x01234567, 5) == 0x01235a71;
    FoldFour();
    assert Finish(0x3f6999ab) == 0x3f69a6c2;
    hide Start, Fold, Finish;
  }

  lemma FoldFour()
    ensures Fold(0x01235a71, [0x72, 0x65, 0x64, 0x69]) == 0x3f6999ab
  {
    assert Mix(0x01235a71, 0x72) == 0x258ea8e3;
    assert Mix(0x258ea8e3, 0x65) == 0xd763c526;
    assert Mix(0xd763c526, 0x64) == 0xc3dc6982;
    assert Mix(0xc3dc6982, 0x69) == 0x3f6999ab;
    hide Mix;
    var k: Text := [0x72, 0x65, 0x64, 0x69];
    assert k[1..] == [0x65, 0x64, 0x69] && k[1..][1..] == [0x64, 0x69] && k[1..][1..][1..] == [0x69];
    assert k[1..][1..][1..][1..] == [];
    FoldStep(0x01235a71, k);
    FoldStep(0x258ea8e3, k[1..]);
    FoldStep(0xd763c526, k[1..][1..]);
    FoldStep(0xc3dc6982, k[1..][1..][1..]);
    FoldNothing(0x3f6999ab);
    hide Fold;
  }

  lemma FoldStep(d: bv32, k: Text)
    requires k != []
    ensures Fold(d, k) == Fold(Mix(d, k[0]), k[1..])
  {
  }

  // ---- the shards ----

  function Home(seed: bv32, k: Key, m: nat): (i: nat)
    requires m > 0
    ensures i < m
  {
    Djb33(seed, k) as nat % m
  }

  predicate Keyed(op: Op) { !op.DeleteExpired? && !op.Flush? }

  // Two maps say the same about k.
  ghost predicate Same(a: Items, b: Items, k: Key) {
    (k in a <==> k in b) && (k in a ==> a[k] == b[k])
  }

  // An operation on a key looks at and changes that key alone.
  lemma KeyedIsLocal(c: Config, a: Items, b: Items, op: Op, now: int)
    requires Keyed(op) && Same(a, b, op.k)
    ensures Uncapped(c, a, op, now).out == Uncapped(c, b, op, now).out
    ensures Same(Uncapped(c, a, op, now).items, Uncapped(c, b, op, now).items, op.k)
    ensures forall k :: k != op.k ==> Same(Uncapped(c, a, op, now).items, a, k)
  {
  }

  // The shards taken together: each key where it belongs, and nowhere else.
  ghost predicate Together(parts: seq<Items>, whole: Items, seed: bv32) {
    && |parts| > 0
    && (forall k :: Same(parts[Home(seed, k, |parts|)], whole, k))
    && (forall i, k :: 0 <= i < |parts| && k in parts[i] ==> Home(seed, k, |parts|) == i)
  }

  // One operation at its key's shard is the same operation on the whole.
  lemma ShardStep(c: Config, parts: seq<Items>, whole: Items, seed: bv32, op: Op, now: int)
    requires Together(parts, whole, seed) && Keyed(op)
    ensures var i := Home(seed, op.k, |parts|);
            var e := Uncapped(c, parts[i], op, now);
            var all := Uncapped(c, whole, op, now);
            e.out == all.out && Together(parts[i := e.items], all.items, seed)
  {
    hide Uncapped, Home;
    var m := |parts|;
    var i := Home(seed, op.k, m);
    KeyedIsLocal(c, parts[i], whole, op, now);
    KeyedIsLocal(c, whole, parts[i], op, now);
    var parts' := parts[i := Uncapped(c, parts[i], op, now).items];
    var whole' := Uncapped(c, whole, op, now).items;
    forall k
      ensures Same(parts'[Home(seed, k, m)], whole', k)
    {
      assert Same(parts[Home(seed, k, m)], whole, k);
      if k == op.k {
        assert Same(parts'[i], whole', op.k);
      } else {
        assert Same(parts'[i], parts[i], k) && Same(whole', whole, k);
      }
    }
    forall j, k | 0 <= j < m && k in parts'[j]
      ensures Home(seed, k, m) == j
    {
      if j == i && k != op.k {
        assert Same(parts'[i], parts[i], k);
      }
    }
  }

  // Cleaning or flushing every shard does it to the whole.
  lemma AllShardsStep(c: Config, parts: seq<Items>, parts': seq<Items>, whole: Items, seed: bv32, op: Op, now: int)
    requires Together(parts, whole, seed) && !Keyed(op) && |parts'| == |parts|
    requires forall i :: 0 <= i < |parts| ==> parts'[i] == Uncapped(c, parts[i], op, now).items
    ensures Together(parts', Uncapped(c, whole, op, now).items, seed)
  {
    hide Home;
    var m := |parts|;
    var whole' := Uncapped(c, whole, op, now).items;
    forall k
      ensures Same(parts'[Home(seed, k, m)], whole', k)
    {
      var h := Home(seed, k, m);
      assert Same(parts[h], whole, k);
      assert parts'[h] == Uncapped(c, parts[h], op, now).items;
      if op.Flush? {
        assert parts'[h] == map[] && whole' == map[];
      } else {
        assert op.DeleteExpired?;
      }
    }
  }

  // What is left of the whole when shard i is cleaned at time nows[i].
  function Swept(whole: Items, seed: bv32, nows: seq<int>): Items
    requires |nows| > 0
  {
    map k | k in whole && Visible(whole[k], nows[Home(seed, k, |nows|)]) :: whole[k]
  }

  lemma SweptTogether(c: Config, parts: seq<Items>, parts': seq<Items>, whole: Items, seed: bv32, nows: seq<int>)
    requires Together(parts, whole, seed) && |parts'| == |parts| == |nows|
    requires forall i :: 0 <= i < |parts| ==> parts'[i] == Uncapped(c, parts[i], Op.DeleteExpired, nows[i]).items
    ensures Together(parts', Swept(whole, seed, nows), seed)
  {
    hide Home;
    var m := |parts|;
    forall k
      ensures Same(parts'[Home(seed, k, m)], Swept(whole, seed, nows), k)
    {
      var h := Home(seed, k, m);
      assert Same(parts[h], whole, k);
      assert parts'[h] == Uncapped(c, parts[h], Op.DeleteExpired, nows[h]).items;
    }
  }

  // Nothing is swept that could still be seen at the end.
  lemma SweptIsThinner(whole: Items, seed: bv32, nows: seq<int>, end: int)
    requires |nows| > 0 && forall i :: 0 <= i < |nows| ==> nows[i] <= end
    ensures Thinner(Swept(whole, seed, nows), whole, end)
  {
    hide Home;
  }

  // ---- whole runs ----

  datatype Parted = Parted(parts: seq<Items>, out: Out)

  // One operation: at the shard of its key, or at every shard.
  function ShardedStep(c: Config, parts: seq<Items>, seed: bv32, op: Op, now: int): (e: Parted)
    requires |parts| > 0
    ensures |e.parts| == |parts|
  {
    if Keyed(op) then
      var i := Home(seed, op.k, |parts|);
      var e := Step(c, parts[i], op, now);
      Parted(parts[i := e.items], e.out)
    else
      Parted(seq(|parts|, i requires 0 <= i < |parts| => Step(c, parts[i], op, now).items), Done)
  }

  function ShardedResults(c: Config, parts: seq<Items>, seed: bv32, run: seq<Event>): seq<Out>
    requires |parts| > 0
    decreases |run|
  {
    if run == [] then [] else
    var e := ShardedStep(c, parts, seed, run[0].op, run[0].now);
    (if run[0].op.DeleteExpired? then [] else [e.out]) + ShardedResults(c, e.parts, seed, run[1..])
  }

  // No operation of the run meets a full shard.
  predicate ShardsNeverMeet(c: Config, parts: seq<Items>, seed: bv32, run: seq<Event>)
    requires |parts| > 0
    decreases |run|
  {
    run != [] ==>
      && (Keyed(run[0].op) ==> !Meets(c, parts[Home(seed, run[0].op.k, |parts|)], run[0].op))
      && ShardsNeverMeet(c, ShardedStep(c, parts, seed, run[0].op, run[0].now).parts, seed, run[1..])
  }

  lemma SameDefault(c: Config, c': Config, items: Items, op: Op, now: int)
    requires c.defaultExpiration == c'.defaultExpiration
    ensures Uncapped(c, items, op, now) == Uncapped(c', items, op, now)
  {
  }

  // Sharded and whole stay together, with the same result.
  lemma RunStep(c: Config, c': Config, parts: seq<Items>, whole: Items, seed: bv32, op: Op, now: int)
    requires Together(parts, whole, seed) && c.defaultExpiration == c'.defaultExpiration
    requires Keyed(op) ==> !Meets(c, parts[Home(seed, op.k, |parts|)], op)
    requires !Meets(c', whole, op)
    ensures var e, all := ShardedStep(c, parts, seed, op, now), Step(c', whole, op, now);
            Together(e.parts, all.items, seed) && e.out == all.out
  {
    assert |parts| > 0;
    hide Home, Together;
    SameDefault(c, c', whole, op, now);
    if Keyed(op) {
      hide Uncapped;
      ShardStep(c, parts, whole, seed, op, now);
    } else {
      AllShardsStep(c, parts, ShardedStep(c, parts, seed, op, now).parts, whole, seed, op, now);
    }
  }

  // Main theorem: a run gives the same results on any number of shards, with
  // any seed, as on one cache, as long as neither meets its capacity.
  lemma {:induction false} ShardingIsInvisible(c: Config, c': Config, parts: seq<Items>, whole: Items, seed: bv32,
                                               run: seq<Event>)
    requires Together(parts, whole, seed) && c.defaultExpiration == c'.defaultExpiration
    requires ShardsNeverMeet(c, parts, seed, run) && NeverMeets(c', whole, run)
    ensures ShardedResults(c, parts, seed, run) == Results(c', whole, run)
    decreases |run|
  {
    assert |parts| > 0;
    hide Together, Home, Step, Meets, ShardedStep;
    if run != [] {
      var op, now := run[0].op, run[0].now;
      RunStep(c, c', parts, whole, seed, op, now);
      ShardingIsInvisible(c, c', ShardedStep(c, parts, seed, op, now).parts, Step(c', whole, op, now).items, seed, run[1..]);
    }
  }

  class ShardedCache {
    const seed: bv32
    const cs: seq<ExpiringCache>

    // The one unsharded cache this pretends to be.
    ghost var whole: Items
    ghost var time: int

    ghost function Parts(): (p: seq<Items>)
      reads cs
      ensures |p| == |cs| && forall i :: 0 <= i < |cs| ==> p[i] == cs[i].items
    {
      seq(|cs|, i requires 0 <= i < |cs| reads cs => cs[i].items)
    }

    ghost predicate Valid()
      reads this, cs
    {
      && |cs| > 0
      && (forall i, j :: 0 <= i < j < |cs| ==> cs[i] != cs[j])
      && (forall i :: 0 <= i < |cs| ==> cs[i].Valid() && cs[i].time <= time && cs[i].config == cs[0].config)
      && Together(Parts(), whole, seed)
    }

    // newShardedCache: m empty shards, none with a janitor. Without a shard there
    // is nothing to forward to.
    constructor (seed: bv32, m: nat, defaultExpiration: int, max: int, now: nat)
      ensures (m > 0 ==> Valid()) && whole == map[] && |cs| == m && time == now
      ensures forall i :: 0 <= i < m ==> fresh(cs[i]) && cs[i].config == Config(defaultExpiration, max, false)
    {
      var shards: seq<ExpiringCache> := [];
      for i := 0 to m
        invariant |shards| == i && forall j :: 0 <= j < i ==> fresh(shards[j])
        invariant forall j, l :: 0 <= j < l < i ==> shards[j] != shards[l]
        invariant forall j :: 0 <= j < i ==> shards[j].Valid() && shards[j].items == map[] && shards[j].time == now
        invariant forall j :: 0 <= j < i ==> shards[j].config == Config(defaultExpiration, max, false)
      {
        var c := new ExpiringCache(Config(defaultExpiration, max, false), false, now);
        shards := shards + [c];
      }
      this.seed, cs, whole, time := seed, shards, map[], now;
    }

    method Bucket(k: Key) returns (i: nat)
      requires Valid()
      ensures i == Home(seed, k, |cs|)
    {
      var h := Djb33Unrolled(seed, k);
      i := h as nat % |cs|;
    }

    // What a forwarded operation owes: unless its shard is full, it is the
    // operation on the unsharded cache.
    twostate predicate Forwarded(op: Op, now: int, out: Out)
      requires Keyed(op) && |cs| > 0
      reads this, cs
    {
      && Valid() && time == now
      && var shard := cs[Home(seed, op.k, |cs|)];
         if Meets(shard.config, old(shard.items), op) then
           whole == old(whole) && out == if shard.config.janitor then Full else Crashed
         else Effect(whole, out) == Uncapped(shard.config, old(whole), op, now)
    }

    method Set(k: Key, x: Value, d: int, now: int) returns (out: Out)
      requires Valid() && now >= time
      modifies this, cs
      ensures Forwarded(Op.Set(k, x, d), now, out)
    {
      ghost var parts := Parts();
      var i := Bucket(k);
      out := cs[i].Set(k, x, d, now);
      Follow(parts, Op.Set(k, x, d), now, out);
    }

    method Add(k: Key, x: Value, d: int, now: int) returns (out: Out)
      requires Valid() && now >= time
      modifies this, cs
      ensures Forwarded(Op.Add(k, x, d), now, out)
    {
      ghost var parts := Parts();
      var i := Bucket(k);
      out := cs[i].Add(k, x, d, now);
      Follow(parts, Op.Add(k, x, d), now, out);
    }

    method Replace(k: Key, x: Value, d: int, now: int) returns (out: Out)
      requires Valid() && now >= time
      modifies this, cs
      ensures Forwarded(Op.Replace(k, x, d), now, out)
    {
      ghost var parts := Parts();
      var i := Bucket(k);
      out := cs[i].Replace(k, x, d, now);
      Follow(parts, Op.Replace(k, x, d), now, out);
    }

    method Get(k: Key, now: int) returns (out: Out)
      requires Valid() && now >= time
      modifies this, cs
      ensures Forwarded(Op.Get(k), now, out)
    {
      ghost var parts := Parts();
      var i := Bucket(k);
      out := cs[i].Get(k, now);
      Follow(parts, Op.Get(k), now, out);
    }

    method Count(k: Key, n: int, up: bool, now: int) returns (out: Out)
      requires Valid() && now >= time
      modifies this, cs
      ensures Forwarded(if up then Op.Increment(k, n) else Op.Decrement(k, n), now, out)
    {
      ghost var parts := Parts();
      var i := Bucket(k);
      out := cs[i].Count(k, n, up, now);
      Follow(parts, if up then Op.Increment(k, n) else Op.Decrement(k, n), now, out);
    }

    method Delete(k: Key, now: int)
      requires Valid() && now >= time
      modifies this, cs
      ensures Forwarded(Op.Delete(k), now, Done)
    {
      ghost var parts := Parts();
      var i := Bucket(k);
      var _ := cs[i].Delete(k, now);
      Follow(parts, Op.Delete(k), now, Done);
    }

    static method Clean(c: ExpiringCache, now: int)
      requires c.Valid() && c.time <= now
      modifies c
      ensures c.Valid() && c.time == now
      ensures c.items == Uncapped(c.config, old(c.items), Op.DeleteExpired, now).items
    {
      var _ := c.DeleteExpired(now);
    }

    static method Empty(c: ExpiringCache, now: int)
      requires c.Valid() && c.time <= now
      modifies c
      ensures c.Valid() && c.time == now && c.items == map[]
    {
      c.Flush(now);
    }

    // Shard i reads the clock for itself, at nows[i].
    method DeleteExpired(nows: seq<int>)
      requires Valid() && |nows| == |cs| && time <= nows[0]
      requires forall i, j :: 0 <= i < j < |nows| ==> nows[i] <= nows[j]
      modifies this, cs
      ensures Valid() && time == nows[|nows| - 1]
      ensures whole == Swept(old(whole), seed, nows) && Thinner(whole, old(whole), time)
    {
      hide Swept, Thinner, Home, Uncapped;
      ghost var parts := Parts();
      ghost var end := nows[|nows| - 1];
      CleanAll(nows);
      SweptTogether(cs[0].config, parts, Parts(), whole, seed, nows);
      SweptIsThinner(whole, seed, nows, end);
      whole, time := Swept(whole, seed, nows), end;
    }

    // Every shard after its own cleaning.
    method CleanAll(nows: seq<int>)
      requires |nows| == |cs|
      requires forall i, j :: 0 <= i < j < |cs| ==> cs[i] != cs[j]
      requires forall i :: 0 <= i < |cs| ==> cs[i].Valid() && cs[i].time <= nows[i]
      modifies cs
      ensures forall i :: 0 <= i < |cs| ==> cs[i].Valid() && cs[i].time == nows[i]
      ensures forall i :: 0 <= i < |cs| ==>
                cs[i].items == Uncapped(cs[i].config, old(cs[i].items), Op.DeleteExpired, nows[i]).items
    {
      hide Uncapped, ExpiringCache.Valid;
      for i := 0 to |cs|
        invariant forall j :: 0 <= j < i ==> cs[j].Valid() && cs[j].time == nows[j]
        invariant forall j :: 0 <= j < i ==>
                    cs[j].items == Uncapped(cs[j].config, old(cs[j].items), Op.DeleteExpired, nows[j]).items
        invariant forall j :: i <= j < |cs| ==> cs[j].Valid() && unchanged(cs[j])
      {
        Clean(cs[i], nows[i]);
      }
    }

    method Flush(now: int)
      requires Valid() && now >= time
      modifies this, cs
      ensures Valid() && time == now && whole == map[]
    {
      hide Home;
      ghost var parts := Parts();
      EmptyAll(now);
      AllShardsStep(cs[0].config, parts, Parts(), whole, seed, Op.Flush, now);
      whole, time := map[], now;
    }

    method EmptyAll(now: int)
      requires forall i, j :: 0 <= i < j < |cs| ==> cs[i] != cs[j]
      requires forall i :: 0 <= i < |cs| ==> cs[i].Valid() && cs[i].time <= now
      modifies cs
      ensures forall i :: 0 <= i < |cs| ==> cs[i].Valid() && cs[i].time == now && cs[i].items == map[]
    {
      hide ExpiringCache.Valid;
      for i := 0 to |cs|
        invariant forall j :: 0 <= j < i ==> cs[j].Valid() && cs[j].time == now && cs[j].items == map[]
        invariant forall j :: i <= j < |cs| ==> cs[j].Valid() && unchanged(cs[j])
      {
        Empty(cs[i], now);
      }
    }

    // Keep the ghost view up to date after shard Home(op.k) performed op.
    ghost method Follow(parts: seq<Items>, op: Op, now: int, out: Out)
      requires Keyed(op) && |cs| > 0 && now >= time
      requires forall i, j :: 0 <= i < j < |cs| ==> cs[i] != cs[j]
      requires forall i :: 0 <= i < |cs| ==> cs[i].Valid() && cs[i].time <= now && cs[i].config == cs[0].config
      requires |parts| == |cs| && Together(parts, whole, seed)
      requires var i := Home(seed, op.k, |cs|);
               Effect(cs[i].items, out) == Step(cs[i].config, parts[i], op, now) && Parts() == parts[i := cs[i].items]
      modifies this
      ensures Valid() && time == now
      ensures var i := Home(seed, op.k, |cs|);
              if Meets(cs[i].config, parts[i], op) then
                whole == old(whole) && out == if cs[i].config.janitor then Full else Crashed
              else Effect(whole, out) == Uncapped(cs[i].config, old(whole), op, now)
    {
      hide Uncapped, Home;
      var i := Home(seed, op.k, |cs|);
      ShardStep(cs[i].config, parts, whole, seed, op, now);
      if Meets(cs[i].config, parts[i], op) {
        assert parts[i := cs[i].items] == parts;
      } else {
        whole := Uncapped(cs[i].config, whole, op, now).items;
      }
      time := now;
    }
  }
}
