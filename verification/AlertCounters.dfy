/** The two counters behind alert firing: threshold, window and cooldown kept in memory
    (`localCounterStore`) or in Redis keys (`redisCounterStore`). */
module AlertCounters {
  import opened Wrappers

  datatype Rule = Rule(threshold: int, window: int, cooldown: int)

  // ---------- in memory ----------

  datatype LocalCounter = LocalCounter(count: int, windowEnds: int, cooldownEnds: Option<int>)

  predicate Rollover(c: Option<LocalCounter>, now: int) {
    c.None? || now > c.value.windowEnds
  }

  function LocalStep(c: Option<LocalCounter>, rule: Rule, delta: int, now: int): (LocalCounter, bool) {
    var current := if Rollover(c, now) then LocalCounter(0, now + rule.window, None) else c.value;
    var counted := current.(count := current.count + delta);
    if counted.count < rule.threshold || (counted.cooldownEnds.Some? && now < counted.cooldownEnds.value) then (counted, false)
    else (counted.(count := 0, cooldownEnds := Some(now + rule.cooldown)), true)
  }

  class LocalCounterStore {
    var counts: map<string, LocalCounter>

    method ShouldFire(key: string, delta: int, rule: Rule, now: int) returns (fire: bool)
      modifies this
      ensures var before := if key in old(counts) then Some(old(counts)[key]) else None;
              var (after, answer) := LocalStep(before, rule, delta, now);
              counts == old(counts)[key := after] && fire == answer
    {
      var c: LocalCounter;
      if key !in counts || now > counts[key].windowEnds {
        c := LocalCounter(0, now + rule.window, None);
      } else {
        c := counts[key];
      }
      c := c.(count := c.count + delta);
      if c.count < rule.threshold {
        counts := counts[key := c];
        return false;
      }
      if c.cooldownEnds.Some? && now < c.cooldownEnds.value {
        counts := counts[key := c];
        return false;
      }
      counts := counts[key := c.(cooldownEnds := Some(now + rule.cooldown), count := 0)];
      return true;
    }
  }

  // ---------- in Redis ----------

  /** A counter key with its expiry, and a cooldown key; a cooldown set without a TTL never expires. */
  datatype CountKey = CountKey(count: int, expires: int)
  datatype CooldownKey = Until(expires: int) | Forever
  datatype RedisCounter = RedisCounter(count: Option<CountKey>, cooldown: Option<CooldownKey>)

  const NO_KEYS := RedisCounter(None, None)

  function LiveCount(k: Option<CountKey>, now: int): Option<CountKey> {
    if k.Some? && k.value.expires <= now then None else k
  }

  predicate CoolingDown(k: Option<CooldownKey>, now: int) {
    k.Some? && (k.value.Forever? || now < k.value.expires)
  }

  function NewCooldown(cooldown: int, now: int): CooldownKey {
    if cooldown > 0 then Until(now + cooldown) else Forever
  }

  /** INCRBY, then EXPIRE when the result shows the key is new, then SET NX of the cooldown, then DEL. */
  function RedisStep(r: RedisCounter, rule: Rule, delta: int, now: int): (RedisCounter, bool) {
    var live := LiveCount(r.count, now);
    var n := (if live.Some? then live.value.count else 0) + delta;
    var expires := if live.None? || n == delta then now + rule.window else live.value.expires;
    var counted := r.(count := Some(CountKey(n, expires)));
    if n < rule.threshold || CoolingDown(r.cooldown, now) then (counted, false)
    else (RedisCounter(None, Some(NewCooldown(rule.cooldown, now))), true)
  }

  class RedisCounterStore {
    var countKeys: map<string, CountKey>
    var cooldownKeys: map<string, CooldownKey>

    ghost function View(key: string): RedisCounter
      reads this
    {
      RedisCounter(if key in countKeys then Some(countKeys[key]) else None,
                   if key in cooldownKeys then Some(cooldownKeys[key]) else None)
    }

    method IncrBy(key: string, delta: int, now: int) returns (n: int)
      modifies this`countKeys
      ensures var live := LiveCount(old(View(key)).count, now);
              n == (if live.Some? then live.value.count else 0) + delta
              && countKeys == old(countKeys)[key := CountKey(n, if live.Some? then live.value.expires else now)]
    {
      if key in countKeys && now < countKeys[key].expires {
        n := countKeys[key].count + delta;
        countKeys := countKeys[key := CountKey(n, countKeys[key].expires)];
      } else {
        n := delta;
        countKeys := countKeys[key := CountKey(n, now)];
      }
    }

    method ShouldFire(key: string, delta: int, rule: Rule, now: int) returns (fire: bool)
      modifies this
      ensures (View(key), fire) == RedisStep(old(View(key)), rule, delta, now)
      ensures forall other :: other != key ==> View(other) == old(View(other))
    {
      var n := IncrBy(key, delta, now);
      if n == delta {
        countKeys := countKeys[key := CountKey(n, now + rule.window)];
      }
      if n < rule.threshold {
        return false;
      }
      if key in cooldownKeys && CoolingDown(Some(cooldownKeys[key]), now) {
        return false;
      }
      cooldownKeys := cooldownKeys[key := NewCooldown(rule.cooldown, now)];
      countKeys := countKeys - {key};
      return true;
    }
  }

  // ---------- runs of calls for one key ----------

  datatype Call = Call(at: int, delta: int)

  ghost predicate Timely(calls: seq<Call>) {
    && (forall i, j :: 0 <= i <= j < |calls| ==> calls[i].at <= calls[j].at)
    && (forall i :: 0 <= i < |calls| ==> calls[i].delta > 0)
  }

  ghost function Local(rule: Rule, calls: seq<Call>): Option<LocalCounter> {
    if calls == [] then None
    else Some(LocalStep(Local(rule, calls[..|calls| - 1]), rule, calls[|calls| - 1].delta, calls[|calls| - 1].at).0)
  }

  /** Whether call i of the run fires. */
  ghost predicate LocalFires(rule: Rule, calls: seq<Call>, i: nat)
    requires i < |calls|
  {
    LocalStep(Local(rule, calls[..i]), rule, calls[i].delta, calls[i].at).1
  }

  ghost function Redis(rule: Rule, calls: seq<Call>): RedisCounter {
    if calls == [] then NO_KEYS
    else RedisStep(Redis(rule, calls[..|calls| - 1]), rule, calls[|calls| - 1].delta, calls[|calls| - 1].at).0
  }

  ghost predicate RedisFires(rule: Rule, calls: seq<Call>, i: nat)
    requires i < |calls|
  {
    RedisStep(Redis(rule, calls[..i]), rule, calls[i].delta, calls[i].at).1
  }

  ghost function Events(calls: seq<Call>): int {
    if calls == [] then 0 else Events(calls[..|calls| - 1]) + calls[|calls| - 1].delta
  }

  lemma EventsAppend(calls: seq<Call>, j: nat)
    requires j < |calls|
    ensures Events(calls[j..]) == Events(calls[j..|calls| - 1]) + calls[|calls| - 1].delta
  {
    assert calls[j..][..|calls[j..]| - 1] == calls[j..|calls| - 1];
  }

  lemma PrefixTimely(calls: seq<Call>, n: nat)
    requires Timely(calls) && n <= |calls|
    ensures Timely(calls[..n])
  {
  }

  // ---------- what backs a fire ----------

  ghost predicate NoLocalFire(rule: Rule, calls: seq<Call>, j: nat, i: nat) {
    forall k :: j <= k < i && k < |calls| ==> !LocalFires(rule, calls, k)
  }

  ghost predicate NoRedisFire(rule: Rule, calls: seq<Call>, j: nat, i: nat) {
    forall k :: j <= k < i && k < |calls| ==> !RedisFires(rule, calls, k)
  }

  lemma FiresPrefix(rule: Rule, calls: seq<Call>, n: nat, i: nat)
    requires i < n <= |calls|
    ensures LocalFires(rule, calls[..n], i) == LocalFires(rule, calls, i)
    ensures RedisFires(rule, calls[..n], i) == RedisFires(rule, calls, i)
  {
    assert calls[..n][..i] == calls[..i];
  }

  /** Fires of a prefix are the run's own. */
  lemma NoFireExtends(rule: Rule, calls: seq<Call>, n: nat, j: nat)
    requires n <= |calls|
    ensures NoLocalFire(rule, calls[..n], j, n) <==> NoLocalFire(rule, calls, j, n)
    ensures NoRedisFire(rule, calls[..n], j, n) <==> NoRedisFire(rule, calls, j, n)
  {
    hide LocalFires, RedisFires;
    forall k: nat | k < n
      ensures LocalFires(rule, calls[..n], k) == LocalFires(rule, calls, k) && RedisFires(rule, calls[..n], k) == RedisFires(rule, calls, k)
    {
      FiresPrefix(rule, calls, n, k);
    }
  }

  lemma NoFireStep(rule: Rule, calls: seq<Call>, n: nat, j: nat)
    requires n < |calls|
    ensures NoLocalFire(rule, calls, j, n) && !LocalFires(rule, calls, n) ==> NoLocalFire(rule, calls, j, n + 1)
    ensures NoRedisFire(rule, calls, j, n) && !RedisFires(rule, calls, n) ==> NoRedisFire(rule, calls, j, n + 1)
    ensures j >= n ==> NoLocalFire(rule, calls, j, n) && NoRedisFire(rule, calls, j, n)
    ensures j > n ==> NoLocalFire(rule, calls, j, n + 1) && NoRedisFire(rule, calls, j, n + 1)
  {
    hide LocalFires, RedisFires;
  }

  /** The running count is the events of the calls from `j` on, and the window they were counted in began no later
      than call `j`. */
  ghost predicate LocalCounts(rule: Rule, calls: seq<Call>, j: nat) {
    && j <= |calls|
    && (calls != [] ==>
          && Local(rule, calls).value.count == Events(calls[j..])
          && Local(rule, calls).value.windowEnds <= calls[|calls| - 1].at + rule.window
          && (j < |calls| ==> Local(rule, calls).value.windowEnds <= calls[j].at + rule.window))
  }

  lemma {:induction false} LocalCounting(rule: Rule, calls: seq<Call>) returns (j: nat)
    requires Timely(calls)
    ensures LocalCounts(rule, calls, j) && NoLocalFire(rule, calls, j, |calls|)
  {
    if calls == [] {
      j := 0;
    } else {
      var n := |calls| - 1;
      PrefixTimely(calls, n);
      var i := LocalCounting(rule, calls[..n]);
      NoFireExtends(rule, calls, n, i);
      j := LocalCountsNext(rule, calls, i);
      NoFireStep(rule, calls, n, j);
    }
  }

  lemma LocalCountsNext(rule: Rule, calls: seq<Call>, i: nat) returns (j: nat)
    requires calls != [] && Timely(calls) && LocalCounts(rule, calls[..|calls| - 1], i)
    ensures LocalCounts(rule, calls, j)
    ensures j == |calls| || (!LocalFires(rule, calls, |calls| - 1) && (j == i || j == |calls| - 1))
  {
    var n := |calls| - 1;
    var before, call := calls[..n], calls[n];
    var c := Local(rule, before);
    assert Local(rule, calls) == Some(LocalStep(c, rule, call.delta, call.at).0);
    assert LocalFires(rule, calls, n) == LocalStep(c, rule, call.delta, call.at).1;
    assert n > 0 ==> calls[n - 1].at <= call.at;
    hide Local, LocalFires, Timely;
    assert Events(calls[n + 1..]) == 0 && Events(calls[n..n]) == 0;
    if LocalFires(rule, calls, n) {
      j := n + 1;
    } else if Rollover(c, call.at) {
      j := n;
      EventsAppend(calls, n);
    } else {
      j := i;
      assert before[i..] == calls[i..n];
      EventsAppend(calls, i);
    }
  }

  /** Calls j..i carry at least the threshold within one window length. */
  ghost predicate Backed(rule: Rule, calls: seq<Call>, j: nat, i: nat) {
    j <= i < |calls| && calls[i].at - calls[j].at <= rule.window && Events(calls[j..i + 1]) >= rule.threshold
  }

  /** Every fire of the in-memory counter is backed by threshold events within one window, none of them
      counted for an earlier fire. */
  lemma LocalFireBacked(rule: Rule, calls: seq<Call>, i: nat)
    requires Timely(calls) && i < |calls| && LocalFires(rule, calls, i) && rule.window >= 0
    ensures exists j: nat :: Backed(rule, calls, j, i) && NoLocalFire(rule, calls, j, i)
  {
    var before, upto := calls[..i], calls[..i + 1];
    PrefixTimely(calls, i);
    var j := LocalCounting(rule, before);
    if Rollover(Local(rule, before), calls[i].at) || j == i {
      j := i;
      assert calls[i..i] == [] && before[i..] == [];
    } else {
      assert before[j..] == calls[j..i];
    }
    assert upto[..i] == before;
    EventsAppend(upto, j);
    assert upto[j..] == calls[j..i + 1] && upto[j..i] == calls[j..i];
    NoFireExtends(rule, calls, i, j);
    assert Backed(rule, calls, j, i) && NoLocalFire(rule, calls, j, i);
  }

  ghost predicate RedisCounts(rule: Rule, calls: seq<Call>, j: nat) {
    && j <= |calls|
    && var key := Redis(rule, calls).count;
    && (key.Some? ==> j < |calls| && key.value.count == Events(calls[j..]) && key.value.count > 0
                      && key.value.expires == calls[j].at + rule.window)
  }

  lemma {:induction false} RedisCounting(rule: Rule, calls: seq<Call>) returns (j: nat)
    requires Timely(calls)
    ensures RedisCounts(rule, calls, j) && NoRedisFire(rule, calls, j, |calls|)
  {
    if calls == [] {
      j := 0;
    } else {
      var n := |calls| - 1;
      PrefixTimely(calls, n);
      var i := RedisCounting(rule, calls[..n]);
      NoFireExtends(rule, calls, n, i);
      j := RedisCountsNext(rule, calls, i);
      NoFireStep(rule, calls, n, j);
    }
  }

  lemma RedisCountsNext(rule: Rule, calls: seq<Call>, i: nat) returns (j: nat)
    requires calls != [] && Timely(calls) && RedisCounts(rule, calls[..|calls| - 1], i)
    ensures RedisCounts(rule, calls, j)
    ensures j == |calls| || (!RedisFires(rule, calls, |calls| - 1) && (j == i || j == |calls| - 1))
  {
    var n := |calls| - 1;
    var before, call := calls[..n], calls[n];
    var r := Redis(rule, before);
    assert Redis(rule, calls) == RedisStep(r, rule, call.delta, call.at).0;
    assert RedisFires(rule, calls, n) == RedisStep(r, rule, call.delta, call.at).1;
    assert call.delta > 0;
    hide Redis, RedisFires, Timely;
    assert Events(calls[n..n]) == 0;
    if RedisFires(rule, calls, n) {
      j := n + 1;
    } else if LiveCount(r.count, call.at).None? {
      j := n;
      EventsAppend(calls, n);
    } else {
      j := i;
      assert before[i..] == calls[i..n];
      EventsAppend(calls, i);
    }
  }

  /** The same for the Redis counter. */
  lemma RedisFireBacked(rule: Rule, calls: seq<Call>, i: nat)
    requires Timely(calls) && i < |calls| && RedisFires(rule, calls, i) && rule.window >= 0
    ensures exists j: nat :: Backed(rule, calls, j, i) && NoRedisFire(rule, calls, j, i)
  {
    var before, upto := calls[..i], calls[..i + 1];
    PrefixTimely(calls, i);
    var j := RedisCounting(rule, before);
    if LiveCount(Redis(rule, before).count, calls[i].at).None? {
      j := i;
      assert calls[i..i] == [];
    } else {
      assert before[j..] == calls[j..i];
    }
    assert upto[..i] == before;
    EventsAppend(upto, j);
    assert upto[j..] == calls[j..i + 1] && upto[j..i] == calls[j..i];
    NoFireExtends(rule, calls, i, j);
    assert Backed(rule, calls, j, i) && NoRedisFire(rule, calls, j, i);
  }

  // ---------- exactly when a call fires, in terms of the calls ----------

  /** The events of the calls a..b-1. */
  ghost function Sum(calls: seq<Call>, a: nat, b: nat): int
    requires b <= |calls|
  {
    if a >= b then 0 else Sum(calls, a, b - 1) + calls[b - 1].delta
  }

  /** The call that opened the window call i falls in: a call after the end of a window opens the next. */
  ghost function WindowStart(rule: Rule, calls: seq<Call>, i: nat): (w: nat)
    requires i < |calls|
    ensures w <= i
  {
    if i == 0 then 0
    else
      var w := WindowStart(rule, calls, i - 1);
      if calls[i].at > calls[w].at + rule.window then i else w
  }

  /** The first call counted at call i: the window's first, or the one after its last fire. */
  ghost function CountStart(rule: Rule, calls: seq<Call>, i: nat): (j: nat)
    requires i < |calls|
    ensures j <= i
  {
    if WindowStart(rule, calls, i) == i || LocalFires(rule, calls, i - 1) then i else CountStart(rule, calls, i - 1)
  }

  /** The last fire before call i in its window. */
  ghost function LastFire(rule: Rule, calls: seq<Call>, i: nat): (k: Option<nat>)
    requires i < |calls|
    ensures k.Some? ==> k.value < i
  {
    if WindowStart(rule, calls, i) == i then None
    else if LocalFires(rule, calls, i - 1) then Some(i - 1)
    else LastFire(rule, calls, i - 1)
  }

  ghost predicate CoolingSince(rule: Rule, calls: seq<Call>, k: Option<nat>, i: nat)
    requires i < |calls| && (k.Some? ==> k.value < |calls|)
  {
    k.Some? && calls[i].at < calls[k.value].at + rule.cooldown
  }

  lemma LocalAt(rule: Rule, calls: seq<Call>, i: nat)
    requires i < |calls|
    ensures Local(rule, calls[..i + 1]) == Some(LocalStep(Local(rule, calls[..i]), rule, calls[i].delta, calls[i].at).0)
  {
    assert calls[..i + 1][..i] == calls[..i];
  }

  /** What the counter holds after the first n calls. */
  ghost predicate CounterIs(rule: Rule, calls: seq<Call>, n: nat)
    requires n <= |calls|
  {
    n > 0 ==>
      var c, i := Local(rule, calls[..n]).value, n - 1;
      && c.windowEnds == calls[WindowStart(rule, calls, i)].at + rule.window
      && c.count == (if LocalFires(rule, calls, i) then 0 else Sum(calls, CountStart(rule, calls, i), n))
      && var k := if LocalFires(rule, calls, i) then Some(i) else LastFire(rule, calls, i);
      && c.cooldownEnds == if k.None? then None else Some(calls[k.value].at + rule.cooldown)
  }

  /** The counter as call i finds it, after a rollover if the window is over. */
  lemma CounterNext(rule: Rule, calls: seq<Call>, i: nat)
    requires i < |calls| && CounterIs(rule, calls, i)
    ensures CounterIs(rule, calls, i + 1)
    ensures RollsOver(rule, calls, i) <==> WindowStart(rule, calls, i) == i
    ensures LocalFires(rule, calls, i) <==>
            Sum(calls, CountStart(rule, calls, i), i + 1) >= rule.threshold && !CoolingSince(rule, calls, LastFire(rule, calls, i), i)
  {
    var c, call, j, k := Local(rule, calls[..i]), calls[i], CountStart(rule, calls, i), LastFire(rule, calls, i);
    LocalAt(rule, calls, i);
    if i == 0 {
      assert calls[..0] == [];
    }
    assert c.None? <==> i == 0;
    var reset := Rollover(c, call.at);
    assert Sum(calls, i, i) == 0;
    assert reset <==> WindowStart(rule, calls, i) == i;
    assert Sum(calls, j, i + 1) == call.delta + (if reset then 0 else c.value.count) by {
      hide Local, LocalFires, LocalStep;
    }
    assert (if reset then None else c.value.cooldownEnds) == (if k.None? then None else Some(calls[k.value].at + rule.cooldown)) by {
      hide Local, LocalFires, LocalStep;
    }
    assert LocalFires(rule, calls, i) == LocalStep(c, rule, call.delta, call.at).1;
    hide Local, LocalFires, CountStart, LastFire;
  }

  lemma {:induction false} LocalCounted(rule: Rule, calls: seq<Call>, i: nat)
    requires i < |calls|
    ensures CounterIs(rule, calls, i)
  {
    if i > 0 {
      hide CounterIs;
      LocalCounted(rule, calls, i - 1);
      CounterNext(rule, calls, i - 1);
    }
  }

  /** A call fires in memory exactly when the events counted since the window's first call or its last fire reach the
      threshold and no cooldown of a fire in this window runs. */
  lemma LocalFiresExactly(rule: Rule, calls: seq<Call>, i: nat)
    requires i < |calls|
    ensures LocalFires(rule, calls, i) <==>
            Sum(calls, CountStart(rule, calls, i), i + 1) >= rule.threshold && !CoolingSince(rule, calls, LastFire(rule, calls, i), i)
    ensures RollsOver(rule, calls, i) <==> WindowStart(rule, calls, i) == i
  {
    hide CounterIs;
    LocalCounted(rule, calls, i);
    CounterNext(rule, calls, i);
  }

  /** The call that created the counter key call i counts in: a fire deletes the key, and it expires with its window. */
  ghost function KeyStart(rule: Rule, calls: seq<Call>, i: nat): (j: nat)
    requires i < |calls|
    ensures j <= i
  {
    if i == 0 || RedisFires(rule, calls, i - 1) then i
    else
      var j := KeyStart(rule, calls, i - 1);
      if calls[j].at + rule.window <= calls[i].at then i else j
  }

  lemma RedisAt(rule: Rule, calls: seq<Call>, i: nat)
    requires i < |calls|
    ensures Redis(rule, calls[..i + 1]) == RedisStep(Redis(rule, calls[..i]), rule, calls[i].delta, calls[i].at).0
  {
    assert calls[..i + 1][..i] == calls[..i];
  }

  lemma {:induction false} SumPositive(calls: seq<Call>, a: nat, b: nat)
    requires b <= |calls| && Timely(calls)
    ensures a < b ==> Sum(calls, a, b) > 0
  {
    if a < b {
      SumPositive(calls, a, b - 1);
    }
  }

  lemma RedisStepValue(r: RedisCounter, rule: Rule, delta: int, now: int)
    requires delta > 0 && (r.count.Some? ==> r.count.value.count > 0)
    ensures var live := LiveCount(r.count, now);
            var n := delta + if live.Some? then live.value.count else 0;
            var (after, fire) := RedisStep(r, rule, delta, now);
            && (fire <==> n >= rule.threshold && !CoolingDown(r.cooldown, now))
            && after.count == if fire then None else Some(CountKey(n, if live.Some? then live.value.expires else now + rule.window))
  {
  }

  /** The counter key after the first n calls. */
  ghost predicate KeyIs(rule: Rule, calls: seq<Call>, n: nat)
    requires n <= |calls|
  {
    var key := Redis(rule, calls[..n]).count;
    if n == 0 || RedisFires(rule, calls, n - 1) then key == None
    else
      var j := KeyStart(rule, calls, n - 1);
      key == Some(CountKey(Sum(calls, j, n), calls[j].at + rule.window)) && Sum(calls, j, n) > 0
  }

  /** The key as call i finds it. */
  lemma KeyFound(rule: Rule, calls: seq<Call>, i: nat)
    requires i < |calls| && KeyIs(rule, calls, i)
    ensures var key, j := Redis(rule, calls[..i]).count, KeyStart(rule, calls, i);
            var live := LiveCount(key, calls[i].at);
            && (key.Some? ==> key.value.count > 0)
            && Sum(calls, j, i + 1) == calls[i].delta + (if live.Some? then live.value.count else 0)
            && calls[j].at + rule.window == if live.Some? then live.value.expires else calls[i].at + rule.window
  {
    hide Redis, RedisFires;
    assert Sum(calls, i, i) == 0;
  }

  /** What one call does to the key and whether it fires. */
  lemma KeyNext(rule: Rule, calls: seq<Call>, i: nat)
    requires i < |calls| && Timely(calls) && KeyIs(rule, calls, i)
    ensures KeyIs(rule, calls, i + 1)
    ensures RedisFires(rule, calls, i) <==>
            Sum(calls, KeyStart(rule, calls, i), i + 1) >= rule.threshold && !CoolingDown(Redis(rule, calls[..i]).cooldown, calls[i].at)
  {
    var r, call := Redis(rule, calls[..i]), calls[i];
    KeyFound(rule, calls, i);
    assert call.delta > 0;
    SumPositive(calls, KeyStart(rule, calls, i), i + 1);
    RedisAt(rule, calls, i);
    RedisStepValue(r, rule, call.delta, call.at);
    assert RedisFires(rule, calls, i) == RedisStep(r, rule, call.delta, call.at).1;
    hide Redis, RedisFires, RedisStep, CoolingDown, Timely, KeyStart, Sum;
  }

  lemma {:induction false} RedisCounted(rule: Rule, calls: seq<Call>, i: nat)
    requires i < |calls| && Timely(calls)
    ensures KeyIs(rule, calls, i)
    ensures RedisFires(rule, calls, i) <==>
            Sum(calls, KeyStart(rule, calls, i), i + 1) >= rule.threshold && !CoolingDown(Redis(rule, calls[..i]).cooldown, calls[i].at)
  {
    if i == 0 {
      assert calls[..0] == [];
    } else {
      hide KeyIs, RedisFires, KeyStart, Timely, CoolingDown;
      RedisCounted(rule, calls, i - 1);
      KeyNext(rule, calls, i - 1);
    }
    KeyNext(rule, calls, i);
  }

  /** A call fires in Redis exactly when the events counted since its key was created reach the threshold and every
      earlier fire of the key lies at least a positive cooldown back. */
  lemma RedisFiresExactly(rule: Rule, calls: seq<Call>, i: nat)
    requires i < |calls| && Timely(calls)
    ensures RedisFires(rule, calls, i) <==>
            && Sum(calls, KeyStart(rule, calls, i), i + 1) >= rule.threshold
            && forall k :: 0 <= k < i && RedisFires(rule, calls, k) ==> rule.cooldown > 0 && calls[k].at + rule.cooldown <= calls[i].at
  {
    RedisCounted(rule, calls, i);
    hide Redis, RedisFires, KeyStart, Timely;
    if RedisFires(rule, calls, i) {
      forall k | 0 <= k < i && RedisFires(rule, calls, k) ensures rule.cooldown > 0 && calls[k].at + rule.cooldown <= calls[i].at {
        RedisFiresApart(rule, calls, k, i);
      }
    } else if Redis(rule, calls[..i]).cooldown.Some? {
      var k := RedisCooldownFrom(rule, calls[..i]);
      FiresPrefix(rule, calls, i, k);
    }
  }

  // ---------- cooldown ----------

  lemma {:induction false} RedisCooldownHeld(rule: Rule, calls: seq<Call>, k: nat)
    requires Timely(calls) && k < |calls| && RedisFires(rule, calls, k)
    ensures var key := Redis(rule, calls).cooldown;
            key.Some? && (key.value.Forever? <==> rule.cooldown <= 0)
            && (rule.cooldown > 0 ==> calls[k].at + rule.cooldown <= key.value.expires)
    decreases |calls|
  {
    var n := |calls| - 1;
    if k < n {
      PrefixTimely(calls, n);
      FiresPrefix(rule, calls, n, k);
      RedisCooldownHeld(rule, calls[..n], k);
      assert calls[k].at <= calls[n].at;
    }
  }

  /** Two fires of one key in Redis are at least the cooldown apart; with no cooldown there is no second fire,
      because a key set without a TTL stays. */
  lemma RedisFiresApart(rule: Rule, calls: seq<Call>, k: nat, i: nat)
    requires Timely(calls) && k < i < |calls| && RedisFires(rule, calls, k) && RedisFires(rule, calls, i)
    ensures rule.cooldown > 0 && calls[k].at + rule.cooldown <= calls[i].at
  {
    PrefixTimely(calls, i);
    FiresPrefix(rule, calls, i, k);
    RedisCooldownHeld(rule, calls[..i], k);
  }

  /** Call m found its window over and started a new one. */
  ghost predicate RollsOver(rule: Rule, calls: seq<Call>, m: nat)
    requires m < |calls|
  {
    Rollover(Local(rule, calls[..m]), calls[m].at)
  }

  lemma {:induction false} LocalCooldownHeld(rule: Rule, calls: seq<Call>, k: nat)
    requires Timely(calls) && k < |calls| && LocalFires(rule, calls, k)
    requires forall m :: k < m < |calls| ==> !RollsOver(rule, calls, m)
    ensures var c := Local(rule, calls).value;
            c.cooldownEnds.Some? && calls[k].at + rule.cooldown <= c.cooldownEnds.value
    decreases |calls|
  {
    var n := |calls| - 1;
    if k < n {
      PrefixTimely(calls, n);
      FiresPrefix(rule, calls, n, k);
      forall m | k < m < n ensures !RollsOver(rule, calls[..n], m) {
        assert calls[..n][..m] == calls[..m];
        assert !RollsOver(rule, calls, m);
      }
      LocalCooldownHeld(rule, calls[..n], k);
      assert calls[k].at <= calls[n].at;
      assert !RollsOver(rule, calls, n);
    }
  }

  /** In memory, two fires are at least the cooldown apart unless a window rollover lies between them. */
  lemma LocalFiresApart(rule: Rule, calls: seq<Call>, k: nat, i: nat)
    requires Timely(calls) && k < i < |calls| && LocalFires(rule, calls, k) && LocalFires(rule, calls, i)
    requires forall m :: k < m <= i ==> !RollsOver(rule, calls, m)
    ensures calls[k].at + rule.cooldown <= calls[i].at
  {
    PrefixTimely(calls, i);
    FiresPrefix(rule, calls, i, k);
    forall m | k < m < i ensures !RollsOver(rule, calls[..i], m) {
      assert calls[..i][..m] == calls[..m];
      assert !RollsOver(rule, calls, m);
    }
    LocalCooldownHeld(rule, calls[..i], k);
    assert !RollsOver(rule, calls, i);
  }

  /** A call after k and before n found its window over. */
  ghost predicate RolledSince(rule: Rule, calls: seq<Call>, k: nat, n: nat) {
    exists m :: k < m < n && m < |calls| && RollsOver(rule, calls, m)
  }

  lemma RolledExtends(rule: Rule, calls: seq<Call>, k: nat, n: nat)
    requires n <= |calls|
    ensures RolledSince(rule, calls[..n], k, n) <==> RolledSince(rule, calls, k, n)
    ensures k < n < |calls| ==> (RolledSince(rule, calls, k, n + 1) <==> RolledSince(rule, calls, k, n) || RollsOver(rule, calls, n))
  {
    forall m: nat | m < n ensures RollsOver(rule, calls[..n], m) == RollsOver(rule, calls, m) {
      assert calls[..n][..m] == calls[..m];
    }
  }

  /** After the fire at k and none since, the cooldown is that fire's, or forgotten by a rollover. */
  lemma {:induction false} LocalCooldownSince(rule: Rule, calls: seq<Call>, k: nat)
    requires Timely(calls) && k < |calls| && LocalFires(rule, calls, k) && NoLocalFire(rule, calls, k + 1, |calls|)
    ensures Local(rule, calls).value.cooldownEnds ==
            if RolledSince(rule, calls, k, |calls|) then None else Some(calls[k].at + rule.cooldown)
    decreases |calls|
  {
    var n := |calls| - 1;
    if k < n {
      var before, call := calls[..n], calls[n];
      assert !LocalFires(rule, calls, n);
      assert NoLocalFire(rule, calls, k + 1, n);
      PrefixTimely(calls, n);
      FiresPrefix(rule, calls, n, k);
      NoFireExtends(rule, calls, n, k + 1);
      RolledExtends(rule, calls, k, n);
      LocalCooldownSince(rule, before, k);
      assert Local(rule, calls) == Some(LocalStep(Local(rule, before), rule, call.delta, call.at).0);
      assert !LocalStep(Local(rule, before), rule, call.delta, call.at).1;
      assert Local(rule, before).Some?;
      hide RolledSince, NoLocalFire, Timely, Local, LocalFires;
    }
  }

  /** The count call i reaches is the sum of the events since its count started. */
  lemma CountedAt(rule: Rule, calls: seq<Call>, i: nat)
    requires i < |calls|
    ensures var c := Local(rule, calls[..i]);
            (if Rollover(c, calls[i].at) then 0 else c.value.count) + calls[i].delta == Sum(calls, CountStart(rule, calls, i), i + 1)
  {
    LocalCounted(rule, calls, i);
    CounterNext(rule, calls, i);
    assert Sum(calls, i, i) == 0;
    if i == 0 {
      assert calls[..0] == [];
    }
    hide Local, LocalFires;
  }

  /** A rollover forgets the cooldown: the next time the threshold is reached after the fire at k, the counter fires
      exactly when the cooldown is over or a window has rolled over since. */
  lemma LocalFiresAgain(rule: Rule, calls: seq<Call>, k: nat, i: nat)
    requires Timely(calls) && k < i < |calls| && LocalFires(rule, calls, k) && NoLocalFire(rule, calls, k + 1, i)
    requires Sum(calls, CountStart(rule, calls, i), i + 1) >= rule.threshold
    ensures LocalFires(rule, calls, i) <==>
            calls[k].at + rule.cooldown <= calls[i].at || RolledSince(rule, calls, k, i + 1)
  {
    var before := calls[..i];
    PrefixTimely(calls, i);
    FiresPrefix(rule, calls, i, k);
    NoFireExtends(rule, calls, i, k + 1);
    RolledExtends(rule, calls, k, i);
    LocalCooldownSince(rule, before, k);
    LocalCounted(rule, calls, i);
    CounterNext(rule, calls, i);
    CountedAt(rule, calls, i);
  }

  /** One event a minute and a second apart, a window of a minute and a cooldown of an hour: both fire. */
  lemma LocalFiresInsideCooldown()
    ensures var rule, calls := Rule(1, 60, 3600), [Call(0, 1), Call(61, 1)];
            LocalFires(rule, calls, 0) && LocalFires(rule, calls, 1) && calls[1].at < calls[0].at + rule.cooldown
  {
    var calls := [Call(0, 1), Call(61, 1)];
    assert calls[..0] == [] && calls[..1] == [Call(0, 1)] && [Call(0, 1)][..0] == [];
  }

  // ---------- a fire withheld ----------

  /** A running Redis cooldown was set by a fire. */
  lemma {:induction false} RedisCooldownFrom(rule: Rule, calls: seq<Call>) returns (k: nat)
    requires Redis(rule, calls).cooldown.Some?
    ensures k < |calls| && RedisFires(rule, calls, k) && Redis(rule, calls).cooldown == Some(NewCooldown(rule.cooldown, calls[k].at))
  {
    var n := |calls| - 1;
    if RedisFires(rule, calls, n) {
      k := n;
    } else {
      k := RedisCooldownFrom(rule, calls[..n]);
      FiresPrefix(rule, calls, n, k);
    }
  }

  lemma {:induction false} LocalCooldownFrom(rule: Rule, calls: seq<Call>) returns (k: nat)
    requires calls != [] && Local(rule, calls).value.cooldownEnds.Some?
    ensures k < |calls| && LocalFires(rule, calls, k) && Local(rule, calls).value.cooldownEnds == Some(calls[k].at + rule.cooldown)
  {
    var n := |calls| - 1;
    if LocalFires(rule, calls, n) {
      k := n;
    } else {
      k := LocalCooldownFrom(rule, calls[..n]);
      FiresPrefix(rule, calls, n, k);
    }
  }

  /** With a threshold of one event, a call that does not fire comes within the cooldown of an earlier fire. */
  lemma RedisWithheld(rule: Rule, calls: seq<Call>, i: nat) returns (k: nat)
    requires Timely(calls) && i < |calls| && !RedisFires(rule, calls, i) && rule.threshold == 1 && rule.cooldown > 0
    ensures k < i && RedisFires(rule, calls, k) && calls[i].at < calls[k].at + rule.cooldown
  {
    PrefixTimely(calls, i);
    var j := RedisCounting(rule, calls[..i]);
    k := RedisCooldownFrom(rule, calls[..i]);
    FiresPrefix(rule, calls, i, k);
  }

  lemma LocalWithheld(rule: Rule, calls: seq<Call>, i: nat) returns (k: nat)
    requires Timely(calls) && i < |calls| && !LocalFires(rule, calls, i) && rule.threshold == 1 && rule.window >= 0
    ensures k < i && LocalFires(rule, calls, k) && calls[i].at < calls[k].at + rule.cooldown
  {
    PrefixTimely(calls, i);
    LocalCountNonNegative(rule, calls[..i]);
    k := LocalCooldownFrom(rule, calls[..i]);
    FiresPrefix(rule, calls, i, k);
  }

  lemma {:induction false} LocalCountNonNegative(rule: Rule, calls: seq<Call>)
    requires Timely(calls)
    ensures calls != [] ==> Local(rule, calls).value.count >= 0
  {
    if calls != [] {
      PrefixTimely(calls, |calls| - 1);
      LocalCountNonNegative(rule, calls[..|calls| - 1]);
    }
  }

  /** Calls more than a window apart that each reach the threshold all fire, whatever the cooldown. */
  lemma LocalFiresWhenApart(rule: Rule, calls: seq<Call>, i: nat)
    requires Timely(calls) && i < |calls| && rule.threshold <= calls[i].delta
    requires i > 0 ==> calls[i - 1].at + rule.window < calls[i].at
    ensures LocalFires(rule, calls, i)
  {
    if i > 0 {
      PrefixTimely(calls, i);
      var j := LocalCounting(rule, calls[..i]);
    }
  }

  // ---------- both stores agree within the first window ----------

  ghost predicate Agree(rule: Rule, calls: seq<Call>, c: LocalCounter, r: RedisCounter) {
    && calls != [] && c.windowEnds == calls[0].at + rule.window
    && c.count == (if r.count.Some? then r.count.value.count else 0)
    && (r.count.Some? ==> r.count.value.count > 0 && r.count.value.expires >= c.windowEnds)
    && (c.cooldownEnds.Some? <==> r.cooldown.Some?)
    && (c.cooldownEnds.Some? ==> r.cooldown == Some(Until(c.cooldownEnds.value)))
  }

  /** From reset state, until the first window ends, the two stores give the same answers. */
  lemma {:induction false} StoresAgree(rule: Rule, calls: seq<Call>)
    requires Timely(calls) && calls != [] && rule.cooldown > 0 && rule.window > 0
    requires calls[|calls| - 1].at < calls[0].at + rule.window
    ensures Local(rule, calls).Some? && Agree(rule, calls, Local(rule, calls).value, Redis(rule, calls))
    ensures forall i :: 0 <= i < |calls| ==> LocalFires(rule, calls, i) == RedisFires(rule, calls, i)
    decreases |calls|
  {
    var n := |calls| - 1;
    var before := calls[..n];
    if n > 0 {
      PrefixTimely(calls, n);
      assert calls[n - 1].at <= calls[n].at;
      StoresAgree(rule, before);
      assert LocalFires(rule, calls, n) == RedisFires(rule, calls, n);
      forall i | 0 <= i < |calls| ensures LocalFires(rule, calls, i) == RedisFires(rule, calls, i) {
        if i < n {
          FiresPrefix(rule, calls, n, i);
        }
      }
    } else {
      assert before == [];
      assert Local(rule, before) == None && Redis(rule, before) == NO_KEYS;
    }
  }
}
