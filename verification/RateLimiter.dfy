/** The per-IP token bucket (`rateLimiter`): refill, eviction of full buckets, saving and restoring.
    Times are in seconds; floats are reals. */
module RateLimiter {

  datatype Bucket = Bucket(tokens: real, lastRefill: real)

  type Buckets = map<string, Bucket>

  /** What the file keeps of a bucket: the refill time is cut to whole seconds. */
  datatype Saved = Saved(tokens: real, lastRefill: int)

  datatype Config = Config(limit: real, window: real, refillRate: real)

  /** The tokens refilled over a stretch of time. */
  function Gain(c: Config, seconds: real): real {
    seconds * c.refillRate
  }

  ghost predicate ValidConfig(c: Config) {
    c.limit >= 1.0 && c.window > 0.0 && c.refillRate > 0.0 && Gain(c, c.window) == c.limit
  }

  function Capped(c: Config, tokens: real): real {
    if tokens > c.limit then c.limit else tokens
  }

  function Refilled(c: Config, b: Bucket, now: real): Bucket {
    Bucket(Capped(c, b.tokens + Gain(c, now - b.lastRefill)), now)
  }

  /** What `Allow` does to the bucket of one IP and what it answers. */
  function AfterAllow(c: Config, m: Buckets, ip: string, now: real): (Buckets, bool) {
    if ip !in m then (m[ip := Bucket(c.limit - 1.0, now)], true)
    else
      var b := Refilled(c, m[ip], now);
      if b.tokens < 1.0 then (m[ip := b], false) else (m[ip := Bucket(b.tokens - 1.0, now)], true)
  }

  /** What the periodic tick leaves: buckets stored as full are dropped. */
  function AfterTick(c: Config, m: Buckets): Buckets {
    map ip | ip in m && m[ip].tokens < c.limit :: m[ip]
  }

  function Save(m: Buckets): map<string, Saved> {
    map ip | ip in m :: Saved(m[ip].tokens, m[ip].lastRefill.Floor)
  }

  function Age(e: Saved, now: real): real {
    now - e.lastRefill as real
  }

  function Restored(c: Config, e: Saved, now: real): Bucket {
    Bucket(Capped(c, e.tokens + Gain(c, Age(e, now))), now)
  }

  function Load(c: Config, entries: map<string, Saved>, now: real): Buckets {
    map ip | ip in entries && Age(entries[ip], now) <= c.window :: Restored(c, entries[ip], now)
  }

  // ---------- the limiter ----------

  class Limiter {
    var buckets: Buckets
    const config: Config

    constructor (limit: nat, window: real)
      requires limit >= 1 && window > 0.0
      ensures buckets == map[] && ValidConfig(config)
      ensures config.limit == limit as real && config.window == window
    {
      buckets := map[];
      config := Config(limit as real, window, limit as real / window);
      QuotientTimes(limit as real, window);
    }

    method Allow(ip: string, now: real) returns (ok: bool)
      modifies this
      ensures (buckets, ok) == AfterAllow(config, old(buckets), ip, now)
    {
      if ip !in buckets {
        buckets := buckets[ip := Bucket(config.limit - 1.0, now)];
        return true;
      }
      var entry := Refilled(config, buckets[ip], now);
      buckets := buckets[ip := entry];
      if entry.tokens < 1.0 {
        return false;
      }
      buckets := buckets[ip := entry.(tokens := entry.tokens - 1.0)];
      assert buckets == old(buckets)[ip := entry.(tokens := entry.tokens - 1.0)];
      return true;
    }

    method Tick()
      modifies this
      ensures buckets == AfterTick(config, old(buckets))
      ensures forall ip :: ip in buckets <==> ip in old(buckets) && old(buckets)[ip].tokens < config.limit
      ensures forall ip :: ip in buckets ==> buckets[ip] == old(buckets)[ip]
    {
      var todo := buckets.Keys;
      while todo != {}
        invariant todo <= old(buckets).Keys
        invariant forall ip :: ip in buckets <==>
                    ip in old(buckets) && (ip in todo || old(buckets)[ip].tokens < config.limit)
        invariant forall ip :: ip in buckets ==> buckets[ip] == old(buckets)[ip]
        decreases todo
      {
        var ip :| ip in todo;
        todo := todo - {ip};
        if buckets[ip].tokens >= config.limit {
          buckets := buckets - {ip};
        }
      }
    }

    method SaveState() returns (entries: map<string, Saved>)
      ensures entries == Save(buckets)
      ensures entries.Keys == buckets.Keys && forall ip :: ip in entries ==> entries[ip] == Saved(buckets[ip].tokens, buckets[ip].lastRefill.Floor)
    {
      entries := map[];
      var todo := buckets.Keys;
      while todo != {}
        invariant todo <= buckets.Keys && entries.Keys == buckets.Keys - todo
        invariant forall ip :: ip in entries ==>
                    entries[ip] == Saved(buckets[ip].tokens, buckets[ip].lastRefill.Floor)
        decreases todo
      {
        var ip :| ip in todo;
        todo := todo - {ip};
        entries := entries[ip := Saved(buckets[ip].tokens, buckets[ip].lastRefill.Floor)];
      }
    }

    method LoadState(entries: map<string, Saved>, now: real)
      requires buckets == map[]
      modifies this
      ensures buckets == Load(config, entries, now)
      ensures forall ip :: ip in buckets <==> ip in entries && now - entries[ip].lastRefill as real <= config.window
      ensures forall ip :: ip in buckets ==> buckets[ip].lastRefill == now
    {
      var todo := entries.Keys;
      while todo != {}
        invariant todo <= entries.Keys
        invariant forall ip :: ip in buckets <==>
                    ip in entries && ip !in todo && Age(entries[ip], now) <= config.window
        invariant forall ip :: ip in buckets ==> buckets[ip] == Restored(config, entries[ip], now)
        decreases todo
      {
        var ip :| ip in todo;
        todo := todo - {ip};
        var age := Age(entries[ip], now);
        if age <= config.window {
          buckets := buckets[ip := Restored(config, entries[ip], now)];
        }
      }
    }
  }

  // ---------- levels ----------

  /** Stored tokens are between none and the limit, and no bucket was refilled in the future. */
  ghost predicate Sound(c: Config, m: Buckets, clock: real) {
    forall ip :: ip in m ==> 0.0 <= m[ip].tokens <= c.limit && m[ip].lastRefill <= clock
  }

  /** The tokens an IP could draw on at time t; an IP without a bucket has a full one. */
  ghost function Level(c: Config, m: Buckets, ip: string, t: real): real {
    if ip !in m then c.limit else Refilled(c, m[ip], t).tokens
  }

  lemma QuotientTimes(a: real, b: real)
    requires a > 0.0 && b > 0.0
    ensures a / b > 0.0 && b * (a / b) == a
  {
  }

  /** Refill of two stretches of time adds up. */
  lemma GainAdds(c: Config, a: real, b: real)
    ensures Gain(c, a + b) == Gain(c, a) + Gain(c, b)
  {
  }

  lemma GainMonotone(c: Config, a: real, b: real)
    requires c.refillRate > 0.0 && a <= b
    ensures Gain(c, a) <= Gain(c, b)
    ensures Gain(c, 0.0) == 0.0 && Gain(c, 1.0) == c.refillRate
  {
  }

  /** Waiting never lowers a level, and raises it by at most the refill of the wait. */
  lemma LevelGrows(c: Config, m: Buckets, ip: string, t: real, u: real)
    requires ValidConfig(c) && Sound(c, m, t) && t <= u
    ensures 0.0 <= Level(c, m, ip, t) <= Level(c, m, ip, u) <= c.limit
    ensures Level(c, m, ip, u) <= Level(c, m, ip, t) + Gain(c, u - t)
  {
    hide Gain;
    GainMonotone(c, 0.0, u - t);
    if ip in m {
      var elapsed := t - m[ip].lastRefill;
      GainMonotone(c, 0.0, elapsed);
      GainAdds(c, elapsed, u - t);
      assert elapsed + (u - t) == u - m[ip].lastRefill;
    }
  }

  /** A call is admitted exactly when the caller's level is at least one, and takes one from it;
      no other caller's level moves. */
  lemma AllowTakesOne(c: Config, m: Buckets, ip: string, now: real, other: string, t: real)
    requires ValidConfig(c) && Sound(c, m, now) && now <= t
    ensures var (m', ok) := AfterAllow(c, m, ip, now);
            && Sound(c, m', now)
            && (ok <==> Level(c, m, ip, now) >= 1.0)
            && Level(c, m', ip, now) == Level(c, m, ip, now) - (if ok then 1.0 else 0.0)
            && (other != ip ==> Level(c, m', other, t) == Level(c, m, other, t))
  {
    LevelGrows(c, m, ip, now, now);
    GainMonotone(c, 0.0, 0.0);
    hide Gain;
    var m' := AfterAllow(c, m, ip, now).0;
    assert now - m'[ip].lastRefill == 0.0;
  }

  /** Dropping buckets stored as full moves no level. */
  lemma TickKeepsLevels(c: Config, m: Buckets, clock: real, ip: string, t: real)
    requires ValidConfig(c) && Sound(c, m, clock) && clock <= t
    ensures Sound(c, AfterTick(c, m), clock)
    ensures Level(c, AfterTick(c, m), ip, t) == Level(c, m, ip, t)
  {
    hide Gain;
    if ip in m && ip !in AfterTick(c, m) {
      GainMonotone(c, 0.0, t - m[ip].lastRefill);
    }
  }

  function Restarted(c: Config, m: Buckets, now: real): Buckets {
    Load(c, Save(m), now)
  }

  /** Saving and restoring never costs a caller tokens and gives at most one second of refill: the
      part of a second cut from the saved time. Dropping entries older than the window is within
      that bound too. */
  lemma RestartLevel(c: Config, m: Buckets, clock: real, now: real, ip: string, t: real)
    requires ValidConfig(c) && Sound(c, m, clock) && clock <= now <= t
    ensures Sound(c, Restarted(c, m, now), now)
    ensures Level(c, m, ip, t) <= Level(c, Restarted(c, m, now), ip, t) <= Capped(c, Level(c, m, ip, t) + c.refillRate)
  {
    hide Gain;
    RestartSound(c, m, clock, now);
    if ip in m {
      BucketRestart(c, m[ip], clock, now, t);
    }
  }

  /** One bucket: restored, or dropped and so full again. */
  lemma BucketRestart(c: Config, b: Bucket, clock: real, now: real, t: real)
    requires ValidConfig(c) && 0.0 <= b.tokens <= c.limit && b.lastRefill <= clock <= now <= t
    ensures var e := Saved(b.tokens, b.lastRefill.Floor);
            var kept := Refilled(c, b, t).tokens;
            var restored := if Age(e, now) > c.window then c.limit else Refilled(c, Restored(c, e, now), t).tokens;
            kept <= restored <= Capped(c, kept + c.refillRate)
  {
    hide Gain;
    var e := Saved(b.tokens, b.lastRefill.Floor);
    var age, elapsed, more := Age(e, now), now - b.lastRefill, t - now;
    assert elapsed <= age <= elapsed + 1.0;
    assert t - b.lastRefill == elapsed + more;
    GainAdds(c, elapsed, more);
    GainAdds(c, elapsed, 1.0);
    GainMonotone(c, elapsed, age);
    GainMonotone(c, age, elapsed + 1.0);
    GainMonotone(c, 0.0, more);
    if age > c.window {
      GainMonotone(c, c.window, age);
      GainMonotone(c, 0.0, elapsed);
    }
  }

  lemma RestartSound(c: Config, m: Buckets, clock: real, now: real)
    requires ValidConfig(c) && Sound(c, m, clock) && clock <= now
    ensures Sound(c, Restarted(c, m, now), now)
  {
    hide Gain;
    var n, entries := Restarted(c, m, now), Save(m);
    forall ip | ip in n ensures 0.0 <= n[ip].tokens <= c.limit && n[ip].lastRefill <= now {
      assert entries[ip].tokens == m[ip].tokens;
      GainMonotone(c, 0.0, Age(entries[ip], now));
    }
  }

  // ---------- runs ----------

  datatype Event = Call(ip: string, at: real) | Tick(at: real) | Restart(at: real)

  ghost predicate Timely(clock: real, es: seq<Event>)
    decreases |es|
  {
    es != [] ==> clock <= es[0].at && Timely(es[0].at, es[1..])
  }

  ghost function After(c: Config, m: Buckets, e: Event): Buckets {
    match e
    case Call(ip, at) => AfterAllow(c, m, ip, at).0
    case Tick(_) => AfterTick(c, m)
    case Restart(at) => Restarted(c, m, at)
  }

  ghost predicate Admits(c: Config, m: Buckets, e: Event) {
    e.Call? && AfterAllow(c, m, e.ip, e.at).1
  }

  ghost function Final(c: Config, m: Buckets, es: seq<Event>): Buckets
    decreases |es|
  {
    if es == [] then m else Final(c, After(c, m, es[0]), es[1..])
  }

  /** How many calls of one IP the run admits. */
  ghost function Admitted(c: Config, m: Buckets, es: seq<Event>, ip: string): nat
    decreases |es|
  {
    if es == [] then 0
    else (if Admits(c, m, es[0]) && es[0].ip == ip then 1 else 0) + Admitted(c, After(c, m, es[0]), es[1..], ip)
  }

  ghost function Restarts(es: seq<Event>): nat {
    if es == [] then 0 else (if es[0].Restart? then 1 else 0) + Restarts(es[1..])
  }

  /** One event moves a level by the call it admits, if any, and by at most one second of refill if
      it is a restart. */
  lemma EventLevel(c: Config, m: Buckets, e: Event, ip: string)
    requires ValidConfig(c) && Sound(c, m, e.at)
    ensures Sound(c, After(c, m, e), e.at)
    ensures var taken := if Admits(c, m, e) && e.ip == ip then 1.0 else 0.0;
            var extra := if e.Restart? then c.refillRate else 0.0;
            Level(c, m, ip, e.at) - taken <= Level(c, After(c, m, e), ip, e.at) <= Level(c, m, ip, e.at) - taken + extra
  {
    match e
    case Call(caller, at) => AllowTakesOne(c, m, caller, at, ip, at);
    case Tick(at) => TickKeepsLevels(c, m, at, ip, at);
    case Restart(at) => RestartLevel(c, m, at, at, ip, at);
  }

  lemma SoundLater(c: Config, m: Buckets, clock: real, later: real)
    requires Sound(c, m, clock) && clock <= later
    ensures Sound(c, m, later)
  {
  }

  /** Tokens drawn over a run come out of the level at its start and the refill during it. */
  lemma {:induction false} AdmissionBudget(c: Config, m: Buckets, clock: real, es: seq<Event>, ip: string, end: real)
    requires ValidConfig(c) && Sound(c, m, clock) && Timely(clock, es)
    requires clock <= end && (es != [] ==> es[|es| - 1].at <= end)
    ensures Sound(c, Final(c, m, es), end)
    ensures Admitted(c, m, es, ip) as real + Level(c, Final(c, m, es), ip, end)
            <= Level(c, m, ip, clock) + Gain(c, end - clock) + Gain(c, Restarts(es) as real)
    decreases |es|
  {
    if es == [] {
      LevelGrows(c, m, ip, clock, end);
      GainMonotone(c, 0.0, 0.0);
    } else {
      hide Level, Sound, After, Admits, Gain;
      var e := es[0];
      LevelGrows(c, m, ip, clock, e.at);
      SoundLater(c, m, clock, e.at);
      EventLevel(c, m, e, ip);
      var rest := es[1..];
      assert rest != [] ==> rest[|rest| - 1] == es[|es| - 1];
      TimelyLast(e.at, rest);
      AdmissionBudget(c, After(c, m, e), e.at, rest, ip, end);
      GainAdds(c, e.at - clock, end - e.at);
      assert (e.at - clock) + (end - e.at) == end - clock;
      GainMonotone(c, 0.0, 1.0);
      if e.Restart? {
        GainAdds(c, 1.0, Restarts(rest) as real);
      }
    }
  }

  lemma {:induction false} TimelyLast(clock: real, es: seq<Event>)
    requires Timely(clock, es)
    ensures es != [] ==> clock <= es[|es| - 1].at
    decreases |es|
  {
    if |es| > 1 {
      TimelyLast(es[0].at, es[1..]);
    }
  }

  /** In any interval of any run the calls admitted for one IP number at most the limit plus the
      refill of the interval, plus one second of refill for each restart in it. */
  lemma AdmissionBound(c: Config, before: seq<Event>, es: seq<Event>, ip: string, start: real, s: real, t: real)
    requires ValidConfig(c) && Timely(start, before) && Timely(s, es)
    requires start <= s <= t && (before != [] ==> before[|before| - 1].at <= s) && (es != [] ==> es[|es| - 1].at <= t)
    ensures Admitted(c, Final(c, map[], before), es, ip) as real
            <= c.limit + Gain(c, t - s) + Gain(c, Restarts(es) as real)
  {
    hide Level;
    AdmissionBudget(c, map[], start, before, ip, s);
    var m := Final(c, map[], before);
    AdmissionBudget(c, m, s, es, ip, t);
    LevelGrows(c, m, ip, s, s);
    LevelGrows(c, Final(c, m, es), ip, t, t);
  }

  lemma GainIs(c: Config, seconds: real)
    requires ValidConfig(c)
    ensures Gain(c, seconds) == c.limit * seconds / c.window
  {
    Rearranged(c.limit, c.window, c.refillRate, seconds);
  }

  lemma Rearranged(limit: real, window: real, rate: real, seconds: real)
    requires window > 0.0 && window * rate == limit
    ensures seconds * rate == limit * seconds / window
  {
    var x := seconds * rate;
    assert x * window == limit * seconds;
    assert (x * window) / window == x;
  }

  /** limit tokens to start with and limit tokens per window. */
  ghost function RateBound(c: Config, seconds: real): real
    requires c.window != 0.0
  {
    c.limit + c.limit * seconds / c.window
  }

  lemma RateBoundIs(c: Config, seconds: real)
    requires ValidConfig(c)
    ensures RateBound(c, seconds) == c.limit + Gain(c, seconds) && Gain(c, 0.0) == 0.0
  {
    GainIs(c, seconds);
  }

  /** The same bound in the limiter's own numbers, for runs without restarts. */
  lemma AdmissionRate(c: Config, before: seq<Event>, es: seq<Event>, ip: string, start: real, s: real, t: real)
    requires ValidConfig(c) && Timely(start, before) && Timely(s, es) && Restarts(es) == 0
    requires start <= s <= t && (before != [] ==> before[|before| - 1].at <= s) && (es != [] ==> es[|es| - 1].at <= t)
    ensures Admitted(c, Final(c, map[], before), es, ip) as real <= RateBound(c, t - s)
  {
    hide Gain, RateBound, Timely, Admitted, Final, Restarts;
    AdmissionBound(c, before, es, ip, start, s, t);
    RateBoundIs(c, t - s);
    assert Restarts(es) as real == 0.0;
  }

  /** An IP's level grows by limit tokens per window from what was stored, up to the limit. */
  lemma LevelIs(c: Config, m: Buckets, ip: string, t: real)
    requires ValidConfig(c) && ip in m
    ensures var grown := m[ip].tokens + c.limit * (t - m[ip].lastRefill) / c.window;
            Level(c, m, ip, t) == if grown > c.limit then c.limit else grown
  {
    GainIs(c, t - m[ip].lastRefill);
    hide Gain;
  }

  // ---------- eviction cannot be observed ----------

  ghost function Answers(c: Config, m: Buckets, es: seq<Event>): seq<bool>
    decreases |es|
  {
    if es == [] then []
    else (if es[0].Call? then [Admits(c, m, es[0])] else []) + Answers(c, After(c, m, es[0]), es[1..])
  }

  ghost function WithoutTicks(es: seq<Event>): seq<Event> {
    if es == [] then [] else (if es[0].Tick? then [] else [es[0]]) + WithoutTicks(es[1..])
  }

  /** m is n without some buckets that are stored full. */
  ghost predicate LacksFull(c: Config, m: Buckets, n: Buckets) {
    && (forall ip :: ip in m ==> ip in n && m[ip] == n[ip])
    && (forall ip :: ip in n && ip !in m ==> n[ip].tokens == c.limit)
  }

  lemma TickLacksFull(c: Config, m: Buckets, n: Buckets, clock: real)
    requires Sound(c, m, clock) && LacksFull(c, m, n)
    ensures LacksFull(c, AfterTick(c, m), n)
  {
  }

  lemma CallLacksFull(c: Config, m: Buckets, n: Buckets, e: Event)
    requires ValidConfig(c) && Sound(c, n, e.at) && LacksFull(c, m, n) && e.Call?
    ensures Admits(c, m, e) == Admits(c, n, e) && LacksFull(c, After(c, m, e), After(c, n, e))
  {
    hide Gain;
    if e.ip in n && e.ip !in m {
      GainMonotone(c, 0.0, e.at - n[e.ip].lastRefill);
      assert Refilled(c, n[e.ip], e.at).tokens == c.limit;
    }
  }

  /** A full bucket is restored full, or dropped and so full again. */
  lemma RestartLacksFull(c: Config, m: Buckets, n: Buckets, now: real)
    requires ValidConfig(c) && Sound(c, n, now) && LacksFull(c, m, n)
    ensures LacksFull(c, Restarted(c, m, now), Restarted(c, n, now))
  {
    hide Gain;
    var x, y := Restarted(c, m, now), Restarted(c, n, now);
    forall ip | ip in y && ip !in x ensures y[ip].tokens == c.limit {
      assert ip !in m;
      GainMonotone(c, 0.0, Age(Save(n)[ip], now));
    }
  }

  lemma {:induction false} SameAnswers(c: Config, m: Buckets, n: Buckets, clock: real, es: seq<Event>)
    requires ValidConfig(c) && Sound(c, m, clock) && Sound(c, n, clock) && Timely(clock, es) && LacksFull(c, m, n)
    ensures Answers(c, m, es) == Answers(c, n, WithoutTicks(es))
    decreases |es|
  {
    if es != [] {
      hide Admits, Sound, LacksFull, Gain, After, Level;
      var e, rest := es[0], es[1..];
      SoundLater(c, m, clock, e.at);
      SoundLater(c, n, clock, e.at);
      EventLevel(c, m, e, "");
      EventLevel(c, n, e, "");
      AfterLacksFull(c, m, n, e);
      if e.Tick? {
        assert WithoutTicks(es) == WithoutTicks(rest);
        assert Answers(c, m, es) == Answers(c, After(c, m, e), rest);
        SameAnswers(c, After(c, m, e), n, e.at, rest);
      } else {
        assert WithoutTicks(es)[1..] == WithoutTicks(rest);
        SameAnswers(c, After(c, m, e), After(c, n, e), e.at, rest);
      }
    }
  }

  lemma AfterLacksFull(c: Config, m: Buckets, n: Buckets, e: Event)
    requires ValidConfig(c) && Sound(c, m, e.at) && Sound(c, n, e.at) && LacksFull(c, m, n)
    ensures LacksFull(c, After(c, m, e), if e.Tick? then n else After(c, n, e))
    ensures e.Call? ==> Admits(c, m, e) == Admits(c, n, e)
  {
    match e
    case Call(_, _) => CallLacksFull(c, m, n, e);
    case Tick(at) => TickLacksFull(c, m, n, at);
    case Restart(at) => RestartLacksFull(c, m, n, at);
  }

  /** Dropping the ticks from a run changes no answer, whatever restarts the run has. */
  lemma EvictionUnobservable(c: Config, clock: real, es: seq<Event>)
    requires ValidConfig(c) && Timely(clock, es)
    ensures Answers(c, map[], es) == Answers(c, map[], WithoutTicks(es))
  {
    SameAnswers(c, map[], map[], clock, es);
  }

  /** A restart does store full buckets, and a tick then drops them: the case eviction is there for. */
  lemma RestartedFullIsDropped(c: Config, ip: string, start: real)
    requires ValidConfig(c) && start.Floor as real == start
    ensures var es := [Call(ip, start), Restart(start + c.window)];
            && Final(c, map[], es) == map[ip := Bucket(c.limit, start + c.window)]
            && AfterTick(c, Final(c, map[], es)) == map[]
  {
    var es := [Call(ip, start), Restart(start + c.window)];
    var m := AfterAllow(c, map[], ip, start).0;
    assert es[1..] == [es[1]] && es[1..][1..] == [];
    assert Final(c, m, es[1..]) == Restarted(c, m, start + c.window);
    assert Age(Save(m)[ip], start + c.window) == c.window;
  }

  /** In a run without restarts a tick in fact drops nothing: a bucket is only ever stored after a
      call took its token, so it is never stored full. */
  lemma {:induction false} TickDropsNothing(c: Config, m: Buckets, clock: real, es: seq<Event>)
    requires ValidConfig(c) && Timely(clock, es) && forall i :: 0 <= i < |es| ==> !es[i].Restart?
    requires forall ip :: ip in m ==> m[ip].tokens < c.limit
    ensures AfterTick(c, Final(c, m, es)) == Final(c, m, es)
    decreases |es|
  {
    if es == [] {
      assert AfterTick(c, m) == m;
    } else {
      var e, rest := es[0], es[1..];
      assert forall i :: 0 <= i < |rest| ==> rest[i] == es[i + 1];
      TickDropsNothing(c, After(c, m, e), e.at, rest);
    }
  }

  // ---------- a patient caller ----------

  /** Calls of one IP come at least `gap` apart, the first not before `earliest`. */
  ghost predicate Spaced(es: seq<Event>, ip: string, earliest: real, gap: real)
    decreases |es|
  {
    es != [] ==>
      if es[0].Call? && es[0].ip == ip then es[0].at >= earliest && Spaced(es[1..], ip, es[0].at + gap, gap)
      else Spaced(es[1..], ip, earliest, gap)
  }

  ghost function Calls(es: seq<Event>, ip: string): nat {
    if es == [] then 0 else (if es[0].Call? && es[0].ip == ip then 1 else 0) + Calls(es[1..], ip)
  }

  /** Once a bucket is refilled at some time, its later levels follow from its level then. */
  lemma LevelFrom(c: Config, m: Buckets, ip: string, now: real, t: real)
    requires ValidConfig(c) && Sound(c, m, now) && now <= t && ip in m && m[ip].lastRefill == now
    ensures Level(c, m, ip, t) == Capped(c, Level(c, m, ip, now) + Gain(c, t - now))
  {
    GainMonotone(c, 0.0, 0.0);
    hide Gain;
    assert now - m[ip].lastRefill == 0.0;
  }

  /** After `earliest` the caller has a whole token. */
  lemma {:induction false} PatientFrom(c: Config, m: Buckets, clock: real, es: seq<Event>, ip: string, earliest: real)
    requires ValidConfig(c) && Sound(c, m, clock) && Timely(clock, es)
    requires Spaced(es, ip, earliest, c.window / c.limit)
    requires forall t :: clock <= t && earliest <= t ==> Level(c, m, ip, t) >= 1.0
    ensures Admitted(c, m, es, ip) == Calls(es, ip)
    decreases |es|
  {
    if es != [] {
      hide Admits, Level, Sound, After, Gain;
      var e, rest := es[0], es[1..];
      var m' := After(c, m, e);
      SoundLater(c, m, clock, e.at);
      EventLevel(c, m, e, ip);
      if e.Call? && e.ip == ip {
        var next := e.at + c.window / c.limit;
        CallAdmitted(c, m, e);
        PatientFrom(c, m', e.at, rest, ip, next);
      } else {
        forall t | e.at <= t && earliest <= t ensures Level(c, m', ip, t) >= 1.0 {
          OtherEvent(c, m, e, ip, t);
        }
        PatientFrom(c, m', e.at, rest, ip, earliest);
      }
    }
  }

  lemma CallAdmitted(c: Config, m: Buckets, e: Event)
    requires ValidConfig(c) && Sound(c, m, e.at) && e.Call? && Level(c, m, e.ip, e.at) >= 1.0
    ensures Admits(c, m, e)
    ensures forall t :: e.at + c.window / c.limit <= t ==> Level(c, After(c, m, e), e.ip, t) >= 1.0
  {
    AllowTakesOne(c, m, e.ip, e.at, e.ip, e.at);
    LevelGrows(c, m, e.ip, e.at, e.at);
    var m', gap := After(c, m, e), c.window / c.limit;
    GapRefillsOne(c);
    hide Gain;
    forall t | e.at + gap <= t ensures Level(c, m', e.ip, t) >= 1.0 {
      LevelFrom(c, m', e.ip, e.at, t);
      GainMonotone(c, gap, t - e.at);
    }
  }

  lemma GapRefillsOne(c: Config)
    requires ValidConfig(c)
    ensures c.window / c.limit > 0.0 && Gain(c, c.window / c.limit) == 1.0
  {
    QuotientTimes(c.window, c.limit);
    Cancel(c.window, c.limit, c.refillRate, c.window / c.limit);
  }

  lemma Cancel(window: real, limit: real, rate: real, gap: real)
    requires window > 0.0 && limit > 0.0 && window * rate == limit && limit * gap == window
    ensures gap * rate == 1.0
  {
    assert limit * (gap * rate) == (limit * gap) * rate;
    assert limit * (gap * rate - 1.0) == 0.0;
  }

  lemma OtherEvent(c: Config, m: Buckets, e: Event, ip: string, t: real)
    requires ValidConfig(c) && Sound(c, m, e.at) && e.at <= t && !(e.Call? && e.ip == ip)
    ensures Level(c, After(c, m, e), ip, t) >= Level(c, m, ip, t)
  {
    match e
    case Call(caller, at) => AllowTakesOne(c, m, caller, at, ip, t);
    case Tick(at) => TickKeepsLevels(c, m, at, ip, t);
    case Restart(at) => RestartLevel(c, m, at, at, ip, t);
  }

  /** A caller who waits window/limit between calls is never refused, whatever other callers, ticks
      and restarts come between. */
  lemma PatientCallerAdmitted(c: Config, clock: real, es: seq<Event>, ip: string)
    requires ValidConfig(c) && Timely(clock, es) && Spaced(es, ip, clock, c.window / c.limit)
    ensures Admitted(c, map[], es, ip) == Calls(es, ip)
  {
    PatientFrom(c, map[], clock, es, ip, clock);
  }
}
