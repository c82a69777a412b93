/** The Cloud Bridge's high-availability protocol: replicas elect a leader with a Redis lock, the leader
    alone runs the tunnel, its status key is cleared only who its owner, and the tunnel follows the
    persisted identity. Every read and write that another goroutine or replica can come between is a
    step of its own. */
module CloudBridge {
  import opened Wrappers

  datatype Identity = Identity(instanceId: string, brokerHost: string, caCert: string, clientCert: string, clientKey: string)

  /** A Redis key with a time to live: who set it and when it vanishes. */
  datatype Lease = Lease(owner: int, expires: int)

  const LEADER_TTL := 30
  const STATUS_TTL := 90

  /** Where a replica's `leaderLoop` stands. */
  datatype Phase =
    | Standby        // waiting for the lock
    | Elected        // lock acquired, isLeader not yet set
    | Leading        // isLeader set, renewing and reconciling
    | Ending         // runAsLeader returned
    | Unmarked       // isLeader cleared, tunnel not yet stopped
    | Stopped        // tunnel stopped, status not yet cleared
    | Cleared        // status cleared, lock not yet released

  /** The two goroutines that call `reconcile`: the leader loop and the control subscriber. */
  datatype Actor = Loop | Control

  /** How far a goroutine is with a reconcile. */
  datatype Work =
    | Idle
    | Checked                            // the subscriber has seen isLeader for a refresh message
    | Loaded(found: Option<Identity>)    // the store was read
    | Starting(identity: Identity)       // about to call startTunnel

  /** `tunnel` is the state a tunnel is active with; `leftover` counts cancelled tunnel goroutines that have
      not returned yet. */
  datatype Replica = Replica(phase: Phase, isLeader: bool, connected: bool, tunnel: Option<Identity>,
                             leftover: nat, loop: Work, control: Work)

  const FRESH := Replica(Standby, false, false, None, 0, Idle, Idle)

  datatype Step =
    | Tick(to: int)
    | Acquire(r: int) | MarkLeader(r: int) | Renew(r: int, error: bool) | Cancel(r: int)
    | Unmark(r: int) | Stop(r: int) | Clear(r: int) | Release(r: int)
    | Check(r: int)                                   // a refresh message: is this replica the leader?
    | Read(r: int, who: Actor, error: bool) | Decide(r: int, who: Actor) | Start(r: int, who: Actor)
    | Halt(r: int)                                    // stopTunnel for a stop message or a disconnect
    | Disown(r: int)                                  // setConnected(false): the same, or a session that ended
    | Publish(r: int, late: bool)                     // setConnected(true) or a ping; late: who a cancelled session
    | Return(r: int)                                  // a cancelled session returns
    | SaveIdentity(identity: Identity) | DeleteIdentity
    | Crash(r: int, reborn: int)                      // a restarted replica has a new id

  // ---------- what a step does ----------

  /** The tunnel `reconcile` converges on. */
  function Target(stored: Option<Identity>): Option<Identity> {
    if stored.Some? && stored.value.caCert != "" then stored else None
  }

  function WorkOf(me: Replica, who: Actor): Work {
    if who == Loop then me.loop else me.control
  }

  function SetWork(me: Replica, who: Actor, w: Work): Replica {
    if who == Loop then me.(loop := w) else me.(control := w)
  }

  function Sessions(me: Replica): nat {
    me.leftover + if me.tunnel.Some? then 1 else 0
  }

  /** `startTunnel`: a running session is cancelled first. */
  function Started(me: Replica, identity: Identity): Replica {
    me.(tunnel := Some(identity), leftover := Sessions(me))
  }

  /** `stopTunnel`. */
  function Halted(me: Replica): Replica {
    me.(tunnel := None, leftover := Sessions(me))
  }

  /** The branches of `reconcile` once the store was read. */
  function Decided(me: Replica, who: Actor, found: Option<Identity>): Replica {
    var target := Target(found);
    if target.None? then SetWork(Halted(me), who, Idle)
    else if me.tunnel != target then SetWork(me, who, Starting(target.value))
    else SetWork(me, who, Idle)
  }

  /** Compare-and-delete: only the owner's value is removed. */
  function DeleteIfOwner(key: Option<Lease>, owner: int): Option<Lease> {
    if key.Some? && key.value.owner == owner then None else key
  }

  function Alive(key: Option<Lease>, now: int): Option<Lease> {
    if key.Some? && key.value.expires <= now then None else key
  }

  predicate OwnedBy(key: Option<Lease>, owner: int) {
    key.Some? && key.value.owner == owner
  }

  /** Steps of the world rather than of a replica. */
  predicate IsGlobal(s: Step) {
    s.Tick? || s.SaveIdentity? || s.DeleteIdentity?
  }

  predicate MayAct(me: Replica, s: Step) {
    match s
    case Acquire(_) => me.phase == Standby
    case MarkLeader(_) => me.phase == Elected
    case Renew(_, _) => me.phase == Leading && me.loop == Idle
    case Cancel(_) => me.phase == Leading && me.loop == Idle
    case Unmark(_) => me.phase == Ending
    case Stop(_) => me.phase == Unmarked
    case Clear(_) => me.phase == Stopped
    case Release(_) => me.phase == Cleared
    case Check(_) => me.control == Idle
    case Read(_, who, _) => if who == Loop then me.phase == Leading && me.loop == Idle else me.control == Checked
    case Decide(_, who) => WorkOf(me, who).Loaded?
    case Start(_, who) => WorkOf(me, who).Starting?
    case Publish(_, late) => if late then me.leftover > 0 else me.tunnel.Some?
    case Return(_) => me.leftover > 0
    case _ => true
  }

  /** What a step makes of the replica that takes it. */
  function Acted(me: Replica, lock: Option<Lease>, stored: Option<Identity>, s: Step): Replica
    requires MayAct(me, s)
  {
    match s
    case Acquire(_) => if lock.Some? then me else me.(phase := Elected)
    case MarkLeader(_) => me.(phase := Leading, isLeader := true)
    case Renew(r, error) => if error || OwnedBy(lock, r) then me else me.(phase := Ending)
    case Cancel(_) => me.(phase := Ending)
    case Unmark(_) => me.(phase := Unmarked, isLeader := false)
    case Stop(_) => Halted(me).(phase := Stopped)
    case Clear(_) => me.(phase := Cleared, connected := false)
    case Release(_) => me.(phase := Standby)
    case Check(_) => if me.isLeader then me.(control := Checked) else me
    case Read(_, who, error) => SetWork(me, who, if error then Idle else Loaded(stored))
    case Decide(_, who) => Decided(me, who, WorkOf(me, who).found)
    case Start(_, who) => SetWork(Started(me, WorkOf(me, who).identity), who, Idle)
    case Halt(_) => Halted(me)
    case Disown(_) => me.(connected := false)
    case Publish(_, _) => me.(connected := true)
    case Return(_) => me.(leftover := me.leftover - 1)
    case _ => me
  }

  function LockAfter(lock: Option<Lease>, now: int, s: Step): Option<Lease> {
    match s
    case Tick(to) => Alive(lock, to)
    case Acquire(r) => if lock.Some? then lock else Some(Lease(r, now + LEADER_TTL))
    case Renew(r, error) => if !error && OwnedBy(lock, r) then Some(Lease(r, now + LEADER_TTL)) else lock
    case Release(r) => DeleteIfOwner(lock, r)
    case _ => lock
  }

  function StatusAfter(status: Option<Lease>, now: int, s: Step): Option<Lease> {
    match s
    case Tick(to) => Alive(status, to)
    case Clear(r) => DeleteIfOwner(status, r)
    case Disown(r) => DeleteIfOwner(status, r)
    case Publish(r, _) => Some(Lease(r, now + STATUS_TTL))
    case _ => status
  }

  // ---------- the code of one replica ----------

  class Redis {
    var lock: Option<Lease>
    var status: Option<Lease>
    var now: int

    /** SET key NX with a TTL. */
    method Acquire(id: int) returns (ok: bool)
      modifies this`lock
      ensures ok == old(lock).None? && lock == LockAfter(old(lock), now, Step.Acquire(id))
      ensures lock == if ok then Some(Lease(id, now + 30)) else old(lock)
    {
      ok := lock.None?;
      if ok {
        lock := Some(Lease(id, now + LEADER_TTL));
      }
    }

    /** Only the owner's lock is extended, by a full TTL from now. */
    method Renew(id: int) returns (ok: bool)
      modifies this`lock
      ensures ok == OwnedBy(old(lock), id) && lock == LockAfter(old(lock), now, Step.Renew(id, false))
      ensures lock == if ok then Some(Lease(id, now + 30)) else old(lock)
    {
      ok := lock.Some? && lock.value.owner == id;
      if ok {
        lock := Some(Lease(id, now + LEADER_TTL));
      }
    }

    method Release(id: int)
      modifies this`lock
      ensures lock == LockAfter(old(lock), now, Step.Release(id))
      ensures lock == if old(lock).Some? && old(lock).value.owner == id then None else old(lock)
    {
      if lock.Some? && lock.value.owner == id {
        lock := None;
      }
    }
  }

  /** The ghost fields say where the goroutines stand. */
  class Agent {
    const id: int
    var isLeader: bool
    var connected: bool
    var tunnelActive: bool
    var tunnelState: Option<Identity>
    ghost var phase: Phase
    ghost var leftover: nat
    ghost var loop: Work
    ghost var control: Work

    ghost predicate Valid()
      reads this
    {
      tunnelActive ==> tunnelState.Some?
    }

    ghost function View(): Replica
      reads this
    {
      Replica(phase, isLeader, connected, if tunnelActive then tunnelState else None, leftover, loop, control)
    }

    constructor (id: int)
      ensures Valid() && this.id == id && View() == FRESH
    {
      this.id := id;
      isLeader, connected, tunnelActive, tunnelState := false, false, false, None;
      phase, leftover, loop, control := Standby, 0, Idle, Idle;
    }

    /** One attempt of `leaderLoop` to take the lock. */
    method TryLead(redis: Redis) returns (ok: bool)
      requires Valid() && phase == Standby
      modifies this, redis`lock
      ensures ok == old(redis.lock).None?
      ensures Valid() && View() == Acted(old(View()), old(redis.lock), None, Step.Acquire(id))
      ensures redis.lock == LockAfter(old(redis.lock), redis.now, Step.Acquire(id))
    {
      ok := redis.Acquire(id);
      if ok {
        phase := Elected;
      }
    }

    /** One renewal in `runAsLeader`; only a definite loss ends the leadership. */
    method RenewLead(redis: Redis, error: bool) returns (lost: bool)
      requires Valid() && phase == Leading && loop == Idle
      modifies this, redis`lock
      ensures Valid() && View() == Acted(old(View()), old(redis.lock), None, Step.Renew(id, error))
      ensures redis.lock == LockAfter(old(redis.lock), redis.now, Step.Renew(id, error))
      ensures lost <==> !error && !OwnedBy(old(redis.lock), id)
    {
      lost := false;
      if !error {
        var ok := redis.Renew(id);
        lost := !ok;
      }
      if lost {
        phase := Ending;
      }
    }

    method StartTunnel(state: Identity)
      requires Valid()
      modifies this
      ensures Valid() && View() == Started(old(View()), state)
    {
      leftover := Sessions(View());
      tunnelState := Some(state);
      tunnelActive := true;
    }

    method StopTunnel()
      requires Valid()
      modifies this
      ensures Valid() && View() == Halted(old(View())) == Acted(old(View()), None, None, Halt(id))
    {
      leftover := Sessions(View());
      tunnelActive := false;
    }

    method SetConnected(v: bool, redis: Redis)
      requires Valid()
      modifies this`connected, redis`status
      ensures Valid() && View() == old(View()).(connected := v)
      ensures redis.status == StatusAfter(old(redis.status), redis.now, if v then Publish(id, false) else Disown(id))
      ensures v ==> redis.status == Some(Lease(id, redis.now + 90))
      ensures !v && !OwnedBy(old(redis.status), id) ==> redis.status == old(redis.status)
    {
      connected := v;
      if v {
        redis.status := Some(Lease(id, redis.now + STATUS_TTL));
      } else if redis.status.Some? && redis.status.value.owner == id {
        redis.status := None;
      }
    }

    /** `reconcile` with nothing in between: a store error leaves the tunnel alone; otherwise it is active exactly
        when an identity with a CA certificate is stored, and with that state. */
    method Reconcile(who: Actor, stored: Option<Identity>, storeError: bool)
      requires Valid() && MayAct(View(), Read(id, who, storeError))
      modifies this
      ensures Valid() && View() == Uninterrupted(old(View()), who, stored, storeError)
      ensures storeError ==> View().tunnel == old(View()).tunnel
      ensures !storeError ==> View().tunnel == if stored.Some? && stored.value.caCert != "" then stored else None
    {
      if who == Loop {
        loop := Idle;
      } else {
        control := Idle;
      }
      if storeError {
        return;
      }
      if stored.None? || stored.value.caCert == "" {
        StopTunnel();
      } else if !tunnelActive || tunnelState != stored {
        StartTunnel(stored.value);
      }
    }

    /** The end of a leadership: the tunnel is stopped, then the status cleared, then the lock released. */
    method StepDown(redis: Redis)
      requires Valid() && phase == Ending
      modifies this, redis`status, redis`lock
      ensures Valid() && View() == SteppedDown(old(View()), id)
      ensures redis.status == StatusAfter(old(redis.status), redis.now, Clear(id))
      ensures redis.lock == LockAfter(old(redis.lock), redis.now, Step.Release(id))
    {
      SteppedDownIs(View(), id);
      assert StatusAfter(redis.status, redis.now, Clear(id)) == StatusAfter(redis.status, redis.now, Disown(id));
      hide SteppedDown, Acted, StatusAfter, LockAfter;
      isLeader := false;
      phase := Unmarked;
      StopTunnel();
      phase := Stopped;
      SetConnected(false, redis);
      phase := Cleared;
      ReleaseLock(redis);
    }

    /** The lock is given up only after the tunnel is stopped. */
    method ReleaseLock(redis: Redis)
      requires Valid() && phase == Cleared && !tunnelActive && !isLeader
      modifies this`phase, redis`lock
      ensures Valid() && View() == old(View()).(phase := Standby) == Acted(old(View()), None, None, Step.Release(id))
      ensures redis.lock == LockAfter(old(redis.lock), redis.now, Step.Release(id))
    {
      redis.Release(id);
      phase := Standby;
    }
  }

  /** Read, decide and start in one go. */
  ghost function Uninterrupted(me: Replica, who: Actor, stored: Option<Identity>, error: bool): Replica
    requires MayAct(me, Read(0, who, error))
  {
    var read := Acted(me, None, stored, Read(0, who, error));
    if error then read
    else
      var decided := Acted(read, None, stored, Decide(0, who));
      if WorkOf(decided, who).Starting? then Acted(decided, None, stored, Start(0, who)) else decided
  }

  ghost function SteppedDown(me: Replica, id: int): Replica
    requires me.phase == Ending
  {
    var unmarked := Acted(me, None, None, Unmark(id));
    var stopped := Acted(unmarked, None, None, Stop(id));
    Acted(Acted(stopped, None, None, Clear(id)), None, None, Step.Release(id))
  }

  lemma SteppedDownIs(me: Replica, id: int)
    requires me.phase == Ending
    ensures SteppedDown(me, id) == Halted(me).(phase := Standby, isLeader := false, connected := false)
  {
  }

  // ---------- all replicas together ----------

  datatype Cluster = Cluster(replicas: map<int, Replica>, lock: Option<Lease>, status: Option<Lease>,
                             stored: Option<Identity>, now: int)

  predicate Enabled(c: Cluster, s: Step) {
    if s.Tick? then c.now <= s.to
    else
      IsGlobal(s) || (s.r in c.replicas && MayAct(c.replicas[s.r], s) &&
                      (s.Crash? ==> s.reborn !in c.replicas && !OwnedBy(c.lock, s.reborn) && !OwnedBy(c.status, s.reborn)))
  }

  function ReplicasAfter(c: Cluster, s: Step): map<int, Replica>
    requires Enabled(c, s)
  {
    if IsGlobal(s) then c.replicas
    else if s.Crash? then (c.replicas - {s.r})[s.reborn := FRESH]
    else c.replicas[s.r := Acted(c.replicas[s.r], c.lock, c.stored, s)]
  }

  function Next(c: Cluster, s: Step): Cluster
    requires Enabled(c, s)
  {
    Cluster(ReplicasAfter(c, s), LockAfter(c.lock, c.now, s), StatusAfter(c.status, c.now, s),
            if s.SaveIdentity? then Some(s.identity) else if s.DeleteIdentity? then None else c.stored,
            if s.Tick? then s.to else c.now)
  }

  ghost predicate Initial(c: Cluster) {
    (forall r :: r in c.replicas ==> c.replicas[r] == FRESH) && c.lock == None && c.status == None
  }

  ghost function Run(c: Cluster, steps: seq<Step>): Option<Cluster>
    decreases |steps|
  {
    if steps == [] then Some(c)
    else if Enabled(c, steps[0]) then Run(Next(c, steps[0]), steps[1..]) else None
  }

  lemma NoSteps(c: Cluster)
    ensures Run(c, []) == Some(c)
  {
  }

  lemma Prefix(c: Cluster, s: Step, rest: seq<Step>)
    requires Enabled(c, s)
    ensures Run(c, [s] + rest) == Run(Next(c, s), rest)
  {
    assert ([s] + rest)[1..] == rest;
  }

  // ---------- holding the lock ----------

  /** A renewal by the owner gives it the lock for 30 more seconds, to the instant. */
  lemma RenewalLasts(c: Cluster, r: int, to: int)
    requires Enabled(c, Renew(r, false)) && c.lock.Some? && c.lock.value.owner == r && c.now <= to
    ensures HoldsLock(Next(Next(c, Renew(r, false)), Tick(to)), r) <==> to < c.now + 30
  {
  }

  /** A lock that is gone or another's is not extended, and a failed renewal changes nothing. */
  lemma NotExtended(c: Cluster, r: int, error: bool)
    requires Enabled(c, Renew(r, error)) && (error || c.lock.None? || c.lock.value.owner != r)
    ensures Next(c, Renew(r, error)).lock == c.lock
  {
  }

  /** The clock stays less than 30 seconds past r's last successful renewal (or acquisition), and r does not
      release the lock. */
  ghost predicate Renews(c: Cluster, steps: seq<Step>, r: int, last: int)
    decreases |steps|
  {
    steps != [] ==>
      && Enabled(c, steps[0]) && (steps[0].Tick? ==> steps[0].to < last + 30) && steps[0] != Release(r)
      && Renews(Next(c, steps[0]), steps[1..], r, if steps[0] == Renew(r, false) then c.now else last)
  }

  lemma {:induction false} RenewingHolds(c: Cluster, steps: seq<Step>, r: int, last: int)
    requires c.lock == Some(Lease(r, last + 30)) && c.now < last + 30 && Renews(c, steps, r, last)
    ensures Run(c, steps).Some? && HoldsLock(Run(c, steps).value, r)
    decreases |steps|
  {
    if steps != [] {
      RenewingHolds(Next(c, steps[0]), steps[1..], r, if steps[0] == Renew(r, false) then c.now else last);
    }
  }

  /** In every interleaving, a replica that took the lock holds it for as long as its renewals succeed less than 30
      seconds apart. */
  lemma LeaderHolds(c: Cluster, steps: seq<Step>, r: int)
    requires Enabled(c, Acquire(r)) && c.lock.None? && Renews(Next(c, Acquire(r)), steps, r, c.now)
    ensures Run(c, [Acquire(r)] + steps).Some? && HoldsLock(Run(c, [Acquire(r)] + steps).value, r)
  {
    hide Renews, Run;
    Prefix(c, Acquire(r), steps);
    RenewingHolds(Next(c, Acquire(r)), steps, r, c.now);
  }

  /** A step by which a lock naming r may go away: r releases it or its time is up. */
  ghost predicate EndsLock(c: Cluster, s: Step, r: int) {
    s == Release(r) || (s.Tick? && c.lock.Some? && c.lock.value.expires <= s.to)
  }

  /** In every run, whatever the others do, a lock naming r ends in no other way. */
  lemma {:induction false} LockEndsOnlyBy(c: Cluster, steps: seq<Step>, r: int)
    requires Run(c, steps).Some? && OwnedBy(c.lock, r) && !OwnedBy(Run(c, steps).value.lock, r)
    ensures exists i :: 0 <= i < |steps| && Run(c, steps[..i]).Some? && EndsLock(Run(c, steps[..i]).value, steps[i], r)
    decreases |steps|
  {
    var s, rest := steps[0], steps[1..];
    assert steps[..0] == [];
    if EndsLock(c, s, r) {
      assert Run(c, steps[..0]).Some?;
    } else {
      assert OwnedBy(Next(c, s).lock, r);
      hide Next, Enabled, EndsLock, OwnedBy;
      LockEndsOnlyBy(Next(c, s), rest, r);
      var i :| 0 <= i < |rest| && Run(Next(c, s), rest[..i]).Some? && EndsLock(Run(Next(c, s), rest[..i]).value, rest[i], r);
      assert steps[..i + 1] == [s] + rest[..i];
      Prefix(c, s, rest[..i]);
      assert steps[i + 1] == rest[i];
    }
  }

  /** A refresh message has an effect on a replica exactly when it leads; elsewhere nothing changes. */
  lemma OnlyLeaderRefreshes(c: Cluster, r: int)
    requires Enabled(c, Check(r))
    ensures if c.replicas[r].isLeader then Enabled(Next(c, Check(r)), Read(r, Control, false)) else Next(c, Check(r)) == c
  {
    if !c.replicas[r].isLeader {
      assert c.replicas[r := c.replicas[r]] == c.replicas;
    }
  }

  // ---------- stepping down, sessions and the connected flag over runs ----------

  ghost predicate NotIn(c: Cluster, r: int, phases: set<Phase>) {
    r in c.replicas ==> c.replicas[r].phase !in phases
  }

  lemma {:induction false} ClearsFirst(c: Cluster, steps: seq<Step>, r: int) returns (j: nat)
    requires NotIn(c, r, {Cleared}) && Run(c, steps).Some? && Enabled(Run(c, steps).value, Release(r))
    ensures j < |steps| && steps[j] == Clear(r)
    decreases |steps|
  {
    if steps[0] == Clear(r) {
      j := 0;
    } else {
      assert NotIn(Next(c, steps[0]), r, {Cleared});
      j := ClearsFirst(Next(c, steps[0]), steps[1..], r);
      j := j + 1;
    }
  }

  /** In every run, a replica that was not stepping down and is about to release the lock has stopped its tunnel and
      then cleared its status. */
  lemma {:induction false} StepsDownInOrder(c: Cluster, steps: seq<Step>, r: int) returns (i: nat, j: nat)
    requires NotIn(c, r, {Stopped, Cleared}) && Run(c, steps).Some? && Enabled(Run(c, steps).value, Release(r))
    ensures i < j < |steps| && steps[i] == Stop(r) && steps[j] == Clear(r)
    decreases |steps|
  {
    var d := Next(c, steps[0]);
    if steps[0] == Stop(r) {
      assert NotIn(d, r, {Cleared});
      i := 0;
      j := ClearsFirst(d, steps[1..], r);
    } else {
      assert NotIn(d, r, {Stopped, Cleared});
      i, j := StepsDownInOrder(d, steps[1..], r);
      i := i + 1;
    }
    j := j + 1;
  }

  /** How many of the steps start, or end, a session of r. */
  ghost function SessionBalance(steps: seq<Step>, r: int): int {
    if steps == [] then 0
    else
      var s := steps[0];
      (if s.Start? && s.r == r then 1 else if s == Return(r) then -1 else 0) + SessionBalance(steps[1..], r)
  }

  ghost predicate NoCrash(steps: seq<Step>, r: int) {
    forall i :: 0 <= i < |steps| && steps[i].Crash? ==> steps[i].r != r && steps[i].reborn != r
  }

  /** Sessions are neither lost nor made: there are as many as were started and have not returned. */
  lemma {:induction false} SessionsConserved(c: Cluster, steps: seq<Step>, r: int)
    requires Run(c, steps).Some? && r in c.replicas && NoCrash(steps, r)
    ensures r in Run(c, steps).value.replicas
    ensures Sessions(Run(c, steps).value.replicas[r]) == Sessions(c.replicas[r]) + SessionBalance(steps, r)
    decreases |steps|
  {
    if steps != [] {
      var d := Next(c, steps[0]);
      assert !(steps[0].Crash? && (steps[0].r == r || steps[0].reborn == r));
      assert r in d.replicas && Sessions(d.replicas[r]) == Sessions(c.replicas[r]) + SessionBalance([steps[0]], r) by {
        assert [steps[0]][1..] == [];
      }
      assert forall i :: 0 <= i < |steps[1..]| ==> steps[1..][i] == steps[i + 1];
      hide Next, Enabled;
      SessionsConserved(d, steps[1..], r);
    }
  }

  /** A replica's connected flag is raised by its publishes and lowered by its clears, and by nothing else. */
  lemma ConnectedStep(c: Cluster, s: Step, r: int)
    requires Enabled(c, s) && r in c.replicas && r in Next(c, s).replicas && !s.Crash?
    ensures Next(c, s).replicas[r].connected ==
            if s.Publish? && s.r == r then true else if s == Disown(r) || s == Clear(r) then false else c.replicas[r].connected
  {
  }

  // ---------- tunnels at the lock's holder ----------

  ghost predicate HoldsLock(c: Cluster, r: int) {
    OwnedBy(c.lock, r) && c.now < c.lock.value.expires
  }

  /** Every replica with an active tunnel holds an unexpired lock. */
  ghost predicate AtHolder(c: Cluster) {
    forall r :: r in c.replicas && c.replicas[r].tunnel.Some? ==> HoldsLock(c, r)
  }

  /** A tunnel is started without the lock, the lock is released under an active tunnel, or it expires under one. */
  ghost predicate Breaks(c: Cluster, s: Step)
    requires Enabled(c, s)
  {
    match s
    case Start(r, _) => !HoldsLock(c, r)
    case Release(r) => c.replicas[r].tunnel.Some?
    case Tick(to) =>
      c.lock.Some? && c.lock.value.expires <= to && c.lock.value.owner in c.replicas && c.replicas[c.lock.value.owner].tunnel.Some?
    case _ => false
  }

  /** A step keeps the tunnels at the lock's holder exactly when it is none of those three. */
  lemma StepSafeExactlyWhen(c: Cluster, s: Step)
    requires AtHolder(c) && Enabled(c, s)
    ensures AtHolder(Next(c, s)) <==> !Breaks(c, s)
  {
    var d := Next(c, s);
    if Breaks(c, s) {
      if s.Tick? {
        assert !HoldsLock(d, c.lock.value.owner);
      } else {
        assert d.replicas[s.r].tunnel.Some? && !HoldsLock(d, s.r);
      }
    } else {
      forall r | r in d.replicas && d.replicas[r].tunnel.Some? ensures HoldsLock(d, r) {
        if r in c.replicas && c.replicas[r].tunnel.Some? {
          assert HoldsLock(c, r);
        }
      }
    }
  }

  ghost predicate AlwaysAtHolder(c: Cluster, steps: seq<Step>)
    decreases |steps|
  {
    AtHolder(c) && (steps != [] ==> Enabled(c, steps[0]) && AlwaysAtHolder(Next(c, steps[0]), steps[1..]))
  }

  ghost predicate NeverBreaks(c: Cluster, steps: seq<Step>)
    decreases |steps|
  {
    steps != [] ==> Enabled(c, steps[0]) && !Breaks(c, steps[0]) && NeverBreaks(Next(c, steps[0]), steps[1..])
  }

  /** The same for whole runs. */
  lemma {:induction false} RunSafeExactlyWhen(c: Cluster, steps: seq<Step>)
    requires AtHolder(c) && Run(c, steps).Some?
    ensures AlwaysAtHolder(c, steps) <==> NeverBreaks(c, steps)
    decreases |steps|
  {
    hide Next, Enabled, Breaks, AtHolder;
    if steps != [] {
      StepSafeExactlyWhen(c, steps[0]);
      if AtHolder(Next(c, steps[0])) {
        RunSafeExactlyWhen(Next(c, steps[0]), steps[1..]);
      }
    }
  }

  // ---------- the design's assumptions suffice ----------

  ghost predicate TunnelAllowed(p: Phase) {
    p == Leading || p == Ending || p == Unmarked
  }

  ghost predicate SafeReplica(c: Cluster, r: int)
    requires r in c.replicas
  {
    var me := c.replicas[r];
    && (me.phase != Standby <==> HoldsLock(c, r))
    && (me.tunnel.Some? ==> TunnelAllowed(me.phase))
    && (me.isLeader ==> me.phase == Leading || me.phase == Ending)
    && (me.loop != Idle ==> me.phase == Leading)
  }

  ghost predicate Safe(c: Cluster) {
    (c.lock.Some? ==> c.now < c.lock.value.expires) && forall r :: r in c.replicas ==> SafeReplica(c, r)
  }

  /** A replica in office renews (or gives up) its lock before it expires, and a refresh that was allowed
      because its replica led starts a tunnel only while it has not stopped its own to step down. */
  ghost predicate Timely(c: Cluster, s: Step) {
    match s
    case Tick(to) => c.lock.Some? && c.lock.value.owner in c.replicas ==> to < c.lock.value.expires
    case Start(r, who) => who == Control ==> r in c.replicas && TunnelAllowed(c.replicas[r].phase)
    case _ => true
  }

  lemma StepKeepsSafe(c: Cluster, s: Step)
    requires Safe(c) && Enabled(c, s) && Timely(c, s)
    ensures Safe(Next(c, s))
  {
    var d := Next(c, s);
    forall r | r in d.replicas ensures SafeReplica(d, r) {
      if r in c.replicas {
        assert SafeReplica(c, r);
        if !IsGlobal(s) && !s.Crash? && s.r == r {
          OwnStepSafe(c, s);
        }
      }
    }
  }

  lemma OwnStepSafe(c: Cluster, s: Step)
    requires Safe(c) && Enabled(c, s) && Timely(c, s) && !IsGlobal(s) && !s.Crash?
    ensures SafeReplica(Next(c, s), s.r)
  {
    assert SafeReplica(c, s.r);
  }

  ghost predicate TimelyRun(c: Cluster, steps: seq<Step>)
    decreases |steps|
  {
    steps != [] ==> Enabled(c, steps[0]) && Timely(c, steps[0]) && TimelyRun(Next(c, steps[0]), steps[1..])
  }

  lemma {:induction false} RunKeepsSafe(c: Cluster, steps: seq<Step>)
    requires Safe(c) && TimelyRun(c, steps)
    ensures Run(c, steps).Some? && Safe(Run(c, steps).value)
    decreases |steps|
  {
    hide Next, Enabled, Timely, Safe;
    if steps != [] {
      StepKeepsSafe(c, steps[0]);
      RunKeepsSafe(Next(c, steps[0]), steps[1..]);
    }
  }

  lemma InitialSafe(c: Cluster)
    requires Initial(c)
    ensures Safe(c) && Drained(c)
  {
  }

  /** In every interleaving that keeps the two assumptions at most one replica has an active tunnel, and
      that replica holds an unexpired lock. */
  lemma AtMostOneTunnel(c: Cluster, steps: seq<Step>)
    requires Initial(c) && TimelyRun(c, steps)
    ensures Run(c, steps).Some? && AtHolder(Run(c, steps).value)
    ensures var d := Run(c, steps).value;
            forall r, q :: r in d.replicas && q in d.replicas && d.replicas[r].tunnel.Some? && d.replicas[q].tunnel.Some? ==> r == q
  {
    InitialSafe(c);
    RunKeepsSafe(c, steps);
    var d := Run(c, steps).value;
    forall r | r in d.replicas && d.replicas[r].tunnel.Some? ensures HoldsLock(d, r) {
      assert SafeReplica(d, r);
    }
  }

  // ---------- who publishes the status ----------

  /** No replica on standby has a cancelled session that has not returned. */
  ghost predicate Drained(c: Cluster) {
    forall r :: r in c.replicas && c.replicas[r].phase == Standby ==> c.replicas[r].leftover == 0
  }

  /** Only the lock's holder can publish exactly when no replica on standby has a session left over. */
  lemma HolderPublishesExactlyWhen(c: Cluster)
    requires Safe(c)
    ensures (forall r, late :: Enabled(c, Publish(r, late)) ==> HoldsLock(c, r)) <==> Drained(c)
  {
    if Drained(c) {
      forall r, late | Enabled(c, Publish(r, late)) ensures HoldsLock(c, r) {
        assert SafeReplica(c, r);
      }
    } else {
      var r :| r in c.replicas && c.replicas[r].phase == Standby && c.replicas[r].leftover != 0;
      assert SafeReplica(c, r);
      assert Enabled(c, Publish(r, true));
    }
  }

  /** The lock is released only once the replica's sessions have returned. */
  ghost predicate Patient(c: Cluster, s: Step) {
    s.Release? ==> s.r in c.replicas && c.replicas[s.r].leftover == 0
  }

  /** Which is lost exactly by releasing the lock before they have. */
  lemma StepDrainedExactlyWhen(c: Cluster, s: Step)
    requires Safe(c) && Drained(c) && Enabled(c, s) && Timely(c, s)
    ensures Drained(Next(c, s)) <==> Patient(c, s)
  {
    var d := Next(c, s);
    forall r | r in d.replicas && r in c.replicas
      ensures d.replicas[r].phase == Standby && d.replicas[r].leftover != 0 ==> s == Release(r)
    {
      assert SafeReplica(c, r);
    }
    if !Patient(c, s) {
      assert d.replicas[s.r].phase == Standby;
    }
  }

  ghost predicate PatientRun(c: Cluster, steps: seq<Step>)
    decreases |steps|
  {
    steps != [] ==> Enabled(c, steps[0]) && Patient(c, steps[0]) && PatientRun(Next(c, steps[0]), steps[1..])
  }

  /** A step by which the status naming `r` may go away: `r` clears it, another replica that holds the lock
      publishes its own, or its time is up. */
  ghost predicate EndsStatus(c: Cluster, s: Step, r: int) {
    match s
    case Clear(q) => q == r
    case Disown(q) => q == r
    case Publish(q, _) => q != r && HoldsLock(c, q)
    case Tick(to) => c.status.Some? && c.status.value.expires <= to
    case _ => false
  }

  lemma StatusStep(c: Cluster, s: Step, r: int)
    requires Safe(c) && Drained(c) && Enabled(c, s) && OwnedBy(c.status, r) && !EndsStatus(c, s, r)
    ensures OwnedBy(Next(c, s).status, r)
  {
    if s.Publish? {
      HolderPublishesExactlyWhen(c);
    }
  }

  /** In every timely run in which locks are released after the sessions have returned, a status naming `r` that
      is gone at the end was ended by one of those steps. */
  lemma {:induction false} StatusEndsOnlyBy(c: Cluster, steps: seq<Step>, r: int)
    requires Safe(c) && Drained(c) && TimelyRun(c, steps) && PatientRun(c, steps)
    requires Run(c, steps).Some? && OwnedBy(c.status, r) && !OwnedBy(Run(c, steps).value.status, r)
    ensures exists i :: 0 <= i < |steps| && Run(c, steps[..i]).Some? && EndsStatus(Run(c, steps[..i]).value, steps[i], r)
    decreases |steps|
  {
    hide Next, Enabled, EndsStatus, OwnedBy, Safe, Drained, Timely, Patient;
    var s, rest := steps[0], steps[1..];
    assert steps[..0] == [];
    if EndsStatus(c, s, r) {
      assert Run(c, steps[..0]).Some?;
    } else {
      StatusStep(c, s, r);
      StepKeepsSafe(c, s);
      StepDrainedExactlyWhen(c, s);
      StatusEndsOnlyBy(Next(c, s), rest, r);
      var i :| 0 <= i < |rest| && Run(Next(c, s), rest[..i]).Some? && EndsStatus(Run(Next(c, s), rest[..i]).value, rest[i], r);
      assert steps[..i + 1] == [s] + rest[..i];
      Prefix(c, s, rest[..i]);
      assert steps[i + 1] == rest[i];
    }
  }

  /** r's sessions publish at least every 90 seconds, r does not clear its status, and no other replica publishes. */
  ghost predicate Pings(c: Cluster, steps: seq<Step>, r: int, last: int)
    decreases |steps|
  {
    steps != [] ==>
      && Enabled(c, steps[0]) && (steps[0].Tick? ==> steps[0].to < last + 90)
      && steps[0] != Clear(r) && steps[0] != Disown(r) && (steps[0].Publish? ==> steps[0].r == r)
      && Pings(Next(c, steps[0]), steps[1..], r, if steps[0].Publish? then c.now else last)
  }

  /** Then the status keeps naming r. */
  lemma {:induction false} PingingKeepsStatus(c: Cluster, steps: seq<Step>, r: int, last: int)
    requires c.status == Some(Lease(r, last + 90)) && Pings(c, steps, r, last)
    ensures Run(c, steps).Some? && OwnedBy(Run(c, steps).value.status, r)
    decreases |steps|
  {
    if steps != [] {
      PingingKeepsStatus(Next(c, steps[0]), steps[1..], r, if steps[0].Publish? then c.now else last);
    }
  }

  // ---------- after the identity is deleted ----------

  ghost predicate HoldsIdentity(w: Work) {
    w.Starting? || (w.Loaded? && Target(w.found).Some?)
  }

  /** No goroutine of the replica is at work with an identity it read. */
  ghost predicate Quiet(me: Replica) {
    !HoldsIdentity(me.loop) && !HoldsIdentity(me.control)
  }

  ghost predicate QuietAt(c: Cluster, r: int) {
    r in c.replicas ==> Quiet(c.replicas[r])
  }

  ghost predicate DownAt(c: Cluster, r: int) {
    r in c.replicas ==> c.replicas[r].tunnel.None?
  }

  /** A step after which replica `r` follows the deletion: a reconcile acts on what it read, or a stop. */
  ghost predicate Converges(s: Step, r: int) {
    match s
    case Decide(q, _) => q == r
    case Halt(q) => q == r
    case Stop(q) => q == r
    case Crash(q, _) => q == r
    case _ => false
  }

  ghost predicate NoSaves(steps: seq<Step>) {
    forall i :: 0 <= i < |steps| ==> !steps[i].SaveIdentity?
  }

  lemma GoneStep(c: Cluster, s: Step, r: int)
    requires Enabled(c, s) && c.stored.None? && !s.SaveIdentity? && QuietAt(c, r)
    ensures var d := Next(c, s);
            && d.stored.None? && QuietAt(d, r)
            && (DownAt(c, r) || Converges(s, r) ==> DownAt(d, r))
  {
  }

  /** Once the identity is deleted and no read from before is at work, a replica that reconciles or is stopped
      once has no tunnel and never starts one again. */
  lemma {:induction false} GoneStaysDown(c: Cluster, steps: seq<Step>, r: int)
    requires Run(c, steps).Some? && c.stored.None? && QuietAt(c, r) && NoSaves(steps)
    requires DownAt(c, r) || exists i :: 0 <= i < |steps| && Converges(steps[i], r)
    ensures DownAt(Run(c, steps).value, r)
    decreases |steps|
  {
    hide Next, Enabled, QuietAt, DownAt;
    if steps != [] {
      var s, rest := steps[0], steps[1..];
      GoneStep(c, s, r);
      var d := Next(c, s);
      assert forall i :: 0 <= i < |rest| ==> rest[i] == steps[i + 1];
      if !DownAt(c, r) && !Converges(s, r) {
        var i :| 0 <= i < |steps| && Converges(steps[i], r);
        assert Converges(rest[i - 1], r);
      }
      GoneStaysDown(d, rest, r);
    }
  }

  /** In a run from c without a new pairing the tunnel of r can come up. */
  ghost predicate ComesUp(c: Cluster, steps: seq<Step>, r: int) {
    NoSaves(steps) && Run(c, steps).Some? && !DownAt(Run(c, steps).value, r)
  }

  /** With the identity deleted, a replica without a tunnel stays without one in every run exactly when none of its
      goroutines is at work with an identity read before. */
  lemma DownForGoodExactlyWhen(c: Cluster, r: int)
    requires c.stored.None? && DownAt(c, r)
    ensures (forall steps :: !ComesUp(c, steps, r)) <==> QuietAt(c, r)
  {
    if QuietAt(c, r) {
      forall steps ensures !ComesUp(c, steps, r) {
        if NoSaves(steps) && Run(c, steps).Some? {
          GoneStaysDown(c, steps, r);
        }
      }
    } else {
      var who := if HoldsIdentity(c.replicas[r].loop) then Loop else Control;
      if WorkOf(c.replicas[r], who).Starting? {
        StartComesUp(c, r, who);
      } else {
        var s := Decide(r, who);
        StartComesUp(Next(c, s), r, who);
        Prefix(c, s, [Start(r, who)]);
        assert ComesUp(c, [s] + [Start(r, who)], r);
      }
    }
  }

  lemma StartComesUp(c: Cluster, r: int, who: Actor)
    requires r in c.replicas && WorkOf(c.replicas[r], who).Starting?
    ensures ComesUp(c, [Start(r, who)], r)
  {
    var s := Start(r, who);
    Prefix(c, s, []);
    NoSteps(Next(c, s));
    assert [s] + [] == [s];
  }
}
