/** Runs of two replicas in which the Cloud Bridge's code misses what its comments promise. */
module CloudBridgeRaces {
  import opened Wrappers
  import opened CloudBridge

  /** A cluster of the replicas 1 and 2 at time 0. */
  datatype Pair = Pair(a: Replica, b: Replica, lock: Option<Lease>, status: Option<Lease>, stored: Option<Identity>)

  ghost function In(p: Pair): Cluster {
    Cluster(map[1 := p.a, 2 := p.b], p.lock, p.status, p.stored, 0)
  }

  function Member(p: Pair, r: int): Replica {
    if r == 1 then p.a else p.b
  }

  function Put(p: Pair, r: int, me: Replica): Pair {
    if r == 1 then p.(a := me) else p.(b := me)
  }

  predicate Playable(p: Pair, s: Step) {
    !IsGlobal(s) && !s.Crash? && (s.r == 1 || s.r == 2) && MayAct(Member(p, s.r), s)
  }

  function Moved(p: Pair, s: Step): Pair
    requires Playable(p, s)
  {
    Put(p, s.r, Acted(Member(p, s.r), p.lock, p.stored, s)).(lock := LockAfter(p.lock, 0, s), status := StatusAfter(p.status, 0, s))
  }

  lemma PairStep(p: Pair, s: Step, rest: seq<Step>)
    requires Playable(p, s)
    ensures Run(In(p), [s] + rest) == Run(In(Moved(p, s)), rest)
  {
    hide Acted, LockAfter, StatusAfter, MayAct, Run;
    var c, me := In(p), Acted(Member(p, s.r), p.lock, p.stored, s);
    assert c.replicas[s.r := me] == In(Moved(p, s)).replicas;
    Prefix(c, s, rest);
  }

  lemma PairDelete(p: Pair, rest: seq<Step>)
    ensures Run(In(p), [DeleteIdentity] + rest) == Run(In(p.(stored := None)), rest)
  {
    Prefix(In(p), DeleteIdentity, rest);
  }

  lemma Joined(s: Step, t: seq<Step>, rest: seq<Step>)
    ensures [s] + t + rest == [s] + (t + rest)
  {
  }

  // ---------- what a replica does in one go ----------

  const LEADER := FRESH.(phase := Leading, isLeader := true)

  ghost function Elect(r: int): seq<Step> {
    [Acquire(r)] + [MarkLeader(r)]
  }

  lemma ElectRuns(p: Pair, r: int, rest: seq<Step>)
    requires (r == 1 || r == 2) && Member(p, r).phase == Standby && p.lock.None?
    ensures Run(In(p), Elect(r) + rest)
            == Run(In(Put(p, r, Member(p, r).(phase := Leading, isLeader := true)).(lock := Some(Lease(r, LEADER_TTL)))), rest)
  {
    hide Run;
    Joined(Acquire(r), [MarkLeader(r)], rest);
    PairStep(p, Acquire(r), [MarkLeader(r)] + rest);
    PairStep(Moved(p, Acquire(r)), MarkLeader(r), rest);
  }

  /** A reconcile that nothing comes between. */
  ghost function Converge(r: int, who: Actor): seq<Step> {
    [Read(r, who, false)] + ([Decide(r, who)] + [Start(r, who)])
  }

  lemma ConvergeRuns(p: Pair, r: int, who: Actor, identity: Identity, rest: seq<Step>)
    requires (r == 1 || r == 2) && MayAct(Member(p, r), Read(r, who, false)) && Member(p, r).tunnel.None?
    requires p.stored == Some(identity) && identity.caCert != ""
    ensures Run(In(p), Converge(r, who) + rest)
            == Run(In(Put(p, r, SetWork(Member(p, r), who, Idle).(tunnel := Some(identity)))), rest)
  {
    hide Run;
    var q := Moved(p, Read(r, who, false));
    Joined(Read(r, who, false), [Decide(r, who)] + [Start(r, who)], rest);
    Joined(Decide(r, who), [Start(r, who)], rest);
    PairStep(p, Read(r, who, false), [Decide(r, who)] + ([Start(r, who)] + rest));
    PairStep(q, Decide(r, who), [Start(r, who)] + rest);
    PairStep(Moved(q, Decide(r, who)), Start(r, who), rest);
  }

  /** From the end of `runAsLeader` to the tunnel's stop, and from there to the release of the lock. */
  ghost function Retire(r: int): seq<Step> {
    [Cancel(r)] + ([Unmark(r)] + [Stop(r)])
  }

  ghost function Leave(r: int): seq<Step> {
    [Clear(r)] + [Release(r)]
  }

  lemma RetireRuns(p: Pair, r: int, rest: seq<Step>)
    requires (r == 1 || r == 2) && Member(p, r).phase == Leading && Member(p, r).loop == Idle
    ensures Run(In(p), Retire(r) + rest)
            == Run(In(Put(p, r, Halted(Member(p, r)).(phase := Stopped, isLeader := false))), rest)
  {
    hide Run;
    var q := Moved(p, Cancel(r));
    Joined(Cancel(r), [Unmark(r)] + [Stop(r)], rest);
    Joined(Unmark(r), [Stop(r)], rest);
    PairStep(p, Cancel(r), [Unmark(r)] + ([Stop(r)] + rest));
    PairStep(q, Unmark(r), [Stop(r)] + rest);
    PairStep(Moved(q, Unmark(r)), Stop(r), rest);
  }

  lemma LeaveRuns(p: Pair, r: int, rest: seq<Step>)
    requires (r == 1 || r == 2) && Member(p, r).phase == Stopped && OwnedBy(p.lock, r) && p.status.None?
    ensures Run(In(p), Leave(r) + rest)
            == Run(In(Put(p, r, Member(p, r).(phase := Standby, connected := false)).(lock := None)), rest)
  {
    hide Run;
    Joined(Clear(r), [Release(r)], rest);
    PairStep(p, Clear(r), [Release(r)] + rest);
    PairStep(Moved(p, Clear(r)), Release(r), rest);
  }

  /** Two fresh replicas and a paired identity. */
  ghost function Paired(identity: Identity): Pair {
    Pair(FRESH, FRESH, None, None, Some(identity))
  }

  // ---------- the races ----------

  /** A leader sees a refresh and stops its tunnel to step down; then the refresh reconciles, and after the lock is
      released the replica still has an active tunnel. */
  lemma RefreshRace(identity: Identity)
    requires identity.caCert != ""
    ensures Run(In(Paired(identity)), Elect(1) + ([Check(1)] + (Retire(1) + (Converge(1, Control) + (Leave(1) + [])))))
            == Some(In(Paired(identity).(a := FRESH.(tunnel := Some(identity)))))
  {
    hide Run, Elect, Retire, Converge, Leave;
    var p := Paired(identity);
    var last := Leave(1) + [];
    ElectRuns(p, 1, [Check(1)] + (Retire(1) + (Converge(1, Control) + last)));
    var lock := Some(Lease(1, LEADER_TTL));
    PairStep(p.(a := LEADER, lock := lock), Check(1), Retire(1) + (Converge(1, Control) + last));
    RetireRuns(p.(a := LEADER.(control := Checked), lock := lock), 1, Converge(1, Control) + last);
    var stopped := FRESH.(phase := Stopped);
    ConvergeRuns(p.(a := stopped.(control := Checked), lock := lock), 1, Control, identity, last);
    LeaveRuns(p.(a := stopped.(tunnel := Some(identity)), lock := lock), 1, []);
    NoSteps(In(p.(a := FRESH.(tunnel := Some(identity)))));
  }

  /** The leader has read the identity when it is deleted and the stop message stops the tunnel; then the leader
      starts the tunnel with what it read. */
  lemma StaleStart(identity: Identity)
    requires identity.caCert != ""
    ensures Run(In(Paired(identity)), Elect(1) + ([Read(1, Loop, false)] + ([DeleteIdentity] + ([Decide(1, Loop)] + ([Halt(1)] + ([Start(1, Loop)] + []))))))
            == Some(In(Paired(identity).(a := LEADER.(tunnel := Some(identity)), lock := Some(Lease(1, LEADER_TTL)), stored := None)))
  {
    hide Run, Elect;
    var p, lock := Paired(identity), Some(Lease(1, LEADER_TTL));
    var s4 := [Start(1, Loop)] + [];
    var s3 := [Halt(1)] + s4;
    var s2 := [Decide(1, Loop)] + s3;
    var s1 := [DeleteIdentity] + s2;
    ElectRuns(p, 1, [Read(1, Loop, false)] + s1);
    PairStep(p.(a := LEADER, lock := lock), Read(1, Loop, false), s1);
    PairDelete(p.(a := LEADER.(loop := Loaded(Some(identity))), lock := lock), s2);
    var q := p.(lock := lock, stored := None);
    PairStep(q.(a := LEADER.(loop := Loaded(Some(identity)))), Decide(1, Loop), s3);
    PairStep(q.(a := LEADER.(loop := Starting(identity))), Halt(1), s4);
    PairStep(q.(a := LEADER.(loop := Starting(identity))), Start(1, Loop), []);
    NoSteps(In(q.(a := LEADER.(tunnel := Some(identity)))));
  }

  /** A session of replica 1 is cancelled when it steps down; replica 2 takes over and publishes its status; then
      the old session, connected just before it was cancelled, publishes replica 1's. */
  ghost function LateSteps(): seq<Step> {
    Elect(1) + (Converge(1, Loop) + (Retire(1) + (Leave(1) + (Elect(2) + (Converge(2, Loop) + ([Publish(2, false)] + ([Publish(1, true)] + [])))))))
  }

  lemma LateSessionTakesStatus(identity: Identity)
    requires identity.caCert != ""
    ensures var end := Pair(FRESH.(leftover := 1, connected := true), LEADER.(tunnel := Some(identity), connected := true),
                            Some(Lease(2, LEADER_TTL)), Some(Lease(1, STATUS_TTL)), Some(identity));
            Run(In(Paired(identity)), LateSteps()) == Some(In(end)) && TimelyRun(In(Paired(identity)), LateSteps())
  {
    hide Run, LateSteps, In;
    LateRun(identity);
    LateStepsPrompt();
    Undelayed(In(Paired(identity)), LateSteps());
  }

  lemma LateRun(identity: Identity)
    requires identity.caCert != ""
    ensures var end := Pair(FRESH.(leftover := 1, connected := true), LEADER.(tunnel := Some(identity), connected := true),
                            Some(Lease(2, LEADER_TTL)), Some(Lease(1, STATUS_TTL)), Some(identity));
            Run(In(Paired(identity)), LateSteps()) == Some(In(end))
  {
    hide Run, Elect, Retire, Converge, Leave;
    var p, up := Paired(identity), LEADER.(tunnel := Some(identity));
    var s6 := [Publish(1, true)] + [];
    var s5 := [Publish(2, false)] + s6;
    var s4 := Elect(2) + (Converge(2, Loop) + s5);
    var lock1, lock2 := Some(Lease(1, LEADER_TTL)), Some(Lease(2, LEADER_TTL));
    ElectRuns(p, 1, Converge(1, Loop) + (Retire(1) + (Leave(1) + s4)));
    ConvergeRuns(p.(a := LEADER, lock := lock1), 1, Loop, identity, Retire(1) + (Leave(1) + s4));
    RetireRuns(p.(a := up, lock := lock1), 1, Leave(1) + s4);
    LeaveRuns(p.(a := FRESH.(phase := Stopped, leftover := 1), lock := lock1), 1, s4);
    var q := p.(a := FRESH.(leftover := 1));
    ElectRuns(q, 2, Converge(2, Loop) + s5);
    ConvergeRuns(q.(b := LEADER, lock := lock2), 2, Loop, identity, s5);
    PairStep(q.(b := up, lock := lock2), Publish(2, false), s6);
    var published := q.(b := up.(connected := true), lock := lock2, status := Some(Lease(2, STATUS_TTL)));
    PairStep(published, Publish(1, true), []);
    NoSteps(In(Moved(published, Publish(1, true))));
  }

  ghost predicate Prompt(steps: seq<Step>) {
    forall i :: 0 <= i < |steps| ==> !steps[i].Tick? && !(steps[i].Start? && steps[i].who == Control)
  }

  lemma PromptJoin(s: seq<Step>, t: seq<Step>)
    requires Prompt(s) && Prompt(t)
    ensures Prompt(s + t)
  {
  }

  lemma LateStepsPrompt()
    ensures Prompt(LateSteps())
  {
    assert Prompt(Elect(1)) && Prompt(Elect(2)) && Prompt(Converge(1, Loop)) && Prompt(Converge(2, Loop));
    assert Prompt(Retire(1)) && Prompt(Leave(1));
    hide Elect, Converge, Retire, Leave;
    var s6 := [Publish(1, true)] + [];
    var s5 := [Publish(2, false)] + s6;
    assert Prompt(s5);
    hide Prompt;
    PromptJoin(Converge(2, Loop), s5);
    PromptJoin(Elect(2), Converge(2, Loop) + s5);
    var s4 := Elect(2) + (Converge(2, Loop) + s5);
    PromptJoin(Leave(1), s4);
    PromptJoin(Retire(1), Leave(1) + s4);
    PromptJoin(Converge(1, Loop), Retire(1) + (Leave(1) + s4));
    PromptJoin(Elect(1), Converge(1, Loop) + (Retire(1) + (Leave(1) + s4)));
  }

  /** Only the clock and a late refresh can break the timing assumptions. */
  lemma {:induction false} Undelayed(c: Cluster, steps: seq<Step>)
    requires Run(c, steps).Some?
    requires Prompt(steps)
    ensures TimelyRun(c, steps)
    decreases |steps|
  {
    hide Next, Enabled;
    if steps != [] {
      assert forall i :: 0 <= i < |steps[1..]| ==> steps[1..][i] == steps[i + 1];
      Undelayed(Next(c, steps[0]), steps[1..]);
    }
  }
}
