/** When a login is over for good: its rows are ended one by one, but a rotated row can still be recovered
    within the grace window, and a request in flight can still insert or link. */
module RefreshSessions {
  import opened Wrappers
  import opened RefreshTokens

  ghost predicate NoLive(s: System, root: Hash) {
    forall h :: h in s.rows && LoginOf(s, h) == root ==> s.rows[h].used
  }

  /** A request that can still bring the login a live row: it has yet to insert one, or to link a row that is there. */
  ghost predicate Pending(s: System, root: Hash, q: int) {
    q in s.requests && LoginOf(s, s.requests[q].hash) == root && (s.requests[q].Inserted? ==> s.requests[q].hash in s.rows)
  }

  ghost predicate RowRecoverable(s: System, root: Hash, h: Hash) {
    LoginOf(s, h) == root && Recoverable(s.rows, h, s.now)
  }

  /** No such request is in flight and none of the login's rows is still recoverable. */
  ghost predicate Dormant(s: System, root: Hash) {
    (forall q :: !Pending(s, root, q)) && (forall h :: !RowRecoverable(s, root, h))
  }

  /** A run after which the login has a live row again. */
  ghost predicate Revives(s: System, root: Hash, steps: seq<Step>) {
    Run(s, steps).Some? && !NoLive(Run(s, steps).value, root)
  }

  // ---------- dormant stays dormant ----------

  lemma SameLogin(s: System, e: Step, h: Hash)
    requires Tracked(s) && Enabled(s, e) && h in s.issued
    ensures LoginOf(Next(s, e), h) == LoginOf(s, h) && h in Next(s, e).issued
  {
  }

  lemma DormantRows(s: System, e: Step, root: Hash, h: Hash)
    requires Tracked(s) && Enabled(s, e) && root in s.issued && NoLive(s, root) && Dormant(s, root)
    requires h in Next(s, e).rows && LoginOf(Next(s, e), h) == root
    ensures h in s.rows && LoginOf(s, h) == root && Next(s, e).rows[h] == s.rows[h]
  {
    assert e.Link? || e.InsertSuccessor? || e.InsertRecovered? ==> !Pending(s, root, e.request);
    if h in s.rows {
      SameLogin(s, e, h);
    }
  }

  lemma DormantRequests(s: System, e: Step, root: Hash, q: int)
    requires Tracked(s) && Enabled(s, e) && root in s.issued && NoLive(s, root) && Dormant(s, root)
    requires q in Next(s, e).requests && LoginOf(Next(s, e), Next(s, e).requests[q].hash) == root
    ensures q in s.requests && s.requests[q] == Next(s, e).requests[q]
    ensures s.requests[q].Inserted? && s.requests[q].hash !in Next(s, e).rows
  {
    assert e.StartRecovery? ==> !RowRecoverable(s, root, e.hash);
    assert !Pending(s, root, q);
    if q in s.requests {
      SameLogin(s, e, s.requests[q].hash);
    }
  }

  lemma DormantStep(s: System, e: Step, root: Hash)
    requires Tracked(s) && Enabled(s, e) && root in s.issued && NoLive(s, root) && Dormant(s, root)
    ensures var t := Next(s, e); root in t.issued && NoLive(t, root) && Dormant(t, root)
  {
    hide Tracked, Enabled;
    var t := Next(s, e);
    SameLogin(s, e, root);
    TimeMoves(s, e);
    hide Next;
    forall h | h in t.rows && LoginOf(t, h) == root ensures t.rows[h].used && !RowRecoverable(t, root, h) {
      DormantRows(s, e, root, h);
      assert !RowRecoverable(s, root, h);
    }
    forall q ensures !Pending(t, root, q) {
      if q in t.requests && LoginOf(t, t.requests[q].hash) == root {
        DormantRequests(s, e, root, q);
      }
    }
  }

  lemma TimeMoves(s: System, e: Step)
    requires Enabled(s, e)
    ensures s.now <= Next(s, e).now
  {
  }

  lemma {:induction false} DormantRun(s: System, steps: seq<Step>, root: Hash)
    requires Tracked(s) && root in s.issued && NoLive(s, root) && Dormant(s, root) && Run(s, steps).Some?
    ensures NoLive(Run(s, steps).value, root)
    decreases |steps|
  {
    hide Tracked, NoLive, Dormant, Next, Enabled;
    if steps != [] {
      StepKeepsTracked(s, steps[0]);
      DormantStep(s, steps[0], root);
      DormantRun(Next(s, steps[0]), steps[1..], root);
    }
  }

  // ---------- and otherwise it can come back ----------

  lemma {:induction false} Largest(issued: seq<Hash>) returns (m: Hash)
    ensures forall h :: h in issued ==> h <= m
  {
    m := 0;
    if issued != [] {
      var rest := Largest(issued[1..]);
      m := if rest < issued[0] then issued[0] else rest;
      forall h | h in issued ensures h <= m {
        assert h == issued[0] || h in issued[1..];
      }
    }
  }

  lemma {:induction false} FreeRequest(taken: set<int>) returns (q: int)
    ensures q !in taken && forall p :: p in taken ==> p < q
  {
    q := 0;
    if p :| p in taken {
      var r := FreeRequest(taken - {p});
      q := if r <= p then p + 1 else r;
      assert forall x :: x in taken ==> x == p || x in taken - {p};
    }
  }

  lemma OneStep(s: System, e: Step, rest: seq<Step>)
    requires Enabled(s, e)
    ensures Run(s, [e] + rest) == Run(Next(s, e), rest)
  {
    assert ([e] + rest)[1..] == rest;
  }

  lemma InsertRevives(s: System, root: Hash, q: int) returns (steps: seq<Step>)
    requires q in s.requests && LoginOf(s, s.requests[q].hash) == root && !s.requests[q].Inserted?
    ensures Revives(s, root, steps)
  {
    var m := Largest(s.issued);
    var e := if s.requests[q].Claimed? then InsertSuccessor(q, m + 1, 0, false, "") else InsertRecovered(q, m + 1, 0);
    OneStep(s, e, []);
    steps := [e] + [];
    var t := Next(s, e);
    assert Run(t, []) == Some(t);
    assert m + 1 in t.rows && LoginOf(t, m + 1) == root && !t.rows[m + 1].used;
  }

  lemma RecoveryRevives(s: System, root: Hash, h: Hash) returns (steps: seq<Step>)
    requires RowRecoverable(s, root, h)
    ensures Revives(s, root, steps)
  {
    var q := FreeRequest(s.requests.Keys);
    var e := StartRecovery(q, h);
    var rest := InsertRevives(Next(s, e), root, q);
    OneStep(s, e, rest);
    steps := [e] + rest;
  }

  lemma LinkRevives(s: System, root: Hash, q: int) returns (steps: seq<Step>)
    requires Pending(s, root, q) && s.requests[q].Inserted?
    ensures Revives(s, root, steps)
  {
    var e := Link(q, false);
    var t := Next(s, e);
    assert RowRecoverable(t, root, s.requests[q].hash);
    var rest := RecoveryRevives(t, root, s.requests[q].hash);
    OneStep(s, e, rest);
    steps := [e] + rest;
  }

  /** A login without a live row never has one again, in any interleaving, exactly when no request is pending on it
      and none of its rows is recoverable. */
  lemma OverExactlyWhen(s: System, root: Hash)
    requires Tracked(s) && root in s.issued && NoLive(s, root)
    ensures (forall steps :: !Revives(s, root, steps)) <==> Dormant(s, root)
  {
    hide Tracked, NoLive, Run;
    if Dormant(s, root) {
      forall steps ensures !Revives(s, root, steps) {
        if Run(s, steps).Some? {
          DormantRun(s, steps, root);
        }
      }
    } else {
      var steps;
      if q :| Pending(s, root, q) {
        if s.requests[q].Inserted? {
          steps := LinkRevives(s, root, q);
        } else {
          steps := InsertRevives(s, root, q);
        }
      } else {
        var h :| RowRecoverable(s, root, h);
        steps := RecoveryRevives(s, root, h);
      }
      assert Revives(s, root, steps);
    }
  }

  /** Such states are the ones every run from any table is in. */
  lemma OverInRuns(s: System, steps: seq<Step>, root: Hash)
    requires AnyTable(s) && Run(s, steps).Some?
    requires var t := Run(s, steps).value; root in t.issued && NoLive(t, root)
    ensures var t := Run(s, steps).value; (forall more :: !Revives(t, root, more)) <==> Dormant(t, root)
  {
    hide Run, Revives, Dormant;
    InitialBounded(s, root);
    RunBounded(s, steps, root);
    OverExactlyWhen(Run(s, steps).value, root);
  }

  /** Logging out with the newest token right after a rotation does not end the login: the token before it is recovered. */
  lemma LogoutRevived(spent: Row, live: Row, root: Hash, next: Hash, now: int)
    requires root != next && spent.used && spent.replacedBy == Some(next) && spent.usedAt == Some(now) && !live.used
    ensures var s := System(map[root := spent, next := live], map[], now, [root, next], map[next := root], map[], {}, map[]);
            var t := RefreshTokens.Next(s, End({next}));
            NoLive(t, root) && exists steps :: Revives(t, root, steps)
  {
    var s := System(map[root := spent, next := live], map[], now, [root, next], map[next := root], map[], {}, map[]);
    var t := RefreshTokens.Next(s, End({next}));
    assert RowRecoverable(t, root, root);
    var steps := RecoveryRevives(t, root, root);
  }
}
