/** Refresh-token rotation: a row is claimed, its successor inserted and linked by separate statements,
    a raced request is recovered within a grace window, and logout, revocation, a new login on the device
    or inactivity end rows, all interleaved. Token hashes are ideal: a new token has a new hash. */
module RefreshTokens {
  import opened Wrappers

  type Hash = int

  datatype Row = Row(user: int, device: string, remember: bool, createdAt: int, expiresAt: int, lastUsedAt: Option<int>,
                     used: bool, usedAt: Option<int>, replacedBy: Option<Hash>, jti: string)

  type Rows = map<Hash, Row>

  const GRACE_WINDOW := 30
  const ONE_DAY := 86_400

  // ---------- the statements ----------

  function Spent(row: Row, now: int): Row {
    row.(used := true, usedAt := Some(now))
  }

  /** UPDATE .. SET used = true, used_at = NOW() WHERE used = false AND <condition>: the rows named. */
  function Spend(rows: Rows, hashes: set<Hash>, now: int): Rows {
    map h | h in rows :: if h in hashes && !rows[h].used then Spent(rows[h], now) else rows[h]
  }

  predicate Claimable(rows: Rows, h: Hash, now: int) {
    h in rows && !rows[h].used && rows[h].expiresAt > now
  }

  /** `recoverRacedRefresh`'s test: used, linked to a replacement, within the grace window. */
  predicate Recoverable(rows: Rows, h: Hash, now: int) {
    && h in rows && rows[h].used && rows[h].replacedBy.Some? && rows[h].usedAt.Some?
    && now - rows[h].usedAt.value <= GRACE_WINDOW
  }

  /** A new row for the session of an old one; a session without a device takes the one of the browser's cookie. */
  function NewRow(like: Row, now: int, ttl: nat, jti: string, cookie: string): Row {
    Row(like.user, if like.device == "" then cookie else like.device, like.remember, now, now + ttl, Some(now), false, None, None, jti)
  }

  /** What a token issued for the session of `like` must look like: same user and remember flag, same device unless
      there was none, valid from now for `ttl` seconds, not used and not replaced. */
  ghost predicate Continues(like: Row, row: Row, now: int, ttl: nat, cookie: string) {
    && row.user == like.user && row.remember == like.remember
    && (like.device != "" ==> row.device == like.device) && (like.device == "" ==> row.device == cookie)
    && row.createdAt == now && row.lastUsedAt == Some(now) && row.expiresAt == now + ttl && !row.used && row.usedAt == None && row.replacedBy == None
  }

  ghost predicate OthersKept(before: Rows, after: Rows, changed: set<Hash>) {
    forall h :: h !in changed ==> (h in after <==> h in before) && (h in before ==> after[h] == before[h])
  }

  function Linked(rows: Rows, h: Hash, successor: Hash, now: int): Rows {
    if h in rows then rows[h := Spent(rows[h], now).(replacedBy := Some(successor))] else rows
  }

  function OnDevice(rows: Rows, user: int, device: string): set<Hash> {
    set h | h in rows && rows[h].user == user && rows[h].device == device && device != "" && !rows[h].used
  }

  /** The access-token ids issued alongside these rows. */
  function AccessTokens(rows: Rows, hashes: set<Hash>): set<string> {
    set h | h in hashes && h in rows && rows[h].jti != "" :: rows[h].jti
  }

  function LastSeen(row: Row): int {
    if row.lastUsedAt.Some? then row.lastUsedAt.value else row.createdAt
  }

  /** Rows the hourly cleanup ends: idle ones not remembered, and remembered ones past their maximum age. */
  function Idle(rows: Rows, now: int, timeout: nat, maxAge: nat): set<Hash> {
    set h | h in rows && !rows[h].used &&
      if rows[h].remember then rows[h].createdAt < now - maxAge else LastSeen(rows[h]) < now - timeout
  }

  predicate Deletable(row: Row, now: int) {
    row.expiresAt < now || (row.used && row.usedAt.Some? && row.usedAt.value < now - ONE_DAY)
  }

  function Purged(rows: Rows, now: int): Rows {
    map h | h in rows && !Deletable(rows[h], now) :: rows[h]
  }

  // ---------- the table and its handlers, run on their own ----------

  class TokenTable {
    var rows: Rows
    var blacklist: set<string>
    var now: int

    /** The claiming UPDATE .. RETURNING of `Refresh`: an unused row is claimed strictly before its expiry. */
    method Claim(h: Hash) returns (claimed: bool)
      modifies this`rows
      ensures claimed == Claimable(old(rows), h, now)
      ensures claimed <==> h in old(rows) && !old(rows)[h].used && now < old(rows)[h].expiresAt
      ensures rows == if claimed then old(rows)[h := old(rows)[h].(used := true, usedAt := Some(now))] else old(rows)
    {
      claimed := Claimable(rows, h, now);
      if claimed {
        rows := rows[h := Spent(rows[h], now)];
      }
    }

    /** `Refresh` with no other request in between: an unused unexpired token is spent and linked to the new one; a
        token rotated in the last 30 seconds gets a new row beside its replacement; anything else gets nothing. */
    method Refresh(h: Hash, successor: Hash, ttl: nat, jti: string, cookie: string) returns (ok: bool)
      requires successor !in rows && successor != h
      modifies this`rows
      ensures h !in old(rows) ==> !ok
      ensures h in old(rows) && !old(rows)[h].used ==> (ok <==> now < old(rows)[h].expiresAt)
      ensures h in old(rows) && old(rows)[h].used ==>
                (ok <==> old(rows)[h].replacedBy.Some? && old(rows)[h].usedAt.Some? && now <= old(rows)[h].usedAt.value + 30)
      ensures !ok ==> rows == old(rows)
      ensures ok ==> OthersKept(old(rows), rows, {h, successor}) && h in rows && successor in rows
      ensures ok && !old(rows)[h].used ==> Continues(old(rows)[h], rows[successor], now, ttl, cookie)
      ensures ok && !old(rows)[h].used ==> rows[h] == old(rows)[h].(used := true, usedAt := Some(now), replacedBy := Some(successor))
      ensures ok && old(rows)[h].used ==> Continues(old(rows)[h], rows[successor], now, ttl, "") && rows[h] == old(rows)[h]
      ensures ok ==> rows[successor].jti == if old(rows)[h].used then "" else jti
    {
      var claimed := Claim(h);
      if claimed {
        rows := rows[successor := NewRow(rows[h], now, ttl, jti, cookie)];
        rows := Linked(rows, h, successor, now);
        return true;
      }
      if Recoverable(rows, h, now) {
        rows := rows[successor := NewRow(rows[h], now, ttl, "", "")];
        return true;
      }
      return false;
    }

    /** `Logout` and `RevokeSession` end one unused row; the latter blacklists its access token too. */
    method RevokeSession(h: Hash, user: int) returns (ok: bool)
      modifies this`rows, this`blacklist
      ensures ok == (h in old(rows) && old(rows)[h].user == user && !old(rows)[h].used)
      ensures !ok ==> rows == old(rows)
      ensures ok ==> rows == old(rows)[h := old(rows)[h].(used := true, usedAt := Some(now))]
      ensures blacklist == old(blacklist) + if ok && old(rows)[h].jti != "" then {old(rows)[h].jti} else {}
    {
      ok := h in rows && rows[h].user == user && !rows[h].used;
      if ok {
        if rows[h].jti != "" {
          blacklist := blacklist + {rows[h].jti};
        }
        rows := rows[h := Spent(rows[h], now)];
      }
    }

    /** Every unused row of this user on this device is spent and its access token blacklisted; other users and other
        devices keep theirs, and without a device id nothing happens. */
    method InvalidateDeviceSessions(user: int, device: string)
      modifies this`rows, this`blacklist
      ensures rows.Keys == old(rows).Keys
      ensures forall h :: h in rows ==>
                var before := old(rows)[h];
                rows[h] == if before.user == user && before.device == device && device != "" && !before.used
                           then before.(used := true, usedAt := Some(now)) else before
      ensures forall jti :: jti in blacklist <==>
                jti in old(blacklist) || (jti != "" && exists h :: h in rows && old(rows)[h].jti == jti && rows[h] != old(rows)[h])
    {
      var hit := OnDevice(rows, user, device);
      var jtis := AccessTokens(rows, hit);
      rows := Spend(rows, hit, now);
      var todo := jtis;
      while todo != {}
        invariant todo <= jtis && blacklist == old(blacklist) + (jtis - todo)
        invariant rows == Spend(old(rows), hit, now)
        decreases todo
      {
        var jti :| jti in todo;
        todo := todo - {jti};
        blacklist := blacklist + {jti};
      }
    }

    /** Expired rows go, and used ones a day after; of the unused rest, remembered sessions end at their maximum age and
        the others after their timeout without use. */
    method CleanupExpired(timeout: nat, maxAge: nat)
      modifies this`rows
      ensures forall h :: h in rows <==>
                h in old(rows) && old(rows)[h].expiresAt >= now &&
                !(old(rows)[h].used && old(rows)[h].usedAt.Some? && old(rows)[h].usedAt.value < now - 86_400)
      ensures forall h :: h in rows ==>
                var before := old(rows)[h];
                var seen := if before.lastUsedAt.Some? then before.lastUsedAt.value else before.createdAt;
                var over := if before.remember then before.createdAt + maxAge < now else seen + timeout < now;
                rows[h] == if !before.used && over then before.(used := true, usedAt := Some(now)) else before
    {
      rows := Purged(rows, now);
      rows := Spend(rows, Idle(rows, now, timeout, maxAge), now);
    }
  }

  // ---------- requests in flight ----------

  /** A request between its statements: it has claimed `hash`; it has inserted the successor and is about
      to link it; or it has found `hash` recoverable and is about to insert. */
  datatype Request = Claimed(hash: Hash) | Inserted(hash: Hash, successor: Hash) | Recovering(hash: Hash)

  /** The table, the requests in flight, and the history the properties speak about: hashes ever issued
      with their order of issue and the login they descend from, how often each was claimed, which were
      ended from outside, and the recoveries granted per login. */
  datatype System = System(rows: Rows, requests: map<int, Request>, now: int, issued: seq<Hash>, login: map<Hash, Hash>,
                           claims: map<Hash, nat>, ended: set<Hash>, recoveries: map<Hash, nat>)

  datatype Step =
    | Tick(to: int)
    | Login(hash: Hash, row: Row)
    | Claim(request: int, hash: Hash)
    | InsertSuccessor(request: int, successor: Hash, ttl: nat, failed: bool, cookie: string)
    | Link(request: int, failed: bool)
    | StartRecovery(request: int, hash: Hash)
    | InsertRecovered(request: int, successor: Hash, ttl: nat)
    | Abandon(request: int)
    | End(hashes: set<Hash>)              // logout, revocation, device invalidation, inactivity, maximum age
    | Touch(hash: Hash)
    | Purge

  predicate Enabled(s: System, e: Step) {
    match e
    case Tick(to) => s.now <= to
    case Login(hash, row) => hash !in s.issued && !row.used && row.replacedBy.None?
    case Claim(q, hash) => q !in s.requests && Claimable(s.rows, hash, s.now)
    case InsertSuccessor(q, successor, _, _, _) => q in s.requests && s.requests[q].Claimed? && successor !in s.issued
    case Link(q, _) => q in s.requests && s.requests[q].Inserted?
    case StartRecovery(q, hash) => q !in s.requests && Recoverable(s.rows, hash, s.now)
    case InsertRecovered(q, successor, _) => q in s.requests && s.requests[q].Recovering? && successor !in s.issued
    case Abandon(q) => q in s.requests
    case _ => true
  }

  function LoginOf(s: System, h: Hash): Hash {
    if h in s.login then s.login[h] else h
  }

  function Count(m: map<Hash, nat>, h: Hash): nat {
    if h in m then m[h] else 0
  }

  /** The row a successor is made from; if the old row is gone, only its identity columns matter. */
  function Template(rows: Rows, h: Hash): Row {
    if h in rows then rows[h] else Row(0, "", false, 0, 0, None, true, None, None, "")
  }

  /** Records a new token for the login `root` descends from, and stores its row unless that failed. */
  function Issue(s: System, h: Hash, root: Hash, row: Row, failed: bool): System {
    s.(rows := if failed then s.rows else s.rows[h := row], issued := s.issued + [h], login := s.login[h := root])
  }

  function Next(s: System, e: Step): System
    requires Enabled(s, e)
  {
    match e
    case Tick(to) => s.(now := to)
    case Login(hash, row) => Issue(s, hash, hash, row, false)
    case Claim(q, hash) =>
      s.(rows := s.rows[hash := Spent(s.rows[hash], s.now)], requests := s.requests[q := Claimed(hash)],
         claims := s.claims[hash := Count(s.claims, hash) + 1])
    case InsertSuccessor(q, successor, ttl, failed, cookie) =>
      var h := s.requests[q].hash;
      Issue(s, successor, LoginOf(s, h), NewRow(Template(s.rows, h), s.now, ttl, "", cookie), failed)
        .(requests := s.requests[q := Inserted(h, successor)])
    case Link(q, failed) =>
      var r := s.requests[q];
      s.(rows := if failed then s.rows else Linked(s.rows, r.hash, r.successor, s.now), requests := s.requests - {q})
    case StartRecovery(q, hash) => s.(requests := s.requests[q := Recovering(hash)])
    case InsertRecovered(q, successor, ttl) =>
      var h := s.requests[q].hash;
      var root := LoginOf(s, h);
      Issue(s, successor, root, NewRow(Template(s.rows, h), s.now, ttl, "", ""), false)
        .(requests := s.requests - {q}, recoveries := s.recoveries[root := Count(s.recoveries, root) + 1])
    case Abandon(q) => s.(requests := s.requests - {q})
    case End(hashes) =>
      s.(rows := Spend(s.rows, hashes, s.now),
         ended := s.ended + set h | h in hashes && h in s.rows && !s.rows[h].used)
    case Touch(hash) =>
      if hash in s.rows && !s.rows[hash].used then s.(rows := s.rows[hash := s.rows[hash].(lastUsedAt := Some(s.now))]) else s
    case Purge => s.(rows := Purged(s.rows, s.now))
  }

  /** Any table to start from, each row its own login, with no request in flight and no history. */
  ghost predicate AnyTable(s: System) {
    && s.requests == map[] && s.claims == map[] && s.ended == {} && s.recoveries == map[] && s.login == map[]
    && (forall h :: h in s.rows ==> h in s.issued)
    && (forall i, j :: 0 <= i < j < |s.issued| ==> s.issued[i] != s.issued[j])
  }

  /** A table in which an unused row has no successor yet. */
  ghost predicate Initial(s: System) {
    AnyTable(s) && forall h :: h in s.rows && !s.rows[h].used ==> s.rows[h].replacedBy.None?
  }

  // ---------- the invariant ----------

  ghost predicate RowSound(s: System, h: Hash)
    requires h in s.rows
  {
    var row := s.rows[h];
    && h in s.issued
    && (!row.used ==> row.replacedBy.None? && Count(s.claims, h) == 0 && h !in s.ended)
    && (row.replacedBy.Some? ==> row.used && h !in s.ended)
  }

  ghost predicate RequestSound(s: System, q: int)
    requires q in s.requests
  {
    var r := s.requests[q];
    && r.hash in s.issued && r.hash !in s.ended
    && (r.hash in s.rows ==> s.rows[r.hash].used)
    && (!r.Recovering? ==> Count(s.claims, r.hash) == 1 && (r.hash in s.rows ==> s.rows[r.hash].replacedBy.None?))
  }

  ghost predicate HistorySound(s: System) {
    && (forall i, j :: 0 <= i < j < |s.issued| ==> s.issued[i] != s.issued[j])
    && (forall h :: Count(s.claims, h) <= 1)
    && (forall h :: h in s.ended ==> Count(s.claims, h) == 0 && h in s.issued)
    && (forall h :: h in s.claims ==> h in s.issued)
    && (forall h :: h in s.login ==> h in s.issued && s.login[h] in s.issued)
    && (forall h :: h in s.recoveries ==> h in s.issued)
  }

  ghost predicate RowsSound(s: System) {
    forall h :: h in s.rows ==> RowSound(s, h)
  }

  /** No two requests are at work on the same claimed row. */
  ghost predicate RequestsSound(s: System) {
    && (forall q :: q in s.requests ==> RequestSound(s, q))
    && (forall p, q :: p in s.requests && q in s.requests && p != q && !s.requests[p].Recovering? && !s.requests[q].Recovering? ==>
          s.requests[p].hash != s.requests[q].hash)
  }

  ghost predicate Sound(s: System) {
    HistorySound(s) && RowsSound(s) && RequestsSound(s)
  }

  /** A new hash changes nothing about the old ones. */
  lemma IssueKeepsSound(s: System, h: Hash, root: Hash, row: Row, failed: bool)
    requires Sound(s) && h !in s.issued && !row.used && row.replacedBy.None?
    requires root == h || root in s.issued
    ensures Sound(Issue(s, h, root, row, failed))
  {
    var t := Issue(s, h, root, row, failed);
    forall k | k in t.rows ensures RowSound(t, k) {
      if k in s.rows && k != h {
        assert RowSound(s, k);
      }
    }
    forall q | q in t.requests ensures RequestSound(t, q) {
      assert RequestSound(s, q);
    }
  }

  lemma ClaimKeepsSound(s: System, q: int, hash: Hash)
    requires Sound(s) && Enabled(s, Claim(q, hash))
    ensures Sound(Next(s, Claim(q, hash)))
  {
    var t := Next(s, Claim(q, hash));
    assert RowSound(s, hash);
    assert forall h :: h != hash ==> Count(t.claims, h) == Count(s.claims, h);
    assert HistorySound(t);
    forall h | h in t.rows ensures RowSound(t, h) {
      assert RowSound(s, h);
    }
    forall p | p in t.requests ensures RequestSound(t, p) && (p != q && !t.requests[p].Recovering? ==> t.requests[p].hash != hash) {
      if p != q {
        assert RequestSound(s, p);
      }
    }
  }

  /** Replacing or removing one request's entry, with the history otherwise kept. */
  lemma RequestChange(t: System, u: System, q: int)
    requires Sound(t) && u.rows == t.rows && u.issued == t.issued && u.claims == t.claims && u.ended == t.ended && u.login == t.login
    requires forall h :: h in u.recoveries ==> h in u.issued
    requires forall p :: p in u.requests && p != q ==> p in t.requests && u.requests[p] == t.requests[p]
    requires q in u.requests ==> RequestSound(u, q)
    requires q in u.requests && !u.requests[q].Recovering? ==>
               q in t.requests && t.requests[q].hash == u.requests[q].hash && !t.requests[q].Recovering?
    ensures Sound(u)
  {
    forall h | h in u.rows ensures RowSound(u, h) {
      assert RowSound(t, h);
    }
    forall p | p in u.requests ensures RequestSound(u, p) {
      assert p != q ==> RequestSound(t, p);
    }
  }

  lemma InsertSuccessorKeepsSound(s: System, e: Step)
    requires Sound(s) && Enabled(s, e) && e.InsertSuccessor?
    ensures Sound(Next(s, e))
  {
    var q, h := e.request, s.requests[e.request].hash;
    assert RequestSound(s, q);
    var row := NewRow(Template(s.rows, h), s.now, e.ttl, "", e.cookie);
    IssueKeepsSound(s, e.successor, LoginOf(s, h), row, e.failed);
    var t := Issue(s, e.successor, LoginOf(s, h), row, e.failed);
    assert RequestSound(t, q);
    RequestChange(t, Next(s, e), q);
  }

  lemma InsertRecoveredKeepsSound(s: System, e: Step)
    requires Sound(s) && Enabled(s, e) && e.InsertRecovered?
    ensures Sound(Next(s, e))
  {
    var q, h := e.request, s.requests[e.request].hash;
    assert RequestSound(s, q);
    var row := NewRow(Template(s.rows, h), s.now, e.ttl, "", "");
    IssueKeepsSound(s, e.successor, LoginOf(s, h), row, false);
    RequestChange(Issue(s, e.successor, LoginOf(s, h), row, false), Next(s, e), q);
  }

  lemma StartRecoveryKeepsSound(s: System, q: int, hash: Hash)
    requires Sound(s) && Enabled(s, StartRecovery(q, hash))
    ensures Sound(Next(s, StartRecovery(q, hash)))
  {
    assert RowSound(s, hash);
    RequestChange(s, Next(s, StartRecovery(q, hash)), q);
  }

  lemma LinkKeepsSound(s: System, q: int, failed: bool)
    requires Sound(s) && Enabled(s, Link(q, failed))
    ensures Sound(Next(s, Link(q, failed)))
  {
    var u := Next(s, Link(q, failed));
    assert RequestSound(s, q);
    forall h | h in u.rows ensures RowSound(u, h) {
      assert RowSound(s, h);
    }
    forall p | p in u.requests ensures RequestSound(u, p) {
      assert RequestSound(s, p);
    }
  }

  lemma EndKeepsSound(s: System, hashes: set<Hash>)
    requires Sound(s)
    ensures Sound(Next(s, End(hashes)))
  {
    var u := Next(s, End(hashes));
    forall h | h in u.ended ensures Count(u.claims, h) == 0 && h in u.issued {
      assert h !in s.ended ==> RowSound(s, h);
    }
    forall h | h in u.rows ensures RowSound(u, h) {
      assert RowSound(s, h);
    }
    forall p | p in u.requests ensures RequestSound(u, p) {
      assert RequestSound(s, p);
    }
  }

  lemma OutsideStepsKeepSound(s: System, e: Step)
    requires Sound(s) && Enabled(s, e) && (e.Touch? || e.Purge? || e.Tick? || e.Abandon?)
    ensures Sound(Next(s, e))
  {
    var u := Next(s, e);
    assert HistorySound(u);
    forall h | h in u.rows ensures RowSound(u, h) {
      assert RowSound(s, h);
    }
    forall p | p in u.requests ensures RequestSound(u, p) {
      assert RequestSound(s, p);
    }
  }

  lemma StepKeepsSound(s: System, e: Step)
    requires Sound(s) && Enabled(s, e)
    ensures Sound(Next(s, e))
  {
    hide Sound;
    match e
    case Login(hash, row) => IssueKeepsSound(s, hash, hash, row, false);
    case Claim(q, hash) => ClaimKeepsSound(s, q, hash);
    case Link(q, failed) => LinkKeepsSound(s, q, failed);
    case InsertSuccessor(_, _, _, _, _) => InsertSuccessorKeepsSound(s, e);
    case InsertRecovered(_, _, _) => InsertRecoveredKeepsSound(s, e);
    case StartRecovery(q, hash) => StartRecoveryKeepsSound(s, q, hash);
    case End(hashes) => EndKeepsSound(s, hashes);
    case _ => OutsideStepsKeepSound(s, e);
  }

  lemma InitialSound(s: System)
    requires Initial(s)
    ensures Sound(s)
  {
    forall h | h in s.rows ensures RowSound(s, h) {
    }
  }

  // ---------- claims, from any table ----------

  /** Everything recorded is about issued hashes, and an unused row was never claimed. */
  ghost predicate Tracked(s: System) {
    && (forall h :: h in s.rows ==> h in s.issued && (!s.rows[h].used ==> Count(s.claims, h) == 0))
    && (forall q :: q in s.requests ==> s.requests[q].hash in s.issued)
    && (forall h :: Count(s.claims, h) <= 1)
    && (forall h :: h in s.claims || h in s.recoveries || h in s.login ==> h in s.issued)
    && (forall h :: h in s.login ==> s.login[h] in s.issued)
  }

  lemma IssueKeepsTracked(s: System, h: Hash, root: Hash, row: Row, failed: bool)
    requires Tracked(s) && h !in s.issued && (root == h || root in s.issued)
    ensures Tracked(Issue(s, h, root, row, failed))
  {
  }

  lemma ClaimKeepsTracked(s: System, q: int, hash: Hash)
    requires Tracked(s) && Enabled(s, Claim(q, hash))
    ensures Tracked(Next(s, Claim(q, hash)))
  {
    var t := Next(s, Claim(q, hash));
    assert forall h :: h != hash ==> Count(t.claims, h) == Count(s.claims, h);
  }

  lemma RowsKeepTracked(s: System, e: Step)
    requires Tracked(s) && Enabled(s, e) && (e.End? || e.Touch? || e.Purge? || e.Tick? || e.Link? || e.Abandon? || e.StartRecovery?)
    ensures Tracked(Next(s, e))
  {
  }

  lemma StepKeepsTracked(s: System, e: Step)
    requires Tracked(s) && Enabled(s, e)
    ensures Tracked(Next(s, e))
  {
    match e
    case Login(hash, row) => IssueKeepsTracked(s, hash, hash, row, false);
    case Claim(q, hash) => ClaimKeepsTracked(s, q, hash);
    case InsertSuccessor(q, successor, ttl, failed, cookie) =>
      var h := s.requests[q].hash;
      IssueKeepsTracked(s, successor, LoginOf(s, h), NewRow(Template(s.rows, h), s.now, ttl, "", cookie), failed);
    case InsertRecovered(q, successor, ttl) =>
      var h := s.requests[q].hash;
      IssueKeepsTracked(s, successor, LoginOf(s, h), NewRow(Template(s.rows, h), s.now, ttl, "", ""), false);
    case _ => RowsKeepTracked(s, e);
  }

  // ---------- live tokens of one login ----------

  /** What counts against a login: its unused rows, and claims whose successor is still to be inserted. */
  datatype Slot = LiveRow(hash: Hash) | PendingClaim(request: int)

  predicate IsSlot(s: System, root: Hash, x: Slot) {
    match x
    case LiveRow(h) => h in s.rows && !s.rows[h].used && LoginOf(s, h) == root
    case PendingClaim(q) => q in s.requests && s.requests[q].Claimed? && LoginOf(s, s.requests[q].hash) == root
  }

  ghost function LiveRows(s: System, root: Hash): set<Slot> {
    set h | h in s.rows && IsSlot(s, root, LiveRow(h)) :: LiveRow(h)
  }

  ghost function Slots(s: System, root: Hash): (slots: set<Slot>)
    ensures forall x :: x in slots <==> IsSlot(s, root, x)
    ensures LiveRows(s, root) <= slots
  {
    LiveRows(s, root) + set q | q in s.requests && IsSlot(s, root, PendingClaim(q)) :: PendingClaim(q)
  }

  ghost predicate Bounded(s: System, root: Hash) {
    |Slots(s, root)| <= 1 + Count(s.recoveries, root)
  }

  lemma {:induction false} SubsetSize(a: set<Slot>, b: set<Slot>)
    requires a <= b
    ensures |a| <= |b|
  {
    if a != {} {
      var x :| x in a;
      SubsetSize(a - {x}, b - {x});
    }
  }

  /** One slot may take the place of another; a slot taken without replacement needs a recovery. */
  lemma SlotsChange(before: set<Slot>, after: set<Slot>, freed: set<Slot>, taken: Slot)
    requires freed <= before && forall x :: x in after ==> x == taken || (x in before && x !in freed)
    ensures |after| <= |before| - |freed| + 1
  {
    SubsetSize(after, (before - freed) + {taken});
    assert |before - freed| == |before| - |freed|;
  }

  lemma SlotsShrink(before: set<Slot>, after: set<Slot>)
    requires forall x :: x in after ==> x in before
    ensures |after| <= |before|
  {
    SubsetSize(after, before);
  }

  lemma ClaimBounded(s: System, q: int, hash: Hash, root: Hash)
    requires Enabled(s, Claim(q, hash)) && Bounded(s, root)
    ensures Bounded(Next(s, Claim(q, hash)), root)
  {
    hide Slots;
    var t := Next(s, Claim(q, hash));
    if LoginOf(s, hash) == root {
      SlotsChange(Slots(s, root), Slots(t, root), {LiveRow(hash)}, PendingClaim(q));
    } else {
      SlotsShrink(Slots(s, root), Slots(t, root));
    }
  }

  /** Nothing is recorded yet under a hash that was never issued. */
  lemma NewHashUnknown(s: System, h: Hash)
    requires Tracked(s) && h !in s.issued
    ensures h !in s.rows && h !in s.login && Count(s.recoveries, h) == 0
    ensures forall q :: q in s.requests ==> s.requests[q].hash != h
    ensures forall k :: k in s.issued ==> LoginOf(s, k) != h
    ensures forall x :: !IsSlot(s, h, x)
  {
    assert forall x :: IsSlot(s, h, x) ==> if x.LiveRow? then x.hash in s.issued else s.requests[x.request].hash in s.issued;
  }

  /** Issuing a token takes one slot of its login at most. */
  lemma IssueSlots(s: System, h: Hash, owner: Hash, row: Row, failed: bool, root: Hash, x: Slot)
    requires Tracked(s) && h !in s.issued && IsSlot(Issue(s, h, owner, row, failed), root, x)
    ensures IsSlot(s, root, x) || (x == LiveRow(h) && root == owner)
  {
    NewHashUnknown(s, h);
  }

  lemma InsertSuccessorBounded(s: System, e: Step, root: Hash)
    requires Tracked(s) && Enabled(s, e) && e.InsertSuccessor? && Bounded(s, root)
    ensures Bounded(Next(s, e), root)
  {
    hide Slots, Tracked, Issue;
    var t, q, h := Next(s, e), e.request, s.requests[e.request].hash;
    var owner, row := LoginOf(s, h), NewRow(Template(s.rows, h), s.now, e.ttl, "", e.cookie);
    var u := Issue(s, e.successor, owner, row, e.failed);
    forall x | IsSlot(t, root, x)
      ensures x != PendingClaim(q) && (IsSlot(s, root, x) || (x == LiveRow(e.successor) && root == owner))
    {
      assert IsSlot(u, root, x) by { IssueFrame(s, e.successor, owner, row, e.failed); }
      IssueSlots(s, e.successor, owner, row, e.failed, root, x);
    }
    if owner == root {
      SlotsChange(Slots(s, root), Slots(t, root), {PendingClaim(q)}, LiveRow(e.successor));
    } else {
      SlotsShrink(Slots(s, root), Slots(t, root));
    }
    assert t.recoveries == s.recoveries by { IssueFrame(s, e.successor, owner, row, e.failed); }
  }

  lemma IssueFrame(s: System, h: Hash, owner: Hash, row: Row, failed: bool)
    ensures var u := Issue(s, h, owner, row, failed); u.requests == s.requests && u.recoveries == s.recoveries
  {
  }

  lemma InsertRecoveredBounded(s: System, e: Step, root: Hash)
    requires Tracked(s) && Enabled(s, e) && e.InsertRecovered? && Bounded(s, root)
    ensures Bounded(Next(s, e), root)
  {
    hide Slots, Tracked, Issue;
    var t, q, h := Next(s, e), e.request, s.requests[e.request].hash;
    var owner, row := LoginOf(s, h), NewRow(Template(s.rows, h), s.now, e.ttl, "", "");
    var u := Issue(s, e.successor, owner, row, false);
    IssueFrame(s, e.successor, owner, row, false);
    forall x | IsSlot(t, root, x) ensures IsSlot(s, root, x) || (x == LiveRow(e.successor) && root == owner) {
      assert IsSlot(u, root, x);
      IssueSlots(s, e.successor, owner, row, false, root, x);
    }
    if owner == root {
      SlotsChange(Slots(s, root), Slots(t, root), {}, LiveRow(e.successor));
    } else {
      SlotsShrink(Slots(s, root), Slots(t, root));
    }
  }

  lemma LoginBounded(s: System, hash: Hash, row: Row, root: Hash)
    requires Tracked(s) && Enabled(s, Login(hash, row)) && Bounded(s, root)
    ensures Bounded(Next(s, Login(hash, row)), root)
  {
    hide Slots, Tracked, Issue;
    var t := Next(s, Login(hash, row));
    IssueFrame(s, hash, hash, row, false);
    forall x | IsSlot(t, root, x) ensures IsSlot(s, root, x) || (x == LiveRow(hash) && root == hash) {
      IssueSlots(s, hash, hash, row, false, root, x);
    }
    if root == hash {
      NewHashUnknown(s, hash);
      assert Slots(s, root) == {};
      SlotsChange(Slots(s, root), Slots(t, root), {}, LiveRow(hash));
    } else {
      SlotsShrink(Slots(s, root), Slots(t, root));
    }
  }

  lemma OtherBounded(s: System, e: Step, root: Hash)
    requires Enabled(s, e) && Bounded(s, root)
    requires !e.Claim? && !e.InsertSuccessor? && !e.InsertRecovered? && !e.Login?
    ensures Bounded(Next(s, e), root)
  {
    hide Slots;
    SlotsShrink(Slots(s, root), Slots(Next(s, e), root));
  }

  lemma StepBounded(s: System, e: Step, root: Hash)
    requires Tracked(s) && Enabled(s, e) && Bounded(s, root)
    ensures Bounded(Next(s, e), root)
  {
    hide Tracked, Bounded;
    match e
    case Login(hash, row) => LoginBounded(s, hash, row, root);
    case Claim(q, hash) => ClaimBounded(s, q, hash, root);
    case InsertSuccessor(_, _, _, _, _) => InsertSuccessorBounded(s, e, root);
    case InsertRecovered(_, _, _) => InsertRecoveredBounded(s, e, root);
    case _ => OtherBounded(s, e, root);
  }

  lemma InitialBounded(s: System, root: Hash)
    requires AnyTable(s)
    ensures Bounded(s, root)
  {
    hide Slots;
    SlotsShrink({LiveRow(root)}, Slots(s, root));
  }

  // ---------- whole runs ----------

  ghost function Run(s: System, steps: seq<Step>): Option<System>
    decreases |steps|
  {
    if steps == [] then Some(s)
    else if Enabled(s, steps[0]) then Run(Next(s, steps[0]), steps[1..]) else None
  }

  lemma {:induction false} RunBounded(s: System, steps: seq<Step>, root: Hash)
    requires Tracked(s) && Bounded(s, root) && Run(s, steps).Some?
    ensures Tracked(Run(s, steps).value) && Bounded(Run(s, steps).value, root)
    decreases |steps|
  {
    hide Tracked, Bounded, Next, Enabled;
    if steps != [] {
      StepKeepsTracked(s, steps[0]);
      StepBounded(s, steps[0], root);
      RunBounded(Next(s, steps[0]), steps[1..], root);
    }
  }

  /** In every interleaving from any table no row is claimed twice, and the unused rows that descend from one login
      number at most one plus the recoveries granted to it. */
  lemma RotationInvariant(s: System, steps: seq<Step>, h: Hash, root: Hash)
    requires AnyTable(s) && Run(s, steps).Some?
    ensures var t := Run(s, steps).value;
            Count(t.claims, h) <= 1 && |LiveRows(t, root)| <= 1 + Count(t.recoveries, root)
  {
    hide Run, LiveRows, Slots;
    InitialBounded(s, root);
    RunBounded(s, steps, root);
    var t := Run(s, steps).value;
    SubsetSize(LiveRows(t, root), Slots(t, root));
  }

  lemma {:induction false} RunKeepsSound(s: System, steps: seq<Step>)
    requires Sound(s) && Run(s, steps).Some?
    ensures Sound(Run(s, steps).value)
    decreases |steps|
  {
    hide Sound, Next, Enabled;
    if steps != [] {
      StepKeepsSound(s, steps[0]);
      RunKeepsSound(Next(s, steps[0]), steps[1..]);
    }
  }

  /** An unused row never has a successor, if none had at the start. */
  lemma UnusedUnlinked(s: System, steps: seq<Step>, h: Hash)
    requires Initial(s) && Run(s, steps).Some?
    ensures var t := Run(s, steps).value; h in t.rows && !t.rows[h].used ==> t.rows[h].replacedBy.None?
  {
    hide Run;
    InitialSound(s);
    RunKeepsSound(s, steps);
    var t := Run(s, steps).value;
    if h in t.rows {
      assert RowSound(t, h);
    }
  }

  // ---------- when tokens may be used ----------

  /** In every run, a row is claimed unused and strictly before its expiry, and recovered used, linked and at most 30
      seconds after its last use. */
  lemma {:induction false} UsedInTime(s: System, steps: seq<Step>, i: nat)
    requires i < |steps| && Run(s, steps).Some?
    ensures Run(s, steps[..i]).Some?
    ensures var t, e := Run(s, steps[..i]).value, steps[i];
            && (e.Claim? ==> e.hash in t.rows && !t.rows[e.hash].used && t.now < t.rows[e.hash].expiresAt)
            && (e.StartRecovery? ==> e.hash in t.rows && t.rows[e.hash].used && t.rows[e.hash].replacedBy.Some?
                                     && t.rows[e.hash].usedAt.Some? && t.now <= t.rows[e.hash].usedAt.value + 30)
    decreases i
  {
    hide Next;
    if i == 0 {
      assert steps[..0] == [];
    } else {
      UsedInTime(Next(s, steps[0]), steps[1..], i - 1);
      assert steps[..i][1..] == steps[1..][..i - 1];
    }
  }

  /** The row is used, or past its expiry, or gone. */
  ghost predicate Past(s: System, h: Hash) {
    h in s.issued && (h in s.rows ==> s.rows[h].used || s.rows[h].expiresAt <= s.now)
  }

  /** A token that has expired unused is never claimed, however the run goes on. */
  lemma {:induction false} ExpiredNeverClaimed(s: System, steps: seq<Step>, h: Hash)
    requires Past(s, h) && Run(s, steps).Some?
    ensures Past(Run(s, steps).value, h) && Count(Run(s, steps).value.claims, h) == Count(s.claims, h)
    decreases |steps|
  {
    if steps != [] {
      PastStep(s, steps[0], h);
      hide Next, Enabled, Past;
      ExpiredNeverClaimed(Next(s, steps[0]), steps[1..], h);
    }
  }

  lemma PastStep(s: System, e: Step, h: Hash)
    requires Past(s, h) && Enabled(s, e)
    ensures Past(Next(s, e), h) && Count(Next(s, e).claims, h) == Count(s.claims, h)
  {
  }

  /** Ending rows spends exactly the unused ones named and records them as ended. */
  lemma EndSpends(s: System, hashes: set<Hash>, h: Hash)
    requires h in s.rows
    ensures var t, hit := Next(s, End(hashes)), h in hashes && !s.rows[h].used;
            && h in t.rows && t.rows[h] == (if hit then s.rows[h].(used := true, usedAt := Some(s.now)) else s.rows[h])
            && (h in t.ended <==> h in s.ended || hit)
  {
  }

  /** The cleanup removes exactly the expired rows and those used more than a day ago; a use of a live session is noted. */
  lemma MaintenanceSteps(s: System, h: Hash)
    ensures h in Next(s, Purge).rows <==>
            h in s.rows && s.rows[h].expiresAt >= s.now && !(s.rows[h].used && s.rows[h].usedAt.Some? && s.rows[h].usedAt.value < s.now - 86_400)
    ensures h in Next(s, Purge).rows ==> Next(s, Purge).rows[h] == s.rows[h]
    ensures h in s.rows && !s.rows[h].used ==>
              h in Next(s, Touch(h)).rows && Next(s, Touch(h)).rows[h] == s.rows[h].(lastUsedAt := Some(s.now))
  {
  }

  /** Every token issued to a login continues the session of the row it was issued for. */
  lemma SuccessorContinues(s: System, e: Step)
    requires Enabled(s, e) && ((e.InsertSuccessor? && !e.failed) || e.InsertRecovered?) && s.requests[e.request].hash in s.rows
    ensures var h := s.requests[e.request].hash;
            && e.successor in Next(s, e).rows
            && Continues(s.rows[h], Next(s, e).rows[e.successor], s.now, e.ttl, if e.InsertSuccessor? then e.cookie else "")
  {
  }

  /** A successor link, once made, is never changed: a row has at most one linked successor. */
  lemma LinkIsFinal(s: System, e: Step, h: Hash)
    requires Sound(s) && Enabled(s, e) && h in s.rows && s.rows[h].replacedBy.Some?
    ensures var t := Next(s, e); h in t.rows ==> t.rows[h].replacedBy == s.rows[h].replacedBy
  {
    assert RowSound(s, h);
    if e.Link? {
      assert RequestSound(s, e.request);
    } else if e.InsertSuccessor? || e.InsertRecovered? {
      assert e.successor != h;
    }
  }

  // ---------- successor chains ----------

  /** `b` was issued after `a`. */
  ghost predicate Later(issued: seq<Hash>, a: Hash, b: Hash) {
    exists i, j :: 0 <= i < j < |issued| && issued[i] == a && issued[j] == b
  }

  lemma LaterGrows(issued: seq<Hash>, a: Hash, b: Hash, c: Hash)
    requires Later(issued, a, b)
    ensures Later(issued + [c], a, b)
  {
    var i, j :| 0 <= i < j < |issued| && issued[i] == a && issued[j] == b;
    assert (issued + [c])[i] == a && (issued + [c])[j] == b;
  }

  lemma LaterNew(issued: seq<Hash>, a: Hash, c: Hash)
    requires a in issued
    ensures Later(issued + [c], a, c)
  {
    var i :| 0 <= i < |issued| && issued[i] == a;
    assert (issued + [c])[i] == a && (issued + [c])[|issued|] == c;
  }

  /** Links, made or about to be made, lead from earlier to later tokens. */
  ghost predicate LinksOrdered(s: System) {
    && (forall h :: h in s.rows && s.rows[h].replacedBy.Some? ==> Later(s.issued, h, s.rows[h].replacedBy.value))
    && (forall q :: q in s.requests && s.requests[q].Inserted? ==> Later(s.issued, s.requests[q].hash, s.requests[q].successor))
  }

  lemma OrderedGrows(s: System, c: Hash)
    requires LinksOrdered(s)
    ensures LinksOrdered(s.(issued := s.issued + [c]))
  {
    forall a, b | Later(s.issued, a, b) ensures Later(s.issued + [c], a, b) {
      LaterGrows(s.issued, a, b, c);
    }
  }

  lemma StepKeepsOrder(s: System, e: Step)
    requires Tracked(s) && LinksOrdered(s) && Enabled(s, e)
    ensures LinksOrdered(Next(s, e))
  {
    hide Later;
    if e.Login? {
      OrderedGrows(s, e.hash);
    } else if e.InsertSuccessor? {
      OrderedGrows(s, e.successor);
      LaterNew(s.issued, s.requests[e.request].hash, e.successor);
    } else if e.InsertRecovered? {
      OrderedGrows(s, e.successor);
    }
  }

  lemma {:induction false} RunKeepsOrder(s: System, steps: seq<Step>)
    requires Tracked(s) && LinksOrdered(s) && Run(s, steps).Some?
    ensures LinksOrdered(Run(s, steps).value)
    decreases |steps|
  {
    hide Tracked, LinksOrdered, Next, Enabled;
    if steps != [] {
      StepKeepsTracked(s, steps[0]);
      StepKeepsOrder(s, steps[0]);
      RunKeepsOrder(Next(s, steps[0]), steps[1..]);
    }
  }

  /** Each hash of the chain is linked to the next. */
  ghost predicate Chain(rows: Rows, chain: seq<Hash>) {
    forall i :: 0 <= i < |chain| - 1 ==> chain[i] in rows && rows[chain[i]].replacedBy == Some(chain[i + 1])
  }

  ghost predicate DistinctHashes(issued: seq<Hash>) {
    forall i, j :: 0 <= i < j < |issued| ==> issued[i] != issued[j]
  }

  lemma LaterTransitive(issued: seq<Hash>, a: Hash, b: Hash, c: Hash)
    requires DistinctHashes(issued) && Later(issued, a, b) && Later(issued, b, c)
    ensures Later(issued, a, c)
  {
    var i, j :| 0 <= i < j < |issued| && issued[i] == a && issued[j] == b;
    var k, m :| 0 <= k < m < |issued| && issued[k] == b && issued[m] == c;
    assert j == k;
  }

  lemma {:induction false} ChainIsLater(s: System, chain: seq<Hash>)
    requires LinksOrdered(s) && DistinctHashes(s.issued) && |chain| >= 2 && Chain(s.rows, chain)
    ensures Later(s.issued, chain[0], chain[|chain| - 1])
    decreases |chain|
  {
    var front := chain[..|chain| - 1];
    var a, b := chain[|chain| - 2], chain[|chain| - 1];
    assert chain[|chain| - 2 + 1] == b;
    if |chain| > 2 {
      assert forall i :: 0 <= i < |front| ==> front[i] == chain[i];
      ChainIsLater(s, front);
      LaterTransitive(s.issued, chain[0], a, b);
    }
  }

  lemma {:induction false} IssuedDistinct(s: System, steps: seq<Step>)
    requires DistinctHashes(s.issued) && Run(s, steps).Some?
    ensures DistinctHashes(Run(s, steps).value.issued)
    decreases |steps|
  {
    if steps != [] {
      IssuedDistinct(Next(s, steps[0]), steps[1..]);
    }
  }

  /** Successor links never form a cycle, if those at the start lead from earlier to later rows. */
  lemma LinksAcyclic(s: System, steps: seq<Step>, chain: seq<Hash>)
    requires AnyTable(s) && LinksOrdered(s) && Run(s, steps).Some? && |chain| >= 2 && Chain(Run(s, steps).value.rows, chain)
    ensures chain[0] != chain[|chain| - 1]
  {
    hide Run;
    RunKeepsOrder(s, steps);
    IssuedDistinct(s, steps);
    ChainIsLater(Run(s, steps).value, chain);
  }

  // ---------- rows ended from outside ----------

  lemma EndedStays(s: System, e: Step)
    requires Enabled(s, e)
    ensures s.ended <= Next(s, e).ended
  {
  }

  lemma {:induction false} EndedStaysInRun(s: System, steps: seq<Step>)
    requires Run(s, steps).Some?
    ensures s.ended <= Run(s, steps).value.ended
    decreases |steps|
  {
    hide Next, Enabled;
    if steps != [] {
      EndedStays(s, steps[0]);
      EndedStaysInRun(Next(s, steps[0]), steps[1..]);
    }
  }

  /** A row ended by logout, revocation, device invalidation or inactivity yields no further token, however the
      run goes on: it can be neither claimed nor recovered, and no request is at work on it. */
  lemma EndedYieldsNothing(s: System, before: seq<Step>, after: seq<Step>, h: Hash)
    requires Initial(s) && Run(s, before).Some? && h in Run(s, before).value.ended
    requires Run(Run(s, before).value, after).Some?
    ensures var t := Run(Run(s, before).value, after).value;
            && !Claimable(t.rows, h, t.now) && !Recoverable(t.rows, h, t.now)
            && forall q :: q in t.requests ==> t.requests[q].hash != h
  {
    hide Run;
    var m := Run(s, before).value;
    var t := Run(m, after).value;
    InitialSound(s);
    RunKeepsSound(s, before);
    RunKeepsSound(m, after);
    EndedStaysInRun(m, after);
    if h in t.rows {
      assert RowSound(t, h);
    }
    forall q | q in t.requests ensures t.requests[q].hash != h {
      assert RequestSound(t, q);
    }
  }
}
