/** Relay certificates and the IP whitelist: the handlers that issue, renew, revoke and remove, and the generated
    allow-list (`writeRelayACL`). */
module RelayCertificates {
  import opened Wrappers
  import opened Escaping

  // ---------- the two tables ----------

  datatype Status = Issued | Revoked

  /** A row of relay_certificates; its id is its position, as rows are never deleted. */
  datatype Cert = Cert(name: string, serial: string, status: Status, expiresAt: Option<int>)

  /** A row of relay_whitelist. */
  datatype Entry = Entry(id: nat, ip: string, name: string, cert: Option<nat>)

  /** `whitelist` is in order of creation. */
  datatype Tables = Tables(certs: seq<Cert>, whitelist: seq<Entry>, nextEntry: nat)

  /** One SQL statement. */
  datatype Statement =
    | InsertCert(name: string, serial: string, expiresAt: int)
    | InsertEntry(ip: string, name: string, cert: Option<nat>)
    | Link(entry: nat, target: nat)
    | Revoke(revoked: nat)
    | DeleteEntry(entry: nat)

  /** Where the row with this id is, or the number of rows. */
  function EntryIndex(w: seq<Entry>, id: nat): (k: nat)
    ensures k <= |w| && (k < |w| ==> w[k].id == id) && forall j :: 0 <= j < k ==> w[j].id != id
  {
    if w == [] || w[0].id == id then 0 else 1 + EntryIndex(w[1..], id)
  }

  /** Where a row linked to this certificate is, or the number of rows. */
  function LinkIndex(w: seq<Entry>, cert: nat): (k: nat)
    ensures k <= |w| && (k < |w| ==> w[k].cert == Some(cert)) && forall j :: 0 <= j < k ==> w[j].cert != Some(cert)
  {
    if w == [] || w[0].cert == Some(cert) then 0 else 1 + LinkIndex(w[1..], cert)
  }

  predicate Whitelisted(w: seq<Entry>, ip: string) {
    exists i :: 0 <= i < |w| && w[i].ip == ip
  }

  /** A statement's effect; an insert that breaks the unique ip_address changes nothing. */
  function Exec(t: Tables, s: Statement): Tables {
    match s
    case InsertCert(name, serial, expiresAt) => t.(certs := t.certs + [Cert(name, serial, Issued, Some(expiresAt))])
    case InsertEntry(ip, name, cert) =>
      if Whitelisted(t.whitelist, ip) then t
      else t.(whitelist := t.whitelist + [Entry(t.nextEntry, ip, name, cert)], nextEntry := t.nextEntry + 1)
    case Link(id, target) =>
      var k := EntryIndex(t.whitelist, id);
      if k == |t.whitelist| then t else t.(whitelist := t.whitelist[k := t.whitelist[k].(cert := Some(target))])
    case Revoke(c) => if c >= |t.certs| then t else t.(certs := t.certs[c := t.certs[c].(status := Revoked)])
    case DeleteEntry(id) =>
      var k := EntryIndex(t.whitelist, id);
      if k == |t.whitelist| then t else t.(whitelist := t.whitelist[..k] + t.whitelist[k + 1..])
  }

  // ---------- the handlers ----------

  /** What the certificate authority returns for a new certificate. */
  datatype Issue = Issue(serial: string, expiresAt: int)

  /** An admin request; `issue` is None when signing fails. */
  datatype Request =
    | AddEntry(ip: string, name: string)
    | Create(ip: string, name: string, issue: Option<Issue>)
    | Generate(entry: nat, issue: Option<Issue>)
    | RevokeRequest(cert: nat)
    | Regenerate(cert: nat, now: int, issue: Option<Issue>)
    | Delete(entry: nat)

  const RENEWAL_WINDOW := 30 * 24 * 3600

  predicate NearingExpiry(c: Cert, now: int) {
    c.expiresAt.None? || c.expiresAt.value - now <= RENEWAL_WINDOW
  }

  predicate HoldsIssued(t: Tables, e: Entry) {
    e.cert.Some? && e.cert.value < |t.certs| && t.certs[e.cert.value].status == Issued
  }

  /** The statements a handler sends, decided from what it reads first. A handler that stops at a failing statement
      has sent a prefix of them. */
  function Plan(t: Tables, r: Request): seq<Statement> {
    match r
    case AddEntry(ip, name) => [InsertEntry(ip, name, None)]
    case Create(ip, name, issue) =>
      if issue.None? then [] else [InsertCert(name, issue.value.serial, issue.value.expiresAt), InsertEntry(ip, name, Some(|t.certs|))]
    case Generate(id, issue) =>
      var k := EntryIndex(t.whitelist, id);
      if k == |t.whitelist| || HoldsIssued(t, t.whitelist[k]) || issue.None? then []
      else [InsertCert(t.whitelist[k].name, issue.value.serial, issue.value.expiresAt), Link(id, |t.certs|)]
    case RevokeRequest(c) => [Revoke(c)]
    case Regenerate(c, now, issue) =>
      var k := LinkIndex(t.whitelist, c);
      if c >= |t.certs| || (t.certs[c].status == Issued && !NearingExpiry(t.certs[c], now)) || k == |t.whitelist| || issue.None? then []
      else
        var e := t.whitelist[k];
        [InsertCert(e.name, issue.value.serial, issue.value.expiresAt), Link(e.id, |t.certs|)] +
        if t.certs[c].status == Issued then [Revoke(c)] else []
    case Delete(id) =>
      var k := EntryIndex(t.whitelist, id);
      [DeleteEntry(id)] + if k < |t.whitelist| && t.whitelist[k].cert.Some? then [Revoke(t.whitelist[k].cert.value)] else []
  }

  // ---------- peer names ----------

  predicate HexSerial(s: string) {
    forall c :: c in s ==> IsHex(c)
  }

  /** The CommonName of a certificate. */
  function PeerName(c: Cert): string {
    c.name + "#" + c.serial
  }

  const SENTINEL := "no-relay-certificates-active"

  lemma SentinelIsNoName(c: Cert)
    ensures PeerName(c) != SENTINEL
  {
    assert PeerName(c)[|c.name|] == '#';
    assert '#' !in SENTINEL;
  }

  lemma NoLaterHash(c: Cert, k: nat)
    requires HexSerial(c.serial) && |c.name| < k < |PeerName(c)|
    ensures PeerName(c)[k] != '#'
  {
    assert c.serial[k - |c.name| - 1] in c.serial;
  }

  /** A serial has no '#', so a name determines label and serial, whatever the labels hold. */
  lemma NameDetermines(a: Cert, b: Cert)
    requires HexSerial(a.serial) && HexSerial(b.serial) && PeerName(a) == PeerName(b)
    ensures a.name == b.name && a.serial == b.serial
  {
    assert PeerName(a)[|a.name|] == '#' && PeerName(b)[|b.name|] == '#';
    if |a.name| < |b.name| {
      NoLaterHash(a, |b.name|);
    } else if |b.name| < |a.name| {
      NoLaterHash(b, |a.name|);
    }
    var n := |a.name|;
    assert a.name == PeerName(a)[..n] && b.name == PeerName(b)[..n];
    assert a.serial == PeerName(a)[n + 1..] && b.serial == PeerName(b)[n + 1..];
  }

  // ---------- what every statement keeps ----------

  ghost predicate Linked(t: Tables, c: nat) {
    exists i :: 0 <= i < |t.whitelist| && t.whitelist[i].cert == Some(c)
  }

  ghost predicate SoundCerts(certs: seq<Cert>) {
    && (forall c :: 0 <= c < |certs| ==> HexSerial(certs[c].serial))
    && (forall a, b :: 0 <= a < b < |certs| ==> certs[a].serial != certs[b].serial)
  }

  ghost predicate SoundEntries(w: seq<Entry>, certs: nat, nextEntry: nat) {
    && (forall i :: 0 <= i < |w| ==> w[i].id < nextEntry && (w[i].cert.Some? ==> w[i].cert.value < certs))
    && (forall i, j :: 0 <= i < j < |w| ==> w[i].id != w[j].id && w[i].ip != w[j].ip)
    && (forall i, j :: 0 <= i < j < |w| && w[i].cert.Some? ==> w[i].cert != w[j].cert)
  }

  /** Serials are distinct, entries have distinct ids and addresses, and no certificate is linked to two of them. */
  ghost predicate Sound(t: Tables) {
    SoundCerts(t.certs) && SoundEntries(t.whitelist, |t.certs|, t.nextEntry)
  }

  ghost predicate FreshSerial(t: Tables, serial: string) {
    HexSerial(serial) && forall c :: 0 <= c < |t.certs| ==> t.certs[c].serial != serial
  }

  /** The certificate a statement links. */
  function Target(s: Statement): Option<nat> {
    match s
    case InsertEntry(_, _, cert) => cert
    case Link(_, target) => Some(target)
    case _ => None
  }

  /** New serials are fresh and only a certificate no entry uses is linked. */
  ghost predicate Proper(t: Tables, s: Statement) {
    && (s.InsertCert? ==> FreshSerial(t, s.serial))
    && (Target(s).Some? ==> Target(s).value < |t.certs| && !Linked(t, Target(s).value))
  }

  lemma StatementKeepsSound(t: Tables, s: Statement)
    requires Sound(t) && Proper(t, s)
    ensures Sound(Exec(t, s))
  {
    hide HexSerial, SoundEntries, SoundCerts, Linked;
    match s
    case InsertCert(name, serial, expiresAt) =>
      AppendCert(t, s);
    case InsertEntry(ip, name, cert) =>
      if !Whitelisted(t.whitelist, ip) {
        AppendEntry(t, Entry(t.nextEntry, ip, name, cert));
      }
    case Link(id, target) =>
      RelinkEntry(t, EntryIndex(t.whitelist, id), target);
    case Revoke(c) =>
      RevokeKeeps(t.certs, c);
    case DeleteEntry(id) =>
      RemoveEntry(t, EntryIndex(t.whitelist, id));
  }

  lemma AppendCert(t: Tables, s: Statement)
    requires SoundCerts(t.certs) && s.InsertCert? && FreshSerial(t, s.serial)
    requires SoundEntries(t.whitelist, |t.certs|, t.nextEntry)
    ensures SoundCerts(Exec(t, s).certs) && SoundEntries(t.whitelist, |t.certs| + 1, t.nextEntry)
  {
    hide HexSerial;
  }

  lemma RevokeKeeps(certs: seq<Cert>, c: nat)
    requires SoundCerts(certs)
    ensures c < |certs| ==> SoundCerts(certs[c := certs[c].(status := Revoked)])
  {
    hide HexSerial;
  }

  lemma AppendEntry(t: Tables, e: Entry)
    requires SoundEntries(t.whitelist, |t.certs|, t.nextEntry) && e.id == t.nextEntry && !Whitelisted(t.whitelist, e.ip)
    requires e.cert.Some? ==> e.cert.value < |t.certs| && !Linked(t, e.cert.value)
    ensures SoundEntries(t.whitelist + [e], |t.certs|, t.nextEntry + 1)
  {
    var w := t.whitelist;
    assert forall i :: 0 <= i < |w| ==> w[i].ip != e.ip && w[i].id != e.id && (e.cert.Some? ==> w[i].cert != Some(e.cert.value));
  }

  lemma RelinkEntry(t: Tables, k: nat, target: nat)
    requires SoundEntries(t.whitelist, |t.certs|, t.nextEntry) && target < |t.certs| && !Linked(t, target)
    ensures k < |t.whitelist| ==> SoundEntries(t.whitelist[k := t.whitelist[k].(cert := Some(target))], |t.certs|, t.nextEntry)
  {
    assert forall i :: 0 <= i < |t.whitelist| ==> t.whitelist[i].cert != Some(target);
  }

  lemma RemoveEntry(t: Tables, k: nat)
    requires SoundEntries(t.whitelist, |t.certs|, t.nextEntry)
    ensures k < |t.whitelist| ==> SoundEntries(t.whitelist[..k] + t.whitelist[k + 1..], |t.certs|, t.nextEntry)
  {
    if k < |t.whitelist| {
      var w, after := t.whitelist, t.whitelist[..k] + t.whitelist[k + 1..];
      assert forall i :: 0 <= i < |after| ==> after[i] == w[if i < k then i else i + 1];
    }
  }

  /** A certificate that exists and is revoked or unlinked. */
  ghost predicate Out(t: Tables, c: nat) {
    c < |t.certs| && (t.certs[c].status == Revoked || !Linked(t, c))
  }

  /** Statements never un-revoke, and only their own target becomes linked; no certificate row changes otherwise. */
  lemma StatementKeepsOut(t: Tables, s: Statement, c: nat)
    requires Out(t, c) && Target(s) != Some(c)
    ensures Out(Exec(t, s), c) && PeerName(Exec(t, s).certs[c]) == PeerName(t.certs[c])
  {
    var w, after := t.whitelist, Exec(t, s).whitelist;
    if !Linked(t, c) {
      assert forall i :: 0 <= i < |w| ==> w[i].cert != Some(c);
      forall i | 0 <= i < |after| ensures after[i].cert != Some(c) {
        if s.DeleteEntry? {
          var k := EntryIndex(w, s.entry);
          assert after[i] == w[i] || after[i] == w[i + 1];
        }
      }
    }
  }

  // ---------- handlers, cut off anywhere ----------

  /** A new certificate has a serial never used before. */
  ghost predicate Admissible(t: Tables, r: Request) {
    (r.Create? || r.Generate? || r.Regenerate?) && r.issue.Some? ==> FreshSerial(t, r.issue.value.serial)
  }

  /** What the first n statements of a handler leave. */
  function Partial(t: Tables, r: Request, n: nat): Tables
    requires n <= |Plan(t, r)|
  {
    if n == 0 then t else Exec(Partial(t, r, n - 1), Plan(t, r)[n - 1])
  }

  function Completed(t: Tables, r: Request): Tables {
    Partial(t, r, |Plan(t, r)|)
  }

  /** Before a handler has linked its new certificate, no entry uses it; and the new certificate is the one linked. */
  lemma PlanIsProper(t: Tables, r: Request, n: nat)
    requires Sound(t) && Admissible(t, r) && n < |Plan(t, r)|
    ensures Proper(Partial(t, r, n), Plan(t, r)[n])
    ensures Target(Plan(t, r)[n]).Some? ==> Target(Plan(t, r)[n]).value == |t.certs|
  {
    hide HexSerial, SoundCerts;
    assert Partial(t, r, 0) == t;
    if n == 0 {
      assert Target(Plan(t, r)[0]).None?;
    } else if n == 1 {
      assert Partial(t, r, 1) == Exec(t, Plan(t, r)[0]);
      if Target(Plan(t, r)[1]).Some? {
        NewIsUnlinked(t, Exec(t, Plan(t, r)[0]));
      }
    } else {
      assert Plan(t, r)[n].Revoke?;
    }
  }

  lemma NewIsUnlinked(t: Tables, after: Tables)
    requires SoundEntries(t.whitelist, |t.certs|, t.nextEntry) && after.whitelist == t.whitelist
    ensures !Linked(after, |t.certs|)
  {
  }

  lemma {:induction false} PartialKeepsSound(t: Tables, r: Request, n: nat)
    requires Sound(t) && Admissible(t, r) && n <= |Plan(t, r)|
    ensures Sound(Partial(t, r, n))
    decreases n
  {
    hide Sound, Admissible, Proper, Exec, Plan, Target;
    if n > 0 {
      PartialKeepsSound(t, r, n - 1);
      PlanIsProper(t, r, n - 1);
      StatementKeepsSound(Partial(t, r, n - 1), Plan(t, r)[n - 1]);
    }
  }

  lemma {:induction false} PartialKeepsOut(t: Tables, r: Request, n: nat, c: nat)
    requires Sound(t) && Admissible(t, r) && n <= |Plan(t, r)| && Out(t, c)
    ensures Out(Partial(t, r, n), c) && PeerName(Partial(t, r, n).certs[c]) == PeerName(t.certs[c])
    decreases n
  {
    hide Sound, Admissible, Proper, Exec, Plan, Target, Linked, PeerName;
    if n > 0 {
      PartialKeepsOut(t, r, n - 1, c);
      PlanIsProper(t, r, n - 1);
      StatementKeepsOut(Partial(t, r, n - 1), Plan(t, r)[n - 1], c);
    }
  }

  // ---------- whole runs ----------

  /** A run of requests, each cut off after some of its statements. */
  ghost predicate IsRun(trace: seq<Tables>, requests: seq<Request>, sent: seq<nat>) {
    && |trace| == |requests| + 1 && |sent| == |requests|
    && forall i :: 0 <= i < |requests| ==> Follows(trace[i], requests[i], sent[i], trace[i + 1])
  }

  ghost predicate Follows(t: Tables, r: Request, n: nat, after: Tables) {
    Admissible(t, r) && n <= |Plan(t, r)| && after == Partial(t, r, n)
  }

  /** Links stay one to one and serials unique in every state of every run. */
  lemma {:induction false} RunKeepsSound(trace: seq<Tables>, requests: seq<Request>, sent: seq<nat>, i: nat)
    requires IsRun(trace, requests, sent) && Sound(trace[0]) && i < |trace|
    ensures Sound(trace[i])
    decreases i
  {
    hide Sound;
    if i > 0 {
      RunKeepsSound(trace, requests, sent, i - 1);
      assert Follows(trace[i - 1], requests[i - 1], sent[i - 1], trace[i]);
      PartialKeepsSound(trace[i - 1], requests[i - 1], sent[i - 1]);
    }
  }

  lemma {:induction false} OutStaysOut(trace: seq<Tables>, requests: seq<Request>, sent: seq<nat>, i: nat, j: nat, c: nat)
    requires IsRun(trace, requests, sent) && Sound(trace[0]) && i <= j < |trace| && Out(trace[i], c)
    ensures Out(trace[j], c) && PeerName(trace[j].certs[c]) == PeerName(trace[i].certs[c])
    decreases j
  {
    hide Sound, PeerName, Linked, Admissible, Plan, Partial;
    if i < j {
      OutStaysOut(trace, requests, sent, i, j - 1, c);
      RunKeepsSound(trace, requests, sent, j - 1);
      assert Follows(trace[j - 1], requests[j - 1], sent[j - 1], trace[j]);
      PartialKeepsOut(trace[j - 1], requests[j - 1], sent[j - 1], c);
    }
  }

  // ---------- the allow-list ----------

  datatype AclEntry = AclEntry(ip: string, peer: string)

  /** GetActiveRelayACLEntries: the entries whose linked certificate is issued, newest first. */
  function ActiveEntries(t: Tables, n: nat): seq<AclEntry>
    requires n <= |t.whitelist|
  {
    if n == 0 then []
    else
      var e := t.whitelist[n - 1];
      (if HoldsIssued(t, e) then [AclEntry(e.ip, PeerName(t.certs[e.cert.value]))] else []) + ActiveEntries(t, n - 1)
  }

  function Names(entries: seq<AclEntry>): (names: seq<string>)
    ensures |names| == |entries| && forall i :: 0 <= i < |entries| ==> names[i] == entries[i].peer
  {
    if entries == [] then [] else [entries[0].peer] + Names(entries[1..])
  }

  /** The permitted peers of the generated listener. */
  function Peers(t: Tables, enabled: bool): seq<string> {
    var entries := ActiveEntries(t, |t.whitelist|);
    if enabled && entries != [] then Names(entries) else [SENTINEL]
  }

  /** Certificate c is issued and an entry is linked to it. */
  ghost predicate Admitted(t: Tables, c: nat) {
    c < |t.certs| && t.certs[c].status == Issued && Linked(t, c)
  }

  /** The active entries are those of the first n rows that hold an issued certificate. */
  lemma {:induction false} ActiveAre(t: Tables, n: nat, a: AclEntry)
    requires n <= |t.whitelist|
    ensures a in ActiveEntries(t, n) <==>
            exists i :: 0 <= i < n && HoldsIssued(t, t.whitelist[i]) &&
              a == AclEntry(t.whitelist[i].ip, PeerName(t.certs[t.whitelist[i].cert.value]))
  {
    hide PeerName, HoldsIssued;
    if n > 0 {
      ActiveAre(t, n - 1, a);
    }
  }

  lemma ActiveIsAdmitted(t: Tables, a: AclEntry)
    requires a in ActiveEntries(t, |t.whitelist|)
    ensures exists c: nat :: Admitted(t, c) && a.peer == PeerName(t.certs[c])
  {
    hide PeerName;
    ActiveAre(t, |t.whitelist|, a);
    var i :| 0 <= i < |t.whitelist| && HoldsIssued(t, t.whitelist[i]) &&
      a == AclEntry(t.whitelist[i].ip, PeerName(t.certs[t.whitelist[i].cert.value]));
    assert Admitted(t, t.whitelist[i].cert.value);
  }

  lemma AdmittedIsActive(t: Tables, c: nat)
    requires Admitted(t, c)
    ensures PeerName(t.certs[c]) in Names(ActiveEntries(t, |t.whitelist|))
  {
    hide PeerName;
    var i :| 0 <= i < |t.whitelist| && t.whitelist[i].cert == Some(c);
    var a := AclEntry(t.whitelist[i].ip, PeerName(t.certs[c]));
    ActiveAre(t, |t.whitelist|, a);
    var all := ActiveEntries(t, |t.whitelist|);
    var j :| 0 <= j < |all| && all[j] == a;
    assert Names(all)[j] == a.peer;
  }

  /** A certificate's name is permitted exactly when relaying is enabled and it is issued and linked. */
  lemma PermittedExactlyWhenAdmitted(t: Tables, enabled: bool, c: nat)
    requires Sound(t) && c < |t.certs|
    ensures PeerName(t.certs[c]) in Peers(t, enabled) <==> enabled && Admitted(t, c)
    ensures PeerName(t.certs[c]) == t.certs[c].name + "#" + t.certs[c].serial
  {
    var name, all := PeerName(t.certs[c]), ActiveEntries(t, |t.whitelist|);
    SentinelIsNoName(t.certs[c]);
    hide PeerName, ActiveEntries, HexSerial, SoundEntries, Linked;
    if enabled && name in Peers(t, enabled) {
      var j :| 0 <= j < |all| && all[j].peer == name;
      ActiveIsAdmitted(t, all[j]);
      var d: nat :| Admitted(t, d) && name == PeerName(t.certs[d]);
      NameDetermines(t.certs[c], t.certs[d]);
    }
    if enabled && Admitted(t, c) {
      AdmittedIsActive(t, c);
    }
  }

  /** The list holds nothing but such names, or only the sentinel; and the sentinel exactly when nothing is admitted. */
  lemma PeersAre(t: Tables, enabled: bool)
    requires Sound(t)
    ensures Peers(t, enabled) == [SENTINEL] || forall p :: p in Peers(t, enabled) ==> exists c: nat :: Admitted(t, c) && p == PeerName(t.certs[c])
    ensures Peers(t, enabled) == [SENTINEL] <==> !enabled || forall c: nat :: !Admitted(t, c)
  {
    var all := ActiveEntries(t, |t.whitelist|);
    hide PeerName, ActiveEntries;
    if enabled && all != [] {
      forall p | p in Peers(t, enabled) ensures exists c: nat :: Admitted(t, c) && p == PeerName(t.certs[c]) {
        var j :| 0 <= j < |all| && all[j].peer == p;
        ActiveIsAdmitted(t, all[j]);
      }
      ActiveIsAdmitted(t, all[0]);
      var c: nat :| Admitted(t, c) && all[0].peer == PeerName(t.certs[c]);
      SentinelIsNoName(t.certs[c]);
    } else if enabled {
      forall c: nat ensures !Admitted(t, c) {
        if Admitted(t, c) {
          AdmittedIsActive(t, c);
        }
      }
    }
  }

  lemma ActiveRow(t: Tables, n: nat, a: AclEntry) returns (i: nat)
    requires n <= |t.whitelist| && a in ActiveEntries(t, n)
    ensures i < n && HoldsIssued(t, t.whitelist[i]) && a == AclEntry(t.whitelist[i].ip, PeerName(t.certs[t.whitelist[i].cert.value]))
  {
    ActiveAre(t, n, a);
    i :| 0 <= i < n && HoldsIssued(t, t.whitelist[i]) && a == AclEntry(t.whitelist[i].ip, PeerName(t.certs[t.whitelist[i].cert.value]));
  }

  /** No peer is listed twice. */
  lemma {:induction false} PeersDistinct(t: Tables, n: nat, i: nat, j: nat)
    requires Sound(t) && n <= |t.whitelist| && i < j < |ActiveEntries(t, n)|
    ensures ActiveEntries(t, n)[i].peer != ActiveEntries(t, n)[j].peer
    decreases n
  {
    hide PeerName, HexSerial;
    var all, others, e := ActiveEntries(t, n), ActiveEntries(t, n - 1), t.whitelist[n - 1];
    if !HoldsIssued(t, e) {
      assert all == others;
      PeersDistinct(t, n - 1, i, j);
    } else {
      assert forall k :: 1 <= k < |all| ==> all[k] == others[k - 1];
      if i > 0 {
        PeersDistinct(t, n - 1, i - 1, j - 1);
      } else {
        var k := ActiveRow(t, n - 1, others[j - 1]);
        if all[j].peer == PeerName(t.certs[e.cert.value]) {
          NameDetermines(t.certs[e.cert.value], t.certs[t.whitelist[k].cert.value]);
        }
      }
    }
  }

  /** Entries come newest first. */
  lemma {:induction false} NewestFirst(t: Tables, n: nat, i: nat, j: nat) returns (a: nat, b: nat)
    requires n <= |t.whitelist| && i < j < |ActiveEntries(t, n)|
    ensures b < a < n && HoldsIssued(t, t.whitelist[a]) && HoldsIssued(t, t.whitelist[b])
    ensures ActiveEntries(t, n)[i] == AclEntry(t.whitelist[a].ip, PeerName(t.certs[t.whitelist[a].cert.value]))
    ensures ActiveEntries(t, n)[j] == AclEntry(t.whitelist[b].ip, PeerName(t.certs[t.whitelist[b].cert.value]))
    decreases n
  {
    hide PeerName, HoldsIssued;
    var all, others := ActiveEntries(t, n), ActiveEntries(t, n - 1);
    if !HoldsIssued(t, t.whitelist[n - 1]) {
      assert all == others;
      a, b := NewestFirst(t, n - 1, i, j);
    } else {
      assert forall k :: 1 <= k < |all| ==> all[k] == others[k - 1];
      if i > 0 {
        a, b := NewestFirst(t, n - 1, i - 1, j - 1);
      } else {
        a := n - 1;
        b := ActiveRow(t, n - 1, others[j - 1]);
      }
    }
  }

  /** An address is let through exactly when its entry is linked to an issued certificate. */
  lemma AddressExactlyWhen(t: Tables, ip: string)
    ensures (exists a :: a in ActiveEntries(t, |t.whitelist|) && a.ip == ip) <==>
            exists k :: 0 <= k < |t.whitelist| && t.whitelist[k].ip == ip && t.whitelist[k].cert.Some? &&
              t.whitelist[k].cert.value < |t.certs| && t.certs[t.whitelist[k].cert.value].status == Issued
  {
    hide PeerName, ActiveEntries;
    if a :| a in ActiveEntries(t, |t.whitelist|) && a.ip == ip {
      var k := ActiveRow(t, |t.whitelist|, a);
    }
    if k :| 0 <= k < |t.whitelist| && t.whitelist[k].ip == ip && HoldsIssued(t, t.whitelist[k]) {
      ActiveAre(t, |t.whitelist|, AclEntry(ip, PeerName(t.certs[t.whitelist[k].cert.value])));
    }
  }

  /** A certificate once revoked or unlinked is never permitted again, whatever requests follow and wherever they fail. */
  lemma CutOffForGood(trace: seq<Tables>, requests: seq<Request>, sent: seq<nat>, i: nat, j: nat, c: nat, enabled: bool)
    requires IsRun(trace, requests, sent) && Sound(trace[0]) && i <= j < |trace| && Out(trace[i], c)
    ensures PeerName(trace[i].certs[c]) !in Peers(trace[j], enabled)
  {
    hide PeerName, Peers;
    RunKeepsSound(trace, requests, sent, j);
    OutStaysOut(trace, requests, sent, i, j, c);
    PermittedExactlyWhenAdmitted(trace[j], enabled, c);
  }

  // ---------- renewal ----------

  /** A handler that issues a certificate and links it to the entry at k. */
  ghost predicate Reissues(t: Tables, r: Request, k: nat) {
    && k < |t.whitelist| && |Plan(t, r)| >= 2
    && ((r.Generate? && r.entry == t.whitelist[k].id) || (r.Regenerate? && t.whitelist[k].cert == Some(r.cert)))
  }

  function NewCert(t: Tables, k: nat, issue: Issue): Tables
    requires k < |t.whitelist|
  {
    t.(certs := t.certs + [Cert(t.whitelist[k].name, issue.serial, Issued, Some(issue.expiresAt))])
  }

  function Relinked(t: Tables, k: nat, target: nat): Tables
    requires k < |t.whitelist|
  {
    t.(whitelist := t.whitelist[k := t.whitelist[k].(cert := Some(target))])
  }

  lemma ReissueStates(t: Tables, r: Request, k: nat)
    requires Sound(t) && Reissues(t, r, k)
    ensures r.issue.Some? && Partial(t, r, 1) == NewCert(t, k, r.issue.value)
    ensures Partial(t, r, 2) == Relinked(NewCert(t, k, r.issue.value), k, |t.certs|)
    ensures |Plan(t, r)| == if r.Regenerate? && HoldsIssued(t, t.whitelist[k]) then 3 else 2
    ensures |Plan(t, r)| == 3 ==> Plan(t, r)[2] == Revoke(r.cert)
  {
    hide SoundCerts;
    assert Partial(t, r, 0) == t;
    assert EntryIndex(t.whitelist, t.whitelist[k].id) == k;
    if r.Regenerate? {
      assert LinkIndex(t.whitelist, r.cert) == k;
    }
  }

  /** From the first to the last statement of a renewal the entry holds an issued certificate. */
  lemma RenewalNeverInterrupts(t: Tables, c: nat, now: int, issue: Option<Issue>, n: nat, k: nat)
    requires Sound(t) && k < |t.whitelist| && t.whitelist[k].cert == Some(c) && t.certs[c].status == Issued
    requires n <= |Plan(t, Regenerate(c, now, issue))|
    ensures var after := Partial(t, Regenerate(c, now, issue), n);
            |after.whitelist| == |t.whitelist| && after.whitelist[k].ip == t.whitelist[k].ip && HoldsIssued(after, after.whitelist[k])
  {
    var r := Regenerate(c, now, issue);
    if n > 0 {
      assert Reissues(t, r, k);
      ReissueStates(t, r, k);
      hide Plan, SoundCerts;
      if n > 2 {
        assert Partial(t, r, 3) == Exec(Partial(t, r, 2), Revoke(c));
      }
    }
  }

  /** A completed renewal swaps the certificates: the new one is admitted and the old one is out. */
  lemma RenewalSwaps(t: Tables, c: nat, now: int, issue: Issue, k: nat)
    requires Sound(t) && FreshSerial(t, issue.serial) && k < |t.whitelist| && t.whitelist[k].cert == Some(c)
    requires t.certs[c].status == Issued ==> NearingExpiry(t.certs[c], now)
    ensures var after := Completed(t, Regenerate(c, now, Some(issue)));
            && Admitted(after, |t.certs|) && after.certs[|t.certs|] == Cert(t.whitelist[k].name, issue.serial, Issued, Some(issue.expiresAt))
            && after.certs[c].status == Revoked && !Linked(after, c)
  {
    var r := Regenerate(c, now, Some(issue));
    assert LinkIndex(t.whitelist, c) < |t.whitelist|;
    assert Reissues(t, r, k);
    ReissueStates(t, r, k);
    var after := Completed(t, r);
    if |Plan(t, r)| == 3 {
      assert Partial(t, r, 3) == Exec(Partial(t, r, 2), Revoke(c));
    }
    hide Plan, SoundCerts;
    assert after.whitelist[k].cert == Some(|t.certs|);
  }

  /** A request to renew changes something exactly when the certificate is linked and revoked or within 30 days of
      its expiry, and signing succeeds. */
  lemma RegeneratesExactlyWhen(t: Tables, c: nat, now: int, issue: Option<Issue>)
    requires Sound(t)
    ensures Completed(t, Regenerate(c, now, issue)) != t <==>
            && Linked(t, c) && issue.Some?
            && (t.certs[c].status == Revoked || t.certs[c].expiresAt.None? || t.certs[c].expiresAt.value <= now + 2_592_000)
  {
    var r, k := Regenerate(c, now, issue), LinkIndex(t.whitelist, c);
    if Plan(t, r) != [] {
      assert Reissues(t, r, k);
      ReissueStates(t, r, k);
      if |Plan(t, r)| == 3 {
        assert Partial(t, r, 3) == Exec(Partial(t, r, 2), Revoke(c));
      }
      hide Plan, Partial;
      assert |Completed(t, r).certs| > |t.certs|;
    }
  }

  /** A certificate is generated exactly for a listed entry whose certificate is missing or revoked; it carries the
      entry's label, is issued, and the entry alone is linked to it. */
  lemma GeneratesExactlyWhen(t: Tables, k: nat, issue: Option<Issue>)
    requires Sound(t) && k < |t.whitelist|
    ensures var e, after := t.whitelist[k], Completed(t, Generate(t.whitelist[k].id, issue));
            if issue.Some? && (e.cert.None? || t.certs[e.cert.value].status == Revoked) then
              && after.certs == t.certs + [Cert(e.name, issue.value.serial, Issued, Some(issue.value.expiresAt))]
              && after.whitelist == t.whitelist[k := e.(cert := Some(|t.certs|))]
            else after == t
  {
    hide SoundCerts;
    var e, r := t.whitelist[k], Generate(t.whitelist[k].id, issue);
    assert EntryIndex(t.whitelist, e.id) == k;
    if issue.Some? && (e.cert.None? || t.certs[e.cert.value].status == Revoked) {
      assert Reissues(t, r, k);
      ReissueStates(t, r, k);
      hide Plan, Partial;
    }
  }

  /** Creating records a certificate with the requested label and lists the address with it, unless it is listed. */
  lemma CreateRecords(t: Tables, ip: string, name: string, issue: Issue)
    ensures var after := Completed(t, Create(ip, name, Some(issue)));
            && after.certs == t.certs + [Cert(name, issue.serial, Issued, Some(issue.expiresAt))]
            && after.whitelist ==
               if Whitelisted(t.whitelist, ip) then t.whitelist else t.whitelist + [Entry(t.nextEntry, ip, name, Some(|t.certs|))]
  {
    var r := Create(ip, name, Some(issue));
    RunsTwo(t, r, Plan(t, r)[0], Plan(t, r)[1]);
    hide Completed;
  }

  /** Listing an address gives it no certificate. */
  lemma AddRecords(t: Tables, ip: string, name: string)
    ensures var after := Completed(t, AddEntry(ip, name));
            && after.certs == t.certs
            && after.whitelist == if Whitelisted(t.whitelist, ip) then t.whitelist else t.whitelist + [Entry(t.nextEntry, ip, name, None)]
  {
    RunsOne(t, AddEntry(ip, name), InsertEntry(ip, name, None));
    hide Completed;
  }

  // ---------- revoking and removing ----------

  /** Revoking shuts out that certificate at once and no other. */
  lemma RevocationShutsOut(t: Tables, c: nat, d: nat, enabled: bool)
    requires Sound(t) && c < |t.certs| && d < |t.certs|
    ensures PeerName(t.certs[d]) in Peers(Completed(t, RevokeRequest(c)), enabled) <==>
            d != c && PeerName(t.certs[d]) in Peers(t, enabled)
  {
    var r := RevokeRequest(c);
    var after := Completed(t, r);
    assert Partial(t, r, 0) == t;
    assert after == Exec(t, Revoke(c));
    RevokeKeeps(t.certs, c);
    assert PeerName(after.certs[d]) == PeerName(t.certs[d]);
    hide PeerName, Peers, SoundCerts, SoundEntries;
    PermittedExactlyWhenAdmitted(t, enabled, d);
    PermittedExactlyWhenAdmitted(after, enabled, d);
    assert Linked(after, d) <==> Linked(t, d);
  }

  /** Removing an entry takes its address off the list, revokes its certificate and leaves the other entries. */
  lemma RemovalShutsOut(t: Tables, k: nat)
    requires Sound(t) && k < |t.whitelist|
    ensures var e, after := t.whitelist[k], Completed(t, Delete(t.whitelist[k].id));
            && !Whitelisted(after.whitelist, e.ip)
            && (e.cert.Some? ==> Out(after, e.cert.value))
            && forall i :: 0 <= i < |t.whitelist| && i != k ==> t.whitelist[i] in after.whitelist
  {
    hide SoundCerts;
    var w, r := t.whitelist, Delete(t.whitelist[k].id);
    assert EntryIndex(w, w[k].id) == k;
    DeleteLeaves(t, r, k);
    hide Completed, Plan;
    var after := Completed(t, r);
    forall i | 0 <= i < |w| && i != k ensures w[i] in after.whitelist {
      assert after.whitelist[if i < k then i else i - 1] == w[i];
    }
    forall i | 0 <= i < |after.whitelist| ensures after.whitelist[i].ip != w[k].ip {
      assert after.whitelist[i] == w[if i < k then i else i + 1];
    }
  }

  // ---------- no certificate left lying around ----------

  /** Every issued certificate is linked. */
  ghost predicate Tidy(t: Tables) {
    forall c :: 0 <= c < |t.certs| && t.certs[c].status == Issued ==> Linked(t, c)
  }

  /** Completed handlers keep that, except the one that issues a certificate for an address already listed. */
  lemma TidyExactlyWhen(t: Tables, r: Request)
    requires Sound(t) && Admissible(t, r) && Tidy(t)
    ensures Tidy(Completed(t, r)) <==> !(r.Create? && r.issue.Some? && Whitelisted(t.whitelist, r.ip))
  {
    match r
    case AddEntry(_, _) => TidyAdd(t, r);
    case Create(_, _, _) => TidyCreate(t, r);
    case Generate(_, _) => TidyReissue(t, r);
    case RevokeRequest(_) => TidyRevoke(t, r);
    case Regenerate(_, _, _) => TidyReissue(t, r);
    case Delete(_) => TidyDelete(t, r);
  }

  lemma TidyAdd(t: Tables, r: Request)
    requires Sound(t) && Tidy(t) && r.AddEntry?
    ensures Tidy(Completed(t, r))
  {
    assert Partial(t, r, 0) == t;
    var after := Completed(t, r);
    assert |after.whitelist| >= |t.whitelist| && after.whitelist[..|t.whitelist|] == t.whitelist;
    forall c | 0 <= c < |t.certs| && t.certs[c].status == Issued ensures Linked(after, c) {
      var i :| 0 <= i < |t.whitelist| && t.whitelist[i].cert == Some(c);
      assert after.whitelist[i] == t.whitelist[i];
    }
  }

  lemma TidyCreate(t: Tables, r: Request)
    requires Sound(t) && Tidy(t) && r.Create?
    ensures Tidy(Completed(t, r)) <==> r.issue.None? || !Whitelisted(t.whitelist, r.ip)
  {
    assert Partial(t, r, 0) == t;
    var after := Completed(t, r);
    if r.issue.Some? {
      assert Partial(t, r, 1) == Exec(t, Plan(t, r)[0]);
      var w := t.whitelist;
      if Whitelisted(w, r.ip) {
        assert !Linked(after, |t.certs|);
      } else {
        assert after.whitelist[|w|].cert == Some(|t.certs|);
        forall c | 0 <= c < |after.certs| && after.certs[c].status == Issued ensures Linked(after, c) {
          if c < |t.certs| {
            var i :| 0 <= i < |w| && w[i].cert == Some(c);
            assert after.whitelist[i] == w[i];
          }
        }
      }
    }
  }

  lemma TidyReissue(t: Tables, r: Request)
    requires Sound(t) && Tidy(t) && (r.Generate? || r.Regenerate?)
    ensures Tidy(Completed(t, r))
  {
    if Plan(t, r) != [] {
      var k := if r.Generate? then EntryIndex(t.whitelist, r.entry) else LinkIndex(t.whitelist, r.cert);
      assert Reissues(t, r, k);
      ReissueStates(t, r, k);
      var after := Completed(t, r);
      if |Plan(t, r)| == 3 {
        assert Partial(t, r, 3) == Exec(Partial(t, r, 2), Revoke(r.cert));
      }
      assert after.whitelist[k].cert == Some(|t.certs|);
      assert r.Regenerate? ==> t.whitelist[k].cert == Some(r.cert);
      hide Plan, Partial, SoundCerts;
      forall c | 0 <= c < |after.certs| && after.certs[c].status == Issued ensures Linked(after, c) {
        if c < |t.certs| {
          var i :| 0 <= i < |t.whitelist| && t.whitelist[i].cert == Some(c);
          assert i != k;
          assert after.whitelist[i] == t.whitelist[i];
        }
      }
    }
  }

  lemma TidyRevoke(t: Tables, r: Request)
    requires Tidy(t) && r.RevokeRequest?
    ensures Tidy(Completed(t, r))
  {
    assert Partial(t, r, 0) == t;
    var after := Completed(t, r);
    forall c | 0 <= c < |after.certs| && after.certs[c].status == Issued ensures Linked(after, c) {
      assert Linked(t, c);
    }
  }

  lemma DeleteLeaves(t: Tables, r: Request, k: nat)
    requires Sound(t) && r.Delete? && k == EntryIndex(t.whitelist, r.entry)
    ensures var after, w := Completed(t, r), t.whitelist;
            if k == |w| then after == t
            else
              && after.whitelist == w[..k] + w[k + 1..]
              && after.certs == if w[k].cert.None? then t.certs else t.certs[w[k].cert.value := t.certs[w[k].cert.value].(status := Revoked)]
  {
    hide SoundCerts;
    assert Partial(t, r, 0) == t;
    assert Partial(t, r, 1) == Exec(t, DeleteEntry(r.entry));
  }

  lemma TidyDelete(t: Tables, r: Request)
    requires Sound(t) && Tidy(t) && r.Delete?
    ensures Tidy(Completed(t, r))
  {
    hide Completed, SoundCerts;
    var w, k, after := t.whitelist, EntryIndex(t.whitelist, r.entry), Completed(t, r);
    DeleteLeaves(t, r, k);
    if k < |w| {
      forall c | 0 <= c < |after.certs| && after.certs[c].status == Issued ensures Linked(after, c) {
        var i :| 0 <= i < |w| && w[i].cert == Some(c);
        assert i != k;
        assert after.whitelist[if i < k then i else i - 1] == w[i];
      }
    }
  }

  // ---------- the store and its handlers ----------

  /** What `writeRelayACL` puts into the file: the addresses let through (none: every connection is dropped)
      and the value of PermittedPeer. */
  datatype Acl = Acl(ips: seq<string>, permittedPeer: string)

  lemma RunsTwo(t: Tables, r: Request, a: Statement, b: Statement)
    requires Plan(t, r) == [a, b]
    ensures Completed(t, r) == Exec(Exec(t, a), b)
  {
    hide Plan, Exec;
    assert Partial(t, r, 0) == t;
    assert Partial(t, r, 1) == Exec(t, a);
  }

  lemma RunsThree(t: Tables, r: Request, a: Statement, b: Statement, c: Statement)
    requires Plan(t, r) == [a, b, c]
    ensures Completed(t, r) == Exec(Exec(Exec(t, a), b), c)
  {
    hide Plan, Exec;
    assert Partial(t, r, 0) == t;
    assert Partial(t, r, 1) == Exec(t, a);
    assert Partial(t, r, 2) == Exec(Exec(t, a), b);
  }

  lemma RunsOne(t: Tables, r: Request, a: Statement)
    requires Plan(t, r) == [a]
    ensures Completed(t, r) == Exec(t, a)
  {
    hide Plan, Exec;
    assert Partial(t, r, 0) == t;
  }

  class RelayStore {
    var certs: seq<Cert>
    var whitelist: seq<Entry>
    var nextEntry: nat

    function Now(): Tables
      reads this
    {
      Tables(certs, whitelist, nextEntry)
    }

    method InsertRelayCertificate(name: string, issue: Issue) returns (id: nat)
      modifies this`certs
      ensures Now() == Exec(old(Now()), InsertCert(name, issue.serial, issue.expiresAt)) && id == |old(certs)|
    {
      id := |certs|;
      certs := certs + [Cert(name, issue.serial, Issued, Some(issue.expiresAt))];
    }

    method AddRelayWhitelistEntry(ip: string, name: string, cert: Option<nat>) returns (ok: bool)
      modifies this`whitelist, this`nextEntry
      ensures Now() == Exec(old(Now()), InsertEntry(ip, name, cert)) && ok == !Whitelisted(old(whitelist), ip)
      ensures cert.None? ==> Now() == Completed(old(Now()), AddEntry(ip, name))
    {
      if cert.None? {
        RunsOne(Now(), AddEntry(ip, name), InsertEntry(ip, name, None));
      }
      ok := !Whitelisted(whitelist, ip);
      if ok {
        whitelist := whitelist + [Entry(nextEntry, ip, name, cert)];
        nextEntry := nextEntry + 1;
      }
    }

    method LinkRelayCertificateToWhitelist(id: nat, cert: nat)
      modifies this`whitelist
      ensures Now() == Exec(old(Now()), Link(id, cert))
    {
      var k := EntryIndex(whitelist, id);
      if k < |whitelist| {
        whitelist := whitelist[k := whitelist[k].(cert := Some(cert))];
      }
    }

    method RevokeRelayCertificate(id: nat)
      modifies this`certs
      ensures Now() == Exec(old(Now()), Revoke(id))
      ensures Now() == Completed(old(Now()), RevokeRequest(id))
    {
      RunsOne(Now(), RevokeRequest(id), Revoke(id));
      if id < |certs| {
        certs := certs[id := certs[id].(status := Revoked)];
      }
    }

    method DeleteRelayWhitelistEntry(id: nat)
      modifies this`whitelist
      ensures Now() == Exec(old(Now()), DeleteEntry(id))
    {
      var k := EntryIndex(whitelist, id);
      if k < |whitelist| {
        whitelist := whitelist[..k] + whitelist[k + 1..];
      }
    }

    /** The request fails when signing fails, or, with the certificate already recorded, when the address is listed. */
    method CreateRelayCertificate(ip: string, name: string, issue: Option<Issue>) returns (ok: bool)
      modifies this
      ensures Now() == Completed(old(Now()), Create(ip, name, issue))
      ensures ok <==> issue.Some? && !Whitelisted(old(whitelist), ip)
    {
      if issue.None? {
        return false;
      }
      ghost var plan := Plan(Now(), Create(ip, name, issue));
      RunsTwo(Now(), Create(ip, name, issue), plan[0], plan[1]);
      hide Exec;
      var id := InsertRelayCertificate(name, issue.value);
      assert whitelist == old(whitelist);
      ok := AddRelayWhitelistEntry(ip, name, Some(id));
    }

    method GenerateCertificateForWhitelistEntry(id: nat, issue: Option<Issue>) returns (ok: bool)
      modifies this
      ensures Now() == Completed(old(Now()), Generate(id, issue))
      ensures ok <==> Plan(old(Now()), Generate(id, issue)) != []
    {
      var k := EntryIndex(whitelist, id);
      if k == |whitelist| || HoldsIssued(Now(), whitelist[k]) || issue.None? {
        return false;
      }
      ghost var plan := Plan(Now(), Generate(id, issue));
      RunsTwo(Now(), Generate(id, issue), plan[0], plan[1]);
      hide Exec;
      var cert := InsertRelayCertificate(whitelist[k].name, issue.value);
      LinkRelayCertificateToWhitelist(id, cert);
      ok := true;
    }

    method RegenerateRelayCertificate(id: nat, now: int, issue: Option<Issue>) returns (ok: bool)
      modifies this
      ensures Now() == Completed(old(Now()), Regenerate(id, now, issue))
      ensures ok <==> Plan(old(Now()), Regenerate(id, now, issue)) != []
    {
      if id >= |certs| || (certs[id].status == Issued && !NearingExpiry(certs[id], now)) {
        return false;
      }
      var k := LinkIndex(whitelist, id);
      if k == |whitelist| || issue.None? {
        return false;
      }
      var wasIssued, entry := certs[id].status == Issued, whitelist[k];
      ghost var t, plan := Now(), Plan(Now(), Regenerate(id, now, issue));
      if wasIssued {
        RunsThree(t, Regenerate(id, now, issue), plan[0], plan[1], plan[2]);
      } else {
        RunsTwo(t, Regenerate(id, now, issue), plan[0], plan[1]);
      }
      hide Exec;
      var cert := InsertRelayCertificate(entry.name, issue.value);
      LinkRelayCertificateToWhitelist(entry.id, cert);
      if wasIssued {
        RevokeRelayCertificate(id);
      }
      ok := true;
    }

    method DeleteWhitelistedRelay(id: nat)
      modifies this
      ensures Now() == Completed(old(Now()), Delete(id))
    {
      var k := EntryIndex(whitelist, id);
      ghost var t, plan := Now(), Plan(Now(), Delete(id));
      if k < |whitelist| && whitelist[k].cert.Some? {
        RunsTwo(t, Delete(id), plan[0], plan[1]);
        hide Exec;
        var cert := whitelist[k].cert.value;
        DeleteRelayWhitelistEntry(id);
        RevokeRelayCertificate(cert);
      } else {
        RunsOne(t, Delete(id), plan[0]);
        hide Exec;
        DeleteRelayWhitelistEntry(id);
      }
    }

    method GetActiveRelayACLEntries() returns (entries: seq<AclEntry>)
      ensures entries == ActiveEntries(Now(), |whitelist|)
    {
      hide PeerName;
      entries := [];
      var n := |whitelist|;
      while n > 0
        invariant 0 <= n <= |whitelist|
        invariant entries + ActiveEntries(Now(), n) == ActiveEntries(Now(), |whitelist|)
      {
        n := n - 1;
        var e := whitelist[n];
        if HoldsIssued(Now(), e) {
          entries := entries + [AclEntry(e.ip, PeerName(certs[e.cert.value]))];
        }
      }
    }

    /** rsyslog reads the file's PermittedPeer as exactly the permitted names; the addresses are those of the active entries. */
    method WriteRelayACL(enabled: bool) returns (acl: Acl)
      ensures ReadList(acl.permittedPeer) == Some(Parsed(Peers(Now(), enabled), ""))
      ensures |acl.ips| == if enabled then |ActiveEntries(Now(), |whitelist|)| else 0
      ensures forall i :: 0 <= i < |acl.ips| ==> acl.ips[i] == ActiveEntries(Now(), |whitelist|)[i].ip
      ensures acl.ips == [] ==> ReadList(acl.permittedPeer) == Some(Parsed(["no-relay-certificates-active"], ""))
    {
      hide ActiveEntries, ReadList, ListText;
      var ips, peerNames := [], [SENTINEL];
      if enabled {
        var entries := GetActiveRelayACLEntries();
        if |entries| > 0 {
          peerNames := [];
          for i := 0 to |entries|
            invariant |ips| == |peerNames| == i
            invariant forall j :: 0 <= j < i ==> ips[j] == entries[j].ip && peerNames[j] == entries[j].peer
          {
            ips := ips + [entries[i].ip];
            peerNames := peerNames + [entries[i].peer];
          }
          assert peerNames == Names(entries);
        }
      }
      assert peerNames == Peers(Now(), enabled);
      var text := PermittedPeerText(peerNames);
      acl := Acl(ips, text);
    }
  }

  method PermittedPeerText(peerNames: seq<string>) returns (text: string)
    ensures text == ListText(peerNames)
    ensures peerNames != [] ==> ReadList(text) == Some(Parsed(peerNames, ""))
  {
    hide StringLiteral, ReadList, Join;
    var literals := [];
    for i := 0 to |peerNames|
      invariant |literals| == i
      invariant forall j :: 0 <= j < i ==> literals[j] == StringLiteral(peerNames[j])
    {
      literals := literals + [StringLiteral(peerNames[i])];
    }
    assert literals == Literals(peerNames);
    text := "[" + Join(literals, ", ") + "]";
    if peerNames != [] {
      ListRoundTrip(peerNames, "");
      assert ListText(peerNames) + "" == text;
    }
  }
}
