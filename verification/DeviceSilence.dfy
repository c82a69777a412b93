/** Silence alerts (`CheckDeviceSilence`): per rule and device, a silence episode starts when the device stops
    logging, escalates with its length, and ends with one notice when the device is back. */
module DeviceSilence {
  import opened Wrappers
  import AlertCounters

  datatype Severity = Warning | Error | Critical

  function Rank(s: Severity): int {
    match s case Warning => 0 case Error => 1 case Critical => 2
  }

  /** `severityForSilence`. */
  function SeverityFor(silentFor: int, threshold: int): Severity {
    if silentFor >= 4 * threshold then Critical else if silentFor >= 2 * threshold then Error else Warning
  }

  /** A row of device_silence_state. */
  datatype Episode = Episode(silentSince: int, severity: Severity)

  /** What one check sends for a device; `bypass` marks a silence notice sent inside the cooldown. */
  datatype Notice = Nothing | BackOnline | Silent(severity: Severity, bypass: bool)

  /** INSERT .. ON CONFLICT DO UPDATE SET last_severity: an existing row keeps its silent_since. */
  function Upsert(e: Option<Episode>, since: int, severity: Severity): Episode {
    if e.Some? then e.value.(severity := severity) else Episode(since, severity)
  }

  /** One rule and device at one check. `storeFire` is the counter store's answer. */
  function Check(e: Option<Episode>, threshold: int, now: int, lastSeen: int, storeFire: bool): (Option<Episode>, Notice) {
    if now - lastSeen < threshold then (None, if e.Some? then BackOnline else Nothing)
    else
      var since := if e.Some? then e.value.silentSince else lastSeen;
      var severity := SeverityFor(now - since, threshold);
      var escalated := e.Some? && Rank(severity) > Rank(e.value.severity);
      if escalated || storeFire then (Some(Upsert(e, since, severity)), Silent(severity, !storeFire))
      else (e, Nothing)
  }

  // ---------- the loop over rules and devices ----------

  datatype Rule = Rule(id: int, thresholdMinutes: int, deviceIps: seq<string>)
  datatype Device = Device(ip: string, lastSeen: int)

  type Key = (int, string)

  /** A threshold that is not positive means 15 minutes. */
  function Threshold(rule: Rule): (seconds: int)
    ensures seconds > 0
    ensures rule.thresholdMinutes > 0 ==> seconds == rule.thresholdMinutes * 60
    ensures rule.thresholdMinutes <= 0 ==> seconds == 900
  {
    60 * if rule.thresholdMinutes <= 0 then 15 else rule.thresholdMinutes
  }

  /** A rule without devices watches all. */
  predicate Watches(rule: Rule, ip: string) {
    rule.deviceIps == [] || ip in rule.deviceIps
  }

  ghost predicate DistinctRules(rules: seq<Rule>) {
    forall i, j :: 0 <= i < j < |rules| ==> rules[i].id != rules[j].id
  }

  ghost predicate DistinctDevices(devices: seq<Device>) {
    forall i, j :: 0 <= i < j < |devices| ==> devices[i].ip != devices[j].ip
  }

  function Stored(states: map<Key, Episode>, key: Key): Option<Episode> {
    if key in states then Some(states[key]) else None
  }

  function Put(states: map<Key, Episode>, key: Key, e: Option<Episode>): map<Key, Episode> {
    if e.Some? then states[key := e.value] else states - {key}
  }

  /** What one check of all rules and devices leaves for one key. */
  function CheckKey(states: map<Key, Episode>, rule: Rule, device: Device, now: int, fires: set<Key>): (Option<Episode>, Notice) {
    var key := (rule.id, device.ip);
    if Watches(rule, device.ip) then Check(Stored(states, key), Threshold(rule), now, device.lastSeen, key in fires)
    else (Stored(states, key), Nothing)
  }

  /** Rules before i are done; of rule i the devices before j are done. */
  ghost predicate Done(rules: seq<Rule>, devices: seq<Device>, before: map<Key, Episode>, after: map<Key, Episode>,
                       now: int, fires: set<Key>, i: nat, j: nat)
    requires i <= |rules| && j <= |devices|
  {
    && (forall a, b :: 0 <= a < |rules| && 0 <= b < |devices| ==>
          var key := (rules[a].id, devices[b].ip);
          Stored(after, key) == if a < i || (a == i && b < j) then CheckKey(before, rules[a], devices[b], now, fires).0 else Stored(before, key))
    && (forall key :: (forall a, b :: 0 <= a < |rules| && 0 <= b < |devices| ==> key != (rules[a].id, devices[b].ip)) ==>
          Stored(after, key) == Stored(before, key))
  }

  lemma DoneAtStart(rules: seq<Rule>, devices: seq<Device>, states: map<Key, Episode>, now: int, fires: set<Key>)
    ensures Done(rules, devices, states, states, now, fires, 0, 0)
  {
  }

  lemma DoneNextRule(rules: seq<Rule>, devices: seq<Device>, before: map<Key, Episode>, after: map<Key, Episode>,
                     now: int, fires: set<Key>, i: nat)
    requires i < |rules| && Done(rules, devices, before, after, now, fires, i, |devices|)
    ensures Done(rules, devices, before, after, now, fires, i + 1, 0)
  {
    hide CheckKey, Stored;
  }

  lemma DoneNextDevice(rules: seq<Rule>, devices: seq<Device>, before: map<Key, Episode>, after: map<Key, Episode>,
                       now: int, fires: set<Key>, i: nat, j: nat)
    requires DistinctRules(rules) && DistinctDevices(devices) && i < |rules| && j < |devices|
    requires Done(rules, devices, before, after, now, fires, i, j)
    ensures var next := Put(after, (rules[i].id, devices[j].ip), CheckKey(before, rules[i], devices[j], now, fires).0);
            Done(rules, devices, before, next, now, fires, i, j + 1)
  {
    hide CheckKey, Done;
    var key := (rules[i].id, devices[j].ip);
    var e := CheckKey(before, rules[i], devices[j], now, fires).0;
    var next := Put(after, key, e);
    assert forall other :: Stored(next, other) == if other == key then e else Stored(after, other);
    hide Put, Stored;
    DoneStep(rules, devices, before, after, next, now, fires, i, j);
  }

  lemma DoneStep(rules: seq<Rule>, devices: seq<Device>, before: map<Key, Episode>, after: map<Key, Episode>, next: map<Key, Episode>,
                 now: int, fires: set<Key>, i: nat, j: nat)
    requires DistinctRules(rules) && DistinctDevices(devices) && i < |rules| && j < |devices|
    requires Done(rules, devices, before, after, now, fires, i, j)
    requires var key := (rules[i].id, devices[j].ip);
             forall other :: Stored(next, other) == if other == key then CheckKey(before, rules[i], devices[j], now, fires).0 else Stored(after, other)
    ensures Done(rules, devices, before, next, now, fires, i, j + 1)
  {
    hide CheckKey, Stored;
    forall a, b | 0 <= a < |rules| && 0 <= b < |devices|
      ensures var key := (rules[a].id, devices[b].ip);
              Stored(next, key) == if a < i || (a == i && b < j + 1) then CheckKey(before, rules[a], devices[b], now, fires).0 else Stored(before, key)
    {
      var key := (rules[a].id, devices[b].ip);
      assert key == (rules[i].id, devices[j].ip) <==> a == i && b == j;
    }
  }

  class Engine {
    var states: map<Key, Episode>
    var sent: seq<(Key, Notice)>

    /** With notifications enabled, each watched pair takes its own step, from the states read at the start. */
    method CheckDeviceSilence(enabled: bool, rules: seq<Rule>, devices: seq<Device>, now: int, fires: set<Key>)
      requires DistinctRules(rules) && DistinctDevices(devices)
      modifies this
      ensures !enabled ==> states == old(states) && sent == old(sent)
      ensures enabled ==> Done(rules, devices, old(states), states, now, fires, |rules|, 0)
      ensures enabled ==> sent == old(sent) + Notices(rules, devices, old(states), now, fires, |rules|, 0)
    {
      if !enabled {
        return;
      }
      hide Done, CheckKey, NoticeFor, DistinctRules, DistinctDevices, Notices;
      var loaded := states;
      DoneAtStart(rules, devices, loaded, now, fires);
      NoticesAtStart(rules, devices, loaded, now, fires);
      for i := 0 to |rules|
        invariant Done(rules, devices, old(states), states, now, fires, i, 0)
        invariant sent == old(sent) + Notices(rules, devices, old(states), now, fires, i, 0)
      {
        for j := 0 to |devices|
          invariant Done(rules, devices, old(states), states, now, fires, i, j)
          invariant sent == old(sent) + Notices(rules, devices, old(states), now, fires, i, j)
        {
          NoticesNextDevice(rules, devices, loaded, now, fires, i, j);
          CheckDevice(rules, devices, loaded, now, fires, i, j);
        }
        NoticesNextRule(rules, devices, loaded, now, fires, i);
        DoneNextRule(rules, devices, loaded, states, now, fires, i);
      }
    }

    method CheckDevice(rules: seq<Rule>, devices: seq<Device>, loaded: map<Key, Episode>, now: int, fires: set<Key>, i: nat, j: nat)
      requires DistinctRules(rules) && DistinctDevices(devices) && i < |rules| && j < |devices|
      requires Done(rules, devices, loaded, states, now, fires, i, j)
      modifies this
      ensures Done(rules, devices, loaded, states, now, fires, i, j + 1)
      ensures sent == old(sent) + NoticeFor(rules[i], devices[j], loaded, now, fires)
    {
      DoneNextDevice(rules, devices, loaded, states, now, fires, i, j);
      hide Check, Done, DistinctRules, DistinctDevices;
      var rule, device := rules[i], devices[j];
      var key := (rule.id, device.ip);
      if Watches(rule, device.ip) {
        var (e, notice) := Check(Stored(loaded, key), Threshold(rule), now, device.lastSeen, key in fires);
        states := Put(states, key, e);
        if notice != Nothing {
          sent := sent + [(key, notice)];
        }
      } else {
        UnwatchedKeeps(rules, devices, loaded, states, now, fires, i, j);
      }
    }
  }

  lemma UnwatchedKeeps(rules: seq<Rule>, devices: seq<Device>, before: map<Key, Episode>, after: map<Key, Episode>,
                       now: int, fires: set<Key>, i: nat, j: nat)
    requires i < |rules| && j < |devices| && !Watches(rules[i], devices[j].ip)
    requires Done(rules, devices, before, after, now, fires, i, j)
    ensures Put(after, (rules[i].id, devices[j].ip), CheckKey(before, rules[i], devices[j], now, fires).0) == after
  {
    hide Check;
    var key := (rules[i].id, devices[j].ip);
    assert Stored(after, key) == Stored(before, key);
  }

  function NoticeFor(rule: Rule, device: Device, loaded: map<Key, Episode>, now: int, fires: set<Key>): seq<(Key, Notice)> {
    var notice := CheckKey(loaded, rule, device, now, fires).1;
    if notice == Nothing then [] else [((rule.id, device.ip), notice)]
  }

  /** The notices of the pairs before (i, j), in loop order. */
  function Notices(rules: seq<Rule>, devices: seq<Device>, loaded: map<Key, Episode>, now: int, fires: set<Key>, i: nat, j: nat)
    : seq<(Key, Notice)>
    requires i <= |rules| && j <= |devices| && (i == |rules| ==> j == 0)
    decreases i, j
  {
    if j > 0 then Notices(rules, devices, loaded, now, fires, i, j - 1) + NoticeFor(rules[i], devices[j - 1], loaded, now, fires)
    else if i > 0 then Notices(rules, devices, loaded, now, fires, i - 1, |devices|)
    else []
  }

  lemma NoticesAtStart(rules: seq<Rule>, devices: seq<Device>, loaded: map<Key, Episode>, now: int, fires: set<Key>)
    ensures Notices(rules, devices, loaded, now, fires, 0, 0) == []
  {
  }

  lemma NoticesNextDevice(rules: seq<Rule>, devices: seq<Device>, loaded: map<Key, Episode>, now: int, fires: set<Key>, i: nat, j: nat)
    requires i < |rules| && j < |devices|
    ensures Notices(rules, devices, loaded, now, fires, i, j + 1)
            == Notices(rules, devices, loaded, now, fires, i, j) + NoticeFor(rules[i], devices[j], loaded, now, fires)
  {
  }

  lemma NoticesNextRule(rules: seq<Rule>, devices: seq<Device>, loaded: map<Key, Episode>, now: int, fires: set<Key>, i: nat)
    requires i < |rules|
    ensures Notices(rules, devices, loaded, now, fires, i + 1, 0) == Notices(rules, devices, loaded, now, fires, i, |devices|)
  {
  }

  /** A notice about a rule and a device is sent exactly when their own step gives it. */
  lemma {:induction false} NoticesAre(rules: seq<Rule>, devices: seq<Device>, loaded: map<Key, Episode>, now: int, fires: set<Key>,
                                      i: nat, j: nat, a: nat, b: nat, n: Notice)
    requires DistinctRules(rules) && DistinctDevices(devices) && a < |rules| && b < |devices|
    requires i <= |rules| && j <= |devices| && (i == |rules| ==> j == 0)
    ensures ((rules[a].id, devices[b].ip), n) in Notices(rules, devices, loaded, now, fires, i, j) <==>
            (a < i || (a == i && b < j)) && n != Nothing && n == CheckKey(loaded, rules[a], devices[b], now, fires).1
    decreases i, j
  {
    hide CheckKey;
    if j > 0 {
      NoticesAre(rules, devices, loaded, now, fires, i, j - 1, a, b, n);
      assert rules[i].id == rules[a].id && devices[j - 1].ip == devices[b].ip <==> a == i && b == j - 1;
    } else if i > 0 {
      NoticesAre(rules, devices, loaded, now, fires, i - 1, |devices|, a, b, n);
    }
  }

  /** After a check: a watched device with an open episode that was seen within the rule's minutes is announced as back
      and its episode removed; about a device the rule does not watch nothing is sent or changed. */
  lemma CheckedPair(rules: seq<Rule>, devices: seq<Device>, before: map<Key, Episode>, after: map<Key, Episode>,
                    now: int, fires: set<Key>, a: nat, b: nat)
    requires DistinctRules(rules) && DistinctDevices(devices) && a < |rules| && b < |devices|
    requires Done(rules, devices, before, after, now, fires, |rules|, 0)
    ensures var key, ips := (rules[a].id, devices[b].ip), rules[a].deviceIps;
            var sent := Notices(rules, devices, before, now, fires, |rules|, 0);
            var minutes := if rules[a].thresholdMinutes <= 0 then 15 else rules[a].thresholdMinutes;
            var watched, back := ips == [] || devices[b].ip in ips, now - devices[b].lastSeen < minutes * 60;
            && (watched && back ==> key !in after && ((key, BackOnline) in sent <==> key in before))
            && (watched && !back ==> (key, BackOnline) !in sent && (key in fires ==> key in after))
            && (!watched ==> Stored(after, key) == Stored(before, key) && forall n :: (key, n) !in sent)
  {
    var key := (rules[a].id, devices[b].ip);
    forall n ensures (key, n) in Notices(rules, devices, before, now, fires, |rules|, 0) <==>
                     n != Nothing && n == CheckKey(before, rules[a], devices[b], now, fires).1
    {
      NoticesAre(rules, devices, before, now, fires, |rules|, 0, a, b, n);
    }
    assert Stored(after, key) == CheckKey(before, rules[a], devices[b], now, fires).0;
    hide Done, Notices, DistinctRules, DistinctDevices;
  }

  // ---------- one rule and device over many checks ----------

  /** What a check sees: the time, when the device was last seen, and the counter's answer. */
  datatype Seen = Seen(now: int, lastSeen: int, storeFire: bool)

  ghost predicate Timely(seen: seq<Seen>) {
    forall i, j :: 0 <= i <= j < |seen| ==> seen[i].now <= seen[j].now
  }

  ghost function After(threshold: int, start: Option<Episode>, seen: seq<Seen>): Option<Episode> {
    if seen == [] then start
    else
      var last := seen[|seen| - 1];
      Check(After(threshold, start, seen[..|seen| - 1]), threshold, last.now, last.lastSeen, last.storeFire).0
  }

  ghost function NoticeAt(threshold: int, seen: seq<Seen>, i: nat): Notice
    requires i < |seen|
  {
    Check(After(threshold, None, seen[..i]), threshold, seen[i].now, seen[i].lastSeen, seen[i].storeFire).1
  }

  lemma NoticePrefix(threshold: int, seen: seq<Seen>, n: nat, i: nat)
    requires i < n <= |seen|
    ensures NoticeAt(threshold, seen[..n], i) == NoticeAt(threshold, seen, i)
  {
    assert seen[..n][..i] == seen[..i];
  }

  /** An episode is recorded only by a silence notice after the last notice that the device was back. */
  lemma {:induction false} EpisodeWasAnnounced(threshold: int, seen: seq<Seen>) returns (k: nat)
    requires After(threshold, None, seen).Some?
    ensures k < |seen| && NoticeAt(threshold, seen, k).Silent?
    ensures forall m :: k < m < |seen| ==> !NoticeAt(threshold, seen, m).BackOnline?
  {
    var n := |seen| - 1;
    if NoticeAt(threshold, seen, n).Silent? {
      k := n;
    } else {
      k := EpisodeWasAnnounced(threshold, seen[..n]);
      NoticePrefix(threshold, seen, n, k);
      forall m | k < m < |seen| ensures !NoticeAt(threshold, seen, m).BackOnline? {
        if m < n {
          NoticePrefix(threshold, seen, n, m);
        }
      }
    }
  }

  /** A "back online" notice is never the first notice, and between two of them there is a silence notice. */
  lemma RecoveryAfterSilence(threshold: int, seen: seq<Seen>, i: nat)
    requires i < |seen| && NoticeAt(threshold, seen, i).BackOnline?
    ensures exists k :: 0 <= k < i && NoticeAt(threshold, seen, k).Silent? &&
              forall m :: k < m < i ==> !NoticeAt(threshold, seen, m).BackOnline?
  {
    var k := EpisodeWasAnnounced(threshold, seen[..i]);
    NoticePrefix(threshold, seen, i, k);
    forall m | k < m < i ensures !NoticeAt(threshold, seen, m).BackOnline? {
      NoticePrefix(threshold, seen, i, m);
    }
  }

  // ---------- what a check does ----------

  lemma AfterOne(threshold: int, seen: seq<Seen>, i: nat)
    requires i < |seen|
    ensures var before := After(threshold, None, seen[..i]);
            After(threshold, None, seen[..i + 1]) == Check(before, threshold, seen[i].now, seen[i].lastSeen, seen[i].storeFire).0
  {
    assert seen[..i + 1][..i] == seen[..i];
  }

  /** The first check that finds a silent device logging again says so, and only it; the episode is then over. */
  lemma RecoveryExactlyWhen(threshold: int, seen: seq<Seen>, i: nat)
    requires i < |seen|
    ensures NoticeAt(threshold, seen, i).BackOnline? <==>
            After(threshold, None, seen[..i]).Some? && seen[i].now - seen[i].lastSeen < threshold
    ensures seen[i].now - seen[i].lastSeen < threshold ==> After(threshold, None, seen[..i + 1]).None?
  {
    AfterOne(threshold, seen, i);
    hide After;
  }

  /** A silence notice is sent exactly when the device is silent and the store lets it through, or an open episode has
      got worse than recorded. */
  lemma SilenceExactlyWhen(threshold: int, seen: seq<Seen>, i: nat)
    requires threshold > 0 && Timely(seen) && i < |seen|
    ensures var open, s := After(threshold, None, seen[..i]), seen[i];
            NoticeAt(threshold, seen, i).Silent? <==>
            && s.now - s.lastSeen >= threshold
            && (s.storeFire || (open.Some? && ((s.now - open.value.silentSince >= 2 * threshold && open.value.severity == Warning) ||
                                              (s.now - open.value.silentSince >= 4 * threshold && open.value.severity != Critical))))
  {
    hide After;
  }

  /** An episode opens with the first silence notice, dated from when the device was last seen. */
  lemma OpensExactlyWhen(threshold: int, seen: seq<Seen>, i: nat)
    requires i < |seen| && After(threshold, None, seen[..i]).None?
    ensures var e := After(threshold, None, seen[..i + 1]);
            && (e.Some? <==> seen[i].now - seen[i].lastSeen >= threshold && seen[i].storeFire)
            && (e.Some? ==> e.value.silentSince == seen[i].lastSeen)
  {
    AfterOne(threshold, seen, i);
    hide After;
  }

  // ---------- within an episode ----------

  /** The episode is still open after each check from i to j. */
  ghost predicate SameEpisode(threshold: int, seen: seq<Seen>, i: nat, j: nat) {
    i <= j <= |seen| && forall m :: i <= m <= j ==> After(threshold, None, seen[..m]).Some?
  }

  lemma SeverityGrows(a: int, b: int, threshold: int)
    requires a <= b && threshold > 0
    ensures Rank(SeverityFor(a, threshold)) <= Rank(SeverityFor(b, threshold))
  {
  }

  ghost predicate Computed(threshold: int, e: Episode, now: int) {
    e.severity == SeverityFor(now - e.silentSince, threshold)
  }

  /** Escalation is never missed: after every check the recorded severity is that of the whole silence so far. */
  lemma {:induction false} RecordedSeverity(threshold: int, seen: seq<Seen>)
    requires threshold > 0 && Timely(seen) && seen != [] && After(threshold, None, seen).Some?
    ensures Computed(threshold, After(threshold, None, seen).value, seen[|seen| - 1].now)
    ensures var e := After(threshold, None, seen).value;
            var silence := seen[|seen| - 1].now - e.silentSince;
            && (e.severity == Critical <==> silence >= 4 * threshold)
            && (e.severity == Error <==> 2 * threshold <= silence < 4 * threshold)
            && (e.severity == Warning <==> silence < 2 * threshold)
    decreases |seen|
  {
    var n := |seen| - 1;
    var before := After(threshold, None, seen[..n]);
    if before.Some? && n > 0 {
      RecordedSeverity(threshold, seen[..n]);
      var e := before.value;
      assert seen[n - 1].now <= seen[n].now;
      SeverityGrows(seen[n - 1].now - e.silentSince, seen[n].now - e.silentSince, threshold);
    }
  }

  /** One check inside an episode. */
  lemma CheckInEpisode(e: Episode, threshold: int, earlier: int, now: int, lastSeen: int, storeFire: bool)
    requires threshold > 0 && earlier <= now && Computed(threshold, e, earlier)
    requires Check(Some(e), threshold, now, lastSeen, storeFire).0.Some?
    ensures var (after, notice) := Check(Some(e), threshold, now, lastSeen, storeFire);
            && after.value.silentSince == e.silentSince
            && Rank(after.value.severity) >= Rank(e.severity) + if notice.Silent? && notice.bypass then 1 else 0
  {
    SeverityGrows(earlier - e.silentSince, now - e.silentSince, threshold);
  }

  /** The same for the check that follows the first n checks of a run. */
  lemma NextInEpisode(threshold: int, seen: seq<Seen>, n: nat)
    requires threshold > 0 && Timely(seen) && 0 < n < |seen|
    requires After(threshold, None, seen[..n]).Some? && After(threshold, None, seen[..n + 1]).Some?
    ensures var a, b := After(threshold, None, seen[..n]).value, After(threshold, None, seen[..n + 1]).value;
            a.silentSince == b.silentSince && Rank(b.severity) >= Rank(a.severity) + if Bypasses(threshold, seen, n) then 1 else 0
  {
    hide Check, Rank, Computed;
    var before, upto := seen[..n], seen[..n + 1];
    assert upto[..n] == before;
    RecordedSeverity(threshold, before);
    CheckInEpisode(After(threshold, None, before).value, threshold, seen[n - 1].now, seen[n].now, seen[n].lastSeen, seen[n].storeFire);
  }

  /** Within an episode silent_since stays and the recorded severity never falls. */
  lemma {:induction false} EpisodeSteady(threshold: int, seen: seq<Seen>, i: nat, j: nat)
    requires threshold > 0 && Timely(seen) && SameEpisode(threshold, seen, i, j)
    ensures var a, b := After(threshold, None, seen[..i]).value, After(threshold, None, seen[..j]).value;
            a.silentSince == b.silentSince && Rank(a.severity) <= Rank(b.severity)
    decreases j - i
  {
    hide Check, Rank;
    if i < j {
      EpisodeSteady(threshold, seen, i, j - 1);
      NextInEpisode(threshold, seen, j - 1);
    }
  }

  ghost predicate Bypasses(threshold: int, seen: seq<Seen>, m: nat)
    requires m < |seen|
  {
    NoticeAt(threshold, seen, m).Silent? && NoticeAt(threshold, seen, m).bypass
  }

  /** How many of the checks i..j-1 sent a notice inside the cooldown. */
  ghost function BypassCount(threshold: int, seen: seq<Seen>, i: nat, j: nat): nat
    requires i <= j <= |seen|
    decreases j - i
  {
    if i == j then 0 else BypassCount(threshold, seen, i, j - 1) + (if Bypasses(threshold, seen, j - 1) then 1 else 0)
  }

  /** A notice inside the cooldown raises the recorded severity, so an episode has at most two. */
  lemma {:induction false} BypassRaises(threshold: int, seen: seq<Seen>, i: nat, j: nat)
    requires threshold > 0 && Timely(seen) && SameEpisode(threshold, seen, i, j)
    ensures var a, b := After(threshold, None, seen[..i]).value, After(threshold, None, seen[..j]).value;
            BypassCount(threshold, seen, i, j) <= Rank(b.severity) - Rank(a.severity)
    decreases j - i
  {
    hide Check, Rank;
    if i < j {
      BypassRaises(threshold, seen, i, j - 1);
      NextInEpisode(threshold, seen, j - 1);
    }
  }

  /** Starting from the check that opened it, at most two notices of an episode bypass the cooldown. */
  lemma AtMostTwoBypasses(threshold: int, seen: seq<Seen>, i: nat, j: nat)
    requires threshold > 0 && Timely(seen) && 0 < i && SameEpisode(threshold, seen, i, j)
    requires After(threshold, None, seen[..i - 1]).None?
    ensures BypassCount(threshold, seen, i - 1, j) <= 2
  {
    BypassRaises(threshold, seen, i, j);
    CountSplits(threshold, seen, i - 1, i, j);
    assert seen[..i][..i - 1] == seen[..i - 1];
    assert !Bypasses(threshold, seen, i - 1);
  }

  lemma {:induction false} CountSplits(threshold: int, seen: seq<Seen>, i: nat, k: nat, j: nat)
    requires i <= k <= j <= |seen|
    ensures BypassCount(threshold, seen, i, j) == BypassCount(threshold, seen, i, k) + BypassCount(threshold, seen, k, j)
    decreases j - k
  {
    if k < j {
      CountSplits(threshold, seen, i, k, j - 1);
    }
  }

  // ---------- the counter store behind the checks ----------

  datatype Store = InMemory | Shared

  /** What `shouldFire` is called with: one event, a threshold of one and a window of a minute. */
  function StoreRule(cooldown: int): AlertCounters.Rule {
    AlertCounters.Rule(1, 60, cooldown)
  }

  ghost predicate IsSilent(threshold: int, s: Seen) {
    s.now - s.lastSeen >= threshold
  }

  /** The store is asked at every check, of the first n, that finds the device silent. */
  ghost function Calls(threshold: int, seen: seq<Seen>, n: nat): seq<AlertCounters.Call>
    requires n <= |seen|
  {
    if n == 0 then []
    else Calls(threshold, seen, n - 1) + if IsSilent(threshold, seen[n - 1]) then [AlertCounters.Call(seen[n - 1].now, 1)] else []
  }

  ghost predicate Fires(store: Store, cooldown: int, calls: seq<AlertCounters.Call>, c: nat)
    requires c < |calls|
  {
    if store == Shared then AlertCounters.RedisFires(StoreRule(cooldown), calls, c)
    else AlertCounters.LocalFires(StoreRule(cooldown), calls, c)
  }

  /** The answer the store gives at check i. */
  ghost predicate StoreFires(store: Store, cooldown: int, threshold: int, seen: seq<Seen>, i: nat)
    requires i < |seen|
  {
    var calls := Calls(threshold, seen, i + 1);
    calls != [] && Fires(store, cooldown, calls, |calls| - 1)
  }

  /** The answers the checks see are the store's. */
  ghost predicate FromStore(store: Store, cooldown: int, threshold: int, seen: seq<Seen>) {
    forall i :: 0 <= i < |seen| && IsSilent(threshold, seen[i]) ==> seen[i].storeFire == StoreFires(store, cooldown, threshold, seen, i)
  }

  lemma LastCall(threshold: int, seen: seq<Seen>, i: nat)
    requires i < |seen| && IsSilent(threshold, seen[i])
    ensures Calls(threshold, seen, i + 1) == Calls(threshold, seen, i) + [AlertCounters.Call(seen[i].now, 1)]
  {
  }

  /** Earlier calls are a prefix of the later ones. */
  lemma {:induction false} CallsPrefix(threshold: int, seen: seq<Seen>, m: nat, n: nat)
    requires m <= n <= |seen|
    ensures Calls(threshold, seen, m) <= Calls(threshold, seen, n)
    decreases n
  {
    if m < n {
      CallsPrefix(threshold, seen, m, n - 1);
    }
  }

  lemma AppendTimely(calls: seq<AlertCounters.Call>, at: int)
    requires AlertCounters.Timely(calls) && forall c :: 0 <= c < |calls| ==> calls[c].at <= at
    ensures AlertCounters.Timely(calls + [AlertCounters.Call(at, 1)])
  {
  }

  lemma {:induction false} CallsTimely(threshold: int, seen: seq<Seen>, n: nat)
    requires Timely(seen) && n <= |seen|
    ensures AlertCounters.Timely(Calls(threshold, seen, n))
    ensures n > 0 ==> forall c :: 0 <= c < |Calls(threshold, seen, n)| ==> Calls(threshold, seen, n)[c].at <= seen[n - 1].now
  {
    if n > 0 {
      CallsTimely(threshold, seen, n - 1);
      var before := Calls(threshold, seen, n - 1);
      assert n > 1 ==> seen[n - 2].now <= seen[n - 1].now;
      assert forall c :: 0 <= c < |before| ==> before[c].at <= seen[n - 1].now;
      AppendTimely(before, seen[n - 1].now);
      hide AlertCounters.Timely, Timely, IsSilent;
    }
  }

  /** The check that made a call. */
  lemma {:induction false} CheckOfCall(threshold: int, seen: seq<Seen>, n: nat, c: nat) returns (i: nat)
    requires n <= |seen| && c < |Calls(threshold, seen, n)|
    ensures i < n && IsSilent(threshold, seen[i]) && Calls(threshold, seen, n)[c].at == seen[i].now
    ensures Calls(threshold, seen, i + 1) == Calls(threshold, seen, n)[..c + 1]
  {
    hide IsSilent;
    var before, calls := Calls(threshold, seen, n - 1), Calls(threshold, seen, n);
    if c < |before| {
      i := CheckOfCall(threshold, seen, n - 1, c);
      assert calls[..c + 1] == before[..c + 1];
    } else {
      i := n - 1;
      assert calls[..c + 1] == calls;
    }
  }

  lemma FiresPrefix(store: Store, cooldown: int, calls: seq<AlertCounters.Call>, n: nat, c: nat)
    requires c < n <= |calls|
    ensures Fires(store, cooldown, calls[..n], c) == Fires(store, cooldown, calls, c)
  {
    AlertCounters.FiresPrefix(StoreRule(cooldown), calls, n, c);
  }

  lemma Withheld(store: Store, cooldown: int, calls: seq<AlertCounters.Call>, c: nat) returns (k: nat)
    requires AlertCounters.Timely(calls) && c < |calls| && !Fires(store, cooldown, calls, c) && cooldown > 0
    ensures k < c && Fires(store, cooldown, calls, k) && calls[c].at < calls[k].at + cooldown
  {
    if store == Shared {
      k := AlertCounters.RedisWithheld(StoreRule(cooldown), calls, c);
    } else {
      k := AlertCounters.LocalWithheld(StoreRule(cooldown), calls, c);
    }
  }

  /** A silence notice the store let through. */
  ghost predicate Plain(threshold: int, seen: seq<Seen>, i: nat)
    requires i < |seen|
  {
    NoticeAt(threshold, seen, i).Silent? && !NoticeAt(threshold, seen, i).bypass
  }

  lemma PlainWhenFired(threshold: int, seen: seq<Seen>, i: nat)
    requires i < |seen| && IsSilent(threshold, seen[i])
    ensures Plain(threshold, seen, i) <==> seen[i].storeFire
  {
  }

  /** With either store, a notice that bypasses comes within the cooldown of an earlier notice that did not. */
  lemma BypassInsideCooldown(store: Store, cooldown: int, threshold: int, seen: seq<Seen>, i: nat)
    requires Timely(seen) && FromStore(store, cooldown, threshold, seen) && cooldown > 0
    requires i < |seen| && Bypasses(threshold, seen, i)
    ensures exists k :: 0 <= k < i && Plain(threshold, seen, k) && seen[i].now < seen[k].now + cooldown
  {
    assert IsSilent(threshold, seen[i]) && !seen[i].storeFire;
    hide StoreFires, NoticeAt, Timely;
    var k := WithheldAfter(store, cooldown, threshold, seen, i);
    PlainWhenFired(threshold, seen, k);
  }

  lemma WithheldAfter(store: Store, cooldown: int, threshold: int, seen: seq<Seen>, i: nat) returns (k: nat)
    requires Timely(seen) && i < |seen| && IsSilent(threshold, seen[i]) && cooldown > 0
    requires !StoreFires(store, cooldown, threshold, seen, i)
    ensures k < i && IsSilent(threshold, seen[k]) && StoreFires(store, cooldown, threshold, seen, k)
    ensures seen[i].now < seen[k].now + cooldown
  {
    hide Fires, AlertCounters.Timely, Calls, Timely, IsSilent;
    var calls, before := Calls(threshold, seen, i + 1), Calls(threshold, seen, i);
    CallsTimely(threshold, seen, i + 1);
    LastCall(threshold, seen, i);
    var c := Withheld(store, cooldown, calls, |calls| - 1);
    assert before == calls[..|before|];
    k := CheckOfCall(threshold, seen, i, c);
    assert before[..c + 1] == calls[..c + 1];
    FiresPrefix(store, cooldown, calls, c + 1, c);
  }

  /** With the shared store, notices that do not bypass are at least the cooldown apart. */
  lemma SharedNoticesApart(cooldown: int, threshold: int, seen: seq<Seen>, k: nat, i: nat)
    requires Timely(seen) && FromStore(Shared, cooldown, threshold, seen)
    requires k < i < |seen| && Plain(threshold, seen, k) && Plain(threshold, seen, i)
    ensures seen[k].now + cooldown <= seen[i].now
  {
    PlainWhenFired(threshold, seen, k);
    PlainWhenFired(threshold, seen, i);
    hide NoticeAt, StoreFires;
    SharedFiresApart(cooldown, threshold, seen, k, i);
  }

  lemma SharedFiresApart(cooldown: int, threshold: int, seen: seq<Seen>, k: nat, i: nat)
    requires Timely(seen) && k < i < |seen| && IsSilent(threshold, seen[k]) && IsSilent(threshold, seen[i])
    requires StoreFires(Shared, cooldown, threshold, seen, k) && StoreFires(Shared, cooldown, threshold, seen, i)
    ensures seen[k].now + cooldown <= seen[i].now
  {
    hide AlertCounters.RedisFires, AlertCounters.LocalFires, AlertCounters.Timely, Calls, Timely, IsSilent;
    CallsTimely(threshold, seen, i + 1);
    CallsPrefix(threshold, seen, k + 1, i);
    LastCall(threshold, seen, i);
    LastCall(threshold, seen, k);
    var calls, earlier := Calls(threshold, seen, i + 1), Calls(threshold, seen, k + 1);
    var c := |earlier| - 1;
    assert earlier == calls[..c + 1];
    FiresPrefix(Shared, cooldown, calls, c + 1, c);
    AlertCounters.RedisFiresApart(StoreRule(cooldown), calls, c, |calls| - 1);
  }

  /** With the in-memory store and checks more than its one-minute window apart, as with the usual five minutes,
      the cooldown has no effect: every check that finds the device silent sends a notice. */
  lemma InMemoryRepeats(cooldown: int, threshold: int, seen: seq<Seen>, i: nat)
    requires FromStore(InMemory, cooldown, threshold, seen) && i < |seen| && IsSilent(threshold, seen[i])
    requires forall a, b :: 0 <= a < b < |seen| ==> seen[a].now + 60 < seen[b].now
    ensures Plain(threshold, seen, i)
  {
    var calls := Calls(threshold, seen, i + 1);
    CallsTimely(threshold, seen, i + 1);
    LastCall(threshold, seen, i);
    var c := |calls| - 1;
    if c > 0 {
      var k := CheckOfCall(threshold, seen, i, c - 1);
      assert seen[k].now + 60 < seen[i].now;
    }
    AlertCounters.LocalFiresWhenApart(StoreRule(cooldown), calls, c);
    PlainWhenFired(threshold, seen, i);
  }
}
