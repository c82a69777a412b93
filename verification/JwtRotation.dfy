/** Signing-key rotation of access tokens: a rotation keeps the previous HMAC secret as a secondary key
    until a timer clears it after the grace period. Signatures are ideal: a token verifies under the key
    that signed it and no other. Times are in seconds. */
module JwtRotation {
  import opened Wrappers

  type Key = string

  datatype Alg = HS256 | RS256

  datatype Token = Token(alg: Alg, key: Key, exp: int)

  datatype Keys = Keys(primary: Key, secondary: Option<Key>, rsa: Option<Key>, rsaSecondary: Option<Key>)

  /** RS256 when an RSA key is configured, else HS256 under the primary secret. */
  function Mint(k: Keys, now: int, lifetime: nat): Token {
    if k.rsa.Some? then Token(RS256, k.rsa.value, now + lifetime) else Token(HS256, k.primary, now + lifetime)
  }

  /** `validateJWT`: the key is picked by the token's algorithm; a missing key rejects. */
  predicate AcceptedBy(t: Token, pub: Option<Key>, secret: Option<Key>, now: int) {
    now < t.exp && match t.alg case RS256 => pub == Some(t.key) case HS256 => secret == Some(t.key)
  }

  /** `ValidateToken`: the current keys, then the previous ones if there are any. */
  predicate Validates(k: Keys, t: Token, now: int) {
    || AcceptedBy(t, k.rsa, Some(k.primary), now)
    || ((k.rsaSecondary.Some? || k.secondary.Some?) && AcceptedBy(t, k.rsaSecondary, k.secondary, now))
  }

  function Rotated(k: Keys, secret: Key): Keys {
    k.(secondary := Some(k.primary), primary := secret)
  }

  function SecondaryCleared(k: Keys): Keys {
    k.(secondary := None)
  }

  class Config {
    var primary: Key
    var secondary: Option<Key>
    const rsa: Option<Key>
    const rsaSecondary: Option<Key>

    ghost function View(): Keys
      reads this
    {
      Keys(primary, secondary, rsa, rsaSecondary)
    }

    method GenerateToken(now: int, lifetime: nat) returns (t: Token)
      ensures t == Mint(View(), now, lifetime)
      ensures t.exp == now + lifetime
      ensures if rsa.Some? then t.alg == RS256 && t.key == rsa.value else t.alg == HS256 && t.key == primary
    {
      if rsa.Some? {
        t := Token(RS256, rsa.value, now + lifetime);
      } else {
        t := Token(HS256, primary, now + lifetime);
      }
    }

    method ValidateToken(t: Token, now: int) returns (ok: bool)
      ensures ok == Validates(View(), t, now)
      ensures t.alg == HS256 ==> (ok <==> now < t.exp && (t.key == primary || secondary == Some(t.key)))
      ensures t.alg == RS256 ==> (ok <==> now < t.exp && (rsa == Some(t.key) || rsaSecondary == Some(t.key)))
    {
      if AcceptedBy(t, rsa, Some(primary), now) {
        return true;
      }
      if rsaSecondary.Some? || secondary.Some? {
        if AcceptedBy(t, rsaSecondary, secondary, now) {
          return true;
        }
      }
      return false;
    }

    method RotateSecret(secret: Key)
      modifies this
      ensures View() == Rotated(old(View()), secret)
      ensures primary == secret && secondary == Some(old(primary))
    {
      secondary := Some(primary);
      primary := secret;
    }

    method ClearSecondarySecret()
      modifies this
      ensures View() == SecondaryCleared(old(View()))
      ensures primary == old(primary) && secondary == None
    {
      secondary := None;
    }
  }

  // ---------- the grace period and the token lifetime ----------

  const DEFAULT_MINUTES := 15

  predicate Positive(minutes: Option<int>) {
    minutes.Some? && minutes.value > 0
  }

  /** `rotationGracePeriod`, in minutes: twice the trimmed SESSION_TIMEOUT_MIN, between 30 and 60. */
  function GraceMinutes(trimmed: Option<int>): int {
    var d := 2 * if Positive(trimmed) then trimmed.value else DEFAULT_MINUTES;
    if d < 30 then 30 else if d > 60 then 60 else d
  }

  /** `getJWTExpiryMin`: SESSION_TIMEOUT_MIN as it is written, else the database setting, else 15. */
  function LifetimeMinutes(raw: Option<int>, setting: Option<int>): int {
    if Positive(raw) then raw.value else if Positive(setting) then setting.value else DEFAULT_MINUTES
  }

  /** The grace period outlives the tokens of the old key exactly when SESSION_TIMEOUT_MIN, if it reads as written,
      is at most 60; otherwise the database setting decides the lifetime, and it must be at most 30, or within
      twice the value that reads once spaces are trimmed and at most 60. */
  lemma GraceCoversLifetime(raw: Option<int>, trimmed: Option<int>, setting: Option<int>)
    requires raw.Some? ==> trimmed == raw
    ensures GraceMinutes(trimmed) >= LifetimeMinutes(raw, setting) <==>
            if Positive(raw) then raw.value <= 60
            else Positive(setting) ==> setting.value <= 30 || (Positive(trimmed) && setting.value <= 60 && setting.value <= 2 * trimmed.value)
  {
  }

  /** Without a setting tokens live 15 minutes and the grace period is 30; from 15 to 30 minutes it is twice the timeout. */
  lemma Defaults(minutes: int)
    ensures LifetimeMinutes(None, None) == 15 && GraceMinutes(None) == 30
    ensures 15 <= minutes <= 30 ==> GraceMinutes(Some(minutes)) == 2 * minutes
    ensures minutes > 0 ==> LifetimeMinutes(Some(minutes), None) == LifetimeMinutes(None, Some(minutes)) == minutes
  {
  }

  // ---------- runs of rotations and clears ----------

  /** `clears` holds the times at which pending clears become due. */
  datatype System = System(keys: Keys, now: int, clears: seq<int>, minted: set<Token>)

  datatype Step = Tick(to: int) | Issue | Rotate(secret: Key) | Clear(timer: nat)

  predicate Enabled(s: System, e: Step) {
    match e
    case Tick(to) => s.now <= to
    case Clear(timer) => timer < |s.clears| && s.clears[timer] <= s.now
    case _ => true
  }

  function Next(s: System, e: Step, grace: nat, lifetime: nat): System
    requires Enabled(s, e)
  {
    match e
    case Tick(to) => s.(now := to)
    case Issue => s.(minted := s.minted + {Mint(s.keys, s.now, lifetime)})
    case Rotate(secret) => s.(keys := Rotated(s.keys, secret), clears := s.clears + [s.now + grace])
    case Clear(timer) =>
      s.(keys := SecondaryCleared(s.keys), clears := s.clears[..timer] + s.clears[timer + 1..])
  }

  ghost predicate IsRun(s: System, steps: seq<Step>, grace: nat, lifetime: nat)
    decreases |steps|
  {
    steps != [] ==> Enabled(s, steps[0]) && IsRun(Next(s, steps[0], grace, lifetime), steps[1..], grace, lifetime)
  }

  ghost function Final(s: System, steps: seq<Step>, grace: nat, lifetime: nat): System
    requires IsRun(s, steps, grace, lifetime)
    decreases |steps|
  {
    if steps == [] then s else Final(Next(s, steps[0], grace, lifetime), steps[1..], grace, lifetime)
  }

  // ---------- which tokens validate, in any run at all ----------

  /** Every rotation brings a secret that was not in use since the start. */
  ghost predicate NewSecrets(used: set<Key>, steps: seq<Step>)
    decreases |steps|
  {
    steps != [] ==>
      if steps[0].Rotate? then steps[0].secret !in used && NewSecrets(used + {steps[0].secret}, steps[1..])
      else NewSecrets(used, steps[1..])
  }

  ghost predicate NoRotation(steps: seq<Step>) {
    forall i :: 0 <= i < |steps| ==> !steps[i].Rotate?
  }

  ghost predicate NoClear(steps: seq<Step>) {
    forall i :: 0 <= i < |steps| ==> !steps[i].Clear?
  }

  /** There was no rotation, or exactly one and no clear after it. */
  ghost predicate Survives(steps: seq<Step>) {
    NoRotation(steps) || exists i :: 0 <= i < |steps| && OnlyRotation(steps, i)
  }

  ghost predicate OnlyRotation(steps: seq<Step>, i: int)
    requires 0 <= i < |steps|
  {
    steps[i].Rotate? && NoRotation(steps[..i]) && NoRotation(steps[i + 1..]) && NoClear(steps[i + 1..])
  }

  lemma NoneLater(s: Step, rest: seq<Step>)
    ensures NoRotation([s] + rest) <==> !s.Rotate? && NoRotation(rest)
    ensures NoClear([s] + rest) <==> !s.Clear? && NoClear(rest)
  {
    var steps := [s] + rest;
    assert steps[0] == s && forall i :: 0 <= i < |rest| ==> steps[i + 1] == rest[i];
  }

  lemma SurvivesFirst(s: Step, rest: seq<Step>)
    ensures Survives([s] + rest) <==> if s.Rotate? then NoRotation(rest) && NoClear(rest) else Survives(rest)
  {
    var steps := [s] + rest;
    NoneLater(s, rest);
    assert steps[..0] == [] && steps[1..] == rest;
    if s.Rotate? {
      forall i | 0 < i < |steps| ensures !NoRotation(steps[..i]) {
        assert steps[..i][0] == s;
      }
      assert OnlyRotation(steps, 0) <==> NoRotation(rest) && NoClear(rest);
    } else {
      forall i | 0 <= i < |rest| ensures OnlyRotation(steps, i + 1) <==> OnlyRotation(rest, i) {
        assert rest[i] == steps[i + 1] && steps[i + 2..] == rest[i + 1..] && steps[..i + 1] == [s] + rest[..i];
        NoneLater(s, rest[..i]);
      }
      if i :| 0 <= i < |rest| && OnlyRotation(rest, i) {
        assert OnlyRotation(steps, i + 1);
      }
      if i :| 0 < i < |steps| && OnlyRotation(steps, i) {
        assert OnlyRotation(rest, i - 1);
      }
    }
  }

  predicate UnderSecret(k: Keys, key: Key) {
    k.primary == key || k.secondary == Some(key)
  }

  /** A key that is the secondary one goes with the next rotation or clear; one that is gone stays away. */
  lemma {:induction false} SecondaryGoes(s: System, steps: seq<Step>, grace: nat, lifetime: nat, key: Key, used: set<Key>)
    requires IsRun(s, steps, grace, lifetime) && s.keys.primary != key && key in used && NewSecrets(used, steps)
    ensures UnderSecret(Final(s, steps, grace, lifetime).keys, key) <==>
            s.keys.secondary == Some(key) && NoRotation(steps) && NoClear(steps)
    decreases |steps|
  {
    if steps != [] {
      var e, rest := steps[0], steps[1..];
      assert steps == [e] + rest;
      NoneLater(e, rest);
      hide NoRotation, NoClear;
      SecondaryGoes(Next(s, e, grace, lifetime), rest, grace, lifetime, key, if e.Rotate? then used + {e.secret} else used);
    }
  }

  lemma {:induction false} PrimarySurvives(s: System, steps: seq<Step>, grace: nat, lifetime: nat, used: set<Key>)
    requires IsRun(s, steps, grace, lifetime) && s.keys.primary in used && NewSecrets(used, steps)
    ensures UnderSecret(Final(s, steps, grace, lifetime).keys, s.keys.primary) <==> Survives(steps)
    decreases |steps|
  {
    if steps != [] {
      var e, rest := steps[0], steps[1..];
      assert steps == [e] + rest;
      SurvivesFirst(e, rest);
      hide Survives;
      var u := Next(s, e, grace, lifetime);
      if e.Rotate? {
        SecondaryGoes(u, rest, grace, lifetime, s.keys.primary, used + {e.secret});
      } else {
        PrimarySurvives(u, rest, grace, lifetime, used);
      }
    }
  }

  lemma {:induction false} RsaStays(s: System, steps: seq<Step>, grace: nat, lifetime: nat)
    requires IsRun(s, steps, grace, lifetime)
    ensures var u := Final(s, steps, grace, lifetime);
            u.keys.rsa == s.keys.rsa && u.keys.rsaSecondary == s.keys.rsaSecondary
    decreases |steps|
  {
    if steps != [] {
      RsaStays(Next(s, steps[0], grace, lifetime), steps[1..], grace, lifetime);
    }
  }

  /** In every run, however rotations and clears fall: a token minted at its start validates at its end exactly when
      it is unexpired and either an RSA key signed it, or no rotation happened since, or exactly one did and no
      clear fired after it. */
  lemma ValidatesExactlyWhen(s: System, steps: seq<Step>, grace: nat, lifetime: nat)
    requires IsRun(s, steps, grace, lifetime) && NewSecrets({s.keys.primary}, steps)
    ensures var t, u := Mint(s.keys, s.now, lifetime), Final(s, steps, grace, lifetime);
            Validates(u.keys, t, u.now) <==> u.now < t.exp && (s.keys.rsa.Some? || Survives(steps))
  {
    hide Survives, IsRun, Final, NewSecrets;
    PrimarySurvives(s, steps, grace, lifetime, {s.keys.primary});
    RsaStays(s, steps, grace, lifetime);
  }

  /** A second rotation refuses the tokens of the secret before last at once, and the pending clear of an earlier
      rotation removes the newer previous secret: both refuse tokens that have not expired. */
  lemma EarlyRotationRefuses(k0: Key, k1: Key, k2: Key, grace: nat)
    requires k0 != k1 && k1 != k2 && k0 != k2 && grace > 0
    ensures var start := System(Keys(k0, None, None, None), 0, [], {});
            var t := Mint(start.keys, 0, grace);
            !Validates(Next(Next(start, Rotate(k1), grace, grace), Rotate(k2), grace, grace).keys, t, 0) && 0 < t.exp
    ensures var rotated := System(Keys(k1, Some(k0), None, None), 1, [grace], {});
            var t := Mint(rotated.keys, 1, grace);
            var cleared := Next(Next(Next(rotated, Rotate(k2), grace, grace), Tick(grace), grace, grace), Clear(0), grace, grace);
            !Validates(cleared.keys, t, cleared.now) && cleared.now < t.exp
  {
  }

  // ---------- rotations far enough apart ----------

  /** Clears fire at most `delay` after they are due, and a rotation comes more than the grace period and that delay
      after the one before (`last`). */
  ghost predicate Spaced(s: System, steps: seq<Step>, grace: nat, lifetime: nat, delay: nat, last: Option<int>)
    decreases |steps|
  {
    steps != [] ==>
      var e := steps[0];
      && Enabled(s, e)
      && (e.Tick? ==> forall i :: 0 <= i < |s.clears| ==> e.to <= s.clears[i] + delay)
      && (e.Rotate? && last.Some? ==> s.now > last.value + grace + delay)
      && Spaced(Next(s, e, grace, lifetime), steps[1..], grace, lifetime, delay, if e.Rotate? then Some(s.now) else last)
  }

  lemma {:induction false} SpacedIsRun(s: System, steps: seq<Step>, grace: nat, lifetime: nat, delay: nat, last: Option<int>)
    requires Spaced(s, steps, grace, lifetime, delay, last)
    ensures IsRun(s, steps, grace, lifetime)
    decreases |steps|
  {
    if steps != [] {
      SpacedIsRun(Next(s, steps[0], grace, lifetime), steps[1..], grace, lifetime, delay, if steps[0].Rotate? then Some(s.now) else last);
    }
  }

  /** At most the last rotation's clear is pending, and not for longer than the delay. */
  ghost predicate Punctual(s: System, grace: nat, delay: nat, last: Option<int>) {
    |s.clears| <= 1 && (s.clears != [] ==> last.Some? && s.clears[0] == last.value + grace && s.now <= s.clears[0] + delay)
  }

  ghost predicate Good(s: System, t: Token, lifetime: nat) {
    && t.exp <= s.now + lifetime
    && (s.now < t.exp ==>
          match t.alg
          case RS256 => s.keys.rsa == Some(t.key)
          case HS256 => t.key == s.keys.primary || (s.keys.secondary == Some(t.key) && |s.clears| == 1 && t.exp <= s.clears[0]))
  }

  ghost predicate Sound(s: System, lifetime: nat) {
    forall t :: t in s.minted ==> Good(s, t, lifetime)
  }

  lemma StepKeepsSound(s: System, e: Step, grace: nat, lifetime: nat)
    requires Sound(s, lifetime) && Enabled(s, e) && |s.clears| <= 1 && (e.Rotate? ==> s.clears == []) && lifetime <= grace
    ensures Sound(Next(s, e, grace, lifetime), lifetime)
  {
    var u := Next(s, e, grace, lifetime);
    forall t | t in u.minted ensures Good(u, t, lifetime) {
      if t in s.minted {
        assert Good(s, t, lifetime);
      }
    }
  }

  lemma {:induction false} SpacedKeepsSound(s: System, steps: seq<Step>, grace: nat, lifetime: nat, delay: nat, last: Option<int>)
    requires Sound(s, lifetime) && Punctual(s, grace, delay, last) && Spaced(s, steps, grace, lifetime, delay, last) && lifetime <= grace
    ensures IsRun(s, steps, grace, lifetime) && Sound(Final(s, steps, grace, lifetime), lifetime)
    decreases |steps|
  {
    SpacedIsRun(s, steps, grace, lifetime, delay, last);
    if steps != [] {
      var e := steps[0];
      assert e.Rotate? ==> s.clears == [];
      StepKeepsSound(s, e, grace, lifetime);
      hide Sound;
      SpacedKeepsSound(Next(s, e, grace, lifetime), steps[1..], grace, lifetime, delay, if e.Rotate? then Some(s.now) else last);
    }
  }

  /** Throughout any run whose rotations are more than the grace period and the delay of clears apart, every unexpired
      token validates, as long as the token lifetime is at most the grace period. */
  lemma UnexpiredTokensValidate(keys: Keys, now: int, steps: seq<Step>, grace: nat, lifetime: nat, delay: nat, t: Token)
    requires Spaced(System(keys, now, [], {}), steps, grace, lifetime, delay, None) && lifetime <= grace
    ensures var start := System(keys, now, [], {});
            && IsRun(start, steps, grace, lifetime)
            && var s := Final(start, steps, grace, lifetime);
            t in s.minted && s.now < t.exp ==> Validates(s.keys, t, s.now)
  {
    hide Final, IsRun, Spaced;
    var start := System(keys, now, [], {});
    SpacedKeepsSound(start, steps, grace, lifetime, delay, None);
    var s := Final(start, steps, grace, lifetime);
    if t in s.minted {
      assert Good(s, t, lifetime);
    }
  }
}
