/** Keeping partitions of `syslog_logs` ready ahead of time (`createPartitions`,
    `activePartitionGranularity`) while retention drops old ones. */
module Partitions {
  import opened Wrappers
  import opened Calendar
  import opened PartitionNames

  /** The range partitions Postgres has, by name. */
  type Catalog = map<string, Range>

  predicate Overlap(a: Range, b: Range) {
    a.start < b.end && b.start < a.end
  }

  predicate Holds(r: Range, t: int) {
    r.start <= t < r.end
  }

  /** Every partition has the range its name says. */
  ghost predicate Aligned(cat: Catalog) {
    forall name :: name in cat ==> ParsePartitionBounds(name) == Some(cat[name])
  }

  ghost predicate Disjoint(cat: Catalog) {
    forall a, b :: a in cat && b in cat && a != b ==> !Overlap(cat[a], cat[b])
  }

  ghost predicate CoveredAt(cat: Catalog, t: int) {
    exists name :: name in cat && Holds(cat[name], t)
  }

  ghost predicate CoveredOnce(cat: Catalog, t: int) {
    exists name :: name in cat && Holds(cat[name], t) && forall other :: other in cat && Holds(cat[other], t) ==> other == name
  }

  lemma DisjointCoversOnce(cat: Catalog, t: int)
    requires Disjoint(cat) && CoveredAt(cat, t)
    ensures CoveredOnce(cat, t)
  {
    var name :| name in cat && Holds(cat[name], t);
    forall other | other in cat && Holds(cat[other], t) ensures other == name {
      if other != name {
        assert Overlap(cat[other], cat[name]);
      }
    }
  }

  // ---------- CREATE TABLE IF NOT EXISTS .. PARTITION OF ----------

  /** An existing name is left alone; an overlapping range or any other failure creates nothing. */
  function Create(cat: Catalog, name: string, range: Range, failing: set<string>): Catalog {
    if name in cat || name in failing || exists other :: other in cat && Overlap(cat[other], range) then cat
    else cat[name := range]
  }

  function CreatePeriod(cat: Catalog, g: Granularity, k: int, failing: set<string>): Catalog {
    Create(cat, PeriodName(g, k), PeriodRange(g, k), failing)
  }

  /** Periods k, k+1, .. k+n-1, one after another. */
  function CreatePeriods(cat: Catalog, g: Granularity, k: int, n: nat, failing: set<string>): Catalog {
    if n == 0 then cat else CreatePeriod(CreatePeriods(cat, g, k, n - 1, failing), g, k + n - 1, failing)
  }

  // ---------- the granularity in use ----------

  predicate IsGranularity(name: string, g: Granularity) {
    var p := ParsePartition(name);
    p.Some? && p.value.0 == g
  }

  ghost predicate NowIn(cat: Catalog, now: int, g: Granularity) {
    exists name :: name in cat && IsGranularity(name, g) && Holds(cat[name], now)
  }

  /** The granularity of the partition that holds `now`, else the configured one. */
  ghost function Active(cat: Catalog, now: int, configured: Granularity): Granularity {
    if NowIn(cat, now, Day) then Day else if NowIn(cat, now, Month) then Month else configured
  }

  method ActivePartitionGranularity(cat: Catalog, now: int, configured: Granularity) returns (g: Granularity)
    requires Aligned(cat) && Disjoint(cat)
    ensures g == Active(cat, now, configured)
  {
    hide ParsePartition;
    var todo := cat.Keys;
    while todo != {}
      invariant todo <= cat.Keys
      invariant forall name :: name in cat && name !in todo ==> !Holds(cat[name], now)
      decreases todo
    {
      var name :| name in todo;
      todo := todo - {name};
      var p := ParsePartition(name);
      if p.Some? && Holds(p.value.1, now) {
        assert cat[name] == p.value.1;
        DisjointCoversOnce(cat, now);
        return p.value.0;
      }
    }
    g := configured;
  }

  /** What one maintenance run leaves. */
  ghost function AfterRun(cat: Catalog, now: int, configured: Granularity, failing: set<string>): Catalog {
    var g := Active(cat, now, configured);
    CreatePeriods(cat, g, PeriodOf(g, now), AheadCount(g) + 1, failing)
  }

  /** The loop over the current period and the ones ahead. */
  method CreateAhead(cat0: Catalog, g: Granularity, now: int, failing: set<string>) returns (cat: Catalog)
    ensures cat == CreatePeriods(cat0, g, PeriodOf(g, now), AheadCount(g) + 1, failing)
  {
    hide Truncate, PeriodStart, PeriodOf, PartitionName, Next, Previous, Create;
    ghost var k := PeriodOf(g, now);
    PeriodContains(g, now);
    var partStart := Truncate(g, now);
    cat := cat0;
    for i := 0 to AheadCount(g) + 1
      invariant partStart == PeriodStart(g, k + i)
      invariant cat == CreatePeriods(cat0, g, k, i, failing)
    {
      NextPeriod(g, k + i);
      var partEnd := Next(g, partStart);
      cat := Create(cat, PartitionName(g, partStart), Range(partStart, partEnd), failing);
      assert cat == CreatePeriod(CreatePeriods(cat0, g, k, i, failing), g, k + i, failing);
      partStart := partEnd;
    }
  }

  class PartitionedTable {
    var catalog: Catalog

    method CreatePartitions(now: int, configured: Granularity, failing: set<string>)
      requires Aligned(catalog) && Disjoint(catalog)
      modifies this
      ensures catalog == AfterRun(old(catalog), now, configured, failing)
    {
      var g := ActivePartitionGranularity(catalog, now, configured);
      hide Active, PeriodOf, CreatePeriods;
      catalog := CreateAhead(catalog, g, now, failing);
    }
  }

  // ---------- what a run keeps ----------

  lemma NameHasRange(cat: Catalog, g: Granularity, k: int)
    requires Aligned(cat) && Nameable(g, k) && PeriodName(g, k) in cat
    ensures cat[PeriodName(g, k)] == PeriodRange(g, k)
  {
    hide ParsePartition, PeriodName, PeriodRange, Nameable;
    NameRoundTrip(g, k);
  }

  lemma CreateKeeps(cat: Catalog, g: Granularity, k: int, failing: set<string>)
    requires Aligned(cat) && Disjoint(cat) && Nameable(g, k)
    ensures var next := CreatePeriod(cat, g, k, failing);
            Aligned(next) && Disjoint(next) && forall name :: name in cat ==> name in next && next[name] == cat[name]
  {
    hide ParsePartition, PeriodName, PeriodRange, Nameable;
    NameRoundTrip(g, k);
  }

  /** Partitions stay named by their ranges and pairwise disjoint, whichever creations fail. */
  lemma {:induction false} RunKeeps(cat: Catalog, g: Granularity, k: int, n: nat, failing: set<string>)
    requires Aligned(cat) && Disjoint(cat) && forall j :: k <= j < k + n ==> Nameable(g, j)
    ensures var next := CreatePeriods(cat, g, k, n, failing);
            Aligned(next) && Disjoint(next) && forall name :: name in cat ==> name in next && next[name] == cat[name]
  {
    hide Aligned, Disjoint, Nameable, CreatePeriod;
    if n > 0 {
      RunKeeps(cat, g, k, n - 1, failing);
      CreateKeeps(CreatePeriods(cat, g, k, n - 1, failing), g, k + n - 1, failing);
    }
  }

  // ---------- when a run covers its window ----------

  ghost predicate Free(cat: Catalog, r: Range) {
    forall name :: name in cat ==> !Overlap(cat[name], r)
  }

  ghost predicate FullyCovered(cat: Catalog, r: Range) {
    forall t :: Holds(r, t) ==> CoveredAt(cat, t)
  }

  lemma RangeNotEmpty(g: Granularity, k: int)
    ensures PeriodRange(g, k).start < PeriodRange(g, k).end
  {
    hide PeriodStart;
    PeriodsIncrease(g, k, k + 1);
  }

  /** Creating a period covers it unless an existing partition overlaps it without the period being
      covered already; other ranges disjoint from it are as covered and as free as before. */
  lemma CreateCovers(cat: Catalog, g: Granularity, k: int)
    requires Aligned(cat) && Nameable(g, k)
    ensures var r := PeriodRange(g, k);
            FullyCovered(CreatePeriod(cat, g, k, {}), r) <==> Free(cat, r) || FullyCovered(cat, r)
  {
    hide ParsePartition, PeriodName, PeriodRange, Nameable;
    var name, r := PeriodName(g, k), PeriodRange(g, k);
    var next := CreatePeriod(cat, g, k, {});
    RangeNotEmpty(g, k);
    if name in cat {
      NameHasRange(cat, g, k);
      forall t | Holds(r, t) ensures CoveredAt(cat, t) {
        assert Holds(cat[name], t);
      }
    } else if Free(cat, r) {
      forall t | Holds(r, t) ensures CoveredAt(next, t) {
        assert Holds(next[name], t);
      }
    } else {
      assert next == cat;
    }
  }

  lemma CreateElsewhere(cat: Catalog, g: Granularity, k: int, r: Range)
    requires !Overlap(PeriodRange(g, k), r) && r.start < r.end
    ensures var next := CreatePeriod(cat, g, k, {});
            && (FullyCovered(next, r) <==> FullyCovered(cat, r))
            && (Free(next, r) <==> Free(cat, r))
  {
    hide PeriodName, PeriodRange;
    var next := CreatePeriod(cat, g, k, {});
    forall t | Holds(r, t) ensures CoveredAt(next, t) <==> CoveredAt(cat, t) {
      if CoveredAt(next, t) {
        var name :| name in next && Holds(next[name], t);
        assert name in cat && Holds(cat[name], t);
      }
      if CoveredAt(cat, t) {
        var name :| name in cat && Holds(cat[name], t);
        assert Holds(next[name], t);
      }
    }
    if Free(next, r) {
      forall name | name in cat ensures !Overlap(cat[name], r) {
        assert next[name] == cat[name];
      }
    }
  }

  lemma PeriodsDisjoint(g: Granularity, j: int, k: int)
    requires j != k
    ensures !Overlap(PeriodRange(g, j), PeriodRange(g, k))
  {
    hide PeriodStart;
    if j < k { PeriodsOrdered(g, j + 1, k); } else { PeriodsOrdered(g, k + 1, j); }
  }

  lemma {:induction false} OutsideUnchanged(cat: Catalog, g: Granularity, k: int, n: nat, j: int)
    requires !(k <= j < k + n)
    ensures var next, r := CreatePeriods(cat, g, k, n, {}), PeriodRange(g, j);
            && (FullyCovered(next, r) <==> FullyCovered(cat, r))
            && (Free(next, r) <==> Free(cat, r))
  {
    hide CreatePeriod, FullyCovered, Free, PeriodRange;
    if n > 0 {
      OutsideUnchanged(cat, g, k, n - 1, j);
      PeriodsDisjoint(g, k + n - 1, j);
      RangeNotEmpty(g, j);
      CreateElsewhere(CreatePeriods(cat, g, k, n - 1, {}), g, k + n - 1, PeriodRange(g, j));
    }
  }

  /** After a run, a period of the window is covered exactly when, before it, no partition overlapped
      the period or partitions covered it already. */
  lemma {:induction false} WindowCovered(cat: Catalog, g: Granularity, k: int, n: nat, j: int)
    requires Aligned(cat) && Disjoint(cat) && k <= j < k + n && forall i :: k <= i < k + n ==> Nameable(g, i)
    ensures var r := PeriodRange(g, j);
            FullyCovered(CreatePeriods(cat, g, k, n, {}), r) <==> Free(cat, r) || FullyCovered(cat, r)
  {
    hide CreatePeriod, FullyCovered, Free, PeriodRange, Aligned, Disjoint, Nameable;
    var before, r := CreatePeriods(cat, g, k, n - 1, {}), PeriodRange(g, j);
    RunKeeps(cat, g, k, n - 1, {});
    if j < k + n - 1 {
      WindowCovered(cat, g, k, n - 1, j);
      PeriodsDisjoint(g, k + n - 1, j);
      RangeNotEmpty(g, j);
      CreateElsewhere(before, g, k + n - 1, r);
    } else {
      OutsideUnchanged(cat, g, k, n - 1, j);
      CreateCovers(before, g, j);
    }
  }

  // ---------- no finer partitions ahead ----------

  /** Under monthly granularity no daily partition reaches into the window that starts at `from`. */
  ghost predicate NoFiner(cat: Catalog, g: Granularity, from: int) {
    g == Month ==> forall name :: name in cat && IsGranularity(name, Day) ==> cat[name].end <= from
  }

  /** A day that meets a month lies in it. */
  lemma DayInMonth(j: int, k: int)
    requires Overlap(PeriodRange(Day, j), PeriodRange(Month, k))
    ensures PeriodRange(Month, k).start <= PeriodRange(Day, j).start && PeriodRange(Day, j).end <= PeriodRange(Month, k).end
  {
    hide MonthStart;
    var a, b := MonthStart(k), MonthStart(k + 1);
    assert j < b && a < j + 1 by {
      if b <= j { DayOrder(b, j); }
      if j + 1 <= a { DayOrder(j + 1, a); }
    }
    DayOrder(a, j);
    DayOrder(j + 1, b);
  }

  lemma DayOrder(a: int, b: int)
    requires a <= b
    ensures StartOfDay(a) <= StartOfDay(b)
  {
  }

  /** A partition that meets a period of a granularity no finer than its own contains the period. */
  lemma CoarserContains(cat: Catalog, name: string, g: Granularity, j: int)
    requires Aligned(cat) && name in cat && Overlap(cat[name], PeriodRange(g, j))
    requires !(g == Month && IsGranularity(name, Day))
    ensures cat[name].start <= PeriodRange(g, j).start && PeriodRange(g, j).end <= cat[name].end
  {
    hide PeriodRange, PeriodName, PeriodOf, Nameable, ParsePartition;
    ReadableNameIsPrinted(name);
    var (h, r) := ParsePartition(name).value;
    var k := PeriodOf(h, r.start);
    if h == g {
      if k != j { PeriodsDisjoint(g, k, j); }
    } else {
      assert g == Day && h == Month;
      DayInMonth(j, k);
    }
  }

  lemma NoFinerCovers(cat: Catalog, g: Granularity, k: int, j: int)
    requires Aligned(cat) && NoFiner(cat, g, PeriodStart(g, k)) && k <= j
    ensures Free(cat, PeriodRange(g, j)) || FullyCovered(cat, PeriodRange(g, j))
  {
    hide PeriodStart, Aligned, IsGranularity;
    var r := PeriodRange(g, j);
    PeriodsOrdered(g, k, j);
    if !Free(cat, r) {
      var name :| name in cat && Overlap(cat[name], r);
      CoarserContains(cat, name, g, j);
      forall t | Holds(r, t) ensures CoveredAt(cat, t) {
        assert Holds(cat[name], t);
      }
    }
  }

  ghost predicate CoversSpan(cat: Catalog, from: int, until: int) {
    forall t :: from <= t < until ==> CoveredAt(cat, t)
  }

  /** Where the window of a run at `now` ends. */
  function Horizon(g: Granularity, now: int): int {
    PeriodStart(g, PeriodOf(g, now) + AheadCount(g) + 1)
  }

  ghost predicate NameableWindow(g: Granularity, now: int) {
    forall j :: PeriodOf(g, now) <= j <= PeriodOf(g, now) + AheadCount(g) ==> Nameable(g, j)
  }

  /** A daily window reaches a full week past today, a monthly one three full months past this month. */
  lemma WindowReaches(now: int)
    ensures Horizon(Day, now) == Truncate(Day, now) + 8 * 86_400_000_000_000
    ensures Horizon(Month, now) == PeriodStart(Month, PeriodOf(Month, now) + 4) && PeriodStart(Month, PeriodOf(Month, now)) == Truncate(Month, now)
  {
    hide MonthStart, MonthNumber;
    PeriodContains(Month, now);
  }

  /** A run covers everything from `now` to the end of its window. */
  lemma RunCovers(cat: Catalog, now: int, configured: Granularity)
    requires Aligned(cat) && Disjoint(cat)
    requires var g := Active(cat, now, configured);
             NoFiner(cat, g, Truncate(g, now)) && NameableWindow(g, now)
    ensures var next := AfterRun(cat, now, configured, {});
            && Aligned(next) && Disjoint(next)
            && CoversSpan(next, now, Horizon(Active(cat, now, configured), now))
  {
    hide Truncate, PeriodStart, PeriodOf, Active, Nameable, Aligned, Disjoint, NoFiner, Free, CoveredAt;
    var g := Active(cat, now, configured);
    var k, n, next := PeriodOf(g, now), AheadCount(g) + 1, AfterRun(cat, now, configured, {});
    PeriodContains(g, now);
    RunKeeps(cat, g, k, n, {});
    forall t | now <= t < Horizon(g, now) ensures CoveredAt(next, t) {
      var j := PeriodOf(g, t);
      PeriodContains(g, t);
      InWindow(g, now, t);
      NoFinerCovers(cat, g, k, j);
      WindowCovered(cat, g, k, n, j);
      assert Holds(PeriodRange(g, j), t);
    }
  }

  lemma InWindow(g: Granularity, now: int, t: int)
    requires now <= t < Horizon(g, now)
    ensures PeriodOf(g, now) <= PeriodOf(g, t) <= PeriodOf(g, now) + AheadCount(g)
  {
    hide PeriodStart, PeriodOf, Truncate;
    var k, j := PeriodOf(g, now), PeriodOf(g, t);
    PeriodContains(g, now);
    PeriodContains(g, t);
    if j < k { PeriodsOrdered(g, j + 1, k); }
    if k + AheadCount(g) < j { PeriodsOrdered(g, k + AheadCount(g) + 1, j); }
  }

  // ---------- retention ----------

  /** `now.AddDate(0, 0, -retentionDays)`. */
  function Cutoff(now: int, retentionDays: nat): int {
    now - retentionDays * NANOS_PER_DAY
  }

  /** Partitions that end by the cutoff are dropped, unless their DROP fails. */
  function AfterDrops(cat: Catalog, cutoff: int, failing: set<string>): Catalog {
    map name | name in cat && !(Expired(name, cutoff) && name !in failing) :: cat[name]
  }

  predicate Expired(name: string, cutoff: int) {
    var bounds := ParsePartitionBounds(name);
    bounds.Some? && bounds.value.end <= cutoff
  }

  /** Retention leaves every present and future instant as covered as it was. */
  lemma DropsKeepCover(cat: Catalog, now: int, retentionDays: nat, failing: set<string>, until: int)
    requires Aligned(cat) && Disjoint(cat) && CoversSpan(cat, now, until)
    ensures var next := AfterDrops(cat, Cutoff(now, retentionDays), failing);
            Aligned(next) && Disjoint(next) && CoversSpan(next, now, until)
  {
    hide ParsePartition, ParsePartitionBounds;
    var next := AfterDrops(cat, Cutoff(now, retentionDays), failing);
    assert Cutoff(now, retentionDays) <= now;
    forall t | now <= t < until ensures CoveredAt(next, t) {
      assert CoveredAt(cat, t);
      var name :| name in cat && Holds(cat[name], t);
      assert name in next;
    }
  }

  // ---------- runs of maintenance and retention ----------

  datatype Event =
    | Maintain(at: int, configured: Granularity)
    | Retain(at: int, retentionDays: nat, failing: set<string>)

  ghost function After(cat: Catalog, e: Event): Catalog {
    match e
    case Maintain(at, configured) => AfterRun(cat, at, configured, {})
    case Retain(at, days, failing) => AfterDrops(cat, Cutoff(at, days), failing)
  }

  ghost function Final(cat: Catalog, es: seq<Event>): Catalog {
    if es == [] then cat else After(Final(cat, es[..|es| - 1]), es[|es| - 1])
  }

  /** The end of the window of the last maintenance run. */
  ghost function CoveredUntil(cat: Catalog, es: seq<Event>): int
    requires es != [] && es[0].Maintain?
  {
    var before, e := es[..|es| - 1], es[|es| - 1];
    if e.Maintain? then Horizon(Active(Final(cat, before), e.at, e.configured), e.at)
    else CoveredUntil(cat, before)
  }

  /** Events in time order, starting with a maintenance run. Each later run comes before the window
      of the one before it has ended (at most `AheadCount` periods later), and at each run the
      partitions ahead are no finer than the granularity in use. */
  ghost predicate Maintained(cat: Catalog, es: seq<Event>) {
    && es != [] && es[0].Maintain?
    && var before, e := es[..|es| - 1], es[|es| - 1];
    && (before != [] ==> Maintained(cat, before) && before[|before| - 1].at <= e.at)
    && (e.Maintain? ==>
          var g := Active(Final(cat, before), e.at, e.configured);
          && (before != [] ==> e.at < CoveredUntil(cat, before))
          && NoFiner(Final(cat, before), g, Truncate(g, e.at)) && NameableWindow(g, e.at))
  }

  /** A run at most `AheadCount` periods after another comes before its window ends. */
  lemma WithinAhead(g: Granularity, now: int, later: int)
    requires now <= later
    ensures later < Horizon(g, now) <==> PeriodOf(g, later) <= PeriodOf(g, now) + AheadCount(g)
  {
    hide PeriodStart, PeriodOf, Truncate;
    PeriodContains(g, later);
    if later < Horizon(g, now) {
      InWindow(g, now, later);
    } else if PeriodOf(g, later) <= PeriodOf(g, now) + AheadCount(g) {
      PeriodsOrdered(g, PeriodOf(g, later) + 1, PeriodOf(g, now) + AheadCount(g) + 1);
    }
  }

  lemma {:induction false} MaintainedCovers(cat: Catalog, es: seq<Event>)
    requires Aligned(cat) && Disjoint(cat) && Maintained(cat, es)
    ensures Aligned(Final(cat, es)) && Disjoint(Final(cat, es))
    ensures CoversSpan(Final(cat, es), es[|es| - 1].at, CoveredUntil(cat, es))
    ensures forall t :: es[|es| - 1].at <= t < CoveredUntil(cat, es) ==> CoveredOnce(Final(cat, es), t)
    decreases |es|
  {
    hide Aligned, Disjoint, CoveredAt, Active, NoFiner, NameableWindow, Horizon, Truncate, AfterRun, AfterDrops, Cutoff, CoveredOnce;
    var before, e := es[..|es| - 1], es[|es| - 1];
    var here, next := Final(cat, before), Final(cat, es);
    if before == [] {
      assert e == es[0];
      RunCovers(here, e.at, e.configured);
    } else {
      MaintainedCovers(cat, before);
      match e
      case Maintain(at, configured) => RunCovers(here, at, configured);
      case Retain(at, days, failing) => DropsKeepCover(here, at, days, failing, CoveredUntil(cat, es));
    }
    forall t | e.at <= t < CoveredUntil(cat, es) ensures CoveredOnce(next, t) {
      DisjointCoversOnce(next, t);
    }
  }

  // ---------- days before months ----------

  /** Every daily partition ends before any monthly partition that is still open starts. */
  ghost predicate Layered(cat: Catalog, now: int) {
    forall d, m :: d in cat && m in cat && IsGranularity(d, Day) && IsGranularity(m, Month) && cat[m].end > now ==>
      cat[d].end <= cat[m].start
  }

  lemma LayeredLater(cat: Catalog, now: int, later: int)
    requires Layered(cat, now) && now <= later
    ensures Layered(cat, later)
  {
    hide IsGranularity;
  }

  lemma LayeredDrops(cat: Catalog, now: int, cutoff: int, failing: set<string>)
    requires Layered(cat, now)
    ensures Layered(AfterDrops(cat, cutoff, failing), now)
  {
    hide IsGranularity, Expired;
  }

  lemma MonthHolding(cat: Catalog, m: string, now: int)
    requires Aligned(cat) && m in cat && IsGranularity(m, Month) && Holds(cat[m], now)
    ensures cat[m].start == Truncate(Month, now)
  {
    hide ParsePartition, PeriodStart, PeriodOf, PeriodName, Nameable, Truncate;
    ReadableNameIsPrinted(m);
    var k := PeriodOf(Month, cat[m].start);
    PeriodUnique(Month, now, k);
    PeriodContains(Month, now);
  }

  /** Inside a month in use nothing finer lies ahead. */
  lemma LayeredNoFiner(cat: Catalog, now: int, configured: Granularity)
    requires Aligned(cat) && Layered(cat, now) && CoveredAt(cat, now)
    ensures var g := Active(cat, now, configured); NoFiner(cat, g, Truncate(g, now))
  {
    hide Truncate, ParsePartition;
    var name :| name in cat && Holds(cat[name], now);
    assert IsGranularity(name, Day) || IsGranularity(name, Month);
    if Active(cat, now, configured) == Month {
      MonthHolding(cat, name, now);
    }
  }

  /** A run keeps what is there and adds only periods of its window. */
  lemma {:induction false} Additions(cat: Catalog, g: Granularity, k: int, n: nat, name: string) returns (j: int)
    requires name in CreatePeriods(cat, g, k, n, {})
    ensures var next := CreatePeriods(cat, g, k, n, {});
            || (name in cat && next[name] == cat[name])
            || (k <= j < k + n && name == PeriodName(g, j) && next[name] == PeriodRange(g, j))
    decreases n
  {
    hide PeriodName, PeriodRange;
    j := k;
    if n > 0 {
      var before := CreatePeriods(cat, g, k, n - 1, {});
      if name in before {
        j := Additions(cat, g, k, n - 1, name);
      } else {
        j := k + n - 1;
      }
    }
  }

  lemma LayeredMonths(cat: Catalog, now: int)
    requires Layered(cat, now) && NoFiner(cat, Month, Truncate(Month, now)) && NameableWindow(Month, now)
    ensures Layered(CreatePeriods(cat, Month, PeriodOf(Month, now), 4, {}), now)
  {
    hide ParsePartition, PeriodStart, PeriodOf, PeriodName, Nameable, Truncate, CreatePeriods;
    var k := PeriodOf(Month, now);
    var next := CreatePeriods(cat, Month, k, 4, {});
    PeriodContains(Month, now);
    forall d, m | d in next && m in next && IsGranularity(d, Day) && IsGranularity(m, Month) && next[m].end > now
      ensures next[d].end <= next[m].start
    {
      var i := Additions(cat, Month, k, 4, d);
      if k <= i < k + 4 && d == PeriodName(Month, i) {
        NameRoundTrip(Month, i);
      }
      var j := Additions(cat, Month, k, 4, m);
      if k <= j {
        PeriodsOrdered(Month, k, j);
      }
    }
  }

  /** A month that lies ahead ends more than a week from now. */
  lemma MonthsOutlast(cat: Catalog, m: string, now: int, j: int)
    requires Aligned(cat) && m in cat && IsGranularity(m, Month) && now < cat[m].start && j <= DayOf(now) + 7
    ensures StartOfDay(j) < cat[m].end
  {
    hide ParsePartition, PeriodOf, PeriodName, Nameable, MonthStart;
    ReadableNameIsPrinted(m);
    var k := PeriodOf(Month, cat[m].start);
    var a := MonthStart(k);
    MonthsApart(k, k + 1);
    DayBounds(now);
    if a <= DayOf(now) {
      DayOrder(a, DayOf(now));
    }
    DayStarts(j, MonthStart(k + 1));
  }

  lemma LayeredDays(cat: Catalog, now: int)
    requires Aligned(cat) && Disjoint(cat) && Layered(cat, now) && NameableWindow(Day, now)
    requires forall m :: m in cat && IsGranularity(m, Month) ==> !Holds(cat[m], now)
    ensures Layered(CreatePeriods(cat, Day, PeriodOf(Day, now), 8, {}), now)
  {
    hide ParsePartition, PeriodName, Nameable, CreatePeriods, StartOfDay, DayOf;
    var k := PeriodOf(Day, now);
    var next := CreatePeriods(cat, Day, k, 8, {});
    RunKeeps(cat, Day, k, 8, {});
    forall d, m | d in next && m in next && IsGranularity(d, Day) && IsGranularity(m, Month) && next[m].end > now
      ensures next[d].end <= next[m].start
    {
      var j := Additions(cat, Day, k, 8, m);
      if k <= j < k + 8 && m == PeriodName(Day, j) {
        NameRoundTrip(Day, j);
      }
      var i := Additions(cat, Day, k, 8, d);
      if d !in cat {
        assert d != m;
        assert !Overlap(next[d], next[m]);
        MonthsOutlast(cat, m, now, i);
      }
    }
  }

  lemma LayeredRun(cat: Catalog, now: int, configured: Granularity)
    requires Aligned(cat) && Disjoint(cat) && Layered(cat, now) && NameableWindow(Day, now) && NameableWindow(Month, now)
    requires var g := Active(cat, now, configured); NoFiner(cat, g, Truncate(g, now))
    ensures Layered(AfterRun(cat, now, configured, {}), now)
  {
    hide ParsePartition, PeriodOf, Truncate, Layered, CreatePeriods, NameableWindow;
    if Active(cat, now, configured) == Month {
      LayeredMonths(cat, now);
    } else {
      LayeredDays(cat, now);
    }
  }

  /** Events in time order, starting with a maintenance run, each later run before the window of the one before it
      has ended (at most `AheadCount` periods later), in years that are written with four digits. */
  ghost predicate Scheduled(cat: Catalog, es: seq<Event>) {
    && es != [] && es[0].Maintain?
    && var before, e := es[..|es| - 1], es[|es| - 1];
    && (before != [] ==> Scheduled(cat, before) && before[|before| - 1].at <= e.at)
    && (e.Maintain? ==>
          (before != [] ==> e.at < CoveredUntil(cat, before)) && NameableWindow(Day, e.at) && NameableWindow(Month, e.at))
  }

  /** At the first run nothing finer than the granularity in use lies ahead, and days come before open months. */
  ghost predicate Orderly(cat: Catalog, first: Event)
    requires first.Maintain?
  {
    var g := Active(cat, first.at, first.configured);
    Aligned(cat) && Disjoint(cat) && NoFiner(cat, g, Truncate(g, first.at)) && Layered(cat, first.at)
  }

  lemma {:induction false} ScheduledIsMaintained(cat: Catalog, es: seq<Event>)
    requires Scheduled(cat, es) && Orderly(cat, es[0])
    ensures Maintained(cat, es) && Layered(Final(cat, es), es[|es| - 1].at)
    decreases |es|
  {
    hide Aligned, Disjoint, CoveredAt, Active, NoFiner, NameableWindow, Horizon, Truncate, Layered, AfterRun, AfterDrops, Cutoff, CoveredUntil, CoveredOnce;
    var before, e := es[..|es| - 1], es[|es| - 1];
    var here := Final(cat, before);
    if before == [] {
      assert e == es[0];
      assert Aligned(here) && Disjoint(here) && Layered(here, e.at);
    } else {
      assert before[0] == es[0];
      ScheduledIsMaintained(cat, before);
      MaintainedCovers(cat, before);
      LayeredLater(here, before[|before| - 1].at, e.at);
      if e.Maintain? {
        assert CoveredAt(here, e.at);
        LayeredNoFiner(here, e.at, e.configured);
      }
    }
    match e
    case Maintain(at, configured) =>
      assert Active(here, at, configured) == Day || Active(here, at, configured) == Month;
      LayeredRun(here, at, configured);
    case Retain(at, days, failing) => LayeredDrops(here, at, Cutoff(at, days), failing);
  }

  /** From the first run on, whatever retention drops, each instant up to the end of the latest window
      lies in exactly one partition, and partitions never overlap. The catalog is looked at only once, before
      the first run. */
  lemma AlwaysCovered(cat: Catalog, es: seq<Event>)
    requires Scheduled(cat, es) && Orderly(cat, es[0])
    ensures Aligned(Final(cat, es)) && Disjoint(Final(cat, es))
    ensures forall t :: es[|es| - 1].at <= t < CoveredUntil(cat, es) ==> CoveredOnce(Final(cat, es), t)
  {
    hide Aligned, Disjoint, NoFiner, Layered, CoveredOnce, CoveredUntil, Active, Truncate;
    ScheduledIsMaintained(cat, es);
    MaintainedCovers(cat, es);
  }

  // ---------- one granularity ----------

  ghost predicate Uniform(cat: Catalog, g: Granularity) {
    forall name :: name in cat ==> IsGranularity(name, g)
  }

  /** With partitions of one granularity only, that granularity stays in use as long as `now` is
      covered, whatever is configured. */
  lemma UniformActive(cat: Catalog, g: Granularity, now: int, configured: Granularity)
    requires Uniform(cat, g) && (CoveredAt(cat, now) || configured == g)
    ensures Active(cat, now, configured) == g && NoFiner(cat, g, Truncate(g, now))
  {
    hide ParsePartition, Truncate;
    if CoveredAt(cat, now) {
      var name :| name in cat && Holds(cat[name], now);
      assert IsGranularity(name, g);
    }
  }

  lemma {:induction false} UniformPeriods(cat: Catalog, g: Granularity, k: int, n: nat)
    requires Uniform(cat, g) && forall j :: k <= j < k + n ==> Nameable(g, j)
    ensures Uniform(CreatePeriods(cat, g, k, n, {}), g)
  {
    hide ParsePartition, PeriodName, PeriodRange, Nameable;
    if n > 0 {
      UniformPeriods(cat, g, k, n - 1);
      NameRoundTrip(g, k + n - 1);
    }
  }

  /** A database whose partitions are all of one granularity keeps creating that granularity, whatever
      PARTITION_INTERVAL says at later runs, and the coverage above needs no further condition. */
  lemma {:induction false} UniformStaysCovered(cat: Catalog, g: Granularity, es: seq<Event>)
    requires Aligned(cat) && Disjoint(cat) && Uniform(cat, g) && UniformRun(cat, g, es)
    ensures Maintained(cat, es) && Uniform(Final(cat, es), g)
    ensures forall t :: es[|es| - 1].at <= t < CoveredUntil(cat, es) ==> CoveredOnce(Final(cat, es), t)
    decreases |es|
  {
    hide Aligned, Disjoint, Uniform, Active, NoFiner, NameableWindow, Horizon, Truncate, CoveredOnce, CoveredAt, After, CoveredUntil;
    var before, e := es[..|es| - 1], es[|es| - 1];
    var here := Final(cat, before);
    if before != [] {
      UniformStaysCovered(cat, g, before);
      MaintainedCovers(cat, before);
      if e.Maintain? {
        assert CoveredAt(here, e.at);
      }
    }
    UniformStep(here, g, e);
    MaintainedCovers(cat, es);
  }

  lemma UniformStep(cat: Catalog, g: Granularity, e: Event)
    requires Uniform(cat, g) && (e.Maintain? ==> NameableWindow(g, e.at))
    requires e.Maintain? ==> CoveredAt(cat, e.at) || e.configured == g
    ensures e.Maintain? ==> Active(cat, e.at, e.configured) == g && NoFiner(cat, g, Truncate(g, e.at))
    ensures Uniform(After(cat, e), g)
  {
    hide Uniform, Active, NoFiner, NameableWindow, Truncate, CoveredAt, AfterRun, AfterDrops, Cutoff;
    match e
    case Maintain(at, configured) =>
      UniformActive(cat, g, at, configured);
      UniformAfterRun(cat, g, at, configured);
    case Retain(at, days, failing) => UniformDrops(cat, g, Cutoff(at, days), failing);
  }

  lemma UniformAfterRun(cat: Catalog, g: Granularity, now: int, configured: Granularity)
    requires Uniform(cat, g) && Active(cat, now, configured) == g && NameableWindow(g, now)
    ensures Uniform(AfterRun(cat, now, configured, {}), g)
  {
    hide Uniform, Active, Nameable;
    UniformPeriods(cat, g, PeriodOf(g, now), AheadCount(g) + 1);
  }

  lemma UniformDrops(cat: Catalog, g: Granularity, cutoff: int, failing: set<string>)
    requires Uniform(cat, g)
    ensures Uniform(AfterDrops(cat, cutoff, failing), g)
  {
    hide ParsePartition;
  }

  /** The first run is configured for `g` (or `now` is covered); later runs may be configured either way
      and come at most `AheadCount` periods after the one before. */
  ghost predicate UniformRun(cat: Catalog, g: Granularity, es: seq<Event>) {
    && es != [] && es[0].Maintain?
    && var before, e := es[..|es| - 1], es[|es| - 1];
    && (before != [] ==> UniformRun(cat, g, before) && before[|before| - 1].at <= e.at)
    && (e.Maintain? ==>
          && (if before == [] then CoveredAt(cat, e.at) || e.configured == g else e.at < CoveredUntil(cat, before))
          && NameableWindow(g, e.at))
  }

  // ---------- mixed granularities can leave a gap ----------

  /** A month in use with a single daily partition already made for the first day of the next month:
      the run cannot create that next month and leaves the rest of it uncovered. */
  lemma MixedLeavesGap(k: int, configured: Granularity)
    requires forall j :: k <= j <= k + 3 ==> Nameable(Month, j)
    ensures var first := MonthStart(k + 1);
            var cat := map[PeriodName(Month, k) := PeriodRange(Month, k), PeriodName(Day, first) := PeriodRange(Day, first)];
            var now := PeriodStart(Month, k);
            Aligned(cat) && Disjoint(cat) && Active(cat, now, configured) == Month
            && !FullyCovered(AfterRun(cat, now, configured, {}), PeriodRange(Month, k + 1))
  {
    hide ParsePartition, PeriodName, Nameable, PeriodRange, Active, CreatePeriods, PeriodOf, MonthStart;
    var first, now := MonthStart(k + 1), PeriodStart(Month, k);
    var month, day, r := PeriodRange(Month, k), PeriodRange(Day, first), PeriodRange(Month, k + 1);
    var cat := map[PeriodName(Month, k) := month, PeriodName(Day, first) := day];
    FirstDayNameable(k + 1);
    NameRoundTrip(Month, k);
    NameRoundTrip(Day, first);
    var t := GapInMonth(k);
    assert now == month.start by { StartOfMonth(k); }
    assert cat[PeriodName(Month, k)] == month && IsGranularity(PeriodName(Month, k), Month);
    MixedGranularity(cat, k, now, configured);
    NextPeriod(Month, k);
    WindowCovered(cat, Month, k, 4, k + 1);
    assert Overlap(cat[PeriodName(Day, first)], r);
    assert !CoveredAt(cat, t);
  }

  lemma StartOfMonth(k: int)
    ensures PeriodRange(Month, k).start == PeriodStart(Month, k)
  {
  }

  lemma GapInMonth(k: int) returns (t: int)
    ensures var day := PeriodRange(Day, MonthStart(k + 1));
            && !Overlap(PeriodRange(Month, k), day) && !Overlap(day, PeriodRange(Month, k))
            && Overlap(day, PeriodRange(Month, k + 1)) && Holds(PeriodRange(Month, k), PeriodRange(Month, k).start)
            && !Holds(day, PeriodRange(Month, k).start)
            && Holds(PeriodRange(Month, k + 1), t) && !Holds(day, t) && !Holds(PeriodRange(Month, k), t)
  {
    hide MonthStart, StartOfDay;
    var first := MonthStart(k + 1);
    MonthsApart(k, k + 1);
    MonthsApart(k + 1, k + 2);
    DayStarts(MonthStart(k), first);
    DayStarts(first, first + 1);
    DayStarts(first + 1, MonthStart(k + 2));
    t := StartOfDay(first + 1);
  }

  lemma FirstDayNameable(k: int)
    requires Nameable(Month, k)
    ensures Nameable(Day, MonthStart(k))
  {
    hide CivilOf, MonthStart;
  }

  lemma MixedGranularity(cat: Catalog, k: int, now: int, configured: Granularity)
    requires Disjoint(cat) && NowIn(cat, now, Month)
    requires forall name :: name in cat && Holds(cat[name], now) ==> IsGranularity(name, Month)
    ensures Active(cat, now, configured) == Month
  {
    hide ParsePartition;
  }
}
