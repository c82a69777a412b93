/** Deleting logs past their retention (`CleanupOldLogs`, `deleteOldLogsBatched`): whole partitions are
    dropped, then what is left of the expired rows goes in batches selected by ctid. */
module Retention {
  import opened Wrappers
  import opened PartitionNames
  import opened Partitions

  /** A stored row. `ctid` is its place in its own partition: two rows of one partition never share it,
      rows of different partitions may. */
  datatype Stored = Stored(partition: string, ctid: int, timestamp: int)

  const BATCH_SIZE := 10_000

  ghost predicate Placed(cat: Catalog, rows: set<Stored>) {
    && (forall r :: r in rows && r.partition in cat ==> Holds(cat[r.partition], r.timestamp))
    && (forall r, s :: r in rows && s in rows && r.partition == s.partition && r.ctid == s.ctid ==> r == s)
  }

  function OlderThan(rows: set<Stored>, cutoff: int): set<Stored> {
    set r | r in rows && r.timestamp < cutoff
  }

  // ---------- one DELETE .. WHERE ctid IN (SELECT ctid .. LIMIT n) ----------

  /** What the inner SELECT may return: as many expired rows as there are, up to a batch. */
  predicate Selection(rows: set<Stored>, cutoff: int, selected: set<Stored>) {
    var expired := OlderThan(rows, cutoff);
    selected <= expired && |selected| == if |expired| < BATCH_SIZE then |expired| else BATCH_SIZE
  }

  /** What the DELETE removes: every row, of any partition, with a selected ctid. */
  function Removed(rows: set<Stored>, selected: set<Stored>): set<Stored> {
    set r | r in rows && exists s :: s in selected && s.ctid == r.ctid
  }

  lemma {:induction false} SubsetOfSize(s: set<Stored>, n: nat)
    requires n <= |s|
    ensures exists t :: t <= s && |t| == n
  {
    if n == |s| {
      assert s <= s;
    } else {
      var x :| x in s;
      SubsetOfSize(s - {x}, n);
      var t :| t <= s - {x} && |t| == n;
      assert t <= s;
    }
  }

  lemma SelectionExists(rows: set<Stored>, cutoff: int)
    ensures exists selected :: Selection(rows, cutoff, selected)
  {
    var expired := OlderThan(rows, cutoff);
    var n := if |expired| < BATCH_SIZE then |expired| else BATCH_SIZE;
    SubsetOfSize(expired, n);
    var t :| t <= expired && |t| == n;
    assert Selection(rows, cutoff, t);
  }

  /** A batch is empty exactly when nothing is expired; otherwise fewer expired rows remain. */
  lemma BatchProgress(rows: set<Stored>, cutoff: int, selected: set<Stored>)
    requires Selection(rows, cutoff, selected)
    ensures selected <= Removed(rows, selected)
    ensures Removed(rows, selected) == {} <==> OlderThan(rows, cutoff) == {}
    ensures OlderThan(rows, cutoff) != {} ==>
              |OlderThan(rows - Removed(rows, selected), cutoff)| < |OlderThan(rows, cutoff)|
  {
    var expired, removed := OlderThan(rows, cutoff), Removed(rows, selected);
    assert expired != {} ==> |expired| > 0;
    if expired != {} {
      var x :| x in selected;
      Shrinks(OlderThan(rows - removed, cutoff), expired, x);
    }
  }

  lemma Shrinks(small: set<Stored>, large: set<Stored>, x: Stored)
    requires small <= large && x in large && x !in small
    ensures |small| < |large|
  {
    SubsetSize(small, large - {x});
  }

  lemma {:induction false} SubsetSize(a: set<Stored>, b: set<Stored>)
    requires a <= b
    ensures |a| <= |b|
  {
    if a != {} {
      var x :| x in a;
      SubsetSize(a - {x}, b - {x});
    }
  }

  /** The rows sit in one heap (no partitions), so a ctid names one row. */
  ghost predicate OneHeap(rows: set<Stored>) {
    forall r, s :: r in rows && s in rows && r.ctid == s.ctid ==> r == s
  }

  lemma OneHeapRemovesSelected(rows: set<Stored>, cutoff: int, selected: set<Stored>)
    requires OneHeap(rows) && Selection(rows, cutoff, selected)
    ensures Removed(rows, selected) == selected
  {
  }

  /** A selection that includes a given expired row. */
  lemma SelectionWith(rows: set<Stored>, cutoff: int, e: Stored) returns (selected: set<Stored>)
    requires e in OlderThan(rows, cutoff)
    ensures Selection(rows, cutoff, selected) && e in selected
  {
    var rest := OlderThan(rows, cutoff) - {e};
    var n := if |OlderThan(rows, cutoff)| < BATCH_SIZE then |rest| else BATCH_SIZE - 1;
    SubsetOfSize(rest, n);
    var t :| t <= rest && |t| == n;
    selected := t + {e};
  }

  /** A batch deletes expired rows only, whichever rows the inner SELECT picks, exactly when no row that
      must stay shares its ctid with an expired one. On a partitioned table nothing ensures that. */
  lemma DeletesOnlyExpired(rows: set<Stored>, cutoff: int)
    ensures (forall selected :: Selection(rows, cutoff, selected) ==> Removed(rows, selected) <= OlderThan(rows, cutoff))
            <==> (forall e, f :: e in OlderThan(rows, cutoff) && f in rows && f.ctid == e.ctid ==> f.timestamp < cutoff)
  {
    if f, e :| e in OlderThan(rows, cutoff) && f in rows && f.ctid == e.ctid && f.timestamp >= cutoff {
      var selected := SelectionWith(rows, cutoff, e);
      assert f in Removed(rows, selected);
    }
  }

  /** Two daily partitions, the first straddling the cutoff so that it is not dropped, with an expired row in the one
      and a recent row at the same place in the other: the recent row goes too. */
  lemma FreshRowDeleted(k: int, cutoff: int)
    requires Nameable(Day, k) && Nameable(Day, k + 1) && PeriodStart(Day, k) < cutoff < PeriodStart(Day, k + 1)
    ensures var first, second := PeriodName(Day, k), PeriodName(Day, k + 1);
            var cat := map[first := PeriodRange(Day, k), second := PeriodRange(Day, k + 1)];
            var aged, recent := Stored(first, 1, PeriodStart(Day, k)), Stored(second, 1, PeriodStart(Day, k + 1));
            var rows := {aged, recent};
            && Aligned(cat) && Disjoint(cat) && Placed(cat, rows) && AfterDrops(cat, cutoff, {}) == cat
            && recent.timestamp >= cutoff && Selection(rows, cutoff, {aged}) && recent in Removed(rows, {aged})
  {
    hide ParsePartition, PeriodName, Nameable;
    var first, second := PeriodName(Day, k), PeriodName(Day, k + 1);
    NameRoundTrip(Day, k);
    NameRoundTrip(Day, k + 1);
    PeriodsIncrease(Day, k + 1, k + 2);
    hide PeriodStart;
    var aged, recent := Stored(first, 1, PeriodStart(Day, k)), Stored(second, 1, PeriodStart(Day, k + 1));
    assert first != second;
    assert OlderThan({aged, recent}, cutoff) == {aged};
  }

  /** The inner SELECT, which may return any batch of expired rows. */
  method InnerSelect(rows: set<Stored>, cutoff: int) returns (selected: set<Stored>)
    ensures Selection(rows, cutoff, selected)
  {
    SelectionExists(rows, cutoff);
    selected :| selected <= OlderThan(rows, cutoff) && Selection(rows, cutoff, selected);
  }

  lemma BatchEffect(rows: set<Stored>, cutoff: int, selected: set<Stored>)
    requires Selection(rows, cutoff, selected)
    ensures var removed := Removed(rows, selected);
            && removed <= rows
            && (|removed| == 0 <==> OlderThan(rows, cutoff) == {})
            && (|removed| == 0 ==> rows - removed == rows)
            && |rows - removed| == |rows| - |removed|
            && |removed| >= (if |OlderThan(rows, cutoff)| < 10_000 then |OlderThan(rows, cutoff)| else 10_000)
            && (OneHeap(rows) ==> |removed| <= 10_000 && forall r :: r in removed ==> r.timestamp < cutoff)
  {
    hide Removed, OlderThan;
    var removed := Removed(rows, selected);
    BatchProgress(rows, cutoff, selected);
    RemovedAreRows(rows, selected);
    SubsetSize(selected, removed);
    if OneHeap(rows) {
      OneHeapRemovesSelected(rows, cutoff, selected);
      ExpiredIsOlder(rows, cutoff);
    }
  }

  lemma RemovedAreRows(rows: set<Stored>, selected: set<Stored>)
    ensures Removed(rows, selected) <= rows
  {
  }

  lemma ExpiredIsOlder(rows: set<Stored>, cutoff: int)
    ensures forall r :: r in OlderThan(rows, cutoff) ==> r.timestamp < cutoff
    ensures forall r :: r in rows && r !in OlderThan(rows, cutoff) ==> r.timestamp >= cutoff
  {
  }

  /** Rows go only from a place that held an expired row. */
  ghost predicate OnlyFrom(before: set<Stored>, after: set<Stored>, cutoff: int) {
    forall r :: r in before && r !in after ==> exists e :: e in before && e.ctid == r.ctid && e.timestamp < cutoff
  }

  lemma BatchOnlyFrom(rows: set<Stored>, cutoff: int, selected: set<Stored>)
    requires Selection(rows, cutoff, selected)
    ensures OnlyFrom(rows, rows - Removed(rows, selected), cutoff)
  {
    forall r | r in Removed(rows, selected) ensures exists e :: e in rows && e.ctid == r.ctid && e.timestamp < cutoff {
      var e :| e in selected && e.ctid == r.ctid;
      assert e in OlderThan(rows, cutoff);
    }
  }

  lemma NothingGone(rows: set<Stored>, cutoff: int)
    ensures OnlyFrom(rows, rows, cutoff)
  {
  }

  lemma OnlyFromJoins(a: set<Stored>, b: set<Stored>, c: set<Stored>, cutoff: int, later: int)
    requires c <= b <= a && OnlyFrom(a, b, cutoff) && OnlyFrom(b, c, later) && cutoff <= later
    ensures OnlyFrom(a, c, later)
  {
    forall r | r in a && r !in c ensures exists e :: e in a && e.ctid == r.ctid && e.timestamp < later {
      if r !in b {
        var e :| e in a && e.ctid == r.ctid && e.timestamp < cutoff;
      }
    }
  }

  /** What a DELETE may leave of the rows, with how many it affected. */
  ghost predicate IsBatch(rows: set<Stored>, cutoff: int, left: set<Stored>, affected: nat) {
    var expired := OlderThan(rows, cutoff);
    && left <= rows && |left| == |rows| - affected && OnlyFrom(rows, left, cutoff)
    && (affected == 0 <==> expired == {}) && (affected == 0 ==> left == rows)
    && affected >= (if |expired| < 10_000 then |expired| else 10_000)
    && (OneHeap(rows) ==> affected <= 10_000 && forall r :: r in rows && r !in left ==> r.timestamp < cutoff)
  }

  lemma RemovedIsBatch(rows: set<Stored>, cutoff: int, selected: set<Stored>)
    requires Selection(rows, cutoff, selected)
    ensures var removed := Removed(rows, selected); IsBatch(rows, cutoff, rows - removed, |removed|)
  {
    BatchEffect(rows, cutoff, selected);
    BatchOnlyFrom(rows, cutoff, selected);
    hide OnlyFrom, OlderThan, Removed, Selection, OneHeap;
  }

  method Batch(rows: set<Stored>, cutoff: int) returns (left: set<Stored>, affected: nat)
    ensures IsBatch(rows, cutoff, left, affected)
  {
    hide IsBatch, Selection;
    var selected := InnerSelect(rows, cutoff);
    var removed := Removed(rows, selected);
    RemovedIsBatch(rows, cutoff, selected);
    affected := |removed|;
    left := rows - removed;
  }

  // ---------- the store ----------

  class LogStore {
    var catalog: Catalog
    var rows: set<Stored>
    var now: int

    ghost predicate Valid()
      reads this
    {
      Aligned(catalog) && Placed(catalog, rows)
    }

    /** One DELETE statement. */
    method DeleteBatch(retentionDays: nat) returns (affected: nat)
      modifies this`rows
      ensures rows <= old(rows)
      ensures affected == 0 <==> OlderThan(old(rows), Cutoff(now, retentionDays)) == {}
      ensures affected == 0 ==> rows == old(rows)
      ensures |rows| == |old(rows)| - affected
      ensures OneHeap(old(rows)) ==> affected <= 10_000
      ensures affected >= var expired := |OlderThan(old(rows), Cutoff(now, retentionDays))|; if expired < 10_000 then expired else 10_000
      ensures OnlyFrom(old(rows), rows, Cutoff(now, retentionDays))
      ensures OneHeap(old(rows)) ==> forall r :: r in old(rows) - rows ==> r.timestamp < Cutoff(now, retentionDays)
    {
      hide OnlyFrom, OlderThan, OneHeap;
      rows, affected := Batch(rows, Cutoff(now, retentionDays));
    }

    /** Time passes between statements. */
    method Wait()
      modifies this`now
      ensures now >= old(now)
    {
      var later: int :| later >= now;
      now := later;
    }

    /** Batches until one is empty. It ends; then no row is older than the cutoff of that moment; and on
        an unpartitioned table exactly the rows from the cutoff on remain. */
    method DeleteOldLogsBatched(retentionDays: nat) returns (total: nat)
      modifies this`rows, this`now
      ensures now >= old(now) && rows <= old(rows) && total == |old(rows)| - |rows|
      ensures OlderThan(rows, Cutoff(now, retentionDays)) == {}
      ensures OneHeap(old(rows)) ==> rows == old(rows) - OlderThan(old(rows), Cutoff(now, retentionDays))
      ensures OnlyFrom(old(rows), rows, Cutoff(now, retentionDays))
    {
      total := 0;
      hide OnlyFrom;
      NothingGone(rows, Cutoff(now, retentionDays));
      while true
        invariant OnlyFrom(old(rows), rows, Cutoff(now, retentionDays))
        invariant now >= old(now) && rows <= old(rows) && total == |old(rows)| - |rows|
        invariant OneHeap(old(rows)) ==> forall r :: r in old(rows) - rows ==> r.timestamp < Cutoff(now, retentionDays)
        decreases |rows|
      {
        ghost var before, was := rows, now;
        Wait();
        var affected := DeleteBatch(retentionDays);
        OnlyFromJoins(old(rows), before, rows, Cutoff(was, retentionDays), Cutoff(now, retentionDays));
        total := total + affected;
        if affected == 0 {
          ExpiredIsOlder(rows, Cutoff(now, retentionDays));
          assert OneHeap(old(rows)) ==> rows == old(rows) - OlderThan(old(rows), Cutoff(now, retentionDays));
          break;
        }
        forall r | r in old(rows) - rows && OneHeap(old(rows)) ensures r.timestamp < Cutoff(now, retentionDays) {
          if r in before {
            assert r in before - rows;
          }
        }
      }
    }

    /** The loop over the partitions: those that end by the cutoff go, with their rows, unless their DROP fails. */
    method DropExpired(cutoff: int, failing: set<string>) returns (total: nat)
      requires Valid()
      modifies this`catalog, this`rows
      ensures Valid() && catalog == AfterDrops(old(catalog), cutoff, failing) && rows <= old(rows)
      ensures forall r :: r in old(rows) ==> (r in rows <==> r.partition in catalog || r.partition !in old(catalog))
    {
      hide ParsePartitionBounds;
      total := 0;
      var todo := catalog.Keys;
      while todo != {}
        invariant rows <= old(rows) && todo <= catalog.Keys
        invariant catalog == Dropping(old(catalog), cutoff, failing, todo)
        invariant forall r :: r in old(rows) ==> (r in rows <==> r.partition in catalog || r.partition !in old(catalog))
        invariant Valid()
        decreases todo
      {
        var name :| name in todo;
        todo := todo - {name};
        if Expired(name, cutoff) && name !in failing {
          DroppedRowsExpired(catalog, rows, name, cutoff);
          catalog := catalog - {name};
          total := total + |set r | r in rows && r.partition == name|;
          rows := set r | r in rows && r.partition != name;
        }
      }
    }

    /** Afterwards no row is older than `retentionDays` whole days, and exactly the partitions that ended by then and
        could be dropped are gone; an unpartitioned table keeps every younger row. */
    method CleanupOldLogs(partitioned: bool, retentionDays: nat, failing: set<string>) returns (total: nat)
      requires Valid() && (!partitioned ==> catalog == map[])
      modifies this
      ensures Valid() && now >= old(now) && rows <= old(rows)
      ensures catalog == AfterDrops(old(catalog), Cutoff(old(now), retentionDays), failing)
      ensures forall name :: name in old(catalog) ==>
                (name !in catalog <==> old(catalog)[name].end <= old(now) - retentionDays * 86_400_000_000_000 && name !in failing)
      ensures forall r :: r in rows ==> r.timestamp >= now - retentionDays * 86_400_000_000_000
      ensures forall r :: r in old(rows) && r !in rows ==>
                || (r.partition in old(catalog) && r.partition !in catalog)
                || exists e :: e in old(rows) && e.ctid == r.ctid && e.timestamp < now - retentionDays * 86_400_000_000_000
      ensures !partitioned && OneHeap(old(rows)) ==>
                forall r :: r in old(rows) ==> (r in rows <==> r.timestamp >= now - retentionDays * 86_400_000_000_000)
    {
      DropsByEnd(catalog, Cutoff(now, retentionDays), failing);
      hide Aligned, Placed, AfterDrops, OneHeap;
      total := 0;
      if partitioned {
        total := DropExpired(Cutoff(now, retentionDays), failing);
      } else {
        NoDrops(Cutoff(now, retentionDays), failing);
      }
      ghost var kept, left := catalog, rows;
      var deleted := DeleteOldLogsBatched(retentionDays);
      total := total + deleted;
      FewerPlaced(catalog, left, rows);
      ExpiredIsOlder(rows, Cutoff(now, retentionDays));
      ExpiredIsOlder(old(rows), Cutoff(now, retentionDays));
    }
  }

  lemma FewerPlaced(cat: Catalog, rows: set<Stored>, fewer: set<Stored>)
    requires Placed(cat, rows) && fewer <= rows
    ensures Placed(cat, fewer)
  {
  }

  lemma NoDrops(cutoff: int, failing: set<string>)
    ensures AfterDrops(map[], cutoff, failing) == map[]
  {
  }

  /** A partition is dropped by the end of its range. */
  lemma DropsByEnd(cat: Catalog, cutoff: int, failing: set<string>)
    requires Aligned(cat)
    ensures forall name :: name in cat ==> (name !in AfterDrops(cat, cutoff, failing) <==> cat[name].end <= cutoff && name !in failing)
  {
    hide ParsePartitionBounds;
  }

  /** The catalog part-way through the drops: the names in `todo` are still to be looked at. */
  ghost function Dropping(cat: Catalog, cutoff: int, failing: set<string>, todo: set<string>): Catalog {
    map name | name in cat && (name in todo || !(Expired(name, cutoff) && name !in failing)) :: cat[name]
  }

  /** A partition that is dropped held only rows older than the cutoff. */
  lemma DroppedRowsExpired(cat: Catalog, rows: set<Stored>, name: string, cutoff: int)
    requires Aligned(cat) && Placed(cat, rows) && name in cat && Expired(name, cutoff)
    ensures forall r :: r in rows && r.partition == name ==> r.timestamp < cutoff
  {
    hide ParsePartitionBounds;
  }
}
