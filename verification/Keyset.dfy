/** Walking a changing set of (timestamp, id) keys page by page, each page starting strictly after
    the last key of the one before. */
module Keyset {
  import opened Wrappers

  datatype Position = Position(timestamp: int, id: int)

  /** a comes before b in the order of the listing. */
  predicate Before(descending: bool, a: Position, b: Position) {
    if descending then b.timestamp < a.timestamp || (b.timestamp == a.timestamp && b.id < a.id)
    else a.timestamp < b.timestamp || (a.timestamp == b.timestamp && a.id < b.id)
  }

  // ---------- ORDER BY ----------

  predicate IsFirst(descending: bool, keys: set<Position>, k: Position) {
    k in keys && forall s :: s in keys ==> s == k || Before(descending, k, s)
  }

  lemma {:induction false} FirstExists(descending: bool, keys: set<Position>)
    requires keys != {}
    ensures exists k :: IsFirst(descending, keys, k)
  {
    var k :| k in keys;
    var rest := keys - {k};
    if rest == {} {
      assert keys == {k};
      assert IsFirst(descending, keys, k);
    } else {
      FirstExists(descending, rest);
      var f :| IsFirst(descending, rest, f);
      var g := if Before(descending, f, k) then f else k;
      forall s | s in keys ensures s == g || Before(descending, g, s) {
        assert s != k ==> s in rest;
      }
      assert IsFirst(descending, keys, g);
    }
  }

  ghost function First(descending: bool, keys: set<Position>): (k: Position)
    requires keys != {}
    ensures IsFirst(descending, keys, k)
  {
    FirstExists(descending, keys);
    var k :| IsFirst(descending, keys, k);
    k
  }

  /** The keys in listing order. */
  ghost function Ordered(descending: bool, keys: set<Position>): seq<Position> {
    if keys == {} then []
    else
      var k := First(descending, keys);
      [k] + Ordered(descending, keys - {k})
  }

  ghost predicate Increasing(descending: bool, s: seq<Position>) {
    forall i, j :: 0 <= i < j < |s| ==> Before(descending, s[i], s[j])
  }

  lemma {:induction false} OrderedElements(descending: bool, keys: set<Position>)
    ensures |Ordered(descending, keys)| == |keys|
    ensures forall k :: k in Ordered(descending, keys) <==> k in keys
  {
    if keys != {} {
      OrderedElements(descending, keys - {First(descending, keys)});
    }
  }

  lemma {:induction false} OrderedIncreases(descending: bool, keys: set<Position>)
    ensures Increasing(descending, Ordered(descending, keys))
  {
    if keys != {} {
      var k := First(descending, keys);
      var s, rest := Ordered(descending, keys), Ordered(descending, keys - {k});
      OrderedIncreases(descending, keys - {k});
      OrderedElements(descending, keys - {k});
      forall i, j | 0 <= i < j < |s| ensures Before(descending, s[i], s[j]) {
        assert s[j] == rest[j - 1] && rest[j - 1] in rest;
        if i > 0 {
          assert s[i] == rest[i - 1];
        }
      }
    }
  }

  lemma IncreasingDistinct(descending: bool, s: seq<Position>)
    requires Increasing(descending, s)
    ensures forall i, j :: 0 <= i < j < |s| ==> s[i] != s[j]
  {
    forall i, j | 0 <= i < j < |s| ensures s[i] != s[j] {
      assert Before(descending, s[i], s[j]);
    }
  }

  /** A listing of the right keys in the right order is the ordered one. */
  lemma {:induction false} OrderedIsUnique(descending: bool, keys: set<Position>, s: seq<Position>)
    requires Increasing(descending, s) && forall k :: k in s <==> k in keys
    ensures Ordered(descending, keys) == s
  {
    if s == [] {
      assert keys == {};
    } else {
      assert s[0] in s;
      var k := First(descending, keys);
      var i :| 0 <= i < |s| && s[i] == k;
      assert i == 0;
      IncreasingDistinct(descending, s);
      var rest := s[1..];
      forall x ensures x in rest <==> x in keys - {k} {
        if x in rest {
          var j :| 0 <= j < |rest| && rest[j] == x;
          assert s[j + 1] == x && x in s;
        }
        if x in keys - {k} {
          var j :| 0 <= j < |s| && s[j] == x;
          assert rest[j - 1] == x;
        }
      }
      OrderedIsUnique(descending, keys - {k}, rest);
    }
  }

  // ---------- one page ----------

  predicate IsBeyond(descending: bool, after: Option<Position>, k: Position) {
    after.Some? ==> Before(descending, after.value, k)
  }

  ghost function Beyond(descending: bool, after: Option<Position>, matching: set<Position>): set<Position> {
    set k | k in matching && IsBeyond(descending, after, k)
  }

  ghost function Listing(descending: bool, after: Option<Position>, matching: set<Position>): seq<Position> {
    Ordered(descending, Beyond(descending, after, matching))
  }

  /** At most `limit` keys are shown; one key too many in the answer means there are more. */
  function Shown(listing: seq<Position>, limit: nat): seq<Position> {
    if |listing| > limit then listing[..limit] else listing
  }

  /** ORDER BY .. LIMIT: the first remaining key, again and again. */
  method OrderBy(descending: bool, matching: set<Position>, limit: nat) returns (keys: seq<Position>)
    ensures keys == Shown(Ordered(descending, matching), limit)
  {
    var rest := matching;
    keys := [];
    while rest != {} && |keys| < limit
      invariant |keys| <= limit
      invariant Ordered(descending, matching) == keys + Ordered(descending, rest)
      decreases rest
    {
      FirstExists(descending, rest);
      var k :| k in rest && IsFirst(descending, rest, k);
      assert k == First(descending, rest);
      assert keys + ([k] + Ordered(descending, rest - {k})) == (keys + [k]) + Ordered(descending, rest - {k});
      keys := keys + [k];
      rest := rest - {k};
    }
    OrderedElements(descending, rest);
  }

  lemma ListingContents(descending: bool, after: Option<Position>, matching: set<Position>)
    ensures Increasing(descending, Listing(descending, after, matching))
    ensures forall k :: k in Listing(descending, after, matching) <==> k in matching && IsBeyond(descending, after, k)
  {
    OrderedIncreases(descending, Beyond(descending, after, matching));
    OrderedElements(descending, Beyond(descending, after, matching));
  }

  /** The keys a page leaves out are those beyond its last one. */
  lemma RestOfListing(descending: bool, after: Option<Position>, matching: set<Position>, limit: nat)
    requires 1 <= limit < |Listing(descending, after, matching)|
    ensures var all := Listing(descending, after, matching);
            Listing(descending, Some(all[limit - 1]), matching) == all[limit..]
  {
    hide Ordered;
    var all := Listing(descending, after, matching);
    ListingContents(descending, after, matching);
    var last, rest := all[limit - 1], all[limit..];
    assert last in all;
    forall k ensures k in rest <==> k in Beyond(descending, Some(last), matching) {
      if k in rest {
        var i :| 0 <= i < |rest| && rest[i] == k;
        assert all[limit + i] == k && k in all;
      }
      if k in Beyond(descending, Some(last), matching) {
        assert k in all;
        var i :| 0 <= i < |all| && all[i] == k;
        assert i >= limit;
        assert rest[i - limit] == k;
      }
    }
    OrderedIsUnique(descending, Beyond(descending, Some(last), matching), rest);
  }

  // ---------- a walk ----------

  /** One request of a walk: the keys that matched then, the limit asked for, and what came back. */
  datatype Visit = Visit(matching: set<Position>, limit: nat, shown: seq<Position>, hasMore: bool)

  ghost predicate IsPage(descending: bool, after: Option<Position>, v: Visit) {
    var listing := Listing(descending, after, v.matching);
    v.limit >= 1 && v.shown == Shown(listing, v.limit) && v.hasMore == (|listing| > v.limit)
  }

  /** Each request continues after the last key shown, until a page says there is no more. */
  ghost predicate IsWalk(descending: bool, after: Option<Position>, visits: seq<Visit>)
    decreases |visits|
  {
    && visits != []
    && IsPage(descending, after, visits[0])
    && (if visits[0].hasMore then
          visits[0].shown != [] && IsWalk(descending, Some(visits[0].shown[|visits[0].shown| - 1]), visits[1..])
        else |visits| == 1)
  }

  ghost function AllShown(visits: seq<Visit>): seq<Position> {
    if visits == [] then [] else visits[0].shown + AllShown(visits[1..])
  }

  ghost predicate AlwaysMatching(k: Position, visits: seq<Visit>) {
    forall i :: 0 <= i < |visits| ==> k in visits[i].matching
  }

  /** Every key of `s` is beyond `after`, in order. */
  ghost predicate Continues(descending: bool, after: Option<Position>, s: seq<Position>) {
    Increasing(descending, s) && forall k :: k in s ==> IsBeyond(descending, after, k)
  }

  lemma ContinuesJoin(descending: bool, after: Option<Position>, s: seq<Position>, t: seq<Position>)
    requires s != [] && Continues(descending, after, s) && Continues(descending, Some(s[|s| - 1]), t)
    ensures Continues(descending, after, s + t)
  {
    var all, last := s + t, s[|s| - 1];
    assert last in s;
    forall k | k in t ensures Before(descending, last, k) && IsBeyond(descending, after, k) {
      assert IsBeyond(descending, Some(last), k);
    }
    forall i, j | 0 <= i < j < |all| ensures Before(descending, all[i], all[j]) {
      if i < |s| <= j {
        assert all[j] in t;
        assert i < |s| - 1 ==> Before(descending, s[i], last);
      }
    }
  }

  /** The walk continues in order from where it started. */
  lemma {:induction false} WalkContinues(descending: bool, after: Option<Position>, visits: seq<Visit>)
    requires IsWalk(descending, after, visits)
    ensures Continues(descending, after, AllShown(visits))
    decreases |visits|
  {
    hide Listing;
    var v := visits[0];
    ListingContents(descending, after, v.matching);
    assert Continues(descending, after, v.shown);
    if v.hasMore {
      WalkContinues(descending, Some(v.shown[|v.shown| - 1]), visits[1..]);
      ContinuesJoin(descending, after, v.shown, AllShown(visits[1..]));
    } else {
      assert AllShown(visits[1..]) == [];
      assert AllShown(visits) == v.shown;
    }
  }

  /** A key that matches at every request is shown. */
  lemma {:induction false} WalkReaches(descending: bool, after: Option<Position>, visits: seq<Visit>, k: Position)
    requires IsWalk(descending, after, visits)
    requires AlwaysMatching(k, visits) && IsBeyond(descending, after, k)
    ensures k in AllShown(visits)
    decreases |visits|
  {
    hide Listing;
    var v := visits[0];
    var listing := Listing(descending, after, v.matching);
    ListingContents(descending, after, v.matching);
    assert k in visits[0].matching;
    var i :| 0 <= i < |listing| && listing[i] == k;
    if i < |v.shown| {
      assert v.shown[i] == k;
    } else {
      var last := v.shown[|v.shown| - 1];
      assert listing[|v.shown| - 1] == last;
      assert forall j :: 0 <= j < |visits[1..]| ==> visits[1..][j] == visits[j + 1];
      WalkReaches(descending, Some(last), visits[1..], k);
    }
  }

  /** Every key shown matched at the request that showed it. */
  lemma {:induction false} WalkShowsMatches(descending: bool, after: Option<Position>, visits: seq<Visit>, k: Position)
    requires IsWalk(descending, after, visits) && k in AllShown(visits)
    ensures exists i :: 0 <= i < |visits| && k in visits[i].shown && k in visits[i].matching
    decreases |visits|
  {
    hide Listing;
    var v := visits[0];
    if k in v.shown {
      ListingContents(descending, after, v.matching);
    } else {
      assert k in AllShown(visits[1..]);
      WalkShowsMatches(descending, Some(v.shown[|v.shown| - 1]), visits[1..], k);
      var i :| 0 <= i < |visits[1..]| && k in visits[1..][i].shown && k in visits[1..][i].matching;
      assert visits[i + 1] == visits[1..][i];
    }
  }

  // ---------- an unchanging set ----------

  ghost predicate Unchanging(matching: set<Position>, visits: seq<Visit>) {
    forall i :: 0 <= i < |visits| ==> visits[i].matching == matching
  }

  /** A walk over an unchanging set shows the whole listing, in order. */
  lemma WalkShowsListing(descending: bool, after: Option<Position>, matching: set<Position>, visits: seq<Visit>)
    requires IsWalk(descending, after, visits) && Unchanging(matching, visits)
    ensures AllShown(visits) == Listing(descending, after, matching)
  {
    var all := AllShown(visits);
    WalkContinues(descending, after, visits);
    forall k ensures k in all <==> k in Beyond(descending, after, matching) {
      if k in all {
        WalkShowsMatches(descending, after, visits, k);
      }
      if k in Beyond(descending, after, matching) {
        WalkReaches(descending, after, visits, k);
      }
    }
    OrderedIsUnique(descending, Beyond(descending, after, matching), all);
  }
}
