/** Keyset paging over the log table (`GetLogs`, `GetDashboardData`): one page per request, the
    next request continuing after the cursor of the last row shown. */
module Paging {
  import opened Wrappers
  import opened Keyset
  import opened LogFilter
  import opened Cursor

  /** `syslog_logs` by its primary key (timestamp, id). */
  type Table = map<Position, Row>

  datatype Page = Page(logs: seq<Row>, hasMore: bool, nextCursor: string)

  /** What a listing depends on: which rows it is filtered to and how its cursors are written. */
  datatype Listed = Listed(wanted: Row -> bool, encode: Position -> string, decode: string -> Option<Position>)

  ghost predicate Keyed(table: Table) {
    forall p :: p in table ==> table[p].timestamp == p.timestamp && table[p].id == p.id
  }

  function Key(r: Row): Position {
    Position(r.timestamp, r.id)
  }

  ghost function Matching(e: Listed, table: Table): set<Position> {
    set p | p in table && e.wanted(table[p])
  }

  ghost function RowsAt(table: Table, keys: seq<Position>): seq<Row>
    requires forall p :: p in keys ==> p in table
  {
    seq(|keys|, i requires 0 <= i < |keys| => assert keys[i] in keys; table[keys[i]])
  }

  lemma ListingInTable(e: Listed, table: Table, descending: bool, after: Option<Position>)
    ensures forall p :: p in Listing(descending, after, Matching(e, table)) ==> p in table
  {
    ListingContents(descending, after, Matching(e, table));
  }

  ghost function PageAfter(e: Listed, table: Table, descending: bool, after: Option<Position>, limit: nat): Page
    requires limit >= 1
  {
    ListingInTable(e, table, descending, after);
    var listing := Listing(descending, after, Matching(e, table));
    var shown := Shown(listing, limit);
    Page(RowsAt(table, shown), |listing| > limit,
         if |listing| > limit then e.encode(shown[limit - 1]) else "")
  }

  /** The response to one request; an unreadable cursor is refused. */
  ghost function Respond(e: Listed, table: Table, descending: bool, cursor: string, limit: nat): Option<Page>
    requires limit >= 1
  {
    if cursor == "" then Some(PageAfter(e, table, descending, None, limit))
    else if e.decode(cursor).None? then None
    else Some(PageAfter(e, table, descending, e.decode(cursor), limit))
  }

  // ---------- a walk over responses ----------

  /** One request of a walk: the table as it was then, the limit asked for and the page received. */
  datatype Request = Request(table: Table, limit: nat, page: Page)

  /** The client follows `nextCursor` from the start until a page says there is no more. */
  ghost predicate Follows(e: Listed, descending: bool, cursor: string, requests: seq<Request>)
    decreases |requests|
  {
    && requests != []
    && var r := requests[0];
    && Keyed(r.table) && r.limit >= 1
    && Respond(e, r.table, descending, cursor, r.limit) == Some(r.page)
    && (if r.page.hasMore then Follows(e, descending, r.page.nextCursor, requests[1..]) else |requests| == 1)
  }

  /** The cursors of the rows in these tables can be read back. */
  ghost predicate Readable(e: Listed, requests: seq<Request>) {
    forall i, p :: 0 <= i < |requests| && p in requests[i].table ==> e.encode(p) != "" && e.decode(e.encode(p)) == Some(p)
  }

  ghost function AllLogs(requests: seq<Request>): seq<Row> {
    if requests == [] then [] else requests[0].page.logs + AllLogs(requests[1..])
  }

  ghost function CursorPosition(e: Listed, cursor: string): Option<Position> {
    if cursor == "" then None else e.decode(cursor)
  }

  ghost function Keys(rows: seq<Row>): seq<Position> {
    seq(|rows|, i requires 0 <= i < |rows| => Key(rows[i]))
  }

  /** The requests in terms of keys alone. */
  ghost function VisitOf(e: Listed, r: Request): Visit {
    Visit(Matching(e, r.table), r.limit, Keys(r.page.logs), r.page.hasMore)
  }

  ghost function Visits(e: Listed, requests: seq<Request>): seq<Visit> {
    if requests == [] then [] else [VisitOf(e, requests[0])] + Visits(e, requests[1..])
  }

  lemma {:induction false} VisitsElements(e: Listed, requests: seq<Request>)
    ensures |Visits(e, requests)| == |requests|
    ensures forall i :: 0 <= i < |requests| ==> Visits(e, requests)[i] == VisitOf(e, requests[i])
  {
    if requests != [] {
      VisitsElements(e, requests[1..]);
    }
  }

  lemma PageKeys(e: Listed, r: Request, descending: bool, cursor: string)
    requires Keyed(r.table) && r.limit >= 1 && Respond(e, r.table, descending, cursor, r.limit) == Some(r.page)
    ensures var v := VisitOf(e, r);
            && IsPage(descending, CursorPosition(e, cursor), v)
            && (forall p :: p in v.shown ==> p in r.table)
            && (v.hasMore ==> v.shown != [] && r.page.nextCursor == e.encode(v.shown[|v.shown| - 1]))
  {
    hide Listing;
    var after := CursorPosition(e, cursor);
    ListingInTable(e, r.table, descending, after);
    var shown := Shown(Listing(descending, after, Matching(e, r.table)), r.limit);
    forall i | 0 <= i < |shown| ensures Keys(r.page.logs)[i] == shown[i] {
      assert shown[i] in shown;
    }
    assert Keys(r.page.logs) == shown;
  }

  /** Following the text cursors is walking the keys: encoding the last key shown and decoding it
      on the next request continues from that key. */
  lemma {:induction false} FollowingIsWalking(e: Listed, descending: bool, cursor: string, requests: seq<Request>)
    requires Follows(e, descending, cursor, requests) && Readable(e, requests)
    ensures IsWalk(descending, CursorPosition(e, cursor), Visits(e, requests))
    decreases |requests|
  {
    hide IsPage, Matching, Respond, Keys;
    var r, rest := requests[0], requests[1..];
    var v := VisitOf(e, r);
    PageKeys(e, r, descending, cursor);
    assert Visits(e, requests)[1..] == Visits(e, rest);
    if r.page.hasMore {
      var last := v.shown[|v.shown| - 1];
      assert last in v.shown && last in requests[0].table;
      assert forall i :: 0 <= i < |rest| ==> rest[i] == requests[i + 1];
      FollowingIsWalking(e, descending, r.page.nextCursor, rest);
      assert CursorPosition(e, r.page.nextCursor) == Some(last);
    }
  }

  lemma {:induction false} ShownKeys(e: Listed, requests: seq<Request>)
    ensures AllShown(Visits(e, requests)) == Keys(AllLogs(requests))
  {
    if requests != [] {
      ShownKeys(e, requests[1..]);
      assert Visits(e, requests)[1..] == Visits(e, requests[1..]);
    }
  }

  /** The row with key p matched the filters at every request. */
  ghost predicate AlwaysListed(e: Listed, p: Position, requests: seq<Request>) {
    forall i :: 0 <= i < |requests| ==> p in Matching(e, requests[i].table)
  }

  /** Following cursors from the start shows rows in listing order, none twice; each one matched when
      it was shown; and every row that matched throughout is shown, whatever was inserted, deleted
      or changed between the requests. */
  lemma FollowingShowsEachRowOnce(e: Listed, descending: bool, requests: seq<Request>)
    requires Follows(e, descending, "", requests) && Readable(e, requests)
    ensures var keys := Keys(AllLogs(requests));
            && Increasing(descending, keys)
            && (forall i, j :: 0 <= i < j < |keys| ==> keys[i] != keys[j])
            && (forall p :: p in keys ==> exists i :: 0 <= i < |requests| && p in Matching(e, requests[i].table))
            && (forall p :: AlwaysListed(e, p, requests) ==> p in keys)
  {
    hide Matching, Follows, Readable, Keys, AllLogs;
    var visits, keys := Visits(e, requests), Keys(AllLogs(requests));
    FollowingIsWalking(e, descending, "", requests);
    ShownKeys(e, requests);
    VisitsElements(e, requests);
    WalkContinues(descending, None, visits);
    IncreasingDistinct(descending, keys);
    forall p | p in keys ensures exists i :: 0 <= i < |requests| && p in Matching(e, requests[i].table) {
      WalkShowsMatches(descending, None, visits, p);
      var i :| 0 <= i < |visits| && p in visits[i].shown && p in visits[i].matching;
      assert visits[i] == VisitOf(e, requests[i]);
    }
    forall p | AlwaysListed(e, p, requests) ensures p in keys {
      WalkReaches(descending, None, visits, p);
    }
  }

  /** The rows shown are the stored ones, whole. */
  lemma PageRows(e: Listed, r: Request, descending: bool, cursor: string, i: nat)
    requires Keyed(r.table) && r.limit >= 1 && Respond(e, r.table, descending, cursor, r.limit) == Some(r.page)
    requires i < |r.page.logs|
    ensures Key(r.page.logs[i]) in r.table && r.page.logs[i] == r.table[Key(r.page.logs[i])]
  {
    hide Listing;
    var after := CursorPosition(e, cursor);
    ListingInTable(e, r.table, descending, after);
    var shown := Shown(Listing(descending, after, Matching(e, r.table)), r.limit);
    assert shown[i] in shown;
  }

  lemma {:induction false} RowsAreStored(e: Listed, descending: bool, cursor: string, table: Table, requests: seq<Request>, i: nat)
    requires Follows(e, descending, cursor, requests) && forall j :: 0 <= j < |requests| ==> requests[j].table == table
    requires i < |AllLogs(requests)|
    ensures Key(AllLogs(requests)[i]) in table && AllLogs(requests)[i] == table[Key(AllLogs(requests)[i])]
    decreases |requests|
  {
    hide Respond, Keyed;
    var r, rest := requests[0], requests[1..];
    if i < |r.page.logs| {
      PageRows(e, r, descending, cursor, i);
      assert AllLogs(requests)[i] == r.page.logs[i];
    } else {
      assert AllLogs(rest) != [];
      assert forall j :: 0 <= j < |rest| ==> rest[j] == requests[j + 1];
      RowsAreStored(e, descending, r.page.nextCursor, table, rest, i - |r.page.logs|);
    }
  }

  /** From a table that does not change, the pages joined are the matching rows in listing order. */
  lemma FollowingShowsTable(e: Listed, descending: bool, table: Table, requests: seq<Request>)
    requires Follows(e, descending, "", requests) && Readable(e, requests)
    requires forall i :: 0 <= i < |requests| ==> requests[i].table == table
    ensures IsListing(table, Listing(descending, None, Matching(e, table)), AllLogs(requests))
  {
    hide Matching, Follows, Readable, AllLogs, Listing;
    var visits, logs := Visits(e, requests), AllLogs(requests);
    FollowingIsWalking(e, descending, "", requests);
    ShownKeys(e, requests);
    VisitsElements(e, requests);
    WalkShowsListing(descending, None, Matching(e, table), visits);
    assert Keys(logs) == Listing(descending, None, Matching(e, table));
    forall i | 0 <= i < |logs| ensures Key(logs[i]) in table && logs[i] == table[Key(logs[i])] {
      RowsAreStored(e, descending, "", table, requests, i);
    }
  }

  /** `rows` are the rows of the table at these keys, in their order. */
  ghost predicate IsListing(table: Table, keys: seq<Position>, rows: seq<Row>) {
    |rows| == |keys| && forall i :: 0 <= i < |keys| ==> keys[i] in table && rows[i] == table[keys[i]]
  }

  ghost predicate ReadableTable(e: Listed, table: Table) {
    forall p :: p in table ==> e.encode(p) != "" && e.decode(e.encode(p)) == Some(p)
  }

  /** The next page's listing is what this page left out, so it is shorter. */
  lemma NextPageShrinks(e: Listed, table: Table, descending: bool, after: Option<Position>, limit: nat)
    requires ReadableTable(e, table) && limit >= 1 && PageAfter(e, table, descending, after, limit).hasMore
    ensures var next := PageAfter(e, table, descending, after, limit).nextCursor;
            && next != "" && e.decode(next).Some?
            && |Listing(descending, e.decode(next), Matching(e, table))| < |Listing(descending, after, Matching(e, table))|
  {
    hide Listing, Matching, RowsAt;
    var listing := Listing(descending, after, Matching(e, table));
    RestOfListing(descending, after, Matching(e, table), limit);
    ListingInTable(e, table, descending, after);
    assert listing[limit - 1] in listing;
  }

  /** What a client is served from a table that does not change, following cursors with limits of its
      choice: the pages end. */
  ghost function Serve(e: Listed, table: Table, descending: bool, after: Option<Position>, limits: nat -> nat, n: nat)
    : seq<Request>
    requires ReadableTable(e, table) && forall i :: limits(i) >= 1
    decreases |Listing(descending, after, Matching(e, table))|
  {
    var r := Request(table, limits(n), PageAfter(e, table, descending, after, limits(n)));
    if !r.page.hasMore then [r]
    else
      NextPageShrinks(e, table, descending, after, limits(n));
      [r] + Serve(e, table, descending, e.decode(r.page.nextCursor), limits, n + 1)
  }

  lemma {:induction false} ServeFollows(e: Listed, table: Table, descending: bool, cursor: string, limits: nat -> nat, n: nat)
    requires Keyed(table) && ReadableTable(e, table) && forall i :: limits(i) >= 1
    requires cursor == "" || e.decode(cursor).Some?
    ensures var requests := Serve(e, table, descending, CursorPosition(e, cursor), limits, n);
            && Follows(e, descending, cursor, requests)
            && forall i :: 0 <= i < |requests| ==> requests[i].table == table
    decreases |Listing(descending, CursorPosition(e, cursor), Matching(e, table))|
  {
    hide Listing, Matching, Keyed, ReadableTable, PageAfter;
    var after := CursorPosition(e, cursor);
    var requests := Serve(e, table, descending, after, limits, n);
    var page := PageAfter(e, table, descending, after, limits(n));
    assert requests[0].page == page;
    if page.hasMore {
      NextPageShrinks(e, table, descending, after, limits(n));
      ServeFollows(e, table, descending, page.nextCursor, limits, n + 1);
      assert requests[1..] == Serve(e, table, descending, e.decode(page.nextCursor), limits, n + 1);
    }
  }

  // ---------- the query the handler sends ----------

  function PageQuery(o: Options, descending: bool, after: Option<Position>): Query {
    var q := Compile(o);
    if after.None? then q
    else Add(q, true, Keyset(descending, LogFilter.Next(q), LogFilter.Next(q) + 1),
             [IntArg(after.value.timestamp), IntArg(after.value.id)])
  }

  /** The cursor's two placeholders and the LIMIT's follow the filters' own, so each still reads
      its own argument once all are appended. */
  lemma PageQueryMeaning(o: Options, db: Dialect, descending: bool, after: Option<Position>, limit: int, r: Row)
    ensures var q := PageQuery(o, descending, after);
            var full := Query(q.clauses, q.args + [IntArg(limit)]);
            && (Kept(full, r, db) <==> Wanted(o, r, db) && IsBeyond(descending, after, Key(r)))
            && IntAt(full.args, LogFilter.Next(q)) == limit
  {
    hide Kept, Wanted, Aligned, Compile;
    var q0 := Compile(o);
    CompileMeaning(o, r, db);
    if after.Some? {
      var n := LogFilter.Next(q0);
      assert Range(n, 2) == Range(n, 1) + [n + 1] && Range(n, 1) == Range(n, 0) + [n];
      AddMeaning(q0, true, Keyset(descending, n, n + 1), [IntArg(after.value.timestamp), IntArg(after.value.id)], r, db);
    }
    LaterArgument(PageQuery(o, descending, after), IntArg(limit), r, db);
  }

  lemma LaterArgument(q: Query, a: Arg, r: Row, db: Dialect)
    requires Aligned(q)
    ensures Kept(Query(q.clauses, q.args + [a]), r, db) <==> Kept(q, r, db)
  {
    hide Aligned, EvalAll;
    AlignedBounds(q);
    EvalAllFrame(q.clauses, q.args, [a], r, db);
  }

  // ---------- the handler ----------

  /** The database's part: SELECT .. WHERE .. ORDER BY .. LIMIT. */
  method Execute(table: Table, q: Query, limitAt: nat, db: Dialect, descending: bool) returns (keys: seq<Position>)
    requires IntAt(q.args, limitAt) >= 0
    ensures keys == Shown(Ordered(descending, set p | p in table && Kept(q, table[p], db)), IntAt(q.args, limitAt))
  {
    hide Kept;
    var matching := set p | p in table && Kept(q, table[p], db);
    keys := OrderBy(descending, matching, IntAt(q.args, limitAt));
  }

  /** `cursorSupported`: the two sorts that page by cursor. */
  predicate CursorSupported(sort: string) {
    sort == "" || sort == "timestamp_desc" || sort == "timestamp_asc"
  }

  function IsDescending(sort: string): bool {
    sort != "timestamp_asc"
  }

  const DEFAULT_LIMIT := 50
  const MAX_LOG_LIMIT := 1000

  /** The limit the handler works with: 50 by default, at most 1000; a negative one is not corrected. */
  function EffectiveLimit(requested: int): (limit: int)
    ensures requested >= 0 ==> 1 <= limit <= 1000
    ensures requested < 0 || 1 <= requested <= 1000 ==> limit == requested
    ensures (requested == 0 ==> limit == 50) && (requested > 1000 ==> limit == 1000)
  {
    if requested == 0 then DEFAULT_LIMIT else if requested > MAX_LOG_LIMIT then MAX_LOG_LIMIT else requested
  }

  /** The listing `GetLogs` serves for these filters. */
  ghost function LogListing(o: Options, db: Dialect): Listed {
    Listed(r => Wanted(o, r, db), EncodeCursor, DecodeCursor)
  }

  lemma QuerySelects(table: Table, o: Options, db: Dialect, descending: bool, after: Option<Position>, limit: int)
    requires Keyed(table)
    ensures var q := PageQuery(o, descending, after);
            var full := Query(q.clauses, q.args + [IntArg(limit)]);
            && (set p | p in table && Kept(full, table[p], db)) == Beyond(descending, after, Matching(LogListing(o, db), table))
            && IntAt(full.args, LogFilter.Next(q)) == limit
  {
    hide Wanted, Kept, EncodeCursor, DecodeCursor, PageQuery, IntAt, IsBeyond;
    var q := PageQuery(o, descending, after);
    var full := Query(q.clauses, q.args + [IntArg(limit)]);
    assert IntAt(full.args, LogFilter.Next(q)) == limit by {
      PageQueryMeaning(o, db, descending, after, limit, Row(0, 0, map[], None, None));
    }
    forall p | p in table
      ensures Kept(full, table[p], db) <==> p in Beyond(descending, after, Matching(LogListing(o, db), table))
    {
      PageQueryMeaning(o, db, descending, after, limit, table[p]);
      assert Key(table[p]) == p;
    }
  }

  // ---------- the order of the rows ----------

  /** Strictly by (timestamp, id), oldest first. */
  ghost predicate Rising(rows: seq<Row>) {
    forall i, j :: 0 <= i < j < |rows| ==>
      rows[i].timestamp < rows[j].timestamp || (rows[i].timestamp == rows[j].timestamp && rows[i].id < rows[j].id)
  }

  /** Strictly by (timestamp, id), newest first. */
  ghost predicate Falling(rows: seq<Row>) {
    forall i, j :: 0 <= i < j < |rows| ==>
      rows[i].timestamp > rows[j].timestamp || (rows[i].timestamp == rows[j].timestamp && rows[i].id > rows[j].id)
  }

  lemma KeysInOrder(descending: bool, rows: seq<Row>)
    requires Increasing(descending, Keys(rows))
    ensures if descending then Falling(rows) else Rising(rows)
  {
    forall i, j | 0 <= i < j < |rows| ensures Before(descending, Key(rows[i]), Key(rows[j])) {
      assert Before(descending, Keys(rows)[i], Keys(rows)[j]);
    }
  }

  lemma ResponseInOrder(e: Listed, table: Table, descending: bool, cursor: string, limit: nat)
    requires Keyed(table) && limit >= 1
    ensures var response := Respond(e, table, descending, cursor, limit);
            response.Some? ==> if descending then Falling(response.value.logs) else Rising(response.value.logs)
  {
    var response := Respond(e, table, descending, cursor, limit);
    if response.Some? {
      hide Listing, Respond, Rising, Falling;
      PageKeys(e, Request(table, limit, response.value), descending, cursor);
      ListingContents(descending, CursorPosition(e, cursor), Matching(e, table));
      KeysInOrder(descending, response.value.logs);
    }
  }

  /** A response says there is more exactly when a matching row lies beyond the cursor that it does not show. */
  lemma MoreExactlyWhen(e: Listed, table: Table, descending: bool, cursor: string, limit: nat)
    requires Keyed(table) && limit >= 1 && Respond(e, table, descending, cursor, limit).Some?
    ensures var page := Respond(e, table, descending, cursor, limit).value;
            page.hasMore <==> exists p :: p in Matching(e, table) && IsBeyond(descending, CursorPosition(e, cursor), p) && p !in Keys(page.logs)
  {
    var page := Respond(e, table, descending, cursor, limit).value;
    var after := CursorPosition(e, cursor);
    var listing := Listing(descending, after, Matching(e, table));
    PageKeys(e, Request(table, limit, page), descending, cursor);
    ListingContents(descending, after, Matching(e, table));
    IncreasingDistinct(descending, listing);
    hide Listing, Respond, Keys, Matching;
    if page.hasMore {
      var p := listing[limit];
      assert p in listing;
      assert p !in Keys(page.logs);
    }
  }

  /** The client follows `next_cursor` with one sort from the first page to the last. */
  ghost predicate LogWalk(o: Options, db: Dialect, sort: string, requests: seq<Request>) {
    CursorSupported(sort) && Follows(LogListing(o, db), IsDescending(sort), "", requests) && StoredKeys(requests)
  }

  /** A whole walk is in order too: oldest first for "timestamp_asc", else newest first. */
  lemma LogWalkInOrder(o: Options, db: Dialect, sort: string, requests: seq<Request>)
    requires LogWalk(o, db, sort, requests)
    ensures sort == "timestamp_asc" ==> Rising(AllLogs(requests))
    ensures sort == "" || sort == "timestamp_desc" ==> Falling(AllLogs(requests))
  {
    hide Follows, StoredKeys, Keys, AllLogs, LogListing, Rising, Falling, Increasing;
    LogWalkShowsEachRowOnce(o, db, IsDescending(sort), requests);
    KeysInOrder(IsDescending(sort), AllLogs(requests));
  }

  /** None is an error response. A negative limit always ends in one: LIMIT refuses a negative number, and from
      LIMIT 0 the page would be cut to -1 rows. */
  method GetLogs(table: Table, db: Dialect, o: Options, sort: string, cursor: string, requested: int)
    returns (response: Option<Page>)
    requires Keyed(table) && CursorSupported(sort)
    ensures requested < 0 ==> response == None
    ensures requested >= 0 ==> response == Respond(LogListing(o, db), table, IsDescending(sort), cursor, EffectiveLimit(requested))
    ensures response.Some? && sort == "timestamp_asc" ==> Rising(response.value.logs)
    ensures response.Some? && (sort == "" || sort == "timestamp_desc") ==> Falling(response.value.logs)
  {
    if requested >= 0 {
      ResponseInOrder(LogListing(o, db), table, IsDescending(sort), cursor, EffectiveLimit(requested));
    }
    hide Respond, LogListing, Rising, Falling, EffectiveLimit;
    response := AnswerQuery(table, db, o, IsDescending(sort), cursor, EffectiveLimit(requested));
  }

  /** The query, the page cut from its rows and the next cursor. */
  method AnswerQuery(table: Table, db: Dialect, o: Options, descending: bool, cursor: string, limit: int)
    returns (response: Option<Page>)
    requires Keyed(table) && limit != 0
    ensures limit < 0 ==> response == None
    ensures limit > 0 ==> response == Respond(LogListing(o, db), table, descending, cursor, limit)
  {
    var clauses, args, argIdx := BuildLogWhereClauses(o);
    hide Compile, Wanted, Kept, EncodeCursor, DecodeCursor, IntAt, Ordered, Matching, Beyond, AllPlaceholders, Range;
    var after: Option<Position> := None;
    if cursor != "" {
      after := DecodeCursor(cursor);
      if after.None? {
        return None;
      }
      clauses := clauses + [Keyset(descending, argIdx, argIdx + 1)];
      args := args + [IntArg(after.value.timestamp), IntArg(after.value.id)];
      argIdx := argIdx + 2;
    }
    ghost var q := PageQuery(o, descending, after);
    assert Query(clauses, args) == q && argIdx == LogFilter.Next(q);
    args := args + [IntArg(limit + 1)];
    QuerySelects(table, o, db, descending, after, limit + 1);
    if limit + 1 < 0 {
      return None;
    }
    var keys := Execute(table, Query(clauses, args), argIdx, db, descending);
    ListingInTable(LogListing(o, db), table, descending, after);
    ghost var listing := Listing(descending, after, Matching(LogListing(o, db), table));
    assert keys == Shown(listing, limit + 1);
    var hasMore := |keys| > limit;
    if hasMore && limit < 0 {
      return None;
    }
    if hasMore {
      keys := keys[..limit];
    }
    assert keys == Shown(listing, limit) && hasMore == (|listing| > limit);
    var nextCursor := "";
    if hasMore && |keys| > 0 {
      nextCursor := EncodeCursor(keys[|keys| - 1]);
    }
    var logs := seq(|keys|, i requires 0 <= i < |keys| => assert keys[i] in keys; table[keys[i]]);
    response := Some(Page(logs, hasMore, nextCursor));
  }

  // ---------- the log listing ----------

  ghost predicate StoredKeys(requests: seq<Request>) {
    forall i, p :: 0 <= i < |requests| && p in requests[i].table ==> Encodable(p)
  }

  /** The cursor of a readable position is never the empty string, which means "from the start". */
  lemma ReadableCursor(p: Position)
    requires Encodable(p)
    ensures EncodeCursor(p) != "" && DecodeCursor(EncodeCursor(p)) == Some(p)
  {
    hide EncodeCursor, Encodable;
    CursorRoundTrip(p);
    if EncodeCursor(p) == "" {
      NoCursor();
    }
  }

  lemma NoCursor()
    ensures DecodeCursor("").None?
  {
  }

  /** A client that follows `next_cursor` over the log listing sees every row that matches its
      filters throughout, once and in order, for any filters, limits and table contents with
      four-digit years and 64-bit ids. */
  lemma LogWalkShowsEachRowOnce(o: Options, db: Dialect, descending: bool, requests: seq<Request>)
    requires Follows(LogListing(o, db), descending, "", requests) && StoredKeys(requests)
    ensures var keys, e := Keys(AllLogs(requests)), LogListing(o, db);
            && Increasing(descending, keys)
            && (forall i, j :: 0 <= i < j < |keys| ==> keys[i] != keys[j])
            && (forall p :: p in keys ==> exists i :: 0 <= i < |requests| && p in Matching(e, requests[i].table))
            && (forall p :: AlwaysListed(e, p, requests) ==> p in keys)
  {
    hide Encodable, Follows, Keys, AllLogs, Matching, EncodeCursor, DecodeCursor, Wanted;
    forall i, p | 0 <= i < |requests| && p in requests[i].table
      ensures EncodeCursor(p) != "" && DecodeCursor(EncodeCursor(p)) == Some(p)
    {
      ReadableCursor(p);
    }
    FollowingShowsEachRowOnce(LogListing(o, db), descending, requests);
  }

  /** Over a table that does not change the walk ends, whatever limits the client picks, and the pages joined are
      the filtered table in order. */
  lemma LogWalkShowsTable(o: Options, db: Dialect, descending: bool, table: Table, limits: nat -> nat)
    requires Keyed(table) && (forall p :: p in table ==> Encodable(p)) && forall i :: limits(i) >= 1
    ensures var e := LogListing(o, db);
            && ReadableTable(e, table)
            && var requests := Serve(e, table, descending, None, limits, 0);
            && Follows(e, descending, "", requests)
            && IsListing(table, Ordered(descending, Matching(e, table)), AllLogs(requests))
  {
    var e := LogListing(o, db);
    hide Encodable, Follows, AllLogs, Matching, EncodeCursor, DecodeCursor, Wanted, IsListing, Ordered, Serve;
    forall p | p in table ensures EncodeCursor(p) != "" && DecodeCursor(EncodeCursor(p)) == Some(p) {
      ReadableCursor(p);
    }
    ServeFollows(e, table, descending, "", limits, 0);
    var requests := Serve(e, table, descending, None, limits, 0);
    FollowingShowsTable(e, descending, table, requests);
    assert Beyond(descending, None, Matching(e, table)) == Matching(e, table);
  }
}
