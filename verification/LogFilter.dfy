/** `buildLogWhereClauses`: filter options compiled to SQL clauses with numbered placeholders,
    and what the clauses mean under SQL's three-valued logic. */
module LogFilter {
  import opened Wrappers
  import opened LikePattern

  // ---------- rows and the database's own notions ----------

  /** A `syslog_logs` row. A column missing from `columns` is NULL; so is an absent `parsed`
      (parsed_fields) or `parsers` (matched_parsers). */
  datatype Row = Row(id: int, timestamp: int, columns: map<string, string>,
                     parsed: Option<map<string, string>>, parsers: Option<seq<string>>)

  /** What Postgres decides and the model leaves open: text collation, regular expressions,
      full-text search and reading a timestamp literal. */
  datatype Dialect = Dialect(less: (string, string) -> bool, regex: (string, string) -> bool,
                             search: (Row, string) -> bool, instant: string -> int)

  datatype Column = Static(name: string) | Parsed(key: string)

  function Lookup(m: map<string, string>, key: string): Option<string> {
    if key in m then Some(m[key]) else None
  }

  function Value(row: Row, c: Column): Option<string> {
    match c
    case Static(name) => Lookup(row.columns, name)
    case Parsed(key) => if row.parsed.None? then None else Lookup(row.parsed.value, key)
  }

  // ---------- options ----------

  datatype FieldFilter = FieldFilter(field: string, operator: string, values: seq<string>)

  datatype Options = Options(hostname: string, fromHostIp: string, severity: string, appName: string,
                             search: string, since: string, until: string, devices: seq<string>,
                             hasFields: bool, requiredParsers: seq<string>, fieldFilters: seq<FieldFilter>)

  const STATIC_FIELDS := {"hostname", "fromhost_ip", "severity", "app_name", "facility", "process_id",
                          "msg_id", "message", "raw_message"}

  predicate IsKeyChar(c: char) {
    'a' <= c <= 'z' || 'A' <= c <= 'Z' || '0' <= c <= '9' || c == '_'
  }

  predicate SafeKey(s: string) {
    s != "" && forall i :: 0 <= i < |s| ==> IsKeyChar(s[i])
  }

  predicate Usable(field: string) {
    field in STATIC_FIELDS || SafeKey(field)
  }

  function FieldColumn(field: string): Column {
    if field in STATIC_FIELDS then Static(field) else Parsed(field)
  }

  // ---------- clauses ----------

  datatype Test = Equal | NotEqual | ILike | NotILike | Greater | GreaterEqual | Less | LessEqual | Regex

  datatype Arg = TextArg(text: string) | ArrayArg(texts: seq<string>) | IntArg(n: int)

  datatype Clause =
    | Compare(column: Column, test: Test, at: nat)      // column <op> $at
    | CoalescedEqual(column: Column, at: nat)           // COALESCE(column, '') = $at
    | CoalescedIn(column: Column, ats: seq<nat>)        // COALESCE(column, '') IN ($.., ..)
    | In(column: Column, ats: seq<nat>)
    | NotIn(column: Column, ats: seq<nat>)
    | Blank(column: Column)                             // (column IS NULL OR column = '')
    | NotBlank(column: Column)                          // (column IS NOT NULL AND column != '')
    | Since(at: nat)                                    // timestamp >= $at
    | Until(at: nat)                                    // timestamp <= $at
    | Search(at: nat)                                   // search_vector @@ websearch_to_tsquery('english', $at)
    | HasParsers                                        // matched_parsers IS NOT NULL AND array_length(..) > 0
    | ParsersOverlap(at: nat)                           // matched_parsers && $at::text[]
    | Keyset(descending: bool, at: nat, idAt: nat)      // (timestamp, id) < ($at, $idAt), or > when ascending

  function Placeholders(c: Clause): seq<nat> {
    match c
    case Compare(_, _, at) => [at]
    case CoalescedEqual(_, at) => [at]
    case CoalescedIn(_, ats) => ats
    case In(_, ats) => ats
    case NotIn(_, ats) => ats
    case Blank(_) => []
    case NotBlank(_) => []
    case Since(at) => [at]
    case Until(at) => [at]
    case Search(at) => [at]
    case HasParsers => []
    case ParsersOverlap(at) => [at]
    case Keyset(_, at, idAt) => [at, idAt]
  }

  function AllPlaceholders(cs: seq<Clause>): seq<nat> {
    if cs == [] then [] else AllPlaceholders(cs[..|cs| - 1]) + Placeholders(cs[|cs| - 1])
  }

  // ---------- three-valued evaluation ----------

  datatype Truth = True | False | Unknown

  function Known(b: bool): Truth {
    if b then True else False
  }

  function Not(a: Truth): Truth {
    match a case True => False case False => True case Unknown => Unknown
  }

  function And(a: Truth, b: Truth): Truth {
    if a == False || b == False then False else if a == True && b == True then True else Unknown
  }

  function Or(a: Truth, b: Truth): Truth {
    Not(And(Not(a), Not(b)))
  }

  function ArgAt(args: seq<Arg>, at: nat): Arg {
    if 1 <= at <= |args| then args[at - 1] else IntArg(0)
  }

  function TextAt(args: seq<Arg>, at: nat): string {
    var a := ArgAt(args, at);
    if a.TextArg? then a.text else ""
  }

  function TextsAt(args: seq<Arg>, at: nat): seq<string> {
    var a := ArgAt(args, at);
    if a.ArrayArg? then a.texts else []
  }

  function IntAt(args: seq<Arg>, at: nat): int {
    var a := ArgAt(args, at);
    if a.IntArg? then a.n else 0
  }

  function Apply(db: Dialect, test: Test, v: string, arg: string): bool {
    match test
    case Equal => v == arg
    case NotEqual => v != arg
    case ILike => Like(v, arg)
    case NotILike => !Like(v, arg)
    case Greater => db.less(arg, v)
    case GreaterEqual => v == arg || db.less(arg, v)
    case Less => db.less(v, arg)
    case LessEqual => v == arg || db.less(v, arg)
    case Regex => db.regex(v, arg)
  }

  /** `v IN (list)` is the disjunction of its equalities. */
  function Member(v: Option<string>, args: seq<Arg>, ats: seq<nat>): Truth {
    if ats == [] then False
    else Or(Compared(v, TextAt(args, ats[0])), Member(v, args, ats[1..]))
  }

  function Compared(v: Option<string>, text: string): Truth {
    if v.None? then Unknown else Known(v.value == text)
  }

  function Coalesce(v: Option<string>): Option<string> {
    if v.None? then Some("") else v
  }

  function Eval(c: Clause, args: seq<Arg>, row: Row, db: Dialect): Truth {
    match c
    case Compare(column, test, at) =>
      var v := Value(row, column);
      if v.None? then Unknown else Known(Apply(db, test, v.value, TextAt(args, at)))
    case CoalescedEqual(column, at) => Compared(Coalesce(Value(row, column)), TextAt(args, at))
    case CoalescedIn(column, ats) => Member(Coalesce(Value(row, column)), args, ats)
    case In(column, ats) => Member(Value(row, column), args, ats)
    case NotIn(column, ats) => Not(Member(Value(row, column), args, ats))
    case Blank(column) => Or(Known(Value(row, column).None?), Compared(Value(row, column), ""))
    case NotBlank(column) => And(Known(Value(row, column).Some?), Not(Compared(Value(row, column), "")))
    case Since(at) => Known(row.timestamp >= db.instant(TextAt(args, at)))
    case Until(at) => Known(row.timestamp <= db.instant(TextAt(args, at)))
    case Search(at) => Known(db.search(row, TextAt(args, at)))
    case HasParsers =>
      And(Known(row.parsers.Some?), if row.parsers.None? || row.parsers.value == [] then Unknown else True)
    case ParsersOverlap(at) =>
      if row.parsers.None? then Unknown
      else Known(exists p :: p in row.parsers.value && p in TextsAt(args, at))
    case Keyset(descending, at, idAt) =>
      var ts, id := IntAt(args, at), IntAt(args, idAt);
      Known(if descending then row.timestamp < ts || (row.timestamp == ts && row.id < id)
            else row.timestamp > ts || (row.timestamp == ts && row.id > id))
  }

  /** The clauses joined with AND. */
  function EvalAll(cs: seq<Clause>, args: seq<Arg>, row: Row, db: Dialect): Truth {
    if cs == [] then True
    else And(EvalAll(cs[..|cs| - 1], args, row, db), Eval(cs[|cs| - 1], args, row, db))
  }

  /** A WHERE keeps a row when its condition is true, not when it is unknown. */
  predicate Kept(q: Query, row: Row, db: Dialect) {
    EvalAll(q.clauses, q.args, row, db) == True
  }

  // ---------- the compiled query ----------

  datatype Query = Query(clauses: seq<Clause>, args: seq<Arg>)

  function Range(from: nat, n: nat): seq<nat> {
    if n == 0 then [] else Range(from, n - 1) + [from + n - 1]
  }

  /** Placeholders run 1..n in order, each once, with one argument each. */
  predicate Aligned(q: Query) {
    AllPlaceholders(q.clauses) == Range(1, |q.args|)
  }

  function Add(q: Query, wanted: bool, c: Clause, extra: seq<Arg>): Query {
    if wanted then Query(q.clauses + [c], q.args + extra) else q
  }

  function Next(q: Query): nat {
    |q.args| + 1
  }

  function Texts(values: seq<string>): seq<Arg> {
    if values == [] then [] else Texts(values[..|values| - 1]) + [TextArg(values[|values| - 1])]
  }

  function NormalizeOperator(op: string): string {
    if op == "" then "eq"
    else if op == "not_in" then "notin"
    else if op == "starts_with" then "startswith"
    else if op == "ends_with" then "endswith"
    else op
  }

  /** The comparison and the pattern built for a one-value operator. */
  function Comparison(op: string, v: string): (Test, string) {
    if op == "neq" then (NotEqual, v)
    else if op == "contains" then (ILike, ContainsPattern(v))
    else if op == "startswith" then (ILike, StartsWithPattern(v))
    else if op == "endswith" then (ILike, EndsWithPattern(v))
    else if op == "gt" then (Greater, v)
    else if op == "gte" then (GreaterEqual, v)
    else if op == "lt" then (Less, v)
    else if op == "lte" then (LessEqual, v)
    else if op == "not_contains" then (NotILike, ContainsPattern(v))
    else if op == "regex" then (Regex, v)
    else (Equal, v)
  }

  function AddFilter(q: Query, f: FieldFilter): Query {
    var op, c := NormalizeOperator(f.operator), FieldColumn(f.field);
    if !Usable(f.field) then q
    else if op == "is_empty" then Add(q, true, Blank(c), [])
    else if op == "is_not_empty" then Add(q, true, NotBlank(c), [])
    else if f.values == [] then q
    else if op == "in" then Add(q, true, In(c, Range(Next(q), |f.values|)), Texts(f.values))
    else if op == "notin" then Add(q, true, NotIn(c, Range(Next(q), |f.values|)), Texts(f.values))
    else
      var (test, text) := Comparison(op, f.values[0]);
      Add(q, true, Compare(c, test, Next(q)), [TextArg(text)])
  }

  function AddFilters(q: Query, fs: seq<FieldFilter>): Query {
    if fs == [] then q else AddFilter(AddFilters(q, fs[..|fs| - 1]), fs[|fs| - 1])
  }

  const UNKNOWN_HOST := "__unknown__"
  const IP := Static("fromhost_ip")

  function AddText(q: Query, v: string, c: Clause, text: string): Query {
    Add(q, v != "", c, [TextArg(text)])
  }

  /** The options up to the free-text search, in the order the handler adds them. */
  function AddScalars(q: Query, o: Options): Query {
    var q1 := AddText(q, o.hostname, Compare(Static("hostname"), Equal, Next(q)), o.hostname);
    var q2 := AddHost(q1, o.fromHostIp);
    var q3 := AddText(q2, o.severity, Compare(Static("severity"), Equal, Next(q2)), o.severity);
    var q4 := AddText(q3, o.appName, Compare(Static("app_name"), ILike, Next(q3)), ContainsPattern(o.appName));
    var q5 := AddText(q4, o.since, Since(Next(q4)), o.since);
    var q6 := AddText(q5, o.until, Until(Next(q5)), o.until);
    AddText(q6, o.search, Search(Next(q6)), o.search)
  }

  function AddHost(q: Query, ip: string): Query {
    if ip == UNKNOWN_HOST then Add(q, true, Blank(IP), [])
    else AddText(q, ip, CoalescedEqual(IP, Next(q)), ip)
  }

  function AddDevices(q: Query, devices: seq<string>): Query {
    Add(q, devices != [], CoalescedIn(IP, Range(Next(q), |devices|)), Texts(devices))
  }

  function AddParsers(q: Query, hasFields: bool, required: seq<string>): Query {
    var q1 := Add(q, hasFields, HasParsers, []);
    Add(q1, required != [], ParsersOverlap(Next(q1)), [ArrayArg(required)])
  }

  function Compile(o: Options): Query {
    AddFilters(AddParsers(AddDevices(AddScalars(Query([], []), o), o.devices), o.hasFields, o.requiredParsers),
               o.fieldFilters)
  }

  // ---------- what the options ask for ----------

  /** The nine columns a filter may name; other fields are keys of parsed_fields. */
  predicate NamesColumn(field: string) {
    field == "hostname" || field == "fromhost_ip" || field == "severity" || field == "app_name" || field == "facility" ||
    field == "process_id" || field == "msg_id" || field == "message" || field == "raw_message"
  }

  /** Letters, digits and underscores, at least one. */
  predicate NamesKey(field: string) {
    |field| > 0 && forall i :: 0 <= i < |field| ==>
      ('a' <= field[i] <= 'z' || 'A' <= field[i] <= 'Z' || '0' <= field[i] <= '9' || field[i] == '_')
  }

  function ColumnValue(row: Row, name: string): Option<string> {
    if name in row.columns then Some(row.columns[name]) else None
  }

  function FieldValue(row: Row, field: string): Option<string> {
    if NamesColumn(field) then ColumnValue(row, field)
    else if row.parsed.Some? && field in row.parsed.value then Some(row.parsed.value[field])
    else None
  }

  /** One filter over the operators as clients send them. A filter on an unusable field, or without a value where one
      is needed, asks for nothing; NULL passes only "is_empty". */
  ghost predicate PassesFilter(f: FieldFilter, row: Row, db: Dialect) {
    var op, v := f.operator, FieldValue(row, f.field);
    if !NamesColumn(f.field) && !NamesKey(f.field) then true
    else if op == "is_empty" then v == None || v == Some("")
    else if op == "is_not_empty" then v != None && v != Some("")
    else if f.values == [] then true
    else v.Some? && PassesValue(op, v.value, f.values, db)
  }

  ghost predicate PassesValue(op: string, v: string, values: seq<string>, db: Dialect)
    requires values != []
  {
    var w := values[0];
    if op == "" || op == "eq" then v == w
    else if op == "neq" then v != w
    else if op == "in" then v in values
    else if op == "not_in" || op == "notin" then v !in values
    else if op == "contains" then Like(v, "%" + w + "%")
    else if op == "not_contains" then !Like(v, "%" + w + "%")
    else if op == "starts_with" || op == "startswith" then Like(v, w + "%")
    else if op == "ends_with" || op == "endswith" then Like(v, "%" + w)
    else if op == "gt" then db.less(w, v)
    else if op == "gte" then v == w || db.less(w, v)
    else if op == "lt" then db.less(v, w)
    else if op == "lte" then v == w || db.less(v, w)
    else if op == "regex" then db.regex(v, w)
    else v == w
  }

  /** For a value without pattern characters the text operators find it as it is, letter case aside. */
  lemma TextOperators(v: string, values: seq<string>, db: Dialect)
    requires values != [] && Plain(values[0])
    ensures PassesValue("contains", v, values, db) <==> Contains(v, values[0])
    ensures PassesValue("not_contains", v, values, db) <==> !Contains(v, values[0])
    ensures PassesValue("starts_with", v, values, db) <==> StartsWith(v, values[0])
    ensures PassesValue("startswith", v, values, db) <==> StartsWith(v, values[0])
    ensures PassesValue("ends_with", v, values, db) <==> EndsWith(v, values[0])
    ensures PassesValue("endswith", v, values, db) <==> EndsWith(v, values[0])
  {
    hide Like, Contains, StartsWith, EndsWith, Plain;
    PlainContains(v, values[0]);
    PlainStartsWith(v, values[0]);
    PlainEndsWith(v, values[0]);
  }

  function Host(row: Row): string {
    var v := ColumnValue(row, "fromhost_ip");
    if v.None? then "" else v.value
  }

  ghost predicate PassesScalars(o: Options, row: Row, db: Dialect) {
    && (o.hostname != "" ==> ColumnValue(row, "hostname") == Some(o.hostname))
    && PassesHost(o.fromHostIp, row)
    && (o.severity != "" ==> ColumnValue(row, "severity") == Some(o.severity))
    && (o.appName != "" ==> ColumnValue(row, "app_name").Some? && Like(ColumnValue(row, "app_name").value, "%" + o.appName + "%"))
    && (o.since != "" ==> db.instant(o.since) <= row.timestamp)
    && (o.until != "" ==> row.timestamp <= db.instant(o.until))
    && (o.search != "" ==> db.search(row, o.search))
  }

  ghost predicate PassesHost(ip: string, row: Row) {
    if ip == "__unknown__" then Host(row) == "" else ip != "" ==> Host(row) == ip
  }

  ghost predicate PassesParsers(hasFields: bool, required: seq<string>, row: Row) {
    && (hasFields ==> row.parsers.Some? && row.parsers.value != [])
    && (required != [] ==> row.parsers.Some? && exists p :: p in row.parsers.value && p in required)
  }

  /** The rows the options ask for, said without clauses, placeholders or unknown truth values. */
  ghost predicate Wanted(o: Options, row: Row, db: Dialect) {
    && PassesScalars(o, row, db)
    && (o.devices != [] ==> Host(row) in o.devices)
    && PassesParsers(o.hasFields, o.requiredParsers, row)
    && forall i :: 0 <= i < |o.fieldFilters| ==> PassesFilter(o.fieldFilters[i], row, db)
  }

  // ---------- the proof ----------

  lemma {:induction false} RangeAppend(from: nat, m: nat, n: nat)
    ensures Range(from, m) + Range(from + m, n) == Range(from, m + n)
  {
    if n > 0 {
      RangeAppend(from, m, n - 1);
      assert Range(from, m) + (Range(from + m, n - 1) + [from + m + n - 1])
          == (Range(from, m) + Range(from + m, n - 1)) + [from + m + n - 1];
    }
  }

  lemma {:induction false} RangeElements(from: nat, n: nat)
    ensures |Range(from, n)| == n
    ensures forall i :: 0 <= i < n ==> Range(from, n)[i] == from + i
  {
    if n > 0 {
      RangeElements(from, n - 1);
    }
  }

  lemma {:induction false} TextsElements(values: seq<string>)
    ensures |Texts(values)| == |values|
    ensures forall i :: 0 <= i < |values| ==> Texts(values)[i] == TextArg(values[i])
  {
    if values != [] {
      TextsElements(values[..|values| - 1]);
    }
  }

  lemma {:induction false} PlaceholderBound(cs: seq<Clause>, k: nat, i: nat, j: nat)
    requires forall n :: 0 <= n < |AllPlaceholders(cs)| ==> 1 <= AllPlaceholders(cs)[n] <= k
    requires i < |cs| && j < |Placeholders(cs[i])|
    ensures 1 <= Placeholders(cs[i])[j] <= k
  {
    var front := cs[..|cs| - 1];
    assert AllPlaceholders(cs) == AllPlaceholders(front) + Placeholders(cs[|cs| - 1]);
    if i < |cs| - 1 {
      assert front[i] == cs[i];
      assert forall n :: 0 <= n < |AllPlaceholders(front)| ==> AllPlaceholders(front)[n] == AllPlaceholders(cs)[n];
      PlaceholderBound(front, k, i, j);
    } else {
      assert AllPlaceholders(cs)[|AllPlaceholders(front)| + j] == Placeholders(cs[i])[j];
    }
  }

  lemma {:induction false} MemberFrame(v: Option<string>, args: seq<Arg>, more: seq<Arg>, ats: seq<nat>)
    requires forall i :: 0 <= i < |ats| ==> 1 <= ats[i] <= |args|
    ensures Member(v, args + more, ats) == Member(v, args, ats)
  {
    if ats != [] {
      MemberFrame(v, args, more, ats[1..]);
    }
  }

  /** A clause does not see arguments added after its own. */
  lemma EvalFrame(c: Clause, args: seq<Arg>, more: seq<Arg>, row: Row, db: Dialect)
    requires forall i :: 0 <= i < |Placeholders(c)| ==> 1 <= Placeholders(c)[i] <= |args|
    ensures Eval(c, args + more, row, db) == Eval(c, args, row, db)
  {
    hide Member;
    match c
    case CoalescedIn(column, ats) =>
      assert Placeholders(c) == ats;
      MemberFrame(Coalesce(Value(row, column)), args, more, ats);
    case In(column, ats) =>
      assert Placeholders(c) == ats;
      MemberFrame(Value(row, column), args, more, ats);
    case NotIn(column, ats) =>
      assert Placeholders(c) == ats;
      MemberFrame(Value(row, column), args, more, ats);
    case Keyset(_, at, idAt) =>
      assert Placeholders(c)[0] == at && Placeholders(c)[1] == idAt;
    case Compare(_, _, at) => assert Placeholders(c)[0] == at;
    case CoalescedEqual(_, at) => assert Placeholders(c)[0] == at;
    case Since(at) => assert Placeholders(c)[0] == at;
    case Until(at) => assert Placeholders(c)[0] == at;
    case Search(at) => assert Placeholders(c)[0] == at;
    case ParsersOverlap(at) => assert Placeholders(c)[0] == at;
    case _ =>
  }

  lemma {:induction false} EvalAllFrame(cs: seq<Clause>, args: seq<Arg>, more: seq<Arg>, row: Row, db: Dialect)
    requires forall i, j :: 0 <= i < |cs| && 0 <= j < |Placeholders(cs[i])| ==> 1 <= Placeholders(cs[i])[j] <= |args|
    ensures EvalAll(cs, args + more, row, db) == EvalAll(cs, args, row, db)
  {
    if cs != [] {
      EvalAllFrame(cs[..|cs| - 1], args, more, row, db);
      EvalFrame(cs[|cs| - 1], args, more, row, db);
    }
  }

  lemma AlignedBounds(q: Query)
    requires Aligned(q)
    ensures forall i, j :: 0 <= i < |q.clauses| && 0 <= j < |Placeholders(q.clauses[i])| ==>
              1 <= Placeholders(q.clauses[i])[j] <= |q.args|
  {
    hide Placeholders;
    RangeElements(1, |q.args|);
    forall i, j | 0 <= i < |q.clauses| && 0 <= j < |Placeholders(q.clauses[i])|
      ensures 1 <= Placeholders(q.clauses[i])[j] <= |q.args|
    {
      PlaceholderBound(q.clauses, |q.args|, i, j);
    }
  }

  lemma AddAligned(q: Query, c: Clause, extra: seq<Arg>)
    requires Aligned(q) && Placeholders(c) == Range(Next(q), |extra|)
    ensures Aligned(Query(q.clauses + [c], q.args + extra))
  {
    hide Placeholders, Range;
    var cs := q.clauses + [c];
    assert cs[..|cs| - 1] == q.clauses;
    RangeAppend(1, |q.args|, |extra|);
  }

  /** Adding a clause on the next free placeholders keeps the numbering aligned and narrows the
      kept rows by exactly that clause. */
  lemma AddMeaning(q: Query, wanted: bool, c: Clause, extra: seq<Arg>, row: Row, db: Dialect)
    requires Aligned(q)
    requires wanted ==> Placeholders(c) == Range(Next(q), |extra|)
    ensures Aligned(Add(q, wanted, c, extra))
    ensures Kept(Add(q, wanted, c, extra), row, db) <==>
            Kept(q, row, db) && (wanted ==> Eval(c, q.args + extra, row, db) == True)
  {
    if wanted {
      hide Placeholders, Range, Aligned, Eval;
      AddAligned(q, c, extra);
      AlignedBounds(q);
      EvalAllFrame(q.clauses, q.args, extra, row, db);
      var cs := q.clauses + [c];
      assert cs[..|cs| - 1] == q.clauses;
    }
  }

  lemma AddTextMeaning(q: Query, v: string, c: Clause, text: string, row: Row, db: Dialect)
    requires Aligned(q) && Placeholders(c) == [Next(q)]
    ensures Aligned(AddText(q, v, c, text))
    ensures Kept(AddText(q, v, c, text), row, db) <==>
            Kept(q, row, db) && (v != "" ==> Eval(c, q.args + [TextArg(text)], row, db) == True)
    ensures TextAt(q.args + [TextArg(text)], Next(q)) == text
  {
    assert Range(Next(q), 1) == Range(Next(q), 0) + [Next(q)];
    AddMeaning(q, v != "", c, [TextArg(text)], row, db);
  }

  lemma {:induction false} MemberMeaning(v: string, args: seq<Arg>, ats: seq<nat>, values: seq<string>)
    requires |ats| == |values|
    requires forall i :: 0 <= i < |ats| ==> TextAt(args, ats[i]) == values[i]
    ensures Member(Some(v), args, ats) == Known(v in values)
    ensures values != [] ==> Member(None, args, ats) == Unknown
  {
    if ats != [] {
      MemberMeaning(v, args, ats[1..], values[1..]);
      assert v in values <==> v == values[0] || v in values[1..];
    }
  }

  lemma ListArguments(q: Query, values: seq<string>)
    ensures |Texts(values)| == |Range(Next(q), |values|)| == |values|
    ensures forall i :: 0 <= i < |values| ==>
              TextAt(q.args + Texts(values), Range(Next(q), |values|)[i]) == values[i]
  {
    RangeElements(Next(q), |values|);
    TextsElements(values);
  }

  lemma DevicesMeaning(q: Query, devices: seq<string>, row: Row, db: Dialect)
    requires Aligned(q)
    ensures Aligned(AddDevices(q, devices))
    ensures Kept(AddDevices(q, devices), row, db) <==> Kept(q, row, db) && (devices != [] ==> Host(row) in devices)
  {
    ListArguments(q, devices);
    var ats := Range(Next(q), |devices|);
    AddMeaning(q, devices != [], CoalescedIn(IP, ats), Texts(devices), row, db);
    MemberMeaning(Host(row), q.args + Texts(devices), ats, devices);
  }

  lemma ParsersMeaning(q: Query, hasFields: bool, required: seq<string>, row: Row, db: Dialect)
    requires Aligned(q)
    ensures Aligned(AddParsers(q, hasFields, required))
    ensures Kept(AddParsers(q, hasFields, required), row, db) <==>
            Kept(q, row, db) && PassesParsers(hasFields, required, row)
  {
    hide Kept, Aligned, AllPlaceholders;
    AddMeaning(q, hasFields, HasParsers, [], row, db);
    var q1 := Add(q, hasFields, HasParsers, []);
    assert Range(Next(q1), 1) == Range(Next(q1), 0) + [Next(q1)];
    AddMeaning(q1, required != [], ParsersOverlap(Next(q1)), [ArrayArg(required)], row, db);
    assert TextsAt(q1.args + [ArrayArg(required)], Next(q1)) == required;
  }

  lemma HostMeaning(q: Query, ip: string, row: Row, db: Dialect)
    requires Aligned(q)
    ensures Aligned(AddHost(q, ip))
    ensures Kept(AddHost(q, ip), row, db) <==> Kept(q, row, db) && PassesHost(ip, row)
  {
    if ip == UNKNOWN_HOST {
      AddMeaning(q, true, Blank(IP), [], row, db);
    } else {
      AddTextMeaning(q, ip, CoalescedEqual(IP, Next(q)), ip, row, db);
    }
  }

  lemma EqualMeaning(q: Query, v: string, name: string, row: Row, db: Dialect)
    requires Aligned(q)
    ensures var r := AddText(q, v, Compare(Static(name), Equal, Next(q)), v);
            Aligned(r) && (Kept(r, row, db) <==> Kept(q, row, db) && (v != "" ==> ColumnValue(row, name) == Some(v)))
  {
    hide Kept, Aligned, AddText;
    AddTextMeaning(q, v, Compare(Static(name), Equal, Next(q)), v, row, db);
  }

  lemma AppNameMeaning(q: Query, v: string, row: Row, db: Dialect)
    requires Aligned(q)
    ensures var r := AddText(q, v, Compare(Static("app_name"), ILike, Next(q)), ContainsPattern(v));
            && Aligned(r)
            && (Kept(r, row, db) <==>
                Kept(q, row, db) && (v != "" ==> ColumnValue(row, "app_name").Some? && Like(ColumnValue(row, "app_name").value, "%" + v + "%")))
  {
    hide Kept, Aligned, AddText, Like;
    AddTextMeaning(q, v, Compare(Static("app_name"), ILike, Next(q)), ContainsPattern(v), row, db);
  }

  lemma TimesMeaning(q: Query, since: string, until: string, search: string, row: Row, db: Dialect)
    requires Aligned(q)
    ensures var q1 := AddText(q, since, Since(Next(q)), since);
            var q2 := AddText(q1, until, Until(Next(q1)), until);
            var q3 := AddText(q2, search, Search(Next(q2)), search);
            && Aligned(q3)
            && (Kept(q3, row, db) <==>
                && Kept(q, row, db) && (since != "" ==> db.instant(since) <= row.timestamp)
                && (until != "" ==> row.timestamp <= db.instant(until)) && (search != "" ==> db.search(row, search)))
  {
    hide Kept, Aligned, AddText;
    var q1 := AddText(q, since, Since(Next(q)), since);
    AddTextMeaning(q, since, Since(Next(q)), since, row, db);
    var q2 := AddText(q1, until, Until(Next(q1)), until);
    AddTextMeaning(q1, until, Until(Next(q1)), until, row, db);
    AddTextMeaning(q2, search, Search(Next(q2)), search, row, db);
  }

  lemma ScalarsMeaning(q: Query, o: Options, row: Row, db: Dialect)
    requires Aligned(q)
    ensures Aligned(AddScalars(q, o))
    ensures Kept(AddScalars(q, o), row, db) <==> Kept(q, row, db) && PassesScalars(o, row, db)
  {
    hide Kept, Aligned, ColumnValue, Like, ContainsPattern, AddText, AddHost, PassesHost;
    var q1 := AddText(q, o.hostname, Compare(Static("hostname"), Equal, Next(q)), o.hostname);
    EqualMeaning(q, o.hostname, "hostname", row, db);
    var q2 := AddHost(q1, o.fromHostIp);
    HostMeaning(q1, o.fromHostIp, row, db);
    var q3 := AddText(q2, o.severity, Compare(Static("severity"), Equal, Next(q2)), o.severity);
    EqualMeaning(q2, o.severity, "severity", row, db);
    AppNameMeaning(q3, o.appName, row, db);
    TimesMeaning(AddText(q3, o.appName, Compare(Static("app_name"), ILike, Next(q3)), ContainsPattern(o.appName)), o.since, o.until, o.search, row, db);
  }

  /** The filter by its normalized operator, as the compiler looks at it. */
  ghost predicate PassesNormalized(f: FieldFilter, row: Row, db: Dialect) {
    var op, v := NormalizeOperator(f.operator), Value(row, FieldColumn(f.field));
    if !Usable(f.field) then true
    else if op == "is_empty" then v.None? || v.value == ""
    else if op == "is_not_empty" then v.Some? && v.value != ""
    else if f.values == [] then true
    else v.Some? && PassesValue(op, v.value, f.values, db)
  }

  lemma SameField(field: string, row: Row)
    ensures Usable(field) <==> NamesColumn(field) || NamesKey(field)
    ensures Value(row, FieldColumn(field)) == FieldValue(row, field)
  {
    assert NamesColumn(field) <==> field in STATIC_FIELDS;
  }

  lemma SameOperator(op: string, v: string, values: seq<string>, db: Dialect)
    requires values != []
    ensures PassesValue(NormalizeOperator(op), v, values, db) <==> PassesValue(op, v, values, db)
    ensures NormalizeOperator(op) == "is_empty" <==> op == "is_empty"
    ensures NormalizeOperator(op) == "is_not_empty" <==> op == "is_not_empty"
  {
    hide Like;
  }

  lemma SameFilter(f: FieldFilter, row: Row, db: Dialect)
    ensures PassesNormalized(f, row, db) <==> PassesFilter(f, row, db)
  {
    SameField(f.field, row);
    hide NormalizeOperator, PassesValue, Usable, NamesColumn, NamesKey, Value, FieldColumn, FieldValue;
    SameOperator(f.operator, "", [""], db);
    var v := FieldValue(row, f.field);
    if v.Some? && f.values != [] {
      SameOperator(f.operator, v.value, f.values, db);
    }
  }

  lemma FilterMeaning(q: Query, f: FieldFilter, row: Row, db: Dialect)
    requires Aligned(q)
    ensures Aligned(AddFilter(q, f))
    ensures Kept(AddFilter(q, f), row, db) <==> Kept(q, row, db) && PassesFilter(f, row, db)
  {
    hide AddFilter, Kept, Aligned, PassesFilter, PassesNormalized;
    NormalizedMeaning(q, f, row, db);
    SameFilter(f, row, db);
  }

  lemma NormalizedMeaning(q: Query, f: FieldFilter, row: Row, db: Dialect)
    requires Aligned(q)
    ensures Aligned(AddFilter(q, f))
    ensures Kept(AddFilter(q, f), row, db) <==> Kept(q, row, db) && PassesNormalized(f, row, db)
  {
    var op, c := NormalizeOperator(f.operator), FieldColumn(f.field);
    var v := Value(row, c);
    if !Usable(f.field) {
    } else if op == "is_empty" {
      AddMeaning(q, true, Blank(c), [], row, db);
    } else if op == "is_not_empty" {
      AddMeaning(q, true, NotBlank(c), [], row, db);
    } else if f.values == [] {
    } else if op == "in" || op == "notin" {
      ListMeaning(q, f, row, db);
    } else {
      CompareMeaning(q, f, row, db);
    }
  }

  lemma ListMeaning(q: Query, f: FieldFilter, row: Row, db: Dialect)
    requires Aligned(q) && Usable(f.field) && f.values != []
    requires NormalizeOperator(f.operator) == "in" || NormalizeOperator(f.operator) == "notin"
    ensures Aligned(AddFilter(q, f))
    ensures Kept(AddFilter(q, f), row, db) <==> Kept(q, row, db) && PassesNormalized(f, row, db)
  {
    var op, c := NormalizeOperator(f.operator), FieldColumn(f.field);
    hide Kept, Aligned, NormalizeOperator, FieldColumn, Member, Range, Texts, TextAt;
    var v, ats := Value(row, c), Range(Next(q), |f.values|);
    ListArguments(q, f.values);
    MemberMeaning(if v.Some? then v.value else "", q.args + Texts(f.values), ats, f.values);
    AddMeaning(q, true, if op == "in" then In(c, ats) else NotIn(c, ats), Texts(f.values), row, db);
  }

  lemma CompareMeaning(q: Query, f: FieldFilter, row: Row, db: Dialect)
    requires Aligned(q) && Usable(f.field) && f.values != []
    requires NormalizeOperator(f.operator) !in {"in", "notin", "is_empty", "is_not_empty"}
    ensures Aligned(AddFilter(q, f))
    ensures Kept(AddFilter(q, f), row, db) <==> Kept(q, row, db) && PassesNormalized(f, row, db)
  {
    var op, c := NormalizeOperator(f.operator), FieldColumn(f.field);
    var (test, text) := Comparison(op, f.values[0]);
    var clause := Compare(c, test, Next(q));
    assert Range(Next(q), 1) == Range(Next(q), 0) + [Next(q)];
    AddMeaning(q, true, clause, [TextArg(text)], row, db);
    assert TextAt(q.args + [TextArg(text)], Next(q)) == text;
    var v := Value(row, c);
    if v.Some? {
      ComparisonMeaning(op, v.value, f.values, db);
    }
  }

  lemma ComparisonMeaning(op: string, v: string, values: seq<string>, db: Dialect)
    requires values != [] && op !in {"in", "notin", "not_in", "starts_with", "ends_with"}
    ensures var (test, text) := Comparison(op, values[0]);
            Apply(db, test, v, text) <==> PassesValue(op, v, values, db)
  {
  }

  lemma {:induction false} FiltersMeaning(q: Query, fs: seq<FieldFilter>, row: Row, db: Dialect)
    requires Aligned(q)
    ensures Aligned(AddFilters(q, fs))
    ensures Kept(AddFilters(q, fs), row, db) <==>
            Kept(q, row, db) && forall i :: 0 <= i < |fs| ==> PassesFilter(fs[i], row, db)
  {
    hide PassesFilter, AddFilter, Kept, Aligned;
    if fs != [] {
      var front, last := fs[..|fs| - 1], fs[|fs| - 1];
      FiltersMeaning(q, front, row, db);
      FilterMeaning(AddFilters(q, front), last, row, db);
      assert forall i :: 0 <= i < |front| ==> front[i] == fs[i];
    }
  }

  /** The compiled clauses keep exactly the rows the options ask for, and their placeholders are
      1..n in order, each once, one per argument. */
  lemma CompileMeaning(o: Options, row: Row, db: Dialect)
    ensures Aligned(Compile(o))
    ensures Kept(Compile(o), row, db) <==> Wanted(o, row, db)
  {
    var q0 := Query([], []);
    assert Aligned(q0) && Kept(q0, row, db);
    hide Kept, Aligned, AddScalars, AddDevices, AddParsers, AddFilters, PassesScalars, PassesParsers, PassesFilter;
    ScalarsMeaning(q0, o, row, db);
    var q1 := AddScalars(q0, o);
    DevicesMeaning(q1, o.devices, row, db);
    var q2 := AddDevices(q1, o.devices);
    ParsersMeaning(q2, o.hasFields, o.requiredParsers, row, db);
    var q3 := AddParsers(q2, o.hasFields, o.requiredParsers);
    FiltersMeaning(q3, o.fieldFilters, row, db);
  }

  // ---------- the loop that builds it ----------

  /** The placeholder list of an IN, with its arguments. */
  method BuildList(values: seq<string>, args0: seq<Arg>, idx0: nat) returns (ats: seq<nat>, args: seq<Arg>, idx: nat)
    ensures ats == Range(idx0, |values|)
    ensures args == args0 + Texts(values)
    ensures idx == idx0 + |values|
  {
    ats, args, idx := [], args0, idx0;
    for i := 0 to |values|
      invariant ats == Range(idx0, i) && idx == idx0 + i
      invariant args == args0 + Texts(values[..i])
    {
      ats := ats + [idx];
      args := args + [TextArg(values[i])];
      idx := idx + 1;
      assert values[..i + 1][..i] == values[..i];
    }
    assert values[..|values|] == values;
  }

  /** One field filter: its clause and arguments, or nothing when the filter is skipped. */
  method BuildFieldFilter(f: FieldFilter, clauses0: seq<Clause>, args0: seq<Arg>, idx0: nat)
    returns (clauses: seq<Clause>, args: seq<Arg>, idx: nat)
    requires idx0 == |args0| + 1
    ensures Query(clauses, args) == AddFilter(Query(clauses0, args0), f)
    ensures idx == |args| + 1
  {
    clauses, args, idx := clauses0, args0, idx0;
    if !Usable(f.field) {
      return;
    }
    var column, op := FieldColumn(f.field), NormalizeOperator(f.operator);
    if op == "is_empty" {
      clauses := clauses + [Blank(column)];
    } else if op == "is_not_empty" {
      clauses := clauses + [NotBlank(column)];
    } else if |f.values| == 0 {
    } else if op == "in" || op == "notin" {
      TextsElements(f.values);
      var ats;
      ats, args, idx := BuildList(f.values, args, idx);
      clauses := clauses + [if op == "in" then In(column, ats) else NotIn(column, ats)];
    } else {
      var (test, text) := Comparison(op, f.values[0]);
      clauses := clauses + [Compare(column, test, idx)];
      args := args + [TextArg(text)];
      idx := idx + 1;
    }
  }

  /** One optional scalar: its clause and argument when the option is set. */
  method AppendText(v: string, c: Clause, text: string, clauses0: seq<Clause>, args0: seq<Arg>, idx0: nat)
    returns (clauses: seq<Clause>, args: seq<Arg>, idx: nat)
    requires idx0 == |args0| + 1
    ensures Query(clauses, args) == AddText(Query(clauses0, args0), v, c, text)
    ensures idx == |args| + 1
  {
    clauses, args, idx := clauses0, args0, idx0;
    if v != "" {
      clauses := clauses + [c];
      args := args + [TextArg(text)];
      idx := idx + 1;
    }
  }

  method BuildScalars(o: Options) returns (clauses: seq<Clause>, args: seq<Arg>, idx: nat)
    ensures Query(clauses, args) == AddScalars(Query([], []), o)
    ensures idx == |args| + 1
  {
    hide ContainsPattern, AddText;
    clauses, args, idx := [], [], 1;
    clauses, args, idx := AppendText(o.hostname, Compare(Static("hostname"), Equal, idx), o.hostname, clauses, args, idx);
    if o.fromHostIp == UNKNOWN_HOST {
      clauses := clauses + [Blank(IP)];
      assert args + [] == args;
    } else {
      clauses, args, idx := AppendText(o.fromHostIp, CoalescedEqual(IP, idx), o.fromHostIp, clauses, args, idx);
    }
    clauses, args, idx := AppendText(o.severity, Compare(Static("severity"), Equal, idx), o.severity, clauses, args, idx);
    clauses, args, idx :=
      AppendText(o.appName, Compare(Static("app_name"), ILike, idx), ContainsPattern(o.appName), clauses, args, idx);
    clauses, args, idx := AppendText(o.since, Since(idx), o.since, clauses, args, idx);
    clauses, args, idx := AppendText(o.until, Until(idx), o.until, clauses, args, idx);
    clauses, args, idx := AppendText(o.search, Search(idx), o.search, clauses, args, idx);
  }

  method BuildLogWhereClauses(o: Options) returns (clauses: seq<Clause>, args: seq<Arg>, idx: nat)
    ensures Query(clauses, args) == Compile(o)
    ensures AllPlaceholders(clauses) == Range(1, |args|)
    ensures idx == |args| + 1
    ensures forall row, db :: Kept(Query(clauses, args), row, db) <==> Wanted(o, row, db)
  {
    hide AddScalars, Kept, Wanted;
    ghost var scalars := AddScalars(Query([], []), o);
    clauses, args, idx := BuildScalars(o);
    if |o.devices| > 0 {
      TextsElements(o.devices);
      var ats;
      ats, args, idx := BuildList(o.devices, args, idx);
      clauses := clauses + [CoalescedIn(IP, ats)];
    }
    if o.hasFields {
      clauses := clauses + [HasParsers];
    }
    if |o.requiredParsers| > 0 {
      clauses := clauses + [ParsersOverlap(idx)];
      args := args + [ArrayArg(o.requiredParsers)];
      idx := idx + 1;
    }
    ghost var q := AddParsers(AddDevices(scalars, o.devices), o.hasFields, o.requiredParsers);
    assert Query(clauses, args) == q;
    for i := 0 to |o.fieldFilters|
      invariant Query(clauses, args) == AddFilters(q, o.fieldFilters[..i])
      invariant idx == |args| + 1
    {
      clauses, args, idx := BuildFieldFilter(o.fieldFilters[i], clauses, args, idx);
      assert o.fieldFilters[..i + 1][..i] == o.fieldFilters[..i];
    }
    assert o.fieldFilters[..|o.fieldFilters|] == o.fieldFilters;
    forall row, db ensures Aligned(Compile(o)) && (Kept(Compile(o), row, db) <==> Wanted(o, row, db)) {
      CompileMeaning(o, row, db);
    }
    CompileAligned(o);
  }

  lemma CompileAligned(o: Options)
    ensures Aligned(Compile(o))
  {
    hide *;
    CompileMeaning(o, Row(0, 0, map[], None, None),
                   Dialect((a, b) => false, (a, b) => false, (r, a) => false, a => 0));
  }
}
