/** The request schemas of the service: the identifier pattern, the play
    event body, pagination, history parameters and the date range. Each
    schema is a parser from the raw request values to either the validated
    value or the list of issues, one per failing field. */
module Types {
  import opened Base
  import opened Text
  import opened Timestamp

  // ---------------------------------------------------------------------
  // Identifiers

  /** The identifier pattern: hex groups of 8, 4, 4, 4 and 12 characters
      joined by hyphens, in either letter case, whose third group starts
      with a version digit 1-5 and whose fourth group starts with a variant
      digit 8, 9, a or b. */
  predicate IsUuid(s: string) {
    && |s| == 36
    && (forall i :: 0 <= i < 36 ==>
          if i == 8 || i == 13 || i == 18 || i == 23 then s[i] == '-' else IsHexDigit(s[i]))
    && '1' <= s[14] <= '5'
    && s[19] in "89abAB"
  }

  /** Five groups joined by hyphens. */
  function Hyphenate(g1: string, g2: string, g3: string, g4: string, g5: string): string {
    g1 + "-" + g2 + "-" + g3 + "-" + g4 + "-" + g5
  }

  /** The pattern read group by group, as the regular expression is written. */
  predicate GroupsMatch(g1: string, g2: string, g3: string, g4: string, g5: string) {
    && |g1| == 8 && |g2| == 4 && |g3| == 4 && |g4| == 4 && |g5| == 12
    && AllHex(g1) && AllHex(g2) && AllHex(g3) && AllHex(g4) && AllHex(g5)
    && '1' <= g3[0] <= '5'
    && g4[0] in "89abAB"
  }

  /** Every hyphen-joined sequence of matching groups is an identifier. */
  lemma GroupsMakeUuid(g1: string, g2: string, g3: string, g4: string, g5: string)
    requires GroupsMatch(g1, g2, g3, g4, g5)
    ensures IsUuid(Hyphenate(g1, g2, g3, g4, g5))
  {
    var s := Hyphenate(g1, g2, g3, g4, g5);
    assert s[..8] == g1 && s[9..13] == g2 && s[14..18] == g3 && s[19..23] == g4 && s[24..] == g5;
    forall i | 0 <= i < 36 && i != 8 && i != 13 && i != 18 && i != 23
      ensures IsHexDigit(s[i])
    {
      if i < 8 { assert s[i] == g1[i]; }
      else if i < 13 { assert s[i] == g2[i - 9]; }
      else if i < 18 { assert s[i] == g3[i - 14]; }
      else if i < 23 { assert s[i] == g4[i - 19]; }
      else { assert s[i] == g5[i - 24]; }
    }
  }

  /** Every identifier is such a hyphen-joined sequence of matching groups. */
  lemma UuidHasGroups(s: string)
    requires IsUuid(s)
    ensures GroupsMatch(s[..8], s[9..13], s[14..18], s[19..23], s[24..])
    ensures s == Hyphenate(s[..8], s[9..13], s[14..18], s[19..23], s[24..])
  {
    assert s[8] == '-' && s[13] == '-' && s[18] == '-' && s[23] == '-';
    assert s == s[..8] + [s[8]] + s[9..13] + [s[13]] + s[14..18] + [s[18]] + s[19..23] + [s[23]] + s[24..];
    forall k | 0 <= k < 8 ensures IsHexDigit(s[..8][k]) { assert s[..8][k] == s[k]; }
    forall k | 0 <= k < 4 ensures IsHexDigit(s[9..13][k]) { assert s[9..13][k] == s[9 + k]; }
    forall k | 0 <= k < 4 ensures IsHexDigit(s[14..18][k]) { assert s[14..18][k] == s[14 + k]; }
    forall k | 0 <= k < 4 ensures IsHexDigit(s[19..23][k]) { assert s[19..23][k] == s[19 + k]; }
    forall k | 0 <= k < 12 ensures IsHexDigit(s[24..][k]) { assert s[24..][k] == s[24 + k]; }
  }

  /** The pattern is case-insensitive: an identifier and its lower-case
      spelling are accepted together. */
  lemma UuidIgnoresCase(s: string)
    ensures IsUuid(Lower(s)) <==> IsUuid(s)
  {
    var l := Lower(s);
    if |s| == 36 {
      forall i | 0 <= i < 36
        ensures IsHexDigit(l[i]) <==> IsHexDigit(s[i])
        ensures l[i] == '-' <==> s[i] == '-'
      {
      }
      assert ('1' <= l[14] <= '5') <==> ('1' <= s[14] <= '5');
      assert l[19] in "89abAB" <==> s[19] in "89abAB";
    }
  }

  /** The spelling PostgreSQL stores for an identifier in a `uuid` column:
      the same identifier in lower case. Two spellings name the same row
      exactly when their canonical forms agree. */
  function Canonical(id: string): (r: string)
    ensures IsUuid(id) ==> IsUuid(r)
    ensures forall i :: 0 <= i < |r| ==> !('A' <= r[i] <= 'Z')
  {
    UuidIgnoresCase(id);
    Lower(id)
  }

  // ---------------------------------------------------------------------
  // Raw requests and issues

  /** One validation problem: the dotted path of the field (empty for the
      whole object) and a message. */
  datatype Issue = Issue(path: string, message: string)

  /** The JSON values a body field can hold, as far as the schemas look at
      them. Numbers are integers in this model. */
  datatype JsonValue = JString(str: string) | JNumber(num: int) | JOther

  datatype RequestBody = JsonObject(fields: map<string, JsonValue>) | NotAnObject

  /** A query-string number as the coercing schema sees it: missing, not a
      number, or a number. */
  datatype QueryNumber = Absent | NotANumber | Number(n: int)

  function Paths(issues: seq<Issue>): set<string> {
    set i | 0 <= i < |issues| :: issues[i].path
  }

  const InvalidUuid := "Invalid UUID format"
  const EmptyDevice := "Device name must not be empty"
  const NonPositiveDuration := "Playback duration must be greater than 0"
  const BadPlayedAt := "playedAt must be an ISO 8601 UTC timestamp (e.g. 2025-10-06T10:00:00Z)"
  const BadFrom := "Invalid 'from' date format"
  const BadTo := "Invalid 'to' date format"
  const FromNotEarlier := "'from' must be earlier than 'to'"
  // Wording the schema library supplies on its own.
  const Required := "Required"
  const ExpectedString := "Expected string"
  const ExpectedNumber := "Expected number"
  const ExpectedObject := "Expected object"
  const BelowMinimum := "Number must be greater than or equal to the minimum"
  const AboveMaximum := "Number must be less than or equal to the maximum"

  // ---------------------------------------------------------------------
  // Play event

  datatype PlayEvent = PlayEvent(eventId: string, userId: string, contentId: string,
                                 device: string, playbackDuration: int, playedAt: string)

  const PlayEventFields: set<string> :=
    {"eventId", "userId", "contentId", "device", "playbackDuration", "playedAt"}

  /** What each field of a play event must satisfy. */
  predicate FieldOk(fields: map<string, JsonValue>, name: string) {
    && name in fields
    && (name == "playbackDuration" ==> fields[name].JNumber? && fields[name].num > 0)
    && (name != "playbackDuration" ==> fields[name].JString? && StringRuleOk(name, fields[name].str))
  }

  predicate StringRuleOk(name: string, v: string) {
    if name == "device" then |v| >= 1
    else if name == "playedAt" then IsUtcTimestamp(v)
    else IsUuid(v)
  }

  /** Issues for one string field: missing, not a string, or failing its rule. */
  function StringIssues(fields: map<string, JsonValue>, name: string,
                        rule: string -> bool, message: string): seq<Issue>
  {
    if name !in fields then [Issue(name, Required)]
    else if !fields[name].JString? then [Issue(name, ExpectedString)]
    else if rule(fields[name].str) then []
    else [Issue(name, message)]
  }

  function DurationIssues(fields: map<string, JsonValue>): seq<Issue> {
    var name := "playbackDuration";
    if name !in fields then [Issue(name, Required)]
    else if !fields[name].JNumber? then [Issue(name, ExpectedNumber)]
    else if fields[name].num > 0 then []
    else [Issue(name, NonPositiveDuration)]
  }

  predicate NonEmpty(s: string) { |s| >= 1 }

  /** All field issues, in the order the schema lists its fields. */
  function EventIssues(fields: map<string, JsonValue>): seq<Issue> {
    StringIssues(fields, "eventId", IsUuid, InvalidUuid)
    + StringIssues(fields, "userId", IsUuid, InvalidUuid)
    + StringIssues(fields, "contentId", IsUuid, InvalidUuid)
    + StringIssues(fields, "device", NonEmpty, EmptyDevice)
    + DurationIssues(fields)
    + StringIssues(fields, "playedAt", IsUtcTimestamp, BadPlayedAt)
  }

  /** The play-event schema. A body is accepted exactly when every field
      meets its rule; otherwise every failing field, and only those, is
      reported. */
  function ParsePlayEvent(body: RequestBody): (r: Result<PlayEvent, seq<Issue>>)
    ensures r.Ok? <==> body.JsonObject? && forall n :: n in PlayEventFields ==> FieldOk(body.fields, n)
    ensures r.Ok? ==> var f := body.fields;
      r.value == PlayEvent(f["eventId"].str, f["userId"].str, f["contentId"].str,
                           f["device"].str, f["playbackDuration"].num, f["playedAt"].str)
    ensures r.Err? ==> |r.error| >= 1
    ensures r.Err? && body.JsonObject? ==>
      forall n :: n in Paths(r.error) <==> n in PlayEventFields && !FieldOk(body.fields, n)
    ensures body.NotAnObject? ==> r == Err([Issue("", ExpectedObject)])
  {
    match body
    case NotAnObject => Err([Issue("", ExpectedObject)])
    case JsonObject(f) =>
      var issues := EventIssues(f);
      EventIssuesExact(f);
      if |issues| == 0 then
        Ok(PlayEvent(f["eventId"].str, f["userId"].str, f["contentId"].str,
                     f["device"].str, f["playbackDuration"].num, f["playedAt"].str))
      else Err(issues)
  }

  lemma StringIssuesExact(fields: map<string, JsonValue>, name: string,
                          rule: string -> bool, message: string)
    requires name != "playbackDuration"
    requires name == "device" ==> rule == NonEmpty
    requires name == "playedAt" ==> rule == IsUtcTimestamp
    requires name != "device" && name != "playedAt" ==> rule == IsUuid
    ensures var issues := StringIssues(fields, name, rule, message);
      && (|issues| == 0 <==> FieldOk(fields, name))
      && Paths(issues) == (if FieldOk(fields, name) then {} else {name})
  {
    var issues := StringIssues(fields, name, rule, message);
    if |issues| == 1 {
      assert issues[0].path == name;
    }
  }

  lemma PathsConcat(a: seq<Issue>, b: seq<Issue>)
    ensures Paths(a + b) == Paths(a) + Paths(b)
  {
    var ab := a + b;
    forall p | p in Paths(a + b) ensures p in Paths(a) + Paths(b) {
      var i :| 0 <= i < |ab| && ab[i].path == p;
      if i >= |a| { assert b[i - |a|].path == p; }
    }
    forall p | p in Paths(a) + Paths(b) ensures p in Paths(a + b) {
      if p in Paths(a) {
        var i :| 0 <= i < |a| && a[i].path == p;
        assert ab[i].path == p;
      } else {
        var i :| 0 <= i < |b| && b[i].path == p;
        assert ab[|a| + i].path == p;
      }
    }
  }

  /** The paths of the failing fields, one field at a time. */
  function FailingPaths(f: map<string, JsonValue>): set<string> {
    (if FieldOk(f, "eventId") then {} else {"eventId"})
    + (if FieldOk(f, "userId") then {} else {"userId"})
    + (if FieldOk(f, "contentId") then {} else {"contentId"})
    + (if FieldOk(f, "device") then {} else {"device"})
    + (if FieldOk(f, "playbackDuration") then {} else {"playbackDuration"})
    + (if FieldOk(f, "playedAt") then {} else {"playedAt"})
  }

  lemma EventIssuePaths(f: map<string, JsonValue>)
    ensures Paths(EventIssues(f)) == FailingPaths(f)
    ensures |EventIssues(f)| == 0 <==> FailingPaths(f) == {}
  {
    var e := StringIssues(f, "eventId", IsUuid, InvalidUuid);
    var u := StringIssues(f, "userId", IsUuid, InvalidUuid);
    var c := StringIssues(f, "contentId", IsUuid, InvalidUuid);
    var d := StringIssues(f, "device", NonEmpty, EmptyDevice);
    var p := DurationIssues(f);
    var t := StringIssues(f, "playedAt", IsUtcTimestamp, BadPlayedAt);
    StringIssuesExact(f, "eventId", IsUuid, InvalidUuid);
    StringIssuesExact(f, "userId", IsUuid, InvalidUuid);
    StringIssuesExact(f, "contentId", IsUuid, InvalidUuid);
    StringIssuesExact(f, "device", NonEmpty, EmptyDevice);
    StringIssuesExact(f, "playedAt", IsUtcTimestamp, BadPlayedAt);
    assert Paths(p) == (if FieldOk(f, "playbackDuration") then {} else {"playbackDuration"}) by {
      if |p| == 1 { assert p[0].path == "playbackDuration"; }
    }
    PathsConcat(e, u);
    PathsConcat(e + u, c);
    PathsConcat(e + u + c, d);
    PathsConcat(e + u + c + d, p);
    PathsConcat(e + u + c + d + p, t);
    assert EventIssues(f) == e + u + c + d + p + t;
  }

  lemma FailingPathsExact(f: map<string, JsonValue>)
    ensures forall n :: n in FailingPaths(f) <==> n in PlayEventFields && !FieldOk(f, n)
  {
  }

  lemma EventIssuesExact(f: map<string, JsonValue>)
    ensures |EventIssues(f)| == 0 <==> forall n :: n in PlayEventFields ==> FieldOk(f, n)
    ensures forall n :: n in Paths(EventIssues(f)) <==> n in PlayEventFields && !FieldOk(f, n)
  {
    EventIssuePaths(f);
    FailingPathsExact(f);
  }

  lemma BoundIssuesPaths(name: string, q: QueryNumber, min: int, max: Option<int>)
    ensures Paths(BoundIssues(name, q, min, max)) <= {name}
  {
    var b := BoundIssues(name, q, min, max);
    forall i | 0 <= i < |b| ensures b[i].path == name { }
  }

  // ---------------------------------------------------------------------
  // User identifier, pagination, history parameters

  /** A string is a uuid exactly when it is five hyphenated groups of the
      pattern's shape. */
  lemma UuidIffGroups(s: string)
    ensures IsUuid(s) <==> exists g1, g2, g3, g4, g5 :: GroupsMatch(g1, g2, g3, g4, g5) && s == Hyphenate(g1, g2, g3, g4, g5)
  {
    if IsUuid(s) {
      UuidHasGroups(s);
    }
    forall g1, g2, g3, g4, g5 | GroupsMatch(g1, g2, g3, g4, g5) && s == Hyphenate(g1, g2, g3, g4, g5)
      ensures IsUuid(s)
    {
      GroupsMakeUuid(g1, g2, g3, g4, g5);
    }
  }

  /** The route-parameter schema of the erasure endpoint: the parameter is
      accepted exactly when it spells five hex groups of the pattern, and is
      echoed as given; otherwise the one issue names the parameter. */
  function ParseUserId(userId: string): (r: Result<string, seq<Issue>>)
    ensures r.Ok? <==> exists g1, g2, g3, g4, g5 :: GroupsMatch(g1, g2, g3, g4, g5) && userId == Hyphenate(g1, g2, g3, g4, g5)
    ensures r.Ok? <==> IsUuid(userId)
    ensures r.Ok? ==> r.value == userId
    ensures r.Err? ==> r.error == [Issue("userId", InvalidUuid)]
  {
    UuidIffGroups(userId);
    if IsUuid(userId) then Ok(userId) else Err([Issue("userId", InvalidUuid)])
  }

  const DefaultLimit := 20
  const MaxLimit := 100
  const DefaultOffset := 0

  datatype Pagination = Pagination(limit: nat, offset: nat)

  /** Issues for a coerced number with a lower and an optional upper bound. */
  function BoundIssues(name: string, q: QueryNumber, min: int, max: Option<int>): seq<Issue> {
    match q
    case Absent => []
    case NotANumber => [Issue(name, ExpectedNumber)]
    case Number(n) =>
      (if n < min then [Issue(name, BelowMinimum)] else [])
      + (if max.Some? && n > max.value then [Issue(name, AboveMaximum)] else [])
  }

  /** A coerced number fails its rule: it is not a number, or lies outside
      the bounds. An absent value never fails, since it takes its default. */
  predicate BoundFails(q: QueryNumber, min: int, max: Option<int>) {
    q.NotANumber? || (q.Number? && (q.n < min || (max.Some? && q.n > max.value)))
  }

  /** A number's issues name it exactly when it fails its rule. */
  lemma BoundIssuesExact(name: string, q: QueryNumber, min: int, max: Option<int>)
    ensures Paths(BoundIssues(name, q, min, max)) == if BoundFails(q, min, max) then {name} else {}
  {
    var b := BoundIssues(name, q, min, max);
    BoundIssuesPaths(name, q, min, max);
    if BoundFails(q, min, max) {
      assert b[0].path == name;
    }
  }

  /** The pagination issues name `limit` exactly when the limit fails and
      `offset` exactly when the offset fails. */
  lemma PaginationIssuesExact(limit: QueryNumber, offset: QueryNumber)
    ensures Paths(PaginationIssues(limit, offset))
      == (if BoundFails(limit, 1, Some(MaxLimit)) then {"limit"} else {})
       + (if BoundFails(offset, 0, None) then {"offset"} else {})
  {
    PathsConcat(BoundIssues("limit", limit, 1, Some(MaxLimit)), BoundIssues("offset", offset, 0, None));
    BoundIssuesExact("limit", limit, 1, Some(MaxLimit));
    BoundIssuesExact("offset", offset, 0, None);
  }

  function PaginationIssues(limit: QueryNumber, offset: QueryNumber): seq<Issue> {
    BoundIssues("limit", limit, 1, Some(MaxLimit)) + BoundIssues("offset", offset, 0, None)
  }

  function Or(q: QueryNumber, default: int): int {
    if q.Number? then q.n else default
  }

  /** The pagination schema: absent values take the defaults 20 and 0; the
      limit must lie in 1..100 and the offset must not be negative. */
  function ParsePagination(limit: QueryNumber, offset: QueryNumber): (r: Result<Pagination, seq<Issue>>)
    ensures r.Ok? <==> limit != NotANumber && offset != NotANumber
                       && 1 <= Or(limit, DefaultLimit) <= MaxLimit && Or(offset, DefaultOffset) >= 0
    ensures r.Ok? ==> 1 <= r.value.limit <= MaxLimit
    ensures r.Ok? && limit.Absent? ==> r.value.limit == DefaultLimit
    ensures r.Ok? && offset.Absent? ==> r.value.offset == DefaultOffset
    ensures r.Ok? && limit.Number? ==> r.value.limit == limit.n
    ensures r.Ok? && offset.Number? ==> r.value.offset == offset.n
    ensures r.Err? ==> |r.error| >= 1 && Paths(r.error) <= {"limit", "offset"}
    // Every failing field is reported, and only failing fields.
    ensures r.Err? ==>
      && ("limit" in Paths(r.error) <==> limit.NotANumber? || (limit.Number? && (limit.n < 1 || limit.n > MaxLimit)))
      && ("offset" in Paths(r.error) <==> offset.NotANumber? || (offset.Number? && offset.n < 0))
  {
    var issues := PaginationIssues(limit, offset);
    PaginationIssuesExact(limit, offset);
    if |issues| == 0 then
      Ok(Pagination(Or(limit, DefaultLimit), Or(offset, DefaultOffset)))
    else Err(issues)
  }

  datatype HistoryParams = HistoryParams(userId: string, page: Pagination)

  /** The history schema: the identifier together with the pagination
      fields, every failing field reported. */
  function ParseHistoryParams(userId: string, limit: QueryNumber, offset: QueryNumber)
    : (r: Result<HistoryParams, seq<Issue>>)
    ensures r.Ok? <==> IsUuid(userId) && ParsePagination(limit, offset).Ok?
    ensures r.Ok? ==> r.value == HistoryParams(userId, ParsePagination(limit, offset).value)
    ensures r.Err? ==> |r.error| >= 1
    ensures r.Err? ==> ("userId" in Paths(r.error) <==> !IsUuid(userId))
    ensures r.Err? ==>
      && ("limit" in Paths(r.error) <==> limit.NotANumber? || (limit.Number? && (limit.n < 1 || limit.n > MaxLimit)))
      && ("offset" in Paths(r.error) <==> offset.NotANumber? || (offset.Number? && offset.n < 0))
  {
    var idIssues := if IsUuid(userId) then [] else [Issue("userId", InvalidUuid)];
    var pageIssues := PaginationIssues(limit, offset);
    PathsConcat(idIssues, pageIssues);
    PaginationIssuesExact(limit, offset);
    assert Paths(idIssues) == if IsUuid(userId) then {} else {"userId"} by {
      if !IsUuid(userId) { assert idIssues[0].path == "userId"; }
    }
    if |idIssues| == 0 && |pageIssues| == 0 then
      Ok(HistoryParams(userId, Pagination(Or(limit, DefaultLimit), Or(offset, DefaultOffset))))
    else Err(idIssues + pageIssues)
  }

  // ---------------------------------------------------------------------
  // Date range

  /** How a date string reads as an instant, or `None` when it does not
      read as a date at all. */
  type DateParser = string -> Option<int>

  /** A validated range: the strings as given and the instants they denote. */
  datatype DateRange = DateRange(from: string, to: string, start: int, end: int)

  function DateIssues(name: string, v: Option<string>, parse: DateParser, message: string): seq<Issue> {
    if v.None? then [Issue(name, Required)]
    else if parse(v.value).None? then [Issue(name, message)]
    else []
  }

  /** A date's issues name it exactly when it is missing or unreadable. */
  lemma DateIssuesExact(name: string, v: Option<string>, parse: DateParser, message: string)
    ensures Paths(DateIssues(name, v, parse, message)) == if v.None? || parse(v.value).None? then {name} else {}
  {
    var d := DateIssues(name, v, parse, message);
    if v.None? || parse(v.value).None? {
      assert d == [Issue(name, d[0].message)];
      assert d[0].path == name;
    }
  }

  /** The date-range schema: both dates must read as instants and `from`
      must be strictly earlier than `to`. A missing date stops validation
      at the fields; a date that does not read as an instant does not, so
      the range rule is checked too and fails, an unreadable date comparing
      as earlier than nothing. */
  function ParseDateRange(from: Option<string>, to: Option<string>, parse: DateParser)
    : (r: Result<DateRange, seq<Issue>>)
    ensures r.Ok? <==> && from.Some? && to.Some?
                       && parse(from.value).Some? && parse(to.value).Some?
                       && parse(from.value).value < parse(to.value).value
    ensures r.Ok? ==> && r.value.from == from.value && r.value.to == to.value
                      && r.value.start == parse(from.value).value
                      && r.value.end == parse(to.value).value
                      && r.value.start < r.value.end
    ensures r.Err? ==> |r.error| >= 1
    ensures r.Err? && from.Some? && to.Some? ==> Issue("", FromNotEarlier) in r.error
    ensures r.Err? && (from.None? || to.None?) ==> Issue("", FromNotEarlier) !in r.error
    // Each date is reported exactly when it is missing or unreadable.
    ensures r.Err? ==>
      && ("from" in Paths(r.error) <==> from.None? || parse(from.value).None?)
      && ("to" in Paths(r.error) <==> to.None? || parse(to.value).None?)
  {
    var fromIssues := DateIssues("from", from, parse, BadFrom);
    var toIssues := DateIssues("to", to, parse, BadTo);
    var issues := fromIssues + toIssues;
    DateIssuesExact("from", from, parse, BadFrom);
    DateIssuesExact("to", to, parse, BadTo);
    PathsConcat(fromIssues, toIssues);
    PathsConcat(issues, [Issue("", FromNotEarlier)]);
    assert Paths([Issue("", FromNotEarlier)]) == {""} by {
      assert [Issue("", FromNotEarlier)][0].path == "";
    }
    if from.None? || to.None? then Err(issues)
    else if parse(from.value).Some? && parse(to.value).Some?
            && parse(from.value).value < parse(to.value).value then
      Ok(DateRange(from.value, to.value, parse(from.value).value, parse(to.value).value))
    else Err(issues + [Issue("", FromNotEarlier)])
  }
}
