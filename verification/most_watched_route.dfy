/** `GET /v1/most-watched?from&to`: validate the range, then rank the
    contents played in it. The query is not guarded by the route, so a
    failure reaches the application-wide handler. */
module MostWatchedRoute {
  import opened Base
  import opened Types
  import opened Store
  import opened AggregationService
  import opened Http

  /** `parse` reads a date string as an instant; `query` is what became of
      the aggregation query. */
  method GetMostWatchedReport(s: Store, from: Option<string>, to: Option<string>,
                              parse: DateParser, query: QueryOutcome) returns (resp: Response)
    requires KeyedByEvent(s.plays)
    ensures ParseDateRange(from, to, parse).Err? ==>
      resp == Invalid(ParseDateRange(from, to, parse).error)
    ensures ParseDateRange(from, to, parse).Ok? && query.Fails? ==>
      resp == Unhandled(query.message)
    // The casts to `integer` fail the query, as any other failure does,
    // when some group of the window does not fit.
    ensures ParseDateRange(from, to, parse).Ok? && query.Completes? ==>
      var range := ParseDateRange(from, to, parse).value;
      !CastsSucceed(s.plays, range.start, range.end) ==> resp == Unhandled(IntegerOutOfRange)
    // Otherwise the report echoes both strings and ranks the half-open
    // window between the instants they name.
    ensures ParseDateRange(from, to, parse).Ok? && query.Completes? ==>
      var range := ParseDateRange(from, to, parse).value;
      CastsSucceed(s.plays, range.start, range.end) ==>
      && resp.status == 200
      && resp.payload.Ranking?
      && resp.payload.from == from.value && resp.payload.to == to.value
      && TopRanking(s.plays, range.start, range.end, resp.payload.stats)
    // An empty or inverted range is never ranked, and a ranking always fits
    // the `integer` columns.
    ensures resp.status == 200 ==>
      && from.Some? && to.Some?
      && parse(from.value).Some? && parse(to.value).Some?
      && parse(from.value).value < parse(to.value).value
      && CastsSucceed(s.plays, parse(from.value).value, parse(to.value).value)
  {
    var parsed := ParseDateRange(from, to, parse);
    if parsed.Err? {
      return Invalid(parsed.error);
    }
    if query.Fails? {
      return Unhandled(query.message);
    }
    var report := GetMostWatched(s.plays, parsed.value.start, parsed.value.end);
    if report.Err? {
      return Unhandled(report.error);
    }
    resp := Response(200, Ranking(from.value, to.value, report.value));
  }
}
