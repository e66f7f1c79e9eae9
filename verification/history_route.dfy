/** `GET /v1/history/:userId?limit&offset`: validate, then count the user's
    plays and read one page of them, most recent first. Neither query is
    guarded by the route, so a failure reaches the application-wide
    handler. */
module HistoryRoute {
  import opened Base
  import opened Types
  import opened Store
  import opened HistoryService
  import opened Http

  /** `count` and `page` are what became of the two queries, run in that
      order; `page` speaks for a page query whose offset is a `bigint`, and
      one whose offset is not always fails. */
  method GetUserHistory(s: Store, userId: string, limit: QueryNumber, offset: QueryNumber,
                        count: QueryOutcome, page: QueryOutcome) returns (resp: Response)
    requires KeyedByEvent(s.plays)
    ensures ParseHistoryParams(userId, limit, offset).Err? ==>
      resp == Invalid(ParseHistoryParams(userId, limit, offset).error)
    ensures ParseHistoryParams(userId, limit, offset).Ok? && count.Fails? ==>
      resp == Unhandled(count.message)
    ensures ParseHistoryParams(userId, limit, offset).Ok? && count.Completes? ==>
      var p := ParseHistoryParams(userId, limit, offset).value.page;
      p.offset > BigintMax ==> resp == Unhandled(OffsetOutOfRange(p.offset))
    ensures ParseHistoryParams(userId, limit, offset).Ok? && count.Completes? && page.Fails? ==>
      var p := ParseHistoryParams(userId, limit, offset).value.page;
      p.offset <= BigintMax ==> resp == Unhandled(page.message)
    // The page echoes the identifier as given and the effective limit and
    // offset; the total counts every play of the user; the items are the
    // requested slice of the user's plays in recency order.
    ensures ParseHistoryParams(userId, limit, offset).Ok? && count.Completes? && page.Completes? ==>
      var p := ParseHistoryParams(userId, limit, offset).value.page;
      var u := Canonical(userId);
      p.offset <= BigintMax ==>
      && resp.status == 200
      && resp.payload.HistoryPage?
      && resp.payload.userId == userId
      && resp.payload.total == |UserKeys(s.plays, u)|
      && resp.payload.limit == p.limit && resp.payload.offset == p.offset
      && |resp.payload.items| == Min(p.limit, Max(0, resp.payload.total - p.offset))
      && exists ordered :: RecencyOrder(s.plays, u, ordered)
                           && resp.payload.items == ProjectAll(Page(ordered, p.limit, p.offset))
    ensures resp.status == 200 ==>
      && IsUuid(userId) && 1 <= resp.payload.limit <= MaxLimit
      && 0 <= resp.payload.offset <= BigintMax
  {
    var parsed := ParseHistoryParams(userId, limit, offset);
    if parsed.Err? {
      return Invalid(parsed.error);
    }
    if count.Fails? {
      return Unhandled(count.message);
    }
    var p := parsed.value.page;
    if p.offset > BigintMax {
      return Unhandled(OffsetOutOfRange(p.offset));
    }
    if page.Fails? {
      return Unhandled(page.message);
    }
    var h := GetHistory(s.plays, Canonical(userId), p.limit, p.offset);
    resp := Response(200, HistoryPage(userId, h.total, p.limit, p.offset, h.items));
  }
}
