/** Properties of the service as a whole: how ingestion and erasure
    interact across requests. */
module Scenarios {
  import opened Base
  import opened Text
  import opened Types
  import opened Store
  import opened Http
  import opened PlayRoute
  import opened GdprRoute

  /** A valid event of a user who was never erased, whose timestamp names
      an instant. */
  predicate Admissible(s: Store, body: RequestBody, parse: DateParser) {
    && ParsePlayEvent(body).Ok?
    && Canonical(ParsePlayEvent(body).value.userId) !in s.tombstones
    && RowOf(ParsePlayEvent(body).value, parse).Some?
  }

  /** An admissible event whose identifier is not stored yet. */
  predicate NewEvent(s: Store, body: RequestBody, parse: DateParser) {
    Admissible(s, body, parse) && RowOf(ParsePlayEvent(body).value, parse).value.eventId !in s.plays
  }

  /** Submitting the same event twice stores it once; the second submission
      is acknowledged as a duplicate and changes nothing. */
  lemma ResubmissionIsIdempotent(s: Store, body: RequestBody, parse: DateParser)
    requires Admissible(s, body, parse)
    ensures var first := PostPlay(s, body, parse, Completes, Completes);
      var second := PostPlay(first.store, body, parse, Completes, Completes);
      && first.response.status == 200
      && second == Step(first.store, Response(200, Recorded(Some(DuplicateIgnored))))
  {
  }

  /** Event identifiers are uuids, so two spellings of one identifier that
      differ only in letter case name the same event. */
  lemma CaseVariantIsDuplicate(s: Store, first: RequestBody, second: RequestBody, parse: DateParser)
    requires Admissible(s, first, parse) && Admissible(s, second, parse)
    requires Lower(ParsePlayEvent(first).value.eventId) == Lower(ParsePlayEvent(second).value.eventId)
    ensures var after := PostPlay(s, first, parse, Completes, Completes).store;
      PostPlay(after, second, parse, Completes, Completes)
        == Step(after, Response(200, Recorded(Some(DuplicateIgnored))))
  {
    var after := PostPlay(s, first, parse, Completes, Completes).store;
    assert after.tombstones == s.tombstones;
  }

  /** Once a user is erased, no later event of theirs is stored, whatever
      the event and however the insert would fare. */
  lemma ErasureBlocksIngestion(s: Store, userId: string, now: int, body: RequestBody,
                               parse: DateParser, insert: QueryOutcome)
    requires IsUuid(userId)
    requires ParsePlayEvent(body).Ok?
    requires Lower(ParsePlayEvent(body).value.userId) == Lower(userId)
    ensures var erased := DeleteUser(s, userId, now, Completes, Completes).store;
      PostPlay(erased, body, parse, Completes, insert)
        == Step(erased, Response(403, Blocked(IngestionBlocked)))
  {
  }

  /** Erasing a user right after one of their events was stored reports
      that play on top of the plays they had before. */
  lemma StoredPlayIsErased(s: Store, body: RequestBody, parse: DateParser, now: int)
    requires NewEvent(s, body, parse)
    ensures var userId := ParsePlayEvent(body).value.userId;
      var stored := PostPlay(s, body, parse, Completes, Completes).store;
      var deleted := DeleteUser(stored, userId, now, Completes, Completes);
      && deleted.response.status == 200
      && deleted.response.payload.deletedRecords == |UserKeys(s.plays, Canonical(userId))| + 1
  {
    var e := ParsePlayEvent(body).value;
    var row := RowOf(e, parse).value;
    var stored := PostPlay(s, body, parse, Completes, Completes).store;
    assert stored.plays == s.plays[row.eventId := row];
    InsertAddsUserKey(s.plays, row);
  }

  /** Inserting a new row adds exactly one key to its user's rows. */
  lemma InsertAddsUserKey(plays: Table, row: Play)
    requires row.eventId !in plays
    ensures UserKeys(plays[row.eventId := row], row.userId) == UserKeys(plays, row.userId) + {row.eventId}
    ensures |UserKeys(plays[row.eventId := row], row.userId)| == |UserKeys(plays, row.userId)| + 1
  {
    assert row.eventId !in UserKeys(plays, row.userId);
  }

  /** A second erasure of the same user succeeds and deletes nothing. */
  lemma ErasingAgainFindsNothing(s: Store, userId: string, now: int, later: int)
    requires IsUuid(userId)
    ensures var once := DeleteUser(s, userId, now, Completes, Completes).store;
      var twice := DeleteUser(once, userId, later, Completes, Completes);
      && UserKeys(once.plays, Canonical(userId)) == {}
      && twice.response.status == 200 && twice.response.payload.deletedRecords == 0
  {
  }

  /** The life of a user's data: an event is stored, repeated and ignored,
      erased with its user (the erasure counts it once, on top of the
      user's earlier plays, so exactly 1 for a user seen the first time); a later event of the same user is refused;
      afterwards the user has no plays, and erasing again finds nothing
      more to delete. */
  lemma Lifecycle(s: Store, body: RequestBody, next: RequestBody, parse: DateParser, now: int, later: int)
    requires NewEvent(s, body, parse)
    requires ParsePlayEvent(next).Ok?
    requires Lower(ParsePlayEvent(next).value.userId) == Lower(ParsePlayEvent(body).value.userId)
    ensures var stored := PostPlay(s, body, parse, Completes, Completes);
      var repeated := PostPlay(stored.store, body, parse, Completes, Completes);
      var userId := ParsePlayEvent(body).value.userId;
      var deleted := DeleteUser(repeated.store, userId, now, Completes, Completes);
      var refused := PostPlay(deleted.store, next, parse, Completes, Completes);
      var again := DeleteUser(refused.store, userId, later, Completes, Completes);
      && stored.response == Response(200, Recorded(None))
      && repeated.response == Response(200, Recorded(Some(DuplicateIgnored)))
      && deleted.response.status == 200
      && deleted.response.payload.deletedRecords == |UserKeys(s.plays, Canonical(userId))| + 1
      && refused == Step(deleted.store, Response(403, Blocked(IngestionBlocked)))
      && UserKeys(refused.store.plays, Canonical(userId)) == {}
      && again.response.status == 200 && again.response.payload.deletedRecords == 0
  {
    var userId := ParsePlayEvent(body).value.userId;
    ResubmissionIsIdempotent(s, body, parse);
    StoredPlayIsErased(s, body, parse, now);
    var repeated := PostPlay(PostPlay(s, body, parse, Completes, Completes).store, body, parse, Completes, Completes);
    ErasureBlocksIngestion(repeated.store, userId, now, next, parse, Completes);
    ErasingAgainFindsNothing(repeated.store, userId, now, later);
  }
}
