/** `POST /v1/play`: validate the event, refuse users erased under GDPR,
    insert the row unless its event id is already stored. */
module PlayRoute {
  import opened Base
  import opened Types
  import opened Store
  import opened PlayService
  import opened GdprService
  import opened Http

  /** The row the database stores for a validated event. Identifiers are
      uuid columns, so the database keeps them in canonical spelling; the
      timestamp is stored as the instant it names. None when the timestamp
      has the right shape but names no instant, which the database
      rejects. */
  function RowOf(e: PlayEvent, parse: DateParser): (r: Option<Play>)
    ensures r.Some? <==> parse(e.playedAt).Some?
    ensures r.Some? ==>
      && r.value.eventId == Canonical(e.eventId)
      && r.value.userId == Canonical(e.userId)
      && r.value.contentId == Canonical(e.contentId)
      && r.value.device == e.device
      && r.value.playbackDuration == e.playbackDuration
      && Some(r.value.playedAt) == parse(e.playedAt)
  {
    match parse(e.playedAt)
    case None => None
    case Some(t) =>
      Some(Play(Canonical(e.eventId), Canonical(e.userId), Canonical(e.contentId),
                e.device, e.playbackDuration, t))
  }

  /** The handler. `lookup` is what became of the tombstone query and
      `insert` of the insert statement. A failed tombstone query is not
      caught by the route and reaches the application-wide handler; a
      failed insert is caught and answered with the route's own body. */
  function PostPlay(s: Store, body: RequestBody, parse: DateParser,
                    lookup: QueryOutcome, insert: QueryOutcome): (r: Step)
    // Invalid events are answered with every failing field and change nothing.
    ensures ParsePlayEvent(body).Err? ==>
      r == Step(s, Invalid(ParsePlayEvent(body).error))
    ensures ParsePlayEvent(body).Ok? && lookup.Fails? ==>
      r == Step(s, Unhandled(lookup.message))
    // An erased user is refused, whatever the event.
    ensures ParsePlayEvent(body).Ok? && lookup.Completes?
            && Canonical(ParsePlayEvent(body).value.userId) in s.tombstones ==>
      r == Step(s, Response(403, Blocked(IngestionBlocked)))
    ensures ParsePlayEvent(body).Ok? && lookup.Completes?
            && Canonical(ParsePlayEvent(body).value.userId) !in s.tombstones
            && (insert.Fails? || RowOf(ParsePlayEvent(body).value, parse).None?) ==>
      r == Step(s, Response(500, IngestFailure(IngestErrorText)))
    // A new event is stored; a known one is acknowledged and changes nothing.
    ensures ParsePlayEvent(body).Ok? && lookup.Completes?
            && Canonical(ParsePlayEvent(body).value.userId) !in s.tombstones
            && insert.Completes? && RowOf(ParsePlayEvent(body).value, parse).Some? ==>
      var row := RowOf(ParsePlayEvent(body).value, parse).value;
      && (row.eventId !in s.plays ==>
            r == Step(Store(s.plays[row.eventId := row], s.tombstones), Response(200, Recorded(None))))
      && (row.eventId in s.plays ==>
            r == Step(s, Response(200, Recorded(Some(DuplicateIgnored)))))
    // Whatever happens: tombstones are never touched, stored rows are never
    // overwritten, and the table changes only with a plain acknowledgement.
    ensures r.store.tombstones == s.tombstones
    ensures forall k :: k in s.plays ==> k in r.store.plays && r.store.plays[k] == s.plays[k]
    ensures r.store != s ==> r.response == Response(200, Recorded(None))
    ensures KeyedByEvent(s.plays) ==> KeyedByEvent(r.store.plays)
  {
    match ParsePlayEvent(body)
    case Err(issues) => Step(s, Invalid(issues))
    case Ok(e) =>
      if lookup.Fails? then Step(s, Unhandled(lookup.message))
      else if IsUserDeleted(s, Canonical(e.userId)) then
        Step(s, Response(403, Blocked(IngestionBlocked)))
      else if insert.Fails? || RowOf(e, parse).None? then
        Step(s, Response(500, IngestFailure(IngestErrorText)))
      else
        var added := AddPlay(s.plays, RowOf(e, parse).value);
        if added.inserted then Step(Store(added.plays, s.tombstones), Response(200, Recorded(None)))
        else Step(s, Response(200, Recorded(Some(DuplicateIgnored))))
  }
}
