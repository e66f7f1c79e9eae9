/** `DELETE /v1/users/:userId`: erase a user's plays and record the
    tombstone. The purge and the tombstone upsert are two statements
    outside any transaction; a failure of either is caught by the route. */
module GdprRoute {
  import opened Types
  import opened Store
  import opened GdprService
  import opened Http

  function DeleteUser(s: Store, userId: string, now: int,
                      purge: QueryOutcome, upsert: QueryOutcome): (r: Step)
    ensures !IsUuid(userId) ==>
      r == Step(s, Invalid([Issue("userId", InvalidUuid)]))
    ensures IsUuid(userId) && purge.Fails? ==>
      r == Step(s, Response(500, EraseFailure(InternalServerError, purge.message)))
    // A failed upsert leaves the plays deleted but no tombstone recorded.
    ensures IsUuid(userId) && purge.Completes? && upsert.Fails? ==>
      && r.response == Response(500, EraseFailure(InternalServerError, upsert.message))
      && r.store.plays == PurgeUser(s.plays, Canonical(userId)).plays
      && r.store.tombstones == s.tombstones
    ensures IsUuid(userId) && purge.Completes? && upsert.Completes? ==>
      var e := Erase(s, Canonical(userId), now);
      r == Step(e.store, Response(200, Erased(UserDataDeleted, userId, e.count)))
    // Success is reported only when the user is fully erased, with the
    // number of rows that were theirs.
    ensures r.response.status == 200 ==>
      && IsUuid(userId)
      && Canonical(userId) in r.store.tombstones
      && UserKeys(r.store.plays, Canonical(userId)) == {}
      && r.response.payload.deletedRecords == |UserKeys(s.plays, Canonical(userId))|
    // No other user's rows or tombstone are affected.
    ensures forall k :: k in s.plays && s.plays[k].userId != Canonical(userId) ==>
      k in r.store.plays && r.store.plays[k] == s.plays[k]
    ensures forall v :: v in s.tombstones && v != Canonical(userId) ==>
      v in r.store.tombstones && r.store.tombstones[v] == s.tombstones[v]
    ensures KeyedByEvent(s.plays) ==> KeyedByEvent(r.store.plays)
  {
    match ParseUserId(userId)
    case Err(issues) => Step(s, Invalid(issues))
    case Ok(id) =>
      var u := Canonical(id);
      if purge.Fails? then
        Step(s, Response(500, EraseFailure(InternalServerError, purge.message)))
      else
        var purged := PurgeUser(s.plays, u);
        if upsert.Fails? then
          Step(Store(purged.plays, s.tombstones),
               Response(500, EraseFailure(InternalServerError, upsert.message)))
        else
          Step(Store(purged.plays, UpsertTombstone(s.tombstones, u, now)),
               Response(200, Erased(UserDataDeleted, id, purged.count)))
  }
}
