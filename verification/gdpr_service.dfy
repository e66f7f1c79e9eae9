/** Erasure: remove every play of a user, counting the removed rows, then
    insert or refresh the user's tombstone; and the tombstone lookup. The two
    writes are separate statements in the service; `Erase` composes them as
    one step, and the erasure route models a failure between them. */
module GdprService {
  import opened Store

  datatype Purge = Purge(plays: Table, count: nat)

  /** Deletes the rows of user `u` and counts them. */
  function PurgeUser(plays: Table, u: string): (r: Purge)
    ensures r.plays.Keys == plays.Keys - UserKeys(plays, u)
    ensures forall k :: k in r.plays ==> r.plays[k] == plays[k]
    ensures UserKeys(r.plays, u) == {}
    ensures r.count == |UserKeys(plays, u)|
    ensures KeyedByEvent(plays) ==> KeyedByEvent(r.plays)
  {
    var rest := map k | k in plays && plays[k].userId != u :: plays[k];
    var gone := UserKeys(plays, u);
    assert rest.Keys == plays.Keys - gone;
    assert plays.Keys == rest.Keys + gone && rest.Keys !! gone;
    Purge(rest, |plays| - |rest|)
  }

  /** Inserts the tombstone of `u`, or refreshes its instant when one exists. */
  function UpsertTombstone(tombstones: map<string, int>, u: string, now: int): (r: map<string, int>)
    ensures r.Keys == tombstones.Keys + {u}
    ensures r[u] == now
    ensures forall v :: v in tombstones && v != u ==> r[v] == tombstones[v]
  {
    tombstones[u := now]
  }

  datatype Erasure = Erasure(store: Store, count: nat)

  /** The whole erasure of user `u` at instant `now`. */
  function Erase(s: Store, u: string, now: int): (r: Erasure)
    ensures UserKeys(r.store.plays, u) == {}
    ensures forall k :: k in s.plays && s.plays[k].userId != u ==> k in r.store.plays && r.store.plays[k] == s.plays[k]
    ensures forall k :: k in r.store.plays ==> k in s.plays
    ensures r.count == |UserKeys(s.plays, u)|
    ensures u in r.store.tombstones && r.store.tombstones[u] == now
    ensures r.store.tombstones.Keys == s.tombstones.Keys + {u}
    ensures forall v :: v in s.tombstones && v != u ==> r.store.tombstones[v] == s.tombstones[v]
    ensures KeyedByEvent(s.plays) ==> KeyedByEvent(r.store.plays)
  {
    var purge := PurgeUser(s.plays, u);
    Erasure(Store(purge.plays, UpsertTombstone(s.tombstones, u, now)), purge.count)
  }

  /** The tombstone lookup; it reads the store and changes nothing. */
  function IsUserDeleted(s: Store, u: string): (deleted: bool)
    ensures deleted <==> u in s.tombstones
  {
    u in s.tombstones
  }

  /** The lookup sees exactly the users an erasure has stamped: an erasure
      of `u` adds `u` and nobody else, and the purge on its own (the state a
      failed upsert leaves) adds nobody. */
  lemma DeletedOnlyByErasure(s: Store, u: string, v: string, now: int)
    ensures IsUserDeleted(Erase(s, u, now).store, v) <==> v == u || IsUserDeleted(s, v)
    ensures IsUserDeleted(Store(PurgeUser(s.plays, u).plays, s.tombstones), v) <==> IsUserDeleted(s, v)
  {
  }

  /** After an erasure the user counts as deleted, with no plays left. */
  lemma ErasedUserIsDeleted(s: Store, u: string, now: int)
    ensures var after := Erase(s, u, now).store;
      IsUserDeleted(after, u) && UserKeys(after.plays, u) == {}
  {
  }

  /** Erasing twice: the second call removes nothing and reports 0, leaves
      the plays as the first call left them, keeps one tombstone for the
      user and moves its instant to the second call's. */
  lemma EraseTwice(s: Store, u: string, t1: int, t2: int)
    ensures var first := Erase(s, u, t1);
      var second := Erase(first.store, u, t2);
      && second.count == 0
      && second.store.plays == first.store.plays
      && second.store.tombstones.Keys == first.store.tombstones.Keys
      && second.store.tombstones[u] == t2
  {
    var first := Erase(s, u, t1);
    var second := Erase(first.store, u, t2);
    assert second.store.plays.Keys == first.store.plays.Keys;
  }
}
