/** The relational store as two maps: the plays table keyed by its unique
    event identifier, and the tombstone table keyed by user, holding the
    instant of the latest erasure. The map keys are the tables' unique and
    primary keys, so neither table can hold two rows for one key. */
module Store {
  import opened Seqs

  /** One row of the plays table; durations and instants are integers. */
  datatype Play = Play(eventId: string, userId: string, contentId: string,
                       device: string, playbackDuration: int, playedAt: int)

  type Table = map<string, Play>

  datatype Store = Store(plays: Table, tombstones: map<string, int>)

  /** Every row sits under its own event identifier. */
  predicate KeyedByEvent(plays: Table) {
    forall k :: k in plays ==> plays[k].eventId == k
  }

  /** Keys of the rows belonging to user `u`. */
  function UserKeys(plays: Table, u: string): set<string> {
    set k | k in plays && plays[k].userId == u
  }

  /** Keys of the rows played in the half-open window `[from, to)`. */
  function WindowKeys(plays: Table, from: int, to: int): set<string> {
    set k | k in plays && from <= plays[k].playedAt < to
  }

  /** `rows` lists the rows stored under `keys`, each exactly once, in some
      order: what a query selecting those rows returns when it asks for no
      particular order. */
  ghost predicate Enumerates(plays: Table, keys: set<string>, rows: seq<Play>) {
    && keys <= plays.Keys
    && (forall r :: r in rows ==> r.eventId in keys && plays[r.eventId] == r)
    && (forall k :: k in keys ==> plays[k] in rows)
    && NoDup(rows)
  }

  /** Reads the rows under `keys`, visiting the keys in an unspecified order. */
  method Scan(plays: Table, keys: set<string>) returns (rows: seq<Play>)
    requires KeyedByEvent(plays) && keys <= plays.Keys
    ensures Enumerates(plays, keys, rows)
  {
    rows := [];
    var rest := keys;
    while rest != {}
      invariant rest <= keys
      invariant forall r :: r in rows ==> r.eventId in keys - rest && plays[r.eventId] == r
      invariant forall k :: k in keys - rest ==> plays[k] in rows
      invariant NoDup(rows)
      decreases rest
    {
      var k :| k in rest;
      var row := plays[k];
      forall x ensures multiset(rows + [row])[x] <= 1 {
        assert multiset(rows + [row])[x] == multiset(rows)[x] + multiset([row])[x];
      }
      rows := rows + [row];
      rest := rest - {k};
    }
  }

  /** Dropping the last row of an enumeration enumerates the other keys. */
  lemma EnumerationInit(plays: Table, keys: set<string>, rows: seq<Play>)
    requires KeyedByEvent(plays) && Enumerates(plays, keys, rows) && |rows| > 0
    ensures var last := rows[|rows| - 1];
      && last.eventId in keys
      && Enumerates(plays, keys - {last.eventId}, rows[..|rows| - 1])
  {
    var init, last := rows[..|rows| - 1], rows[|rows| - 1];
    assert rows == init + [last];
    assert multiset(rows)[last] == multiset(init)[last] + 1;
    assert last !in init;
    forall x ensures multiset(init)[x] <= 1 {
      assert multiset(rows)[x] == multiset(init)[x] + multiset([last])[x];
    }
    forall k | k in keys - {last.eventId} ensures plays[k] in init {
      assert plays[k] in rows;
      assert plays[k].eventId == k;
    }
  }

  /** An enumeration has one entry per key. */
  lemma {:induction false} EnumerationSize(plays: Table, keys: set<string>, rows: seq<Play>)
    requires KeyedByEvent(plays) && Enumerates(plays, keys, rows)
    ensures |rows| == |keys|
    decreases |rows|
  {
    if |rows| == 0 {
      assert forall k :: k in keys ==> plays[k] in rows;
      assert keys == {};
    } else {
      var last := rows[|rows| - 1];
      EnumerationInit(plays, keys, rows);
      EnumerationSize(plays, keys - {last.eventId}, rows[..|rows| - 1]);
    }
  }

  /** Any reordering of an enumeration is one too. */
  lemma EnumerationReordered(plays: Table, keys: set<string>, rows: seq<Play>, other: seq<Play>)
    requires Enumerates(plays, keys, rows) && multiset(other) == multiset(rows)
    ensures Enumerates(plays, keys, other)
  {
    forall r ensures r in other <==> r in rows {
      assert r in other <==> multiset(other)[r] > 0;
      assert r in rows <==> multiset(rows)[r] > 0;
    }
  }
}
