/** Ingestion into the plays table: an insert that does nothing when a row
    with the same event identifier already exists, reporting whether a row
    was created. */
module PlayService {
  import opened Store

  datatype Insertion = Insertion(plays: Table, inserted: bool)

  /** Insert-if-absent keyed by `row.eventId`. */
  function AddPlay(plays: Table, row: Play): (r: Insertion)
    ensures r.inserted <==> row.eventId !in plays
    ensures r.plays.Keys == plays.Keys + {row.eventId}
    ensures |r.plays| == |plays| + (if r.inserted then 1 else 0)
    ensures forall k :: k in plays ==> r.plays[k] == plays[k]
    ensures r.inserted ==> r.plays[row.eventId] == row
    ensures KeyedByEvent(plays) ==> KeyedByEvent(r.plays)
  {
    if row.eventId in plays then Insertion(plays, false)
    else Insertion(plays[row.eventId := row], true)
  }

  /** The table after submitting `rows` one after another. */
  function InsertAll(plays: Table, rows: seq<Play>): Table
    decreases |rows|
  {
    if |rows| == 0 then plays else InsertAll(AddPlay(plays, rows[0]).plays, rows[1..])
  }

  /** A stored row survives any later submissions unchanged, and the later
      submissions add nothing under other keys than their own. */
  lemma {:induction false} StoredRowsNeverOverwritten(plays: Table, rows: seq<Play>)
    ensures var after := InsertAll(plays, rows);
      && (forall k :: k in plays ==> k in after && after[k] == plays[k])
      && (forall k :: k in after ==> k in plays || exists i :: 0 <= i < |rows| && rows[i].eventId == k)
    decreases |rows|
  {
    if |rows| > 0 {
      var next := AddPlay(plays, rows[0]).plays;
      StoredRowsNeverOverwritten(next, rows[1..]);
      var after := InsertAll(plays, rows);
      forall k | k in after && k !in plays
        ensures exists i :: 0 <= i < |rows| && rows[i].eventId == k
      {
        if k in next {
          assert rows[0].eventId == k;
        } else {
          var j :| 0 <= j < |rows[1..]| && rows[1..][j].eventId == k;
          assert rows[j + 1].eventId == k;
        }
      }
    }
  }

  /** Submitting one event `n` times leaves exactly the first submission's
      row under its identifier: the first call inserts, the rest report a
      duplicate and change nothing. */
  lemma {:induction false} RepeatedSubmission(plays: Table, row: Play, n: nat)
    requires row.eventId !in plays
    ensures var once := AddPlay(plays, row);
      && once.inserted
      && InsertAll(plays, seq(n + 1, _ => row)) == once.plays
      && !AddPlay(once.plays, row).inserted
  {
    var once := AddPlay(plays, row).plays;
    var rows := seq(n + 1, _ => row);
    assert rows[1..] == seq(n, _ => row);
    DuplicatesChangeNothing(once, row, n);
  }

  lemma {:induction false} DuplicatesChangeNothing(plays: Table, row: Play, n: nat)
    requires row.eventId in plays
    ensures InsertAll(plays, seq(n, _ => row)) == plays
    decreases n
  {
    if n > 0 {
      var rows := seq(n, _ => row);
      assert rows[1..] == seq(n - 1, _ => row);
      DuplicatesChangeNothing(plays, row, n - 1);
    }
  }
}
