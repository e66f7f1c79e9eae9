/** The most-watched report: plays in the half-open window `[from, to)`,
    grouped by content, each group's play count and summed duration, ranked
    by count and then by duration (both descending), at most 50 groups.
    Groups equal in both keys may come back in any relative order. */
module AggregationService {
  import opened Base
  import opened Seqs
  import opened Store

  datatype ContentStat = ContentStat(contentId: string, totalPlays: nat, totalDuration: int)

  const MaxItems: nat := 50

  /** Keys among `keys` whose rows are plays of content `c`. */
  function ContentKeys(plays: Table, keys: set<string>, c: string): set<string> {
    set k | k in keys && k in plays && plays[k].contentId == c
  }

  /** The contents played at least once in the window. */
  function WindowContents(plays: Table, from: int, to: int): set<string> {
    set k | k in WindowKeys(plays, from, to) :: plays[k].contentId
  }

  ghost function Pick(keys: set<string>): string
    requires keys != {}
  {
    var k :| k in keys; k
  }

  /** The summed duration of the rows under `keys`. */
  ghost function SumDurations(plays: Table, keys: set<string>): int
    requires keys <= plays.Keys
    decreases keys
  {
    if keys == {} then 0
    else
      var k := Pick(keys);
      plays[k].playbackDuration + SumDurations(plays, keys - {k})
  }

  /** The sum does not depend on which row is taken out first. */
  lemma {:induction false} SumDurationsRemove(plays: Table, keys: set<string>, x: string)
    requires keys <= plays.Keys && x in keys
    ensures SumDurations(plays, keys) == plays[x].playbackDuration + SumDurations(plays, keys - {x})
    decreases keys
  {
    var y := Pick(keys);
    if y != x {
      SumDurationsRemove(plays, keys - {y}, x);
      SumDurationsRemove(plays, keys - {x}, y);
      assert keys - {y} - {x} == keys - {x} - {y};
    }
  }

  /** What the report must say about content `c`: its number of plays in
      the window and their summed duration. */
  ghost function Expected(plays: Table, from: int, to: int, c: string): ContentStat {
    var ks := ContentKeys(plays, WindowKeys(plays, from, to), c);
    ContentStat(c, |ks|, SumDurations(plays, ks))
  }

  /** The report's order: more plays first, and on equal plays the longer
      total duration first. */
  predicate RanksAbove(a: ContentStat, b: ContentStat) {
    a.totalPlays > b.totalPlays || (a.totalPlays == b.totalPlays && a.totalDuration >= b.totalDuration)
  }

  // ---------------------------------------------------------------------
  // Grouping a list of rows

  function CountOf(rows: seq<Play>, c: string): nat {
    if |rows| == 0 then 0
    else CountOf(rows[..|rows| - 1], c) + (if rows[|rows| - 1].contentId == c then 1 else 0)
  }

  function DurationOf(rows: seq<Play>, c: string): int {
    if |rows| == 0 then 0
    else DurationOf(rows[..|rows| - 1], c) + (if rows[|rows| - 1].contentId == c then rows[|rows| - 1].playbackDuration else 0)
  }

  lemma {:induction false} NoPlaysNoDuration(rows: seq<Play>, c: string)
    requires CountOf(rows, c) == 0
    ensures DurationOf(rows, c) == 0
  {
    if |rows| > 0 {
      NoPlaysNoDuration(rows[..|rows| - 1], c);
    }
  }

  function Contents(stats: seq<ContentStat>): set<string> {
    set i | 0 <= i < |stats| :: stats[i].contentId
  }

  lemma ContentsAppend(stats: seq<ContentStat>, x: ContentStat)
    ensures Contents(stats + [x]) == Contents(stats) + {x.contentId}
  {
    var s' := stats + [x];
    forall c | c in Contents(stats) ensures c in Contents(s') {
      var j :| 0 <= j < |stats| && stats[j].contentId == c;
      assert s'[j].contentId == c;
    }
    assert s'[|stats|].contentId == x.contentId;
  }

  predicate DistinctContents(stats: seq<ContentStat>) {
    forall i, j :: 0 <= i < j < |stats| ==> stats[i].contentId != stats[j].contentId
  }

  /** `stats` holds one entry per content of `rows`, with its count and
      summed duration. */
  ghost predicate Tallies(rows: seq<Play>, stats: seq<ContentStat>) {
    && DistinctContents(stats)
    && (forall i :: 0 <= i < |stats| ==>
          stats[i].totalPlays == CountOf(rows, stats[i].contentId)
          && stats[i].totalDuration == DurationOf(rows, stats[i].contentId))
    && (forall c :: c in Contents(stats) <==> CountOf(rows, c) > 0)
  }

  /** The position of content `c` in `stats`, or -1. */
  function Find(stats: seq<ContentStat>, c: string): (i: int)
    ensures -1 <= i < |stats|
    ensures i >= 0 ==> stats[i].contentId == c
    ensures i < 0 ==> forall j :: 0 <= j < |stats| ==> stats[j].contentId != c
  {
    if |stats| == 0 then -1
    else if stats[0].contentId == c then 0
    else
      var j := Find(stats[1..], c);
      if j < 0 then -1 else j + 1
  }

  /** Adds one row to the group of its content, opening the group if needed. */
  function Record(stats: seq<ContentStat>, r: Play): seq<ContentStat> {
    var i := Find(stats, r.contentId);
    if i < 0 then stats + [ContentStat(r.contentId, 1, r.playbackDuration)]
    else stats[i := ContentStat(r.contentId, stats[i].totalPlays + 1, stats[i].totalDuration + r.playbackDuration)]
  }

  lemma RecordTallies(rows: seq<Play>, stats: seq<ContentStat>, r: Play)
    requires Tallies(rows, stats)
    ensures Tallies(rows + [r], Record(stats, r))
  {
    var rows', stats' := rows + [r], Record(stats, r);
    assert rows'[..|rows'| - 1] == rows;
    var i := Find(stats, r.contentId);
    if i < 0 {
      assert r.contentId !in Contents(stats);
      NoPlaysNoDuration(rows, r.contentId);
      ContentsAppend(stats, ContentStat(r.contentId, 1, r.playbackDuration));
    } else {
      assert Contents(stats') == Contents(stats) by {
        forall c ensures c in Contents(stats') <==> c in Contents(stats) {
          if c in Contents(stats) {
            var j :| 0 <= j < |stats| && stats[j].contentId == c;
            assert stats'[j].contentId == c;
          }
          if c in Contents(stats') {
            var j :| 0 <= j < |stats'| && stats'[j].contentId == c;
            assert stats[j].contentId == c;
          }
        }
      }
    }
  }

  /** Groups rows by content. */
  function Tally(rows: seq<Play>): (stats: seq<ContentStat>)
    ensures Tallies(rows, stats)
  {
    if |rows| == 0 then []
    else
      var init := rows[..|rows| - 1];
      RecordTallies(init, Tally(init), rows[|rows| - 1]);
      assert init + [rows[|rows| - 1]] == rows;
      Record(Tally(init), rows[|rows| - 1])
  }

  /** Counting and summing over any listing of a set of rows gives the count
      and sum of that set. */
  lemma {:induction false} EnumerationTotals(plays: Table, keys: set<string>, rows: seq<Play>, c: string)
    requires KeyedByEvent(plays) && Enumerates(plays, keys, rows)
    ensures CountOf(rows, c) == |ContentKeys(plays, keys, c)|
    ensures DurationOf(rows, c) == SumDurations(plays, ContentKeys(plays, keys, c))
    decreases |rows|
  {
    if |rows| == 0 {
      EnumerationSize(plays, keys, rows);
      assert ContentKeys(plays, keys, c) == {};
    } else {
      var init, r := rows[..|rows| - 1], rows[|rows| - 1];
      EnumerationInit(plays, keys, rows);
      var keys' := keys - {r.eventId};
      EnumerationTotals(plays, keys', init, c);
      var ck, ck' := ContentKeys(plays, keys, c), ContentKeys(plays, keys', c);
      if r.contentId == c {
        assert ck == ck' + {r.eventId};
        assert ck - {r.eventId} == ck';
        SumDurationsRemove(plays, ck, r.eventId);
      } else {
        assert ck == ck';
      }
    }
  }

  lemma {:induction false} DistinctContentsSize(stats: seq<ContentStat>)
    requires DistinctContents(stats)
    ensures |Contents(stats)| == |stats|
  {
    if |stats| > 0 {
      var init := stats[..|stats| - 1];
      DistinctContentsSize(init);
      assert stats == init + [stats[|stats| - 1]];
      ContentsAppend(init, stats[|stats| - 1]);
      assert stats[|stats| - 1].contentId !in Contents(init);
    }
  }

  /** Every entry of `stats` is the expected entry of a content played in
      the window. */
  ghost predicate Faithful(plays: Table, from: int, to: int, stats: seq<ContentStat>) {
    forall i :: 0 <= i < |stats| ==>
      && stats[i].contentId in WindowContents(plays, from, to)
      && stats[i] == Expected(plays, from, to, stats[i].contentId)
  }

  /** Grouping the window's rows yields exactly the expected entries, one
      per content played in the window. */
  lemma GroupsAreExpected(plays: Table, from: int, to: int, rows: seq<Play>, stats: seq<ContentStat>)
    requires KeyedByEvent(plays)
    requires Enumerates(plays, WindowKeys(plays, from, to), rows) && Tallies(rows, stats)
    ensures Faithful(plays, from, to, stats) && DistinctContents(stats)
    ensures Contents(stats) == WindowContents(plays, from, to)
    ensures |stats| == |WindowContents(plays, from, to)|
  {
    var window := WindowKeys(plays, from, to);
    forall c ensures CountOf(rows, c) == |ContentKeys(plays, window, c)|
                 && DurationOf(rows, c) == SumDurations(plays, ContentKeys(plays, window, c))
    {
      EnumerationTotals(plays, window, rows, c);
    }
    WindowContentsHaveKeys(plays, from, to);
    forall i | 0 <= i < |stats| ensures stats[i].contentId in Contents(stats) { }
    DistinctContentsSize(stats);
  }

  /** Reordering the entries keeps them faithful and distinct. */
  lemma ReorderKeepsReport(plays: Table, from: int, to: int, stats: seq<ContentStat>, ranked: seq<ContentStat>)
    requires Faithful(plays, from, to, stats) && DistinctContents(stats)
    requires multiset(ranked) == multiset(stats)
    ensures Faithful(plays, from, to, ranked) && DistinctContents(ranked)
    ensures Contents(ranked) == Contents(stats) && |ranked| == |stats|
  {
    forall x ensures x in ranked <==> x in stats {
      assert x in ranked <==> multiset(ranked)[x] > 0;
      assert x in stats <==> multiset(stats)[x] > 0;
    }
    assert |ranked| == |stats| by {
      assert |multiset(ranked)| == |multiset(stats)|;
    }
    forall i | 0 <= i < |ranked|
      ensures ranked[i].contentId in WindowContents(plays, from, to)
      ensures ranked[i] == Expected(plays, from, to, ranked[i].contentId)
    {
      assert ranked[i] in stats;
    }
    DistinctNoDup(stats);
    forall i, j | 0 <= i < j < |ranked| ensures ranked[i].contentId != ranked[j].contentId {
      NoDupDistinct(ranked, i, j);
    }
    forall c ensures c in Contents(ranked) <==> c in Contents(stats) {
      if c in Contents(ranked) {
        var j :| 0 <= j < |ranked| && ranked[j].contentId == c;
        assert ranked[j] in stats;
      }
      if c in Contents(stats) {
        var j :| 0 <= j < |stats| && stats[j].contentId == c;
        assert stats[j] in ranked;
      }
    }
  }

  /** Cutting a ranked, faithful list after `n` entries leaves out only
      contents that rank no higher than the last entry kept. */
  lemma TopOfRanking(plays: Table, from: int, to: int, ranked: seq<ContentStat>, n: nat)
    requires Faithful(plays, from, to, ranked) && SortedBy(ranked, RanksAbove)
    requires 0 < n <= |ranked|
    ensures forall c :: c in Contents(ranked) && c !in Contents(ranked[..n]) ==>
      n < |ranked| && RanksAbove(ranked[n - 1], Expected(plays, from, to, c))
  {
    forall c | c in Contents(ranked) && c !in Contents(ranked[..n])
      ensures n < |ranked| && RanksAbove(ranked[n - 1], Expected(plays, from, to, c))
    {
      var j :| 0 <= j < |ranked| && ranked[j].contentId == c;
      assert j >= n by {
        forall i | 0 <= i < n ensures ranked[i].contentId in Contents(ranked[..n]) {
          assert ranked[..n][i] == ranked[i];
        }
      }
      SortedPairwise(ranked, RanksAbove, n - 1, j);
    }
  }

  /** What the most-watched report for the window `[from, to)` promises,
      gathered for the route: the clauses of `GetMostWatched` below. */
  ghost predicate TopRanking(plays: Table, from: int, to: int, items: seq<ContentStat>) {
    && |items| == Min(MaxItems, |WindowContents(plays, from, to)|)
    && (forall i :: 0 <= i < |items| ==>
          && items[i].contentId in WindowContents(plays, from, to)
          && items[i] == Expected(plays, from, to, items[i].contentId))
    && DistinctContents(items)
    && SortedBy(items, RanksAbove)
    && (forall c :: c in WindowContents(plays, from, to) && c !in Contents(items) ==>
          |items| == MaxItems && RanksAbove(items[MaxItems - 1], Expected(plays, from, to, c)))
  }

  /** The range of PostgreSQL's `integer`, into which the query casts each
      group's count and summed duration. */
  const Int4Min: int := -0x8000_0000
  const Int4Max: int := 0x7FFF_FFFF

  /** The message PostgreSQL fails a cast with when the value does not fit. */
  const IntegerOutOfRange := "integer out of range"

  /** Both casts of one group succeed. */
  predicate FitsInt4(st: ContentStat) {
    st.totalPlays <= Int4Max && Int4Min <= st.totalDuration <= Int4Max
  }

  /** The casts succeed for every group of the window. They run before the
      ordering and the limit, so a group that would not be shown still
      fails the whole query. */
  ghost predicate CastsSucceed(plays: Table, from: int, to: int) {
    forall c :: c in WindowContents(plays, from, to) ==> FitsInt4(Expected(plays, from, to, c))
  }

  /** Checking the computed groups decides whether the casts succeed. */
  lemma CastsDecidedByGroups(plays: Table, from: int, to: int, stats: seq<ContentStat>)
    requires Faithful(plays, from, to, stats) && Contents(stats) == WindowContents(plays, from, to)
    ensures (forall i :: 0 <= i < |stats| ==> FitsInt4(stats[i])) <==> CastsSucceed(plays, from, to)
  {
    if forall i :: 0 <= i < |stats| ==> FitsInt4(stats[i]) {
      forall c | c in WindowContents(plays, from, to) ensures FitsInt4(Expected(plays, from, to, c)) {
        var i :| 0 <= i < |stats| && stats[i].contentId == c;
      }
    }
  }

  /** The most-watched report for the window `[from, to)`: one entry per
      content played in the window, carrying exactly its play count and
      summed duration, ranked, and cut to the top 50; any content left out
      ranks no higher than the last entry shown. The query fails instead
      when some group's count or sum does not fit an `integer`. */
  method GetMostWatched(plays: Table, from: int, to: int) returns (r: Result<seq<ContentStat>, string>)
    requires KeyedByEvent(plays)
    ensures r.Err? <==> !CastsSucceed(plays, from, to)
    ensures r.Err? ==> r.error == IntegerOutOfRange
    ensures r.Ok? ==> |r.value| == Min(MaxItems, |WindowContents(plays, from, to)|)
    ensures r.Ok? ==> forall i :: 0 <= i < |r.value| ==>
      && r.value[i].contentId in WindowContents(plays, from, to)
      && r.value[i] == Expected(plays, from, to, r.value[i].contentId)
      && 1 <= r.value[i].totalPlays <= Int4Max
    ensures r.Ok? ==> DistinctContents(r.value)
    ensures r.Ok? ==> SortedBy(r.value, RanksAbove)
    ensures r.Ok? ==> forall c :: c in WindowContents(plays, from, to) && c !in Contents(r.value) ==>
      |r.value| == MaxItems && RanksAbove(r.value[MaxItems - 1], Expected(plays, from, to, c))
  {
    var rows := Scan(plays, WindowKeys(plays, from, to));
    var stats := Tally(rows);
    GroupsAreExpected(plays, from, to, rows, stats);
    CastsDecidedByGroups(plays, from, to, stats);
    if exists i :: 0 <= i < |stats| && !FitsInt4(stats[i]) {
      return Err(IntegerOutOfRange);
    }
    var ranked := Sort(stats, RanksAbove);
    ReorderKeepsReport(plays, from, to, stats, ranked);
    var n := Min(MaxItems, |ranked|);
    CutKeepsReport(plays, from, to, ranked, n);
    r := Ok(ranked[..n]);
  }

  /** The first `n` entries of a complete ranking are a faithful top-`n`
      report, and every entry in it has at least one play. */
  lemma CutKeepsReport(plays: Table, from: int, to: int, ranked: seq<ContentStat>, n: nat)
    requires Faithful(plays, from, to, ranked) && DistinctContents(ranked)
    requires SortedBy(ranked, RanksAbove)
    requires Contents(ranked) == WindowContents(plays, from, to)
    requires |ranked| == |WindowContents(plays, from, to)|
    requires n == Min(MaxItems, |ranked|)
    ensures TopRanking(plays, from, to, ranked[..n])
    ensures forall i :: 0 <= i < n ==> ranked[..n][i].totalPlays >= 1
  {
    var items := ranked[..n];
    if n > 0 {
      TopOfRanking(plays, from, to, ranked, n);
    }
    WindowContentsHaveKeys(plays, from, to);
    forall i | 0 <= i < n ensures items[i].totalPlays >= 1 {
      assert items[i] == ranked[i];
    }
    assert SortedBy(items, RanksAbove) by {
      forall i | 0 < i < n ensures RanksAbove(items[i - 1], items[i]) {
        assert items[i - 1] == ranked[i - 1] && items[i] == ranked[i];
      }
    }
  }

  lemma WindowContentsHaveKeys(plays: Table, from: int, to: int)
    ensures forall c :: c in WindowContents(plays, from, to) <==> |ContentKeys(plays, WindowKeys(plays, from, to), c)| > 0
  {
    var window := WindowKeys(plays, from, to);
    forall c ensures c in WindowContents(plays, from, to) <==> |ContentKeys(plays, window, c)| > 0 {
      if c in WindowContents(plays, from, to) {
        var k :| k in window && plays[k].contentId == c;
        assert k in ContentKeys(plays, window, c);
      }
      if |ContentKeys(plays, window, c)| > 0 {
        var k :| k in ContentKeys(plays, window, c);
        assert plays[k].contentId in WindowContents(plays, from, to);
      }
    }
  }
}
