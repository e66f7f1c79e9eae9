/** A user's play history: the number of their plays, and one page of them,
    newest first. The database orders by `playedAt` only, so plays with
    equal instants may come back in any relative order; the contract
    therefore speaks of some newest-first ordering of the user's plays. */
module HistoryService {
  import opened Base
  import opened Seqs
  import opened Store

  /** The largest `bigint`, the type PostgreSQL gives the `OFFSET`
      parameter. */
  const BigintMax: int := 0x7FFF_FFFF_FFFF_FFFF

  /** The decimal digits of `n`, as the offset is sent to the database. */
  function Decimal(n: nat): (r: string)
    ensures |r| >= 1 && forall i :: 0 <= i < |r| ==> '0' <= r[i] <= '9'
    decreases n
  {
    var last := [('0' as int + n % 10) as char];
    if n < 10 then last else Decimal(n / 10) + last
  }

  /** The error the page query fails with when the offset is not a
      `bigint`. */
  function OffsetOutOfRange(offset: nat): string {
    "value \"" + Decimal(offset) + "\" is out of range for type bigint"
  }

  /** The four fields a history entry exposes. */
  datatype HistoryItem = HistoryItem(contentId: string, device: string,
                                     playbackDuration: int, playedAt: int)

  datatype History = History(total: nat, items: seq<HistoryItem>)

  function Project(p: Play): HistoryItem {
    HistoryItem(p.contentId, p.device, p.playbackDuration, p.playedAt)
  }

  function ProjectAll(rows: seq<Play>): (items: seq<HistoryItem>)
    ensures |items| == |rows|
    ensures forall i :: 0 <= i < |rows| ==> items[i] == Project(rows[i])
  {
    seq(|rows|, i requires 0 <= i < |rows| => Project(rows[i]))
  }

  /** The newest-first order: a play ranks at least as high as any play that
      is not more recent. */
  predicate RecentFirst(a: Play, b: Play) {
    a.playedAt >= b.playedAt
  }

  /** `ordered` lists each play of user `u` once, newest first. */
  ghost predicate RecencyOrder(plays: Table, u: string, ordered: seq<Play>) {
    Enumerates(plays, UserKeys(plays, u), ordered) && SortedBy(ordered, RecentFirst)
  }

  /** `LIMIT limit OFFSET offset` over an ordered result. */
  function Page<T>(s: seq<T>, limit: nat, offset: nat): (r: seq<T>)
    ensures |r| == Min(limit, Max(0, |s| - offset))
    ensures forall i :: 0 <= i < |r| ==> r[i] == s[offset + i]
  {
    if offset >= |s| then [] else s[offset..Min(offset + limit, |s|)]
  }

  /** Consecutive pages put together are the page spanning both. */
  lemma PagesTile<T>(s: seq<T>, a: nat, b: nat, offset: nat)
    ensures Page(s, a, offset) + Page(s, b, offset + a) == Page(s, a + b, offset)
  {
    var l, r, whole := Page(s, a, offset), Page(s, b, offset + a), Page(s, a + b, offset);
    assert |l + r| == |whole|;
    forall i | 0 <= i < |whole| ensures (l + r)[i] == whole[i] {
      if i >= |l| { assert (l + r)[i] == r[i - |l|]; }
    }
  }

  /** The history of user `u`: `total` counts all their plays and `items` is
      the page at `offset` of at most `limit` entries from a newest-first
      listing of them. */
  method GetHistory(plays: Table, u: string, limit: nat, offset: nat) returns (h: History)
    requires KeyedByEvent(plays)
    ensures h.total == |UserKeys(plays, u)|
    ensures |h.items| == Min(limit, Max(0, h.total - offset))
    ensures forall i, j :: 0 <= i < j < |h.items| ==> h.items[i].playedAt >= h.items[j].playedAt
    ensures exists ordered :: RecencyOrder(plays, u, ordered) && h.items == ProjectAll(Page(ordered, limit, offset))
  {
    var rows := Scan(plays, UserKeys(plays, u));
    EnumerationSize(plays, UserKeys(plays, u), rows);
    var ordered := Sort(rows, RecentFirst);
    EnumerationReordered(plays, UserKeys(plays, u), rows, ordered);
    assert RecencyOrder(plays, u, ordered);
    PageOfRecencyOrder(plays, u, ordered, limit, offset);
    h := History(|rows|, ProjectAll(Page(ordered, limit, offset)));
  }

  /** A page of a newest-first listing is itself newest first and has the
      size `LIMIT`/`OFFSET` allow. */
  lemma PageOfRecencyOrder(plays: Table, u: string, ordered: seq<Play>, limit: nat, offset: nat)
    requires KeyedByEvent(plays) && RecencyOrder(plays, u, ordered)
    ensures var items := ProjectAll(Page(ordered, limit, offset));
      && |items| == Min(limit, Max(0, |UserKeys(plays, u)| - offset))
      && forall i, j :: 0 <= i < j < |items| ==> items[i].playedAt >= items[j].playedAt
  {
    EnumerationSize(plays, UserKeys(plays, u), ordered);
    var items := ProjectAll(Page(ordered, limit, offset));
    forall i, j | 0 <= i < j < |items|
      ensures items[i].playedAt >= items[j].playedAt
    {
      SortedPairwise(ordered, RecentFirst, offset + i, offset + j);
    }
  }

  /** A user without plays has an empty history at every page. */
  lemma NoPlaysNoHistory(plays: Table, u: string, ordered: seq<Play>, limit: nat, offset: nat)
    requires KeyedByEvent(plays) && UserKeys(plays, u) == {}
    requires RecencyOrder(plays, u, ordered)
    ensures ordered == [] && Page(ordered, limit, offset) == []
  {
    EnumerationSize(plays, UserKeys(plays, u), ordered);
  }
}
