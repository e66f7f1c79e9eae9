/** Facts about sequences used by the read projections: duplicate-freedom
    stated on multisets (so that it survives any reordering) and a stable
    insertion sort under a caller-supplied "ranks at least as high" relation. */
module Seqs {

  /** Every value occurs at most once in `s`. */
  ghost predicate NoDup<T(!new)>(s: seq<T>) {
    forall x :: multiset(s)[x] <= 1
  }

  /** Two equal entries at different positions make a value occur twice. */
  lemma RepeatCountsTwice<T(!new)>(s: seq<T>, i: int, j: int)
    requires 0 <= i < j < |s|
    ensures s[i] == s[j] ==> multiset(s)[s[i]] >= 2
  {
    assert s == s[..j] + s[j..];
    assert s[i] in s[..j];
    assert s[j] in s[j..];
  }

  lemma NoDupDistinct<T(!new)>(s: seq<T>, i: int, j: int)
    requires NoDup(s)
    requires 0 <= i < |s| && 0 <= j < |s| && i != j
    ensures s[i] != s[j]
  {
    if i < j {
      RepeatCountsTwice(s, i, j);
    } else {
      RepeatCountsTwice(s, j, i);
    }
  }

  lemma {:induction false} DistinctNoDup<T(!new)>(s: seq<T>)
    requires forall i, j :: 0 <= i < j < |s| ==> s[i] != s[j]
    ensures NoDup(s)
  {
    if |s| > 0 {
      var init, last := s[..|s| - 1], s[|s| - 1];
      assert s == init + [last];
      DistinctNoDup(init);
      forall k | 0 <= k < |init|
        ensures init[k] != last
      {
        assert init[k] == s[k];
      }
      forall x
        ensures multiset(s)[x] <= 1
      {
        assert multiset(s)[x] == multiset(init)[x] + multiset([last])[x];
      }
    }
  }

  /** `ge` ranks any two values one way or the other. */
  ghost predicate Total<T(!new)>(ge: (T, T) -> bool) {
    forall a, b :: ge(a, b) || ge(b, a)
  }

  ghost predicate Transitive<T(!new)>(ge: (T, T) -> bool) {
    forall a, b, c :: ge(a, b) && ge(b, c) ==> ge(a, c)
  }

  /** Each entry ranks at least as high as the one after it. */
  predicate SortedBy<T(!new)>(s: seq<T>, ge: (T, T) -> bool) {
    forall i :: 0 < i < |s| ==> ge(s[i - 1], s[i])
  }

  /** Under a transitive relation adjacent order gives order between any
      two positions. */
  lemma {:induction false} SortedPairwise<T(!new)>(s: seq<T>, ge: (T, T) -> bool, i: int, j: int)
    requires SortedBy(s, ge) && Transitive(ge)
    requires 0 <= i < j < |s|
    ensures ge(s[i], s[j])
    decreases j - i
  {
    if j > i + 1 {
      SortedPairwise(s, ge, i + 1, j);
      assert ge(s[i], s[i + 1]);
    } else {
      assert ge(s[j - 1], s[j]);
    }
  }

  /** Inserts `x` before the first entry that `x` ranks at least as high as. */
  function Insert<T(!new)>(x: T, s: seq<T>, ge: (T, T) -> bool): (r: seq<T>)
    requires Total(ge) && SortedBy(s, ge)
    ensures multiset(r) == multiset(s) + multiset{x}
    ensures SortedBy(r, ge)
    ensures r[0] == x || (|s| > 0 && r[0] == s[0])
    decreases |s|
  {
    if |s| == 0 || ge(x, s[0]) then
      SortedCons(x, s, ge);
      [x] + s
    else
      assert s == [s[0]] + s[1..];
      SortedTail(s, ge);
      var rest := Insert(x, s[1..], ge);
      assert ge(s[0], rest[0]) by {
        if rest[0] == x { assert ge(x, s[0]) || ge(s[0], x); } else { assert ge(s[0], s[1]); }
      }
      SortedCons(s[0], rest, ge);
      [s[0]] + rest
  }

  lemma SortedTail<T(!new)>(s: seq<T>, ge: (T, T) -> bool)
    requires SortedBy(s, ge) && |s| > 0
    ensures SortedBy(s[1..], ge)
  {
    forall i | 0 < i < |s| - 1 ensures ge(s[1..][i - 1], s[1..][i]) {
      assert s[1..][i - 1] == s[i] && s[1..][i] == s[i + 1];
    }
  }

  lemma SortedCons<T(!new)>(a: T, t: seq<T>, ge: (T, T) -> bool)
    requires SortedBy(t, ge) && (|t| > 0 ==> ge(a, t[0]))
    ensures SortedBy([a] + t, ge)
  {
    var r := [a] + t;
    forall i | 0 < i < |r| ensures ge(r[i - 1], r[i]) {
      if i > 1 { assert r[i - 1] == t[i - 2] && r[i] == t[i - 1]; }
    }
  }

  /** Insertion sort: a reordering of `s` in which each entry ranks at
      least as high as the next. */
  function Sort<T(!new)>(s: seq<T>, ge: (T, T) -> bool): (r: seq<T>)
    requires Total(ge)
    ensures multiset(r) == multiset(s)
    ensures SortedBy(r, ge)
    decreases |s|
  {
    if |s| == 0 then
      []
    else
      assert s == [s[0]] + s[1..];
      Insert(s[0], Sort(s[1..], ge), ge)
  }
}
