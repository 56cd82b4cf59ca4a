/** Sorting byte ranges and checking neighbours, against pairwise disjointness. */
module Ranges {

  /** The bytes from start up to but not including end. */
  datatype Range = Range(start: nat, end: nat)

  /** The order of the tuples the source sorts. */
  predicate Before(a: Range, b: Range) {
    a.start < b.start || (a.start == b.start && a.end <= b.end)
  }

  function Insert(x: Range, s: seq<Range>): seq<Range> {
    if s == [] then [x] else if Before(x, s[0]) then [x] + s else [s[0]] + Insert(x, s[1..])
  }

  /** list.sort() */
  function Sort(s: seq<Range>): (r: seq<Range>) {
    if s == [] then [] else Insert(s[0], Sort(s[1..]))
  }

  predicate Sorted(s: seq<Range>) {
    forall i | 0 < i < |s| :: Before(s[i - 1], s[i])
  }

  lemma {:induction false} InsertElements(x: Range, s: seq<Range>)
    ensures multiset(Insert(x, s)) == multiset(s) + multiset{x}
  {
    if s != [] {
      assert s == [s[0]] + s[1..];
      InsertElements(x, s[1..]);
    }
  }

  lemma ConsSorted(x: Range, s: seq<Range>)
    ensures Sorted([x] + s) <==> (s == [] || Before(x, s[0])) && Sorted(s)
  {
    var r := [x] + s;
    if Sorted(r) {
      forall i | 0 < i < |s| ensures Before(s[i - 1], s[i]) {
        assert Before(r[i], r[i + 1]);
      }
      assert s != [] ==> Before(r[0], r[1]);
    } else if (s == [] || Before(x, s[0])) && Sorted(s) {
      forall i | 0 < i < |r| ensures Before(r[i - 1], r[i]) {
        assert i > 1 ==> Before(s[i - 2], s[i - 1]);
      }
    }
  }

  lemma {:induction false} InsertSorted(x: Range, s: seq<Range>)
    requires Sorted(s)
    ensures Sorted(Insert(x, s)) && (Insert(x, s)[0] == x || (s != [] && Insert(x, s)[0] == s[0]))
  {
    if s != [] {
      assert s == [s[0]] + s[1..];
      ConsSorted(s[0], s[1..]);
      if Before(x, s[0]) {
        ConsSorted(x, s);
      } else {
        InsertSorted(x, s[1..]);
        ConsSorted(s[0], Insert(x, s[1..]));
      }
    }
  }

  /** The library sort as used: sorted, and a permutation of its input. */
  lemma {:induction false} SortSorts(s: seq<Range>)
    ensures Sorted(Sort(s)) && multiset(Sort(s)) == multiset(s)
  {
    if s != [] {
      assert s == [s[0]] + s[1..];
      SortSorts(s[1..]);
      InsertSorted(s[0], Sort(s[1..]));
      InsertElements(s[0], Sort(s[1..]));
    }
  }

  predicate Disjoint(a: Range, b: Range) {
    a.end <= b.start || b.end <= a.start
  }

  predicate NonEmpty(s: seq<Range>) {
    forall i | 0 <= i < |s| :: s[i].start < s[i].end
  }

  predicate PairwiseDisjoint(s: seq<Range>) {
    forall i, j | 0 <= i < j < |s| :: Disjoint(s[i], s[j])
  }

  /** The check the source makes on the sorted ranges. */
  predicate NeighboursApart(s: seq<Range>) {
    forall i | 0 < i < |s| :: s[i - 1].end <= s[i].start
  }

  lemma {:induction false} NeighboursReach(s: seq<Range>, i: nat, j: nat)
    requires NeighboursApart(s) && NonEmpty(s) && i < j < |s|
    ensures s[i].end <= s[j].start
  {
    if i + 1 < j {
      NeighboursReach(s, i, j - 1);
    }
  }

  /** x is disjoint from every range of s. */
  predicate Clear(x: Range, s: seq<Range>) {
    forall i | 0 <= i < |s| :: Disjoint(x, s[i])
  }

  lemma {:induction false} InsertClear(y: Range, x: Range, s: seq<Range>)
    ensures Clear(y, Insert(x, s)) <==> Disjoint(y, x) && Clear(y, s)
  {
    if s == [] {
      assert Insert(x, s)[0] == x;
    } else if Before(x, s[0]) {
      var r := Insert(x, s);
      assert r[0] == x && forall i | 0 <= i < |s| :: s[i] == r[i + 1];
    } else {
      InsertClear(y, x, s[1..]);
      ConsClear(y, s[0], s[1..]);
      ConsClear(y, s[0], Insert(x, s[1..]));
      assert s == [s[0]] + s[1..];
    }
  }

  lemma ConsClear(y: Range, x: Range, s: seq<Range>)
    ensures Clear(y, [x] + s) <==> Disjoint(y, x) && Clear(y, s)
  {
    var r := [x] + s;
    assert r[0] == x && forall i | 0 <= i < |s| :: s[i] == r[i + 1];
  }

  lemma ConsPairwise(x: Range, s: seq<Range>)
    ensures PairwiseDisjoint([x] + s) <==> Clear(x, s) && PairwiseDisjoint(s)
  {
    var r := [x] + s;
    assert r[0] == x && forall i | 0 <= i < |s| :: s[i] == r[i + 1];
  }

  lemma {:induction false} InsertPairwise(x: Range, s: seq<Range>)
    ensures PairwiseDisjoint(Insert(x, s)) <==> Clear(x, s) && PairwiseDisjoint(s)
  {
    if s == [] || Before(x, s[0]) {
      ConsPairwise(x, s);
      assert Insert(x, s) == [x] + s;
    } else {
      var h, t := s[0], s[1..];
      assert s == [h] + t;
      InsertPairwise(x, t);
      ConsPairwise(h, t);
      ConsPairwise(h, Insert(x, t));
      InsertClear(h, x, t);
      ConsClear(x, h, t);
    }
  }

  lemma {:induction false} SortClear(y: Range, s: seq<Range>)
    ensures Clear(y, Sort(s)) <==> Clear(y, s)
  {
    if s != [] {
      SortClear(y, s[1..]);
      InsertClear(y, s[0], Sort(s[1..]));
      ConsClear(y, s[0], s[1..]);
      assert s == [s[0]] + s[1..];
    }
  }

  lemma {:induction false} SortPairwise(s: seq<Range>)
    ensures PairwiseDisjoint(Sort(s)) <==> PairwiseDisjoint(s)
  {
    if s != [] {
      SortPairwise(s[1..]);
      InsertPairwise(s[0], Sort(s[1..]));
      SortClear(s[0], s[1..]);
      ConsPairwise(s[0], s[1..]);
      assert s == [s[0]] + s[1..];
    }
  }

  /** Sorting and comparing neighbours decides whether all pairs of nonempty ranges are disjoint. */
  lemma SortedCheckIsPairwise(s: seq<Range>)
    requires NonEmpty(s)
    ensures NeighboursApart(Sort(s)) <==> PairwiseDisjoint(s)
  {
    var r := Sort(s);
    SortSorts(s);
    SortNonEmpty(s);
    SortPairwise(s);
    if NeighboursApart(r) {
      forall i, j | 0 <= i < j < |r| ensures Disjoint(r[i], r[j]) {
        NeighboursReach(r, i, j);
      }
    } else if PairwiseDisjoint(r) {
      forall i | 0 < i < |r| ensures r[i - 1].end <= r[i].start {
        assert Disjoint(r[i - 1], r[i]) && Before(r[i - 1], r[i]);
      }
    }
  }

  lemma SortNonEmpty(s: seq<Range>)
    requires NonEmpty(s)
    ensures NonEmpty(Sort(s))
  {
    SortSorts(s);
    forall i | 0 <= i < |Sort(s)| ensures Sort(s)[i].start < Sort(s)[i].end {
      assert Sort(s)[i] in multiset(s);
    }
  }

  function TotalSize(s: seq<Range>): int {
    if s == [] then 0 else s[0].end - s[0].start + TotalSize(s[1..])
  }

  predicate Inside(s: seq<Range>, n: nat) {
    forall i | 0 <= i < |s| :: s[i].end <= n
  }

  lemma {:induction false} InsertSize(x: Range, s: seq<Range>)
    ensures TotalSize(Insert(x, s)) == x.end - x.start + TotalSize(s)
  {
    if s != [] && !Before(x, s[0]) {
      InsertSize(x, s[1..]);
    }
  }

  lemma {:induction false} SortSize(s: seq<Range>)
    ensures TotalSize(Sort(s)) == TotalSize(s)
  {
    if s != [] {
      SortSize(s[1..]);
      InsertSize(s[0], Sort(s[1..]));
    }
  }

  lemma {:induction false} ApartSize(s: seq<Range>, n: nat)
    requires NeighboursApart(s) && NonEmpty(s) && Inside(s, n) && s != []
    ensures s[0].start + TotalSize(s) <= n
  {
    if |s| > 1 {
      assert forall i | 0 < i < |s| - 1 :: s[1..][i - 1] == s[i] && s[1..][i] == s[i + 1];
      ApartSize(s[1..], n);
    }
  }

  /** Pairwise disjoint ranges inside n bytes have at most n bytes together. */
  lemma DisjointSize(s: seq<Range>, n: nat)
    requires PairwiseDisjoint(s) && NonEmpty(s) && Inside(s, n)
    ensures TotalSize(s) <= n
  {
    if s != [] {
      SortedCheckIsPairwise(s);
      SortNonEmpty(s);
      SortSorts(s);
      SortSize(s);
      assert s[0] in multiset(Sort(s));
      forall i | 0 <= i < |Sort(s)| ensures Sort(s)[i].end <= n {
        assert Sort(s)[i] in multiset(s);
      }
      ApartSize(Sort(s), n);
    }
  }
}
