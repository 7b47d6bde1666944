/** The overlap test of `open_sealed_record_table_v2`: sort the frame extents by start,
    then compare neighbours (vault/format.rs). */
module FrameExtents {

  /** A frame occupies the half-open byte range [start, end). */
  datatype Extent = Extent(start: nat, end: nat)

  type Sorter = seq<Extent> -> seq<Extent>

  predicate SortedByStart(xs: seq<Extent>) {
    forall i, j :: 0 <= i < j < |xs| ==> xs[i].start <= xs[j].start
  }

  /** All that `sort_unstable_by_key` promises: the order of equal starts is open. */
  ghost predicate SortsByStart(sort: Sorter) {
    forall xs :: SortedByStart(sort(xs)) && multiset(sort(xs)) == multiset(xs)
  }

  /** The `windows(2)` loop. */
  predicate NeighboursApart(xs: seq<Extent>) {
    forall k :: 0 <= k < |xs| - 1 ==> xs[k].end <= xs[k + 1].start
  }

  predicate Disjoint(x: Extent, y: Extent) { x.end <= y.start || y.end <= x.start }

  predicate PairwiseDisjoint(xs: seq<Extent>) {
    forall i, j :: 0 <= i < j < |xs| ==> Disjoint(xs[i], xs[j])
  }

  predicate Ordered(xs: seq<Extent>) { forall x :: x in xs ==> x.start <= x.end }

  // ---- a duplicate in a multiset sits at two positions ---------------------

  lemma {:induction false} TwoPositions(xs: seq<Extent>, v: Extent) returns (i: nat, j: nat)
    requires multiset(xs)[v] >= 2
    ensures i < j < |xs| && xs[i] == v && xs[j] == v
  {
    assert xs == [xs[0]] + xs[1..];
    if xs[0] == v {
      assert v in multiset(xs[1..]);
      var k :| 0 <= k < |xs[1..]| && xs[1..][k] == v;
      i, j := 0, k + 1;
    } else {
      i, j := TwoPositions(xs[1..], v);
      i, j := i + 1, j + 1;
    }
  }

  lemma CountTwo(xs: seq<Extent>, i: nat, j: nat)
    requires i < j < |xs| && xs[i] == xs[j]
    ensures multiset(xs)[xs[i]] >= 2
  {
    assert xs == (xs[..i] + [xs[i]]) + (xs[i + 1..j] + ([xs[j]] + xs[j + 1..]));
  }

  // ---- soundness ---------------------------------------------------------------

  lemma {:induction false} ApartNeighboursAreOrdered(ys: seq<Extent>, i: nat, j: nat)
    requires NeighboursApart(ys) && Ordered(ys) && i < j < |ys|
    ensures ys[i].end <= ys[j].start
    decreases j - i
  {
    if j > i + 1 {
      ApartNeighboursAreOrdered(ys, i, j - 1);
      assert ys[j - 1] in ys && ys[j - 1].end <= ys[j - 1 + 1].start;
    } else {
      assert ys[i].end <= ys[i + 1].start;
    }
  }

  /** Two positions of `xs` give two positions of any permutation of it. */
  lemma PositionsInPermutation(xs: seq<Extent>, ys: seq<Extent>, i: nat, j: nat) returns (p: nat, q: nat)
    requires multiset(xs) == multiset(ys) && i < j < |xs|
    ensures p < |ys| && q < |ys| && p != q && ys[p] == xs[i] && ys[q] == xs[j]
  {
    if xs[i] == xs[j] {
      CountTwo(xs, i, j);
      p, q := TwoPositions(ys, xs[i]);
    } else {
      assert xs[i] in multiset(ys) && xs[j] in multiset(ys);
      p :| 0 <= p < |ys| && ys[p] == xs[i];
      q :| 0 <= q < |ys| && ys[q] == xs[j];
    }
  }

  /** Passing the neighbour test means no two frames share a byte. */
  lemma NeighbourTestIsSound(sort: Sorter, xs: seq<Extent>)
    requires SortsByStart(sort) && Ordered(xs) && NeighboursApart(sort(xs))
    ensures PairwiseDisjoint(xs)
  {
    var ys := sort(xs);
    assert multiset(ys) == multiset(xs);
    assert Ordered(ys) by {
      forall y | y in ys ensures y.start <= y.end { assert y in multiset(xs); }
    }
    forall i, j | 0 <= i < j < |xs| ensures Disjoint(xs[i], xs[j]) {
      var p, q := PositionsInPermutation(xs, ys, i, j);
      if p < q { ApartNeighboursAreOrdered(ys, p, q); } else { ApartNeighboursAreOrdered(ys, q, p); }
    }
  }

  /** No frame of length zero starts where a frame of positive length starts. */
  predicate NoTies(xs: seq<Extent>) {
    forall x, y :: x in xs && y in xs && x.start == x.end == y.start ==> y.end == y.start
  }

  /** Without such a tie the test is exact, however the sort orders equal starts. */
  lemma NeighbourTestIsExact(sort: Sorter, xs: seq<Extent>)
    requires SortsByStart(sort) && Ordered(xs) && NoTies(xs)
    ensures NeighboursApart(sort(xs)) <==> PairwiseDisjoint(xs)
  {
    var ys := sort(xs);
    if PairwiseDisjoint(xs) {
      assert multiset(ys) == multiset(xs);
      forall k | 0 <= k < |ys| - 1 ensures ys[k].end <= ys[k + 1].start {
        var i, j := PositionsOf(xs, ys, k);
        assert Disjoint(xs[i], xs[j]) && xs[j] in xs && xs[i] in xs;
      }
    }
    if NeighboursApart(ys) { NeighbourTestIsSound(sort, xs); }
  }

  /** The positions in `xs` of two neighbours in a permutation of it, smaller index first. */
  lemma PositionsOf(xs: seq<Extent>, ys: seq<Extent>, k: nat) returns (i: nat, j: nat)
    requires multiset(ys) == multiset(xs) && k + 1 < |ys|
    ensures i < j < |xs|
    ensures (xs[i] == ys[k] && xs[j] == ys[k + 1]) || (xs[j] == ys[k] && xs[i] == ys[k + 1])
  {
    var p, q := PositionsInPermutation(ys, xs, k, k + 1);
    i, j := if p < q then p else q, if p < q then q else p;
  }

  // ---- such a sort exists ------------------------------------------------------

  function Insert(x: Extent, xs: seq<Extent>): (ys: seq<Extent>)
    ensures multiset(ys) == multiset(xs) + multiset{x}
  {
    if xs == [] || x.start <= xs[0].start then [x] + xs
    else assert xs == [xs[0]] + xs[1..]; [xs[0]] + Insert(x, xs[1..])
  }

  function InsertionSort(xs: seq<Extent>): (ys: seq<Extent>)
    ensures multiset(ys) == multiset(xs)
  {
    if xs == [] then [] else assert xs == [xs[0]] + xs[1..]; Insert(xs[0], InsertionSort(xs[1..]))
  }

  lemma {:induction false} InsertKeepsSorted(x: Extent, xs: seq<Extent>)
    requires SortedByStart(xs)
    ensures SortedByStart(Insert(x, xs))
  {
    if xs != [] && x.start > xs[0].start {
      var rest := Insert(x, xs[1..]);
      InsertKeepsSorted(x, xs[1..]);
      forall y | y in rest ensures xs[0].start <= y.start {
        assert y in multiset(rest);
        assert y == x || y in xs[1..];
      }
    }
  }

  lemma {:induction false} InsertionSortSorts(xs: seq<Extent>)
    ensures SortedByStart(InsertionSort(xs))
  {
    if xs != [] {
      InsertionSortSorts(xs[1..]);
      InsertKeepsSorted(xs[0], InsertionSort(xs[1..]));
    }
  }

  lemma SorterExists()
    ensures SortsByStart(InsertionSort)
  {
    forall xs { InsertionSortSorts(xs); }
  }

  // ---- and another one, that puts the longer frame first -------------------------

  /** Start first, and the longer of two frames with the same start first. */
  predicate LongFirst(x: Extent, y: Extent) { x.start < y.start || (x.start == y.start && x.end >= y.end) }

  predicate SortedLongFirst(xs: seq<Extent>) { forall i, j :: 0 <= i < j < |xs| ==> LongFirst(xs[i], xs[j]) }

  function InsertLong(x: Extent, xs: seq<Extent>): (ys: seq<Extent>)
    ensures multiset(ys) == multiset(xs) + multiset{x}
  {
    if xs == [] || LongFirst(x, xs[0]) then [x] + xs
    else assert xs == [xs[0]] + xs[1..]; [xs[0]] + InsertLong(x, xs[1..])
  }

  function LongFirstSort(xs: seq<Extent>): (ys: seq<Extent>)
    ensures multiset(ys) == multiset(xs)
  {
    if xs == [] then [] else assert xs == [xs[0]] + xs[1..]; InsertLong(xs[0], LongFirstSort(xs[1..]))
  }

  lemma {:induction false} InsertLongKeepsSorted(x: Extent, xs: seq<Extent>)
    requires SortedLongFirst(xs)
    ensures SortedLongFirst(InsertLong(x, xs))
  {
    if xs != [] && !LongFirst(x, xs[0]) {
      var rest := InsertLong(x, xs[1..]);
      InsertLongKeepsSorted(x, xs[1..]);
      forall y | y in rest ensures LongFirst(xs[0], y) {
        assert y in multiset(rest);
        assert y == x || y in xs[1..];
      }
    }
  }

  lemma {:induction false} LongFirstSortSorts(xs: seq<Extent>)
    ensures SortedLongFirst(LongFirstSort(xs))
  {
    if xs != [] {
      LongFirstSortSorts(xs[1..]);
      InsertLongKeepsSorted(xs[0], LongFirstSort(xs[1..]));
    }
  }

  lemma LongFirstSortsByStart()
    ensures SortsByStart(LongFirstSort)
  {
    forall xs ensures SortedByStart(LongFirstSort(xs)) { LongFirstSortSorts(xs); }
  }

  /** With a tie, the sort that puts the longer frame first makes the test fail. */
  lemma TieFailsLongFirst(xs: seq<Extent>, x: Extent, y: Extent)
    requires x in xs && y in xs && x.start == x.end == y.start && y.end > y.start
    ensures !NeighboursApart(LongFirstSort(xs))
  {
    hide LongFirstSort, SortedLongFirst, NeighboursApart, LongFirst;
    var ys := LongFirstSort(xs);
    LongFirstSortSorts(xs);
    assert multiset(ys) == multiset(xs);
    assert x in multiset(ys) && y in multiset(ys);
    var p :| 0 <= p < |ys| && ys[p] == y;
    var q :| 0 <= q < |ys| && ys[q] == x;
    LongFrameBeforeTie(ys, p, q);
  }

  lemma LongerComesFirst(ys: seq<Extent>, p: nat, q: nat)
    requires SortedLongFirst(ys) && p < |ys| && q < |ys| && p != q && !LongFirst(ys[q], ys[p])
    ensures p < q
  {}

  lemma LongFrameBeforeTie(ys: seq<Extent>, p: nat, q: nat)
    requires SortedLongFirst(ys) && p < |ys| && q < |ys|
    requires ys[q].start == ys[q].end == ys[p].start && ys[p].end > ys[p].start
    ensures !NeighboursApart(ys)
  {
    LongerComesFirst(ys, p, q);
    assert LongFirst(ys[p], ys[p + 1]);
    if p + 1 < q { assert LongFirst(ys[p + 1], ys[q]); }
    assert ys[p].end > ys[p + 1].start;
  }

  /** When the verdict is right whatever order the unstable sort gives to equal starts: exactly
      when two frames share a byte, or no zero-length frame starts where a longer one does. */
  lemma VerdictIsExactForEverySort(xs: seq<Extent>)
    requires Ordered(xs)
    ensures (forall sort: Sorter :: SortsByStart(sort) ==> (NeighboursApart(sort(xs)) <==> PairwiseDisjoint(xs)))
            <==> (!PairwiseDisjoint(xs) || NoTies(xs))
  {
    hide SortsByStart, NeighboursApart, PairwiseDisjoint, LongFirstSort;
    if !PairwiseDisjoint(xs) || NoTies(xs) {
      forall sort: Sorter | SortsByStart(sort) ensures NeighboursApart(sort(xs)) <==> PairwiseDisjoint(xs) {
        if NoTies(xs) { NeighbourTestIsExact(sort, xs); }
        else if NeighboursApart(sort(xs)) { NeighbourTestIsSound(sort, xs); }
      }
    } else {
      var x, y :| x in xs && y in xs && x.start == x.end == y.start && y.end != y.start;
      TieFailsLongFirst(xs, x, y);
      LongFirstSortsByStart();
    }
  }

  /** The condition is not empty talk: such a tie can be disjoint. */
  lemma DisjointTieExists()
    ensures var xs := [Extent(5, 5), Extent(5, 9)]; Ordered(xs) && PairwiseDisjoint(xs) && !NoTies(xs)
  {
    var xs := [Extent(5, 5), Extent(5, 9)];
    assert xs[0] in xs && xs[1] in xs;
  }
}
