/** Physical memory: ranges, regions and page frames. */
module Physical {
  import opened Bytes

  const PAGE_SIZE := 4096
  const ADDRESS_LIMIT := 0x1_0000_0000_0000_0000

  datatype PhysicalRange = PhysicalRange(start: u64, length: u64)

  datatype MapEntry = MapEntry(base: u64, length: u64, usable: bool)

  /** Frames from `next` up to `end` are still to be handed out. */
  datatype Region = Region(next: u64, end: u64)

  const EMPTY_REGION := Region(0, 0)

  /** `x & !(PAGE_SIZE - 1)`. */
  function Down(x: u64): (r: u64)
    ensures r % PAGE_SIZE == 0 && r <= x < r + PAGE_SIZE
  {
    x - x % PAGE_SIZE
  }

  /** Where a range ends; a range that would wrap is taken to reach the last address. */
  function EndOf(r: PhysicalRange): u64 {
    if r.start + r.length < ADDRESS_LIMIT then r.start + r.length else ADDRESS_LIMIT - 1
  }

  predicate In(r: PhysicalRange, x: int) { r.start <= x < EndOf(r) }

  /** An address of a range, up to the last but one there is. */
  lemma InIff(r: PhysicalRange, x: int)
    ensures In(r, x) <==> r.start <= x < r.start + r.length && x < 0xffff_ffff_ffff_ffff
  {}

  ghost predicate Covered(rs: seq<PhysicalRange>, x: int) {
    exists k :: 0 <= k < |rs| && In(rs[k], x)
  }

  ghost predicate SortedByStart(rs: seq<PhysicalRange>) {
    forall i, j | 0 <= i < j < |rs| :: rs[i].start <= rs[j].start
  }

  /** A range that reaches past the last address. */
  predicate Wraps(r: PhysicalRange) { r.start + r.length >= ADDRESS_LIMIT }

  /** Such a range that every other ends before: the one kind that merging leaves as it is. */
  ghost predicate Outlier(rs: seq<PhysicalRange>, r: PhysicalRange) {
    r in rs && Wraps(r) && multiset(rs)[r] == 1 && forall q | q in rs && q != r :: EndOf(q) < r.start
  }

  /** In order with a gap between each range and the next. */
  ghost predicate Separated(rs: seq<PhysicalRange>) {
    forall i, j | 0 <= i < j < |rs| :: EndOf(rs[i]) < rs[j].start
  }
}
/** `sort_and_merge_ranges`: an insertion sort in place, then a compaction in place. */
module RangeMerge {
  import opened Bytes
  import opened Physical

  /** All but the element at `hole` are in order up to `n`, and that element belongs before those behind it. */
  ghost predicate Sinking(rs: seq<PhysicalRange>, n: nat, hole: nat) {
    && hole <= n < |rs|
    && (forall i, j | 0 <= i < j <= n && i != hole && j != hole :: rs[i].start <= rs[j].start)
    && (forall k | hole < k <= n :: rs[hole].start < rs[k].start)
  }

  function Swapped(s: seq<PhysicalRange>, i: nat, j: nat): (r: seq<PhysicalRange>)
    requires i < |s| && j < |s|
    ensures |r| == |s|
  {
    s[i := s[j]][j := s[i]]
  }

  ghost predicate SameElements(a: seq<PhysicalRange>, b: seq<PhysicalRange>) { multiset(a) == multiset(b) }

  lemma SameElementsMeans(a: seq<PhysicalRange>, b: seq<PhysicalRange>)
    ensures SameElements(a, b) <==> multiset(a) == multiset(b)
  {}

  lemma SwapKeeps(s: seq<PhysicalRange>, i: nat, j: nat, was: seq<PhysicalRange>)
    requires i < |s| && j < |s| && SameElements(s, was)
    ensures SameElements(Swapped(s, i, j), was)
  {
    assert multiset(Swapped(s, i, j)) == multiset(s);
  }

  lemma SinkStarts(s: seq<PhysicalRange>, n: nat)
    requires n < |s| && SortedByStart(s[..n])
    ensures Sinking(s, n, n)
  {
    forall i, j | 0 <= i < j <= n && i != n && j != n
      ensures s[i].start <= s[j].start
    {
      assert s[..n][i] == s[i] && s[..n][j] == s[j];
    }
  }

  lemma SinkMoves(s: seq<PhysicalRange>, n: nat, hole: nat)
    requires Sinking(s, n, hole) && hole > 0 && s[hole].start < s[hole - 1].start
    ensures Sinking(Swapped(s, hole, hole - 1), n, hole - 1)
  {}

  lemma SinkEnds(s: seq<PhysicalRange>, n: nat, hole: nat)
    requires Sinking(s, n, hole) && (hole == 0 || s[hole - 1].start <= s[hole].start)
    ensures SortedByStart(s[..n + 1])
  {
    var p := s[..n + 1];
    forall i, j | 0 <= i < j < |p|
      ensures p[i].start <= p[j].start
    {
      if j == hole && i < hole - 1 {
        assert s[i].start <= s[hole - 1].start;
      }
    }
  }

  /** The inner loop: the element at `index` sinks to its place. */
  method Sink(ranges: array<PhysicalRange>, index: nat)
    requires index < ranges.Length && SortedByStart(ranges[..index])
    modifies ranges
    ensures SortedByStart(ranges[..index + 1])
    ensures multiset(ranges[..]) == multiset(old(ranges[..]))
  {
    hide Sinking, SortedByStart, SameElements;
    ghost var was := ranges[..];
    SameElementsMeans(was, was);
    assert ranges[..][..index] == ranges[..index];
    SinkStarts(ranges[..], index);
    var position := index;
    while position > 0 && ranges[position].start < ranges[position - 1].start
      invariant 0 <= position <= index
      invariant SameElements(ranges[..], was)
      invariant Sinking(ranges[..], index, position)
    {
      ghost var s := ranges[..];
      SinkMoves(s, index, position);
      SwapKeeps(s, position, position - 1, was);
      ranges[position], ranges[position - 1] := ranges[position - 1], ranges[position];
      assert ranges[..] == Swapped(s, position, position - 1);
      position := position - 1;
    }
    SinkEnds(ranges[..], index, position);
    assert ranges[..][..index + 1] == ranges[..index + 1];
    SameElementsMeans(ranges[..], was);
  }

  /** The outer loop. */
  method Sort(ranges: array<PhysicalRange>)
    modifies ranges
    ensures SortedByStart(ranges[..])
    ensures multiset(ranges[..]) == multiset(old(ranges[..]))
  {
    if ranges.Length == 0 {
      return;
    }
    for index := 1 to ranges.Length
      invariant SortedByStart(ranges[..index])
      invariant multiset(ranges[..]) == multiset(old(ranges[..]))
    {
      Sink(ranges, index);
    }
    assert ranges[..ranges.Length] == ranges[..];
  }

  lemma SameElementsCover(a: seq<PhysicalRange>, b: seq<PhysicalRange>)
    requires multiset(a) == multiset(b)
    ensures forall x :: Covered(a, x) <==> Covered(b, x)
  {
    forall x | Covered(a, x)
      ensures Covered(b, x)
    {
      var k :| 0 <= k < |a| && In(a[k], x);
      assert a[k] in multiset(a);
      assert a[k] in b;
    }
    forall x | Covered(b, x)
      ensures Covered(a, x)
    {
      var k :| 0 <= k < |b| && In(b[k], x);
      assert b[k] in multiset(b);
      assert b[k] in a;
    }
  }

  /** The compaction stands at `index`: the ranges up to `merged` cover what the first `index` did, with gaps
    * between them, and the last of them reaches as far as any. */
  ghost predicate Merging(now: seq<PhysicalRange>, was: seq<PhysicalRange>, merged: nat, index: nat) {
    && |now| == |was| && merged < index <= |was|
    && Separated(now[..merged + 1])
    && (forall x :: Covered(now[..merged + 1], x) <==> Covered(was[..index], x))
    && (forall k | index <= k < |was| :: now[k] == was[k] && now[merged].start <= was[k].start)
  }

  lemma CoveredOneMore(rs: seq<PhysicalRange>, n: nat, x: int)
    requires n < |rs|
    ensures Covered(rs[..n + 1], x) <==> Covered(rs[..n], x) || In(rs[n], x)
  {
    if Covered(rs[..n], x) {
      var k :| 0 <= k < n && In(rs[..n][k], x);
      assert rs[..n + 1][k] == rs[k];
    }
    if In(rs[n], x) {
      assert rs[..n + 1][n] == rs[n];
    }
    if Covered(rs[..n + 1], x) && !In(rs[n], x) {
      var k :| 0 <= k < n + 1 && In(rs[..n + 1][k], x);
      assert rs[..n][k] == rs[k];
    }
  }

  lemma JoinCovers(a: PhysicalRange, b: PhysicalRange, x: int)
    requires a.start <= b.start <= EndOf(a)
    ensures var joined := PhysicalRange(a.start, Max(EndOf(a), EndOf(b)) - a.start);
      In(joined, x) <==> In(a, x) || In(b, x)
  {}

  /** The next range touches or overlaps the last one. */
  lemma MergeJoins(now: seq<PhysicalRange>, was: seq<PhysicalRange>, merged: nat, index: nat)
    requires SortedByStart(was) && Merging(now, was, merged, index) && index < |was|
    requires was[index].start <= EndOf(now[merged])
    ensures var joined := PhysicalRange(now[merged].start, Max(EndOf(now[merged]), EndOf(was[index])) - now[merged].start);
      Merging(now[merged := joined], was, merged, index + 1)
  {
    var joined := PhysicalRange(now[merged].start, Max(EndOf(now[merged]), EndOf(was[index])) - now[merged].start);
    var after := now[merged := joined];
    assert after[..merged] == now[..merged];
    assert forall k | 0 <= k <= merged :: now[..merged + 1][k] == now[k];
    var prefix, goal := after[..merged + 1], was[..index + 1];
    forall x: int
      ensures Covered(prefix, x) <==> Covered(goal, x)
    {
      CoveredOneMore(after, merged, x);
      CoveredOneMore(now, merged, x);
      CoveredOneMore(was, index, x);
      JoinCovers(now[merged], was[index], x);
    }
  }

  /** The next range lies apart from the last one. */
  lemma MergeAdds(now: seq<PhysicalRange>, was: seq<PhysicalRange>, merged: nat, index: nat)
    requires SortedByStart(was) && Merging(now, was, merged, index) && index < |was|
    requires was[index].start > EndOf(now[merged])
    ensures Merging(now[merged + 1 := was[index]], was, merged + 1, index + 1)
  {
    var after := now[merged + 1 := was[index]];
    assert after[..merged + 1] == now[..merged + 1];
    forall i, j | 0 <= i < j < merged + 2
      ensures EndOf(after[i]) < after[j].start
    {
      assert now[..merged + 1][i] == now[i] && now[..merged + 1][merged] == now[merged];
      assert j <= merged ==> now[..merged + 1][j] == now[j];
    }
    var prefix, goal := after[..merged + 2], was[..index + 1];
    forall x: int
      ensures Covered(prefix, x) <==> Covered(goal, x)
    {
      CoveredOneMore(after, merged + 1, x);
      CoveredOneMore(was, index, x);
    }
  }

  /** The ranges are compacted towards the front. */
  method Merge(ranges: array<PhysicalRange>) returns (count: nat)
    requires SortedByStart(ranges[..])
    modifies ranges
    ensures ranges.Length == 0 ==> count == 1
    ensures ranges.Length > 0 ==>
      && 1 <= count <= ranges.Length && Separated(ranges[..count])
      && forall x :: Covered(ranges[..count], x) <==> Covered(old(ranges[..]), x)
    ensures 1 <= count <= ranges.Length ==>
      forall r :: (r in ranges[..count] && Wraps(r)) <==> Outlier(old(ranges[..]), r)
  {
    hide Merging, Ending, Separated, Covered, SortedByStart, Outlier;
    ghost var was := ranges[..];
    var merged: nat := 0;
    if ranges.Length == 0 {
      return merged + 1;
    }
    MergeStarts(was);
    for index := 1 to ranges.Length
      invariant Merging(ranges[..], was, merged, index) && Ending(ranges[..], was, merged, index)
    {
      ghost var now := ranges[..];
      MergeStands(now, was, merged, index);
      var end := EndOf(ranges[merged]);
      var nextEnd := EndOf(ranges[index]);
      if ranges[index].start <= end {
        MergeJoins(now, was, merged, index);
        EndingJoins(now, was, merged, index);
        ranges[merged] := PhysicalRange(ranges[merged].start, Max(end, nextEnd) - ranges[merged].start);
        assert ranges[..] == now[merged := ranges[merged]];
      } else {
        MergeAdds(now, was, merged, index);
        EndingAdds(now, was, merged, index);
        merged := merged + 1;
        ranges[merged] := ranges[index];
        assert ranges[..] == now[merged := now[index]];
      }
    }
    MergeEnds(ranges[..], was, merged);
    OutliersStay(ranges[..], was, merged);
    assert ranges[..][..merged + 1] == ranges[..merged + 1];
    return merged + 1;
  }

  lemma MergeStarts(was: seq<PhysicalRange>)
    requires was != [] && SortedByStart(was)
    ensures Merging(was, was, 0, 1) && Ending(was, was, 0, 1)
  {}

  lemma MergeStands(now: seq<PhysicalRange>, was: seq<PhysicalRange>, merged: nat, index: nat)
    requires Merging(now, was, merged, index)
    ensures |now| == |was| && merged < index <= |was|
    ensures index < |was| ==> now[index] == was[index] && now[merged].start <= was[index].start
  {}

  lemma MergeEnds(now: seq<PhysicalRange>, was: seq<PhysicalRange>, merged: nat)
    requires Merging(now, was, merged, |was|)
    ensures merged < |now| == |was| && Separated(now[..merged + 1])
    ensures forall x :: Covered(now[..merged + 1], x) <==> Covered(was, x)
  {
    assert was[..|was|] == was;
  }

  /** Ranges with gaps between them are in order. */
  lemma SeparatedIsSorted(rs: seq<PhysicalRange>)
    requires Separated(rs)
    ensures SortedByStart(rs)
  {
    forall i, j | 0 <= i < j < |rs|
      ensures rs[i].start <= rs[j].start
    {
      assert rs[i].start <= EndOf(rs[i]) < rs[j].start;
    }
  }

  /** The range that is `index - 1`-th in order starts behind the end of all before it. */
  ghost predicate Alone(was: seq<PhysicalRange>, index: nat)
    requires 0 < index <= |was|
  {
    forall j | 0 <= j < index - 1 :: EndOf(was[j]) < was[index - 1].start
  }

  /** The last merged range ends where the furthest of the ranges so far does; it is the last of those as it was if that
    * one stood alone, and otherwise does not wrap. */
  ghost predicate Ending(now: seq<PhysicalRange>, was: seq<PhysicalRange>, merged: nat, index: nat) {
    && merged < |now| && 0 < index <= |was|
    && (forall j | 0 <= j < index :: EndOf(was[j]) <= EndOf(now[merged]))
    && (exists j :: 0 <= j < index && EndOf(was[j]) == EndOf(now[merged]))
    && (Alone(was, index) ==> now[merged] == was[index - 1])
    && (Wraps(now[merged]) ==> Alone(was, index))
  }

  lemma EndingJoins(now: seq<PhysicalRange>, was: seq<PhysicalRange>, merged: nat, index: nat)
    requires Ending(now, was, merged, index) && index < |was|
    requires now[merged].start <= was[index].start <= EndOf(now[merged])
    ensures var joined := PhysicalRange(now[merged].start, Max(EndOf(now[merged]), EndOf(was[index])) - now[merged].start);
      Ending(now[merged := joined], was, merged, index + 1)
  {
    var joined := PhysicalRange(now[merged].start, Max(EndOf(now[merged]), EndOf(was[index])) - now[merged].start);
    assert EndOf(joined) == Max(EndOf(now[merged]), EndOf(was[index])) && !Wraps(joined);
    var j :| 0 <= j < index && EndOf(was[j]) == EndOf(now[merged]);
    assert EndOf(was[j]) >= was[index].start;
    assert EndOf(was[if EndOf(was[index]) >= EndOf(now[merged]) then index else j]) == EndOf(joined);
  }

  lemma EndingAdds(now: seq<PhysicalRange>, was: seq<PhysicalRange>, merged: nat, index: nat)
    requires Ending(now, was, merged, index) && index < |was| && merged + 1 < |now|
    requires was[index].start > EndOf(now[merged])
    ensures Ending(now[merged + 1 := was[index]], was, merged + 1, index + 1)
  {
    var after := now[merged + 1 := was[index]];
    assert EndOf(was[index]) == EndOf(after[merged + 1]);
  }

  /** Membership and number of a range, its last place aside. */
  lemma LastAside(was: seq<PhysicalRange>, r: PhysicalRange)
    requires was != []
    ensures var n := |was| - 1;
      && (r in was <==> r in was[..n] || r == was[n])
      && multiset(was)[r] == multiset(was[..n])[r] + (if r == was[n] then 1 else 0)
      && (r in was[..n] <==> multiset(was[..n])[r] > 0)
      && (r in was[..n] <==> exists j :: 0 <= j < n && was[j] == r)
  {
    var n := |was| - 1;
    assert was == was[..n] + [was[n]];
    if r in was[..n] {
      var j :| 0 <= j < n && was[..n][j] == r;
      assert was[j] == r;
    }
    if j :| 0 <= j < n && was[j] == r {
      assert was[..n][j] == r;
    }
  }

  lemma OutlierBehind(was: seq<PhysicalRange>, r: PhysicalRange)
    requires SortedByStart(was) && was != [] && Outlier(was, r)
    ensures r == was[|was| - 1] && Alone(was, |was|)
  {
    var n := |was| - 1;
    LastAside(was, r);
    LastAside(was, was[n]);
    assert r == was[n] by {
      var k :| 0 <= k < |was| && was[k] == r;
      assert was[k].start <= was[n].start <= EndOf(was[n]);
    }
    forall j | 0 <= j < n
      ensures EndOf(was[j]) < was[n].start
    {
      LastAside(was, was[j]);
    }
  }

  lemma AloneIsOutlier(was: seq<PhysicalRange>)
    requires was != [] && Alone(was, |was|) && Wraps(was[|was| - 1])
    ensures Outlier(was, was[|was| - 1])
  {
    var n := |was| - 1;
    var r := was[n];
    LastAside(was, r);
    assert r !in was[..n];
    forall q | q in was && q != r
      ensures EndOf(q) < r.start
    {
      LastAside(was, q);
      var j :| 0 <= j < n && was[j] == q;
    }
  }

  /** The ranges that still wrap after merging are the outliers. */
  lemma OutliersStay(now: seq<PhysicalRange>, was: seq<PhysicalRange>, merged: nat)
    requires SortedByStart(was) && Ending(now, was, merged, |was|) && Separated(now[..merged + 1])
    ensures forall r :: (r in now[..merged + 1] && Wraps(r)) <==> Outlier(was, r)
  {
    hide Outlier, Alone;
    var kept := now[..merged + 1];
    assert kept[merged] == now[merged];
    forall r: PhysicalRange
      ensures (r in kept && Wraps(r)) <==> Outlier(was, r)
    {
      if Outlier(was, r) {
        OutlierBehind(was, r);
        OutlierWraps(was, r);
      }
      if r in kept && Wraps(r) {
        var k :| 0 <= k <= merged && kept[k] == r;
        assert EndOf(kept[k]) == ADDRESS_LIMIT - 1 >= kept[merged].start;
        AloneIsOutlier(was);
      }
    }
  }

  lemma OutlierWraps(rs: seq<PhysicalRange>, r: PhysicalRange)
    requires Outlier(rs, r)
    ensures Wraps(r)
  {}

  lemma SameOutliers(a: seq<PhysicalRange>, b: seq<PhysicalRange>)
    requires multiset(a) == multiset(b)
    ensures forall r :: Outlier(a, r) <==> Outlier(b, r)
  {
    assert forall r :: r in a <==> r in multiset(a);
    assert forall r :: r in b <==> r in multiset(b);
  }

  /** Afterwards the first `count` ranges lie in order with gaps between them and cover exactly the addresses that
    * were covered before; what still wraps are the outliers. */
  method SortAndMerge(ranges: array<PhysicalRange>) returns (count: nat)
    modifies ranges
    ensures ranges.Length == 0 ==> count == 1
    ensures ranges.Length > 0 ==>
      && 1 <= count <= ranges.Length && Separated(ranges[..count])
      && forall x :: Covered(ranges[..count], x) <==> Covered(old(ranges[..]), x)
    ensures 1 <= count <= ranges.Length ==>
      forall r :: (r in ranges[..count] && Wraps(r)) <==> Outlier(old(ranges[..]), r)
  {
    Sort(ranges);
    SameElementsCover(ranges[..], old(ranges[..]));
    SameOutliers(ranges[..], old(ranges[..]));
    count := Merge(ranges);
  }
}
