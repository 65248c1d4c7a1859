/** `qsort` and `bsearch`: heap sort and binary search with a caller's comparison. */
module Sorting {
  import opened Bytes

  /** A comparison that orders all elements, ties allowed. */
  ghost predicate TotalPreorder<T(!new)>(compare: (T, T) -> int) {
    && (forall a, b :: compare(a, b) <= 0 <==> compare(b, a) >= 0)
    && (forall a, b, c :: compare(a, b) <= 0 && compare(b, c) <= 0 ==> compare(a, c) <= 0)
  }

  ghost predicate SortedBy<T>(compare: (T, T) -> int, s: seq<T>) {
    forall i, j | 0 <= i < j < |s| :: compare(s[i], s[j]) <= 0
  }

  /** The children of `i` within the heap are not above it. */
  ghost predicate Above<T>(compare: (T, T) -> int, s: seq<T>, i: nat, end: nat)
    requires end <= |s| && i < end
  {
    && (2 * i + 1 < end ==> compare(s[2 * i + 1], s[i]) <= 0)
    && (2 * i + 2 < end ==> compare(s[2 * i + 2], s[i]) <= 0)
  }

  /** From `from` on, `s[..end]` is a heap. */
  ghost predicate Heap<T>(compare: (T, T) -> int, s: seq<T>, from: nat, end: nat) {
    end <= |s| && forall i | from <= i < end :: Above(compare, s, i, end)
  }

  /** A heap but for `hole`, whose children fit under the parent of `hole`. */
  ghost predicate HeapBut<T>(compare: (T, T) -> int, s: seq<T>, from: nat, end: nat, hole: nat) {
    && end <= |s| && from <= hole
    && (forall i | from <= i < end && i != hole :: Above(compare, s, i, end))
    && (forall p | from <= p < end && (hole == 2 * p + 1 || hole == 2 * p + 2) :: Under(compare, s, hole, p, end))
  }

  /** The children of `hole` fit under `p`. */
  ghost predicate Under<T>(compare: (T, T) -> int, s: seq<T>, hole: nat, p: nat, end: nat)
    requires end <= |s| && p < end
  {
    && (2 * hole + 1 < end ==> compare(s[2 * hole + 1], s[p]) <= 0)
    && (2 * hole + 2 < end ==> compare(s[2 * hole + 2], s[p]) <= 0)
  }

  function Swap<T>(s: seq<T>, i: nat, j: nat): (r: seq<T>)
    requires i < |s| && j < |s|
    ensures |r| == |s|
  {
    s[i := s[j]][j := s[i]]
  }

  /** `b` is `a` with the elements below `end` rearranged. */
  ghost predicate Rearranged<T>(a: seq<T>, b: seq<T>, end: nat) {
    end <= |a| == |b| && multiset(b[..end]) == multiset(a[..end]) && b[end..] == a[end..]
  }

  lemma RearrangedTrans<T>(a: seq<T>, b: seq<T>, c: seq<T>, end: nat)
    requires Rearranged(a, b, end) && Rearranged(b, c, end)
    ensures Rearranged(a, c, end)
  {}

  lemma SwapRearranges<T>(s: seq<T>, i: nat, j: nat, end: nat)
    requires i < end && j < end <= |s|
    ensures Rearranged(s, Swap(s, i, j), end)
  {
    var p := s[..end];
    assert Swap(s, i, j)[..end] == Swap(p, i, j);
    assert Swap(s, i, j)[end..] == s[end..];
    SwapMultiset(p, i, j);
  }

  lemma SwapMultiset<T>(s: seq<T>, i: nat, j: nat)
    requires i < |s| && j < |s|
    ensures multiset(Swap(s, i, j)) == multiset(s)
  {}

  /** A rearrangement of a prefix rearranges any longer prefix. */
  lemma RearrangedMore<T>(a: seq<T>, b: seq<T>, end: nat, more: nat)
    requires Rearranged(a, b, end) && end <= more <= |a|
    ensures Rearranged(a, b, more)
  {
    assert a[..more] == a[..end] + a[end..][..more - end];
    assert b[..more] == b[..end] + b[end..][..more - end];
    assert b[more..] == b[end..][more - end..] && a[more..] == a[end..][more - end..];
  }

  // ---------------------------------------------------------------- sifting down

  lemma SiftMoves<T(!new)>(compare: (T, T) -> int, s: seq<T>, from: nat, end: nat, root: nat, child: nat)
    requires HeapBut(compare, s, from, end, root)
    requires (child == 2 * root + 1 || child == 2 * root + 2) && child < end
    requires 2 * root + 1 < end ==> compare(s[2 * root + 1], s[child]) <= 0
    requires 2 * root + 2 < end ==> compare(s[2 * root + 2], s[child]) <= 0
    requires compare(s[root], s[child]) < 0
    ensures HeapBut(compare, Swap(s, root, child), from, end, child)
  {
    var t := Swap(s, root, child);
    forall i | from <= i < end && i != child
      ensures Above(compare, t, i, end)
    {
      if i != root {
        SiftElsewhere(compare, s, from, end, root, child, i);
      }
    }
    forall p | from <= p < end && (child == 2 * p + 1 || child == 2 * p + 2)
      ensures Under(compare, t, child, p, end)
    {
      assert p == root;
      assert Above(compare, s, child, end);
    }
  }

  /** Away from the two that trade places, and at the parent of the upper one. */
  lemma SiftElsewhere<T(!new)>(compare: (T, T) -> int, s: seq<T>, from: nat, end: nat, root: nat, child: nat, i: nat)
    requires HeapBut(compare, s, from, end, root) && from <= i < end && i != root && i != child
    requires (child == 2 * root + 1 || child == 2 * root + 2) && child < end
    ensures Above(compare, Swap(s, root, child), i, end)
  {
    assert Above(compare, s, i, end);
    if root == 2 * i + 1 || root == 2 * i + 2 {
      assert Under(compare, s, root, i, end);
    }
  }

  lemma SiftStops<T(!new)>(compare: (T, T) -> int, s: seq<T>, from: nat, end: nat, root: nat)
    requires HeapBut(compare, s, from, end, root)
    requires root < end ==> Above(compare, s, root, end)
    ensures Heap(compare, s, from, end)
  {}

  lemma SiftStarts<T>(compare: (T, T) -> int, s: seq<T>, root: nat, end: nat)
    requires Heap(compare, s, root + 1, end) && root < end
    ensures HeapBut(compare, s, root, end, root)
  {}

  /** The larger of two children. */
  lemma LargerChild<T(!new)>(compare: (T, T) -> int, s: seq<T>, root: nat, end: nat, child: nat)
    requires TotalPreorder(compare) && end <= |s| && 2 * root + 1 < end
    requires child == if 2 * root + 2 < end && compare(s[2 * root + 1], s[2 * root + 2]) < 0
                      then 2 * root + 2 else 2 * root + 1
    ensures compare(s[2 * root + 1], s[child]) <= 0
    ensures 2 * root + 2 < end ==> compare(s[2 * root + 2], s[child]) <= 0
  {}

  lemma ParentWins<T(!new)>(compare: (T, T) -> int, s: seq<T>, root: nat, end: nat, child: nat)
    requires TotalPreorder(compare) && end <= |s| && root < end && child < end
    requires 2 * root + 1 < end ==> compare(s[2 * root + 1], s[child]) <= 0
    requires 2 * root + 2 < end ==> compare(s[2 * root + 2], s[child]) <= 0
    requires compare(s[root], s[child]) >= 0
    ensures Above(compare, s, root, end)
  {}

  /** The element at `begun` sinks until neither child is above it. */
  method SiftDown<T(!new)>(items: array<T>, begun: nat, end: nat, compare: (T, T) -> int)
    requires TotalPreorder(compare) && end <= items.Length && begun < end
    requires Heap(compare, items[..], begun + 1, end)
    modifies items
    ensures Heap(compare, items[..], begun, end)
    ensures Rearranged(old(items[..]), items[..], end)
  {
    hide Heap, HeapBut, Above, Rearranged, TotalPreorder;
    SiftStarts(compare, items[..], begun, end);
    RearrangedRefl(items[..], end);
    var root := begun;
    while root < end / 2
      invariant root < end
      invariant HeapBut(compare, items[..], begun, end, root)
      invariant Rearranged(old(items[..]), items[..], end)
      decreases end - root
    {
      ghost var s := items[..];
      var child := root * 2 + 1;
      if child + 1 < end && compare(items[child], items[child + 1]) < 0 {
        child := child + 1;
      }
      LargerChild(compare, s, root, end, child);
      if compare(items[root], items[child]) >= 0 {
        ParentWins(compare, s, root, end, child);
        SiftStops(compare, s, begun, end, root);
        return;
      }
      SiftMoves(compare, s, begun, end, root, child);
      SwapRearranges(s, root, child, end);
      items[root], items[child] := items[child], items[root];
      assert items[..] == Swap(s, root, child);
      RearrangedTrans(old(items[..]), s, items[..], end);
      root := child;
    }
    NoChildren(compare, items[..], root, end);
    SiftStops(compare, items[..], begun, end, root);
  }

  lemma NoChildren<T>(compare: (T, T) -> int, s: seq<T>, root: nat, end: nat)
    requires end <= |s| && end / 2 <= root < end
    ensures Above(compare, s, root, end)
  {}

  lemma RearrangedRefl<T>(s: seq<T>, end: nat)
    requires end <= |s|
    ensures Rearranged(s, s, end)
  {}

  // ---------------------------------------------------------------- sorting

  lemma Ties<T(!new)>(compare: (T, T) -> int, a: T)
    requires TotalPreorder(compare)
    ensures compare(a, a) == 0
  {}

  /** The top of a heap is not below any of its elements. */
  lemma {:induction false} TopIsHighest<T(!new)>(compare: (T, T) -> int, s: seq<T>, end: nat, i: nat)
    requires TotalPreorder(compare) && Heap(compare, s, 0, end) && i < end
    ensures compare(s[i], s[0]) <= 0
    decreases i
  {
    if i == 0 {
      Ties(compare, s[0]);
    } else {
      var parent := (i - 1) / 2;
      assert Above(compare, s, parent, end);
      assert i == 2 * parent + 1 || i == 2 * parent + 2;
      TopIsHighest(compare, s, end, parent);
    }
  }

  /** The end of the array is sorted and nothing before it belongs behind any of it. */
  ghost predicate Settled<T>(compare: (T, T) -> int, s: seq<T>, end: nat) {
    && end <= |s|
    && (forall i, j | end <= i < j < |s| :: compare(s[i], s[j]) <= 0)
    && (forall i, j | 0 <= i < end <= j < |s| :: compare(s[i], s[j]) <= 0)
  }

  /** The top goes to the end of the heap, and that end is settled. */
  lemma TopSettles<T(!new)>(compare: (T, T) -> int, s: seq<T>, end: nat)
    requires TotalPreorder(compare) && Heap(compare, s, 0, end) && 1 < end && Settled(compare, s, end)
    ensures Settled(compare, Swap(s, 0, end - 1), end - 1)
    ensures Heap(compare, Swap(s, 0, end - 1), 1, end - 1)
  {
    forall i | 0 <= i < end
      ensures compare(s[i], s[0]) <= 0
    {
      TopIsHighest(compare, s, end, i);
    }
    HeapShrinks(compare, s, end, end - 1);
    hide TotalPreorder, Heap;
  }

  lemma HeapShrinks<T(!new)>(compare: (T, T) -> int, s: seq<T>, end: nat, last: nat)
    requires Heap(compare, s, 0, end) && 1 < end && last == end - 1
    ensures Heap(compare, Swap(s, 0, last), 1, last)
  {
    var t := Swap(s, 0, last);
    forall i | 1 <= i < last
      ensures Above(compare, t, i, last)
    {
      assert Above(compare, s, i, end);
    }
  }

  /** Rearranging the rest leaves the settled end settled. */
  lemma SettledStays<T(!new)>(compare: (T, T) -> int, a: seq<T>, b: seq<T>, end: nat)
    requires Settled(compare, a, end) && Rearranged(a, b, end)
    ensures Settled(compare, b, end)
  {
    forall j | end <= j < |b|
      ensures b[j] == a[j]
    {
      assert b[end..][j - end] == a[end..][j - end];
    }
    forall i, j | 0 <= i < end <= j < |b|
      ensures compare(b[i], b[j]) <= 0
    {
      assert b[i] == b[..end][i] && b[i] in multiset(b[..end]);
      assert b[i] in a[..end];
    }
  }

  lemma SettledAll<T>(compare: (T, T) -> int, s: seq<T>, end: nat)
    requires Settled(compare, s, end) && end <= 1
    ensures SortedBy(compare, s)
  {}

  /** The first loop of `qsort`. */
  method BuildHeap<T(!new)>(items: array<T>, compare: (T, T) -> int)
    requires TotalPreorder(compare) && items.Length >= 2
    modifies items
    ensures Heap(compare, items[..], 0, items.Length)
    ensures Rearranged(old(items[..]), items[..], items.Length)
  {
    hide Heap, Above, Rearranged, TotalPreorder;
    Leaves(compare, items[..]);
    RearrangedRefl(items[..], items.Length);
    var start := items.Length / 2;
    while start > 0
      invariant 0 <= start <= items.Length / 2
      invariant Heap(compare, items[..], start, items.Length)
      invariant Rearranged(old(items[..]), items[..], items.Length)
    {
      ghost var s := items[..];
      SiftDown(items, start - 1, items.Length, compare);
      RearrangedTrans(old(items[..]), s, items[..], items.Length);
      start := start - 1;
    }
  }

  lemma Leaves<T>(compare: (T, T) -> int, s: seq<T>)
    ensures Heap(compare, s, |s| / 2, |s|)
  {}

  /** For every total preorder the array ends up sorted, with the same elements. */
  method Sort<T(!new)>(items: array<T>, compare: (T, T) -> int)
    requires TotalPreorder(compare)
    modifies items
    ensures SortedBy(compare, items[..])
    ensures multiset(items[..]) == multiset(old(items[..]))
  {
    hide Heap, Rearranged, TotalPreorder, Settled;
    if items.Length < 2 {
      return;
    }
    var n := items.Length;
    BuildHeap(items, compare);
    NothingSettled(compare, items[..]);
    var end := n;
    while end > 1
      invariant 1 <= end <= n
      invariant Heap(compare, items[..], 0, end)
      invariant Settled(compare, items[..], end)
      invariant Rearranged(old(items[..]), items[..], n)
    {
      ghost var s := items[..];
      PlaceTop(items, end, compare);
      RearrangedTrans(old(items[..]), s, items[..], n);
      end := end - 1;
    }
    SettledAll(compare, items[..], end);
    WholeRearranged(old(items[..]), items[..]);
  }

  /** The top goes behind the heap, and the heap is repaired. */
  method PlaceTop<T(!new)>(items: array<T>, end: nat, compare: (T, T) -> int)
    requires TotalPreorder(compare) && 1 < end <= items.Length
    requires Heap(compare, items[..], 0, end) && Settled(compare, items[..], end)
    modifies items
    ensures Heap(compare, items[..], 0, end - 1) && Settled(compare, items[..], end - 1)
    ensures Rearranged(old(items[..]), items[..], items.Length)
  {
    hide Heap, Rearranged, TotalPreorder, Settled;
    ghost var s, n := items[..], items.Length;
    TopSettles(compare, s, end);
    SwapRearranges(s, 0, end - 1, n);
    items[0], items[end - 1] := items[end - 1], items[0];
    ghost var t := items[..];
    assert t == Swap(s, 0, end - 1);
    SiftDown(items, 0, end - 1, compare);
    SettledStays(compare, t, items[..], end - 1);
    RearrangedMore(t, items[..], end - 1, n);
    RearrangedTrans(s, t, items[..], n);
  }

  lemma NothingSettled<T>(compare: (T, T) -> int, s: seq<T>)
    ensures Settled(compare, s, |s|)
  {}

  lemma WholeRearranged<T>(a: seq<T>, b: seq<T>)
    requires Rearranged(a, b, |a|)
    ensures multiset(b) == multiset(a)
  {
    assert a[..|a|] == a && b[..|a|] == b;
  }

  // ---------------------------------------------------------------- searching

  /** On sorted items an equal element is found exactly when there is one. */
  method BinarySearch<T(!new)>(key: T, items: seq<T>, compare: (T, T) -> int) returns (r: Option<nat>)
    requires TotalPreorder(compare) && SortedBy(compare, items)
    ensures r.Some? ==> r.value < |items| && compare(key, items[r.value]) == 0
    ensures r.Some? <==> exists k :: 0 <= k < |items| && compare(key, items[k]) == 0
  {
    var low, high := 0, |items|;
    while low < high
      invariant 0 <= low <= high <= |items|
      invariant forall k | 0 <= k < low :: compare(key, items[k]) > 0
      invariant forall k | high <= k < |items| :: compare(key, items[k]) < 0
    {
      var middle := low + (high - low) / 2;
      var order := compare(key, items[middle]);
      if order == 0 {
        return Some(middle);
      }
      if order < 0 {
        BeforeAll(compare, key, items, middle);
        high := middle;
      } else {
        BehindAll(compare, key, items, middle);
        low := middle + 1;
      }
    }
    return None;
  }

  lemma BeforeAll<T(!new)>(compare: (T, T) -> int, key: T, items: seq<T>, middle: nat)
    requires TotalPreorder(compare) && SortedBy(compare, items) && middle < |items| && compare(key, items[middle]) < 0
    ensures forall k | middle <= k < |items| :: compare(key, items[k]) < 0
  {
    forall k | middle < k < |items|
      ensures compare(key, items[k]) < 0
    {
      Strictly(compare, key, items[middle], items[k]);
    }
  }

  lemma BehindAll<T(!new)>(compare: (T, T) -> int, key: T, items: seq<T>, middle: nat)
    requires TotalPreorder(compare) && SortedBy(compare, items) && middle < |items| && compare(key, items[middle]) > 0
    ensures forall k | 0 <= k <= middle :: compare(key, items[k]) > 0
  {
    forall k | 0 <= k < middle
      ensures compare(key, items[k]) > 0
    {
      Strictly(compare, items[k], items[middle], key);
    }
  }

  /** Strictly before something that is not behind a third is strictly before the third, and so on the other side. */
  lemma Strictly<T(!new)>(compare: (T, T) -> int, a: T, b: T, c: T)
    requires TotalPreorder(compare)
    ensures compare(a, b) < 0 && compare(b, c) <= 0 ==> compare(a, c) < 0
    ensures compare(a, b) <= 0 && compare(c, b) > 0 ==> compare(c, a) > 0
  {
    assert compare(a, c) >= 0 ==> compare(c, a) <= 0;
    assert compare(b, c) <= 0 && compare(c, a) <= 0 ==> compare(b, a) <= 0;
    assert compare(c, a) <= 0 && compare(a, b) <= 0 ==> compare(c, b) <= 0;
  }
}
