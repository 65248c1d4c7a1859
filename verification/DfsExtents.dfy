/** Extents as lists of physical sectors. */
module DfsExtents {
  import opened Bytes
  import opened DfsLayout
  import opened DfsNode

  const U32_LIMIT := 0x1_0000_0000

  function Range(start: nat, n: nat): (r: seq<nat>)
    ensures |r| == n
    ensures forall i :: 0 <= i < n ==> r[i] == start + i
  {
    seq(n, i => start + i)
  }

  /** The physical sectors of a file in logical order. */
  function Sectors(es: seq<Extent>): seq<nat> {
    if es == [] then []
    else Sectors(es[..|es| - 1]) + Range(es[|es| - 1].start, es[|es| - 1].count)
  }

  /** Every extent starts, logically, where the ones before it end. */
  ghost predicate Tiled(es: seq<Extent>) {
    forall k | 0 <= k < |es| :: es[k].logical == |Sectors(es[..k])|
  }

  ghost predicate Distinct(s: seq<nat>) {
    forall i, j | 0 <= i < j < |s| :: s[i] != s[j]
  }

  function Covers(e: Extent, logical: nat): bool {
    e.logical <= logical < e.logical + e.count
  }

  /** `extent_for`: the first extent that covers the logical sector decides. */
  function ExtentFor(es: seq<Extent>, logical: nat): Option<nat> {
    if es == [] then None
    else
      match ExtentFor(es[..|es| - 1], logical)
      case Some(p) => Some(p)
      case None =>
        var e := es[|es| - 1];
        if Covers(e, logical) then Some(e.start + (logical - e.logical)) else None
  }

  /** `extent_for`. */
  method Locate(es: seq<Extent>, logical: nat) returns (r: Option<nat>)
    ensures r == ExtentFor(es, logical)
  {
    for k := 0 to |es|
      invariant ExtentFor(es[..k], logical) == None
    {
      assert es[..k + 1][..k] == es[..k];
      if Covers(es[k], logical) {
        Earliest(es, k + 1, logical);
        return Some(es[k].start + (logical - es[k].logical));
      }
    }
    assert es[..|es|] == es;
    return None;
  }

  lemma {:induction false} Earliest(es: seq<Extent>, k: nat, logical: nat)
    requires k <= |es| && ExtentFor(es[..k], logical).Some?
    ensures ExtentFor(es, logical) == ExtentFor(es[..k], logical)
    decreases |es|
  {
    if k < |es| {
      assert es[..|es| - 1][..k] == es[..k];
      Earliest(es[..|es| - 1], k, logical);
    } else {
      assert es[..k] == es;
    }
  }

  lemma TiledPrefix(es: seq<Extent>)
    requires Tiled(es) && es != []
    ensures Tiled(es[..|es| - 1])
    ensures es[|es| - 1].logical == |Sectors(es[..|es| - 1])|
  {
    var init := es[..|es| - 1];
    forall k | 0 <= k < |init|
      ensures init[k].logical == |Sectors(init[..k])|
    {
      assert init[..k] == es[..k];
    }
  }

  /** Tiled extents find every sector of the file, and nothing past its end. */
  lemma {:induction false} TiledFinds(es: seq<Extent>, logical: nat)
    requires Tiled(es)
    ensures ExtentFor(es, logical) == if logical < |Sectors(es)| then Some(Sectors(es)[logical]) else None
    decreases |es|
  {
    if es != [] {
      TiledPrefix(es);
      TiledFinds(es[..|es| - 1], logical);
    }
  }

  /** The sum `write_file` starts from. */
  method AllocatedSectors(es: seq<Extent>) returns (n: nat)
    ensures n == |Sectors(es)|
  {
    n := 0;
    for k := 0 to |es|
      invariant n == |Sectors(es[..k])|
    {
      assert es[..k + 1][..k] == es[..k];
      n := n + es[k].count;
    }
    assert es[..|es|] == es;
  }

  /** `add_extent`: grow the last extent when the run continues it, else open a new one. */
  function AddExtent(node: Node, start: u64, logical: u32, count: u32): Result<Node, DfsError> {
    if Continues(node.extents, start, logical) then
      var last := node.extents[|node.extents| - 1];
      if last.count + count >= U32_LIMIT then Err(NoSpace)
      else Ok(node.(extents := node.extents[|node.extents| - 1 := last.(count := last.count + count)]))
    else if |node.extents| == MAX_EXTENTS then Err(NoSpace)
    else Ok(node.(extents := node.extents + [Extent(start, logical, count)]))
  }

  predicate Continues(es: seq<Extent>, start: nat, logical: nat) {
    && es != []
    && es[|es| - 1].start + es[|es| - 1].count == start
    && es[|es| - 1].logical + es[|es| - 1].count == logical
  }

  lemma RangeGrows(start: nat, m: nat, n: nat)
    ensures Range(start, m) + Range(start + m, n) == Range(start, m + n)
  {}

  lemma TiledInit(es: seq<Extent>)
    requires es != [] && Tiled(es)
    ensures var init, last := es[..|es| - 1], es[|es| - 1];
      Tiled(init) && last.logical == |Sectors(init)| && Sectors(es) == Sectors(init) + Range(last.start, last.count)
  {
    hide Range;
    var init := es[..|es| - 1];
    forall k | 0 <= k < |init|
      ensures init[k].logical == |Sectors(init[..k])|
    {
      assert init[..k] == es[..k];
    }
  }

  lemma LastGrows(es: seq<Extent>, count: u32)
    requires es != [] && Tiled(es) && es[|es| - 1].count + count < U32_LIMIT
    ensures var last := es[|es| - 1];
      var grown := es[|es| - 1 := last.(count := last.count + count)];
      Tiled(grown) && Sectors(grown) == Sectors(es) + Range(last.start + last.count, count)
  {
    hide Range, Tiled, Sectors;
    var init, last := es[..|es| - 1], es[|es| - 1];
    var longer := last.(count := last.count + count);
    TiledInit(es);
    NewExtent(init, longer);
    assert es[|es| - 1 := longer] == init + [longer];
    RangeGrows(last.start, last.count, count);
    var a, b := Range(last.start, last.count), Range(last.start + last.count, count);
    assert Sectors(init) + (a + b) == Sectors(init) + a + b;
  }

  lemma NewExtent(es: seq<Extent>, e: Extent)
    requires Tiled(es) && e.logical == |Sectors(es)|
    ensures Tiled(es + [e]) && Sectors(es + [e]) == Sectors(es) + Range(e.start, e.count)
  {
    var grown := es + [e];
    assert grown[..|es|] == es;
    forall k | 0 <= k < |grown|
      ensures grown[k].logical == |Sectors(grown[..k])|
    {
      assert grown[..k] == es[..k];
    }
  }

  /** A run added at the end of a tiled file is appended to its sectors, and the tiling goes on. */
  lemma AddExtentAppends(node: Node, start: u64, logical: u32, count: u32)
    requires Tiled(node.extents) && logical == |Sectors(node.extents)|
    requires AddExtent(node, start, logical, count).Ok?
    ensures var grown := AddExtent(node, start, logical, count).value;
      && grown == node.(extents := grown.extents)
      && Sectors(grown.extents) == Sectors(node.extents) + Range(start, count)
      && Tiled(grown.extents)
  {
    if Continues(node.extents, start, logical) {
      LastGrows(node.extents, count);
    } else {
      NewExtent(node.extents, Extent(start, logical, count));
    }
  }

  /** The grown inode can be stored if the old one could. */
  lemma AddExtentStorable(node: Node, start: u64, logical: u32, count: u32)
    requires Storable(node) && node.kind == NODE_FILE && count != 0
    requires AddExtent(node, start, logical, count).Ok?
    ensures Storable(AddExtent(node, start, logical, count).value)
  {}

  /** The sectors of one extent among those of the file. */
  lemma {:induction false} ExtentInSectors(es: seq<Extent>, k: nat, x: nat)
    requires k < |es| && es[k].start <= x < es[k].start + es[k].count
    ensures x in Sectors(es)
    decreases |es|
  {
    var n := |es| - 1;
    if k < n {
      ExtentInSectors(es[..n], k, x);
    } else {
      assert Range(es[n].start, es[n].count)[x - es[n].start] == x;
    }
  }

  /** Distinct numbers in an interval are no more than fit in it. */
  lemma {:induction false} Pigeonhole(s: seq<nat>, lo: nat, hi: nat)
    requires Distinct(s) && lo <= hi && forall x | x in s :: lo <= x < hi
    ensures |s| <= hi - lo
    decreases hi - lo
  {
    if s == [] {
      return;
    }
    assert s[0] in s;
    if hi - 1 in s {
      var i :| 0 <= i < |s| && s[i] == hi - 1;
      var t := s[..i] + s[i + 1..];
      assert forall j | 0 <= j < |t| :: t[j] == if j < i then s[j] else s[j + 1];
      forall x | x in t
        ensures lo <= x < hi - 1
      {
        assert x in s;
      }
      Pigeonhole(t, lo, hi - 1);
    } else {
      Pigeonhole(s, lo, hi - 1);
    }
  }
}
