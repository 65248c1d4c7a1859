/** The frame allocator the kernel sets up from the memory map and the reserved ranges. */
module Memory {
  import opened Bytes
  import opened Physical

  const MAX_REGIONS := 128

  /** A frame the reserved range takes away: any frame it touches, to whole pages; a range that wraps is ignored. */
  predicate Blocked(r: PhysicalRange, f: int) {
    && r.start + r.length < ADDRESS_LIMIT
    && Down(r.start) <= f < Up(r.start + r.length)
  }

  /** `x.saturating_add(PAGE_SIZE - 1) & !(PAGE_SIZE - 1)`. */
  function Up(x: u64): (r: u64)
    ensures r % PAGE_SIZE == 0 && r < x + PAGE_SIZE
    ensures x + PAGE_SIZE <= ADDRESS_LIMIT ==> x <= r
  {
    Down(Min(x + PAGE_SIZE - 1, ADDRESS_LIMIT - 1))
  }

  ghost predicate Free(reserved: seq<PhysicalRange>, f: int) {
    forall k | 0 <= k < |reserved| :: !Blocked(reserved[k], f)
  }

  /** A free frame has no byte in a reserved range that does not wrap. */
  lemma FreeIsApart(reserved: seq<PhysicalRange>, f: nat, k: nat, x: nat)
    requires k < |reserved| && Free(reserved, f) && f % PAGE_SIZE == 0 && f + PAGE_SIZE < ADDRESS_LIMIT
    requires reserved[k].start + reserved[k].length < ADDRESS_LIMIT
    requires f <= x < f + PAGE_SIZE
    ensures !(reserved[k].start <= x < reserved[k].start + reserved[k].length)
  {
    var r := reserved[k];
    assert !Blocked(r, f);
    if r.start < f + PAGE_SIZE {
      AlignedBelow(r.start, f);
    }
    if f < r.start + r.length {
      AlignedAbove(r.start + r.length, f);
    }
  }

  /** A reserved range that does not wrap takes away exactly the pages it has an address in, and, if it is empty, the one
    * that it begins inside of. */
  lemma BlockedIff(r: PhysicalRange, f: nat)
    requires f % 4096 == 0 && f + 4096 < 0x1_0000_0000_0000_0000
    ensures Blocked(r, f) <==>
      && r.start + r.length < 0x1_0000_0000_0000_0000
      && if r.length > 0 then r.start < f + 4096 && f < r.start + r.length else f < r.start < f + 4096
  {
    if r.start + r.length < ADDRESS_LIMIT {
      DownIff(r.start, f);
      UpIff(r.start + r.length, f);
    }
  }

  lemma DownIff(x: u64, f: nat)
    requires f % PAGE_SIZE == 0
    ensures Down(x) <= f <==> x < f + PAGE_SIZE
  {
    if x < f + PAGE_SIZE {
      AlignedBelow(x, f);
    }
  }

  lemma UpIff(x: u64, f: nat)
    requires f % PAGE_SIZE == 0 && f + PAGE_SIZE < ADDRESS_LIMIT
    ensures f < Up(x) <==> f < x
  {
    if f < x {
      AlignedAbove(x, f);
    } else {
      var u := Up(x);
      assert u == PAGE_SIZE * (u / PAGE_SIZE) && f == PAGE_SIZE * (f / PAGE_SIZE);
    }
  }

  lemma AlignedBelow(x: u64, f: nat)
    requires f % PAGE_SIZE == 0 && x < f + PAGE_SIZE
    ensures Down(x) <= f
  {
    var d := Down(x);
    assert d % PAGE_SIZE == 0;
    assert d == PAGE_SIZE * (d / PAGE_SIZE) && f == PAGE_SIZE * (f / PAGE_SIZE);
  }

  lemma AlignedAbove(x: u64, f: nat)
    requires f % PAGE_SIZE == 0 && f < x && f + PAGE_SIZE < ADDRESS_LIMIT
    ensures f < Up(x)
  {
    var u := Up(x);
    assert u == PAGE_SIZE * (u / PAGE_SIZE) && f == PAGE_SIZE * (f / PAGE_SIZE);
  }

  // ---------------------------------------------------------------- regions

  predicate Aligned(x: int) { x % PAGE_SIZE == 0 }

  ghost predicate RegionOk(r: Region) {
    Aligned(r.next) && Aligned(r.end) && r.next <= r.end
  }

  predicate InRegion(r: Region, f: int) { Aligned(f) && r.next <= f < r.end }

  ghost predicate InSome(rs: seq<Region>, f: int) {
    exists k :: 0 <= k < |rs| && InRegion(rs[k], f)
  }

  predicate Clear(a: Region, b: Region) { a.end <= b.next || b.end <= a.next }

  ghost predicate RegionsOk(rs: seq<Region>) {
    forall k | 0 <= k < |rs| :: RegionOk(rs[k])
  }

  ghost predicate RegionsApart(rs: seq<Region>) {
    forall i, j | 0 <= i < j < |rs| :: Clear(rs[i], rs[j])
  }

  /** The frames of a region in the order they are handed out. */
  function FramesOf(r: Region): (fs: seq<nat>)
    requires RegionOk(r)
    ensures |fs| == (r.end - r.next) / PAGE_SIZE
    ensures forall k | 0 <= k < |fs| :: fs[k] == r.next + k * PAGE_SIZE
  {
    seq((r.end - r.next) / PAGE_SIZE, k => r.next + k * PAGE_SIZE)
  }

  function FramesFrom(rs: seq<Region>, k: nat): (fs: seq<nat>)
    requires k <= |rs| && RegionsOk(rs)
    decreases |rs| - k
  {
    if k == |rs| then [] else FramesOf(rs[k]) + FramesFrom(rs, k + 1)
  }

  lemma FramesOfHas(r: Region, f: nat)
    requires RegionOk(r)
    ensures f in FramesOf(r) <==> InRegion(r, f)
  {
    if InRegion(r, f) {
      var k := (f - r.next) / PAGE_SIZE;
      assert r.next == PAGE_SIZE * (r.next / PAGE_SIZE) && f == PAGE_SIZE * (f / PAGE_SIZE);
      assert r.end == PAGE_SIZE * (r.end / PAGE_SIZE);
      assert FramesOf(r)[k] == f;
    }
  }

  /** What is left to hand out is what the regions contain. */
  lemma {:induction false} FramesFromHas(rs: seq<Region>, k: nat, f: nat)
    requires k <= |rs| && RegionsOk(rs)
    ensures f in FramesFrom(rs, k) <==> InSome(rs[k..], f)
    decreases |rs| - k
  {
    if k < |rs| {
      FramesOfHas(rs[k], f);
      FramesFromHas(rs, k + 1, f);
      if InSome(rs[k + 1..], f) {
        var i :| 0 <= i < |rs[k + 1..]| && InRegion(rs[k + 1..][i], f);
        assert rs[k..][i + 1] == rs[k + 1..][i];
      }
      if InSome(rs[k..], f) {
        var i :| 0 <= i < |rs[k..]| && InRegion(rs[k..][i], f);
        if i > 0 {
          assert rs[k + 1..][i - 1] == rs[k..][i];
        }
      }
      if InRegion(rs[k], f) {
        assert rs[k..][0] == rs[k];
      }
    }
  }

  ghost predicate NoRepeats(fs: seq<nat>) {
    forall i, j | 0 <= i < j < |fs| :: fs[i] != fs[j]
  }

  /** No frame is left twice. */
  lemma {:induction false} FramesFromDistinct(rs: seq<Region>, k: nat)
    requires k <= |rs| && RegionsOk(rs) && RegionsApart(rs)
    ensures NoRepeats(FramesFrom(rs, k))
    decreases |rs| - k
  {
    if k < |rs| {
      FramesFromDistinct(rs, k + 1);
      var a, b := FramesOf(rs[k]), FramesFrom(rs, k + 1);
      forall i, j | 0 <= i < |a| && 0 <= j < |b|
        ensures a[i] != b[j]
      {
        assert a[i] in a && b[j] in b;
        FramesOfHas(rs[k], a[i]);
        FramesFromHas(rs, k + 1, b[j]);
        var n :| 0 <= n < |rs[k + 1..]| && InRegion(rs[k + 1..][n], b[j]);
        assert rs[k + 1..][n] == rs[k + 1 + n] && Clear(rs[k], rs[k + 1 + n]);
      }
    }
  }

  lemma EmptyRegionSkipped(rs: seq<Region>, k: nat)
    requires k < |rs| && RegionsOk(rs) && rs[k].next >= rs[k].end
    ensures FramesFrom(rs, k) == FramesFrom(rs, k + 1)
  {
    assert FramesOf(rs[k]) == [];
  }

  /** Handing out the first frame of a region. */
  lemma FirstFrame(rs: seq<Region>, k: nat)
    requires k < |rs| && RegionsOk(rs) && rs[k].next < rs[k].end
    ensures rs[k].next + PAGE_SIZE <= rs[k].end
    ensures var after := rs[k := rs[k].(next := rs[k].next + PAGE_SIZE)];
      RegionsOk(after) && FramesFrom(rs, k) == [rs[k].next] + FramesFrom(after, k)
  {
    hide FramesOf, Aligned;
    var r := rs[k];
    FirstOfRegion(r);
    var rest := r.(next := r.next + PAGE_SIZE);
    var after := rs[k := rest];
    FramesLater(rs, after, k + 1);
    assert ([r.next] + FramesOf(rest)) + FramesFrom(rs, k + 1) == [r.next] + (FramesOf(rest) + FramesFrom(rs, k + 1));
  }

  lemma FirstOfRegion(r: Region)
    requires RegionOk(r) && r.next < r.end
    ensures r.next + PAGE_SIZE <= r.end
    ensures var rest := r.(next := r.next + PAGE_SIZE);
      RegionOk(rest) && FramesOf(r) == [r.next] + FramesOf(rest)
  {
    assert r.next == PAGE_SIZE * (r.next / PAGE_SIZE) && r.end == PAGE_SIZE * (r.end / PAGE_SIZE);
    var rest := r.(next := r.next + PAGE_SIZE);
    assert |FramesOf(r)| == 1 + |FramesOf(rest)|;
  }

  lemma {:induction false} FramesLater(a: seq<Region>, b: seq<Region>, k: nat)
    requires |a| == |b| && k <= |a| && RegionsOk(a) && RegionsOk(b)
    requires forall i | k <= i < |a| :: a[i] == b[i]
    ensures FramesFrom(a, k) == FramesFrom(b, k)
    decreases |a| - k
  {
    if k < |a| {
      FramesLater(a, b, k + 1);
    }
  }
}
