/** Setting the allocator up, and taking frames from it. */
module FrameAllocation {
  import opened Bytes
  import opened Physical
  import opened Memory
  import opened RangeMerge

  /** `f` is a whole page of a usable entry that does not wrap. */
  predicate FrameOf(e: MapEntry, f: int) {
    e.usable && e.base + e.length < ADDRESS_LIMIT && Aligned(f) && e.base <= f && f + PAGE_SIZE <= e.base + e.length
  }

  ghost predicate Usable(es: seq<MapEntry>, f: int) {
    exists k :: 0 <= k < |es| && FrameOf(es[k], f)
  }

  /** Usable entries do not overlap. */
  ghost predicate EntriesApart(es: seq<MapEntry>) {
    forall i, j | 0 <= i < j < |es| && es[i].usable && es[j].usable ::
      es[i].base + es[i].length <= es[j].base || es[j].base + es[j].length <= es[i].base
  }

  // ---------------------------------------------------------------- carving one entry

  ghost predicate Inside(rs: seq<Region>, base: nat, end: nat) {
    forall k | 0 <= k < |rs| :: base <= rs[k].next < rs[k].end <= end
  }

  /** If the reserved ranges are in order, no frame of a region is reserved. */
  ghost predicate OnlyFree(rs: seq<Region>, reserved: seq<PhysicalRange>) {
    SortedByStart(reserved) ==> forall f | InSome(rs, f) :: Free(reserved, f)
  }

  /** The regions carved out of `[base, end)` so far, where `b` is how far the subtraction of the first `i`
    * reserved ranges has come. */
  ghost predicate Carving(rs: seq<Region>, base: nat, b: nat, end: nat, reserved: seq<PhysicalRange>, i: nat, whole: bool) {
    && i <= |reserved| && Aligned(base) && Aligned(b) && Aligned(end) && base <= b
    && RegionsOk(rs) && RegionsApart(rs) && Inside(rs, base, b) && Inside(rs, base, end)
    && OnlyFree(rs, reserved)
    && (whole ==> forall f | Aligned(f) && base <= f < b && f < end && Free(reserved, f) :: InSome(rs, f))
    && (forall f | Aligned(f) && b <= f < end :: Free(reserved[..i], f))
  }

  /** All of `[base, end)`: nothing but free frames, and all of them unless the table was full. */
  ghost predicate Carved(rs: seq<Region>, base: nat, end: nat, reserved: seq<PhysicalRange>, whole: bool) {
    && RegionsOk(rs) && RegionsApart(rs) && Inside(rs, base, end)
    && OnlyFree(rs, reserved)
    && (whole ==> forall f | Aligned(f) && base <= f < end && Free(reserved, f) :: InSome(rs, f))
  }

  lemma FreeOneMore(reserved: seq<PhysicalRange>, i: nat, f: int)
    requires i < |reserved|
    ensures Free(reserved[..i + 1], f) <==> Free(reserved[..i], f) && !Blocked(reserved[i], f)
  {
    var fewer, more := reserved[..i], reserved[..i + 1];
    assert more == fewer + [reserved[i]];
    if Free(more, f) {
      assert more[i] == reserved[i];
      forall k | 0 <= k < i
        ensures !Blocked(fewer[k], f)
      {
        assert fewer[k] == more[k];
      }
    }
  }

  lemma DownMono(x: u64, y: u64)
    requires x <= y
    ensures Down(x) <= Down(y)
  {
    AlignedBelow(x, Down(y));
  }

  /** A frame below where the next range starts is below all that follow. */
  lemma BelowTheRest(reserved: seq<PhysicalRange>, i: nat, f: int)
    requires SortedByStart(reserved) && i < |reserved| && f < Down(reserved[i].start) && Free(reserved[..i], f)
    ensures Free(reserved, f)
  {
    forall k | 0 <= k < |reserved|
      ensures !Blocked(reserved[k], f)
    {
      if k < i {
        assert reserved[..i][k] == reserved[k];
      } else {
        assert i < k ==> reserved[i].start <= reserved[k].start;
        DownMono(reserved[i].start, reserved[k].start);
      }
    }
  }

  lemma InSomeAppend(rs: seq<Region>, r: Region, f: int)
    ensures InSome(rs + [r], f) <==> InSome(rs, f) || InRegion(r, f)
  {
    if InSome(rs, f) {
      var k :| 0 <= k < |rs| && InRegion(rs[k], f);
      assert (rs + [r])[k] == rs[k];
    }
    if InRegion(r, f) {
      assert (rs + [r])[|rs|] == r;
    }
  }

  /** A range that blocks nothing from `b` on is passed over. */
  lemma CarvePasses(rs: seq<Region>, base: nat, b: nat, end: nat, reserved: seq<PhysicalRange>, i: nat, whole: bool)
    requires Carving(rs, base, b, end, reserved, i, whole) && i < |reserved|
    requires var r := reserved[i];
      r.start + r.length >= ADDRESS_LIMIT || Up(r.start + r.length) <= b || Down(r.start) >= end
    ensures Carving(rs, base, b, end, reserved, i + 1, whole)
  {
    var upto := reserved[..i + 1];
    forall f | Aligned(f) && b <= f < end
      ensures Free(upto, f)
    {
      FreeOneMore(reserved, i, f);
    }
  }

  /** The gap before a range becomes a region. */
  lemma CarveAdds(rs: seq<Region>, base: nat, b: nat, end: nat, reserved: seq<PhysicalRange>, i: nat, whole: bool)
    requires Carving(rs, base, b, end, reserved, i, whole) && i < |reserved|
    requires b < Down(reserved[i].start) < end < ADDRESS_LIMIT
    ensures var gap := Region(b, Down(reserved[i].start));
      Carving(rs + [gap], base, gap.end, end, reserved, i, whole)
  {
    var gap := Region(b, Down(reserved[i].start));
    var after := rs + [gap];
    forall f | SortedByStart(reserved) && InSome(after, f)
      ensures Free(reserved, f)
    {
      InSomeAppend(rs, gap, f);
      if InRegion(gap, f) {
        BelowTheRest(reserved, i, f);
      }
    }
    forall f | whole && Aligned(f) && base <= f < gap.end && Free(reserved, f)
      ensures InSome(after, f)
    {
      InSomeAppend(rs, gap, f);
    }
  }

  lemma CarveSkips(rs: seq<Region>, base: nat, b: nat, end: nat, reserved: seq<PhysicalRange>, i: nat, b': nat)
    requires Carving(rs, base, b, end, reserved, i, false) && b <= b' && Aligned(b')
    ensures Carving(rs, base, b', end, reserved, i, false)
  {}

  /** The range itself is stepped over. */
  lemma CarveBlocks(rs: seq<Region>, base: nat, b: nat, end: nat, reserved: seq<PhysicalRange>, i: nat, whole: bool)
    requires Carving(rs, base, b, end, reserved, i, whole) && i < |reserved|
    requires var r := reserved[i]; r.start + r.length < ADDRESS_LIMIT && Down(r.start) <= b
    ensures var r := reserved[i]; Carving(rs, base, Max(b, Up(r.start + r.length)), end, reserved, i + 1, whole)
  {
    var r := reserved[i];
    var b' := Max(b, Up(r.start + r.length));
    var upto := reserved[..i + 1];
    forall f | Aligned(f) && b' <= f < end
      ensures Free(upto, f)
    {
      FreeOneMore(reserved, i, f);
    }
    forall f | whole && Aligned(f) && base <= f < b' && f < end && Free(reserved, f)
      ensures InSome(rs, f)
    {
      assert !Blocked(reserved[i], f);
    }
  }

  lemma CarveEnds(rs: seq<Region>, base: nat, b: nat, end: nat, reserved: seq<PhysicalRange>, i: nat, whole: bool)
    requires Carving(rs, base, b, end, reserved, i, whole) && b >= end
    ensures Carved(rs, base, end, reserved, whole)
  {}

  /** What is left behind the last range. */
  lemma CarveLast(rs: seq<Region>, base: nat, b: nat, end: nat, reserved: seq<PhysicalRange>, whole: bool)
    requires Carving(rs, base, b, end, reserved, |reserved|, whole) && b < end < ADDRESS_LIMIT
    ensures Carved(rs + [Region(b, end)], base, end, reserved, whole)
    ensures Carved(rs, base, end, reserved, false)
  {
    var last := Region(b, end);
    var after := rs + [last];
    assert reserved[..|reserved|] == reserved;
    forall f | SortedByStart(reserved) && InSome(after, f)
      ensures Free(reserved, f)
    {
      InSomeAppend(rs, last, f);
    }
    forall f | whole && Aligned(f) && base <= f < end && Free(reserved, f)
      ensures InSome(after, f)
    {
      InSomeAppend(rs, last, f);
    }
  }

  // ---------------------------------------------------------------- the allocator

  /** A region lies within a usable entry. */
  ghost predicate From(r: Region, e: MapEntry) {
    e.usable && e.base <= r.next && r.end <= e.base + e.length
  }

  ghost predicate FromSome(r: Region, es: seq<MapEntry>) {
    exists k :: 0 <= k < |es| && From(r, es[k])
  }

  class FrameAllocator {
    var regions: array<Region>
    var regionCount: nat
    var currentRegion: nat
    var hhdmOffset: u64

    ghost predicate Valid()
      reads this, regions
    {
      && regions.Length == MAX_REGIONS && regionCount <= MAX_REGIONS && currentRegion <= regionCount
      && RegionsOk(Live())
    }

    ghost function Live(): seq<Region>
      reads this, regions
      requires regionCount <= regions.Length
    {
      regions[..regionCount]
    }

    /** The frames still to be handed out, in order. */
    ghost function Remaining(): seq<nat>
      reads this, regions
      requires Valid()
    {
      FramesFrom(Live(), currentRegion)
    }

    constructor ()
      ensures Valid() && Remaining() == [] && fresh(regions)
    {
      regions := new Region[MAX_REGIONS](_ => EMPTY_REGION);
      regionCount, currentRegion, hhdmOffset := 0, 0, 0;
    }

    method AddRegion(r: Region)
      requires regions.Length == MAX_REGIONS && regionCount < MAX_REGIONS
      modifies this`regionCount, regions
      ensures regionCount == old(regionCount) + 1
      ensures Live() == old(Live()) + [r]
    {
      regions[regionCount] := r;
      regionCount := regionCount + 1;
    }

    /** `add_unreserved_regions`: `[base, end)` without the reserved ranges, as long as there is room in the table. */
    method AddUnreserved(base: u64, end: u64, reserved: seq<PhysicalRange>) returns (ghost added: seq<Region>)
      requires regions.Length == MAX_REGIONS && regionCount <= MAX_REGIONS
      requires Aligned(base) && Aligned(end) && base < end
      modifies this`regionCount, regions
      ensures regionCount <= MAX_REGIONS && Live() == old(Live()) + added
      ensures Carved(added, base, end, reserved, regionCount < MAX_REGIONS)
    {
      hide Carving, Carved, Down, Up, SortedByStart;
      ghost var live := Live();
      var b: u64 := base;
      added := [];
      CarveBegins(base, end, reserved);
      for i := 0 to |reserved|
        invariant regionCount <= MAX_REGIONS && Live() == live + added
        invariant b < end && Carving(added, base, b, end, reserved, i, regionCount < MAX_REGIONS)
      {
        var range := reserved[i];
        if range.start + range.length >= ADDRESS_LIMIT {
          CarvePasses(added, base, b, end, reserved, i, regionCount < MAX_REGIONS);
          continue;
        }
        var reservedStart := Down(range.start);
        var reservedEnd := Up(range.start + range.length);
        if reservedEnd <= b || reservedStart >= end {
          CarvePasses(added, base, b, end, reserved, i, regionCount < MAX_REGIONS);
          continue;
        }
        if reservedStart > b {
          CarveAdds(added, base, b, end, reserved, i, regionCount < MAX_REGIONS);
          if regionCount < MAX_REGIONS {
            var gap := Region(b, Min(reservedStart, end));
            AddRegion(gap);
            assert live + added + [gap] == live + (added + [gap]);
            added := added + [gap];
            CarveWeaker(added, base, gap.end, end, reserved, i, true, regionCount < MAX_REGIONS);
          } else {
            CarveSkips(added, base, b, end, reserved, i, reservedStart);
          }
          CarveBlocks(added, base, reservedStart, end, reserved, i, regionCount < MAX_REGIONS);
          UpAbove(range);
        } else {
          CarveBlocks(added, base, b, end, reserved, i, regionCount < MAX_REGIONS);
        }
        b := Max(b, reservedEnd);
        if b >= end {
          CarveEnds(added, base, b, end, reserved, i + 1, regionCount < MAX_REGIONS);
          return;
        }
      }
      CarveLast(added, base, b, end, reserved, regionCount < MAX_REGIONS);
      if regionCount < MAX_REGIONS {
        var last := Region(b, end);
        AddRegion(last);
        assert live + added + [last] == live + (added + [last]);
        added := added + [last];
        CarvedWeaker(added, base, end, reserved, true, regionCount < MAX_REGIONS);
      }
    }

    /** One usable entry, cut down to whole pages. */
    method AddEntry(entry: MapEntry, reserved: seq<PhysicalRange>) returns (ghost added: seq<Region>)
      requires regions.Length == MAX_REGIONS && regionCount <= MAX_REGIONS
      modifies this`regionCount, regions
      ensures regionCount <= MAX_REGIONS && Live() == old(Live()) + added
      ensures EntryCarved(added, entry, reserved, regionCount < MAX_REGIONS)
    {
      hide Carved, SortedByStart, Down;
      added := [];
      assert Live() + [] == Live();
      NothingCarved(entry, reserved);
      if !entry.usable || regionCount == MAX_REGIONS {
        return;
      }
      if entry.base + entry.length >= ADDRESS_LIMIT || entry.base + PAGE_SIZE - 1 >= ADDRESS_LIMIT {
        return;
      }
      var base: u64 := Down(entry.base + PAGE_SIZE - 1);
      var end: u64 := Down(entry.base + entry.length);
      WholePages(entry);
      if base < end {
        added := AddUnreserved(base, end, reserved);
        CarvedEntry(added, entry, base, end, reserved, regionCount < MAX_REGIONS);
      }
    }

    /** `init`: the frames to hand out are whole pages of usable entries that no reserved range touches, each once,
      * and as many as it reports; and all such frames, unless the region table ran full. */
    method Init(entries: seq<MapEntry>, hhdmOffset: u64, reserved: seq<PhysicalRange>) returns (total: nat)
      requires regions.Length == MAX_REGIONS
      modifies this`regionCount, this`currentRegion, this`hhdmOffset, regions
      ensures Valid() && this.hhdmOffset == hhdmOffset
      ensures total == |Remaining()| && (EntriesApart(entries) ==> NoRepeats(Remaining()))
      ensures forall f: nat | f in Remaining() :: Usable(entries, f) && (SortedByStart(reserved) ==> Free(reserved, f))
      ensures regionCount < 128 ==>
        forall f: nat | Usable(entries, f) && Free(reserved, f) :: f in Remaining()
    {
      for k := 0 to MAX_REGIONS {
        regions[k] := EMPTY_REGION;
      }
      regionCount, currentRegion := 0, 0;
      this.hhdmOffset := hhdmOffset;
      NothingSetUp(entries, reserved);
      assert Live() == [];
      for i := 0 to |entries|
        invariant regionCount <= MAX_REGIONS && currentRegion == 0 && this.hhdmOffset == hhdmOffset
        invariant SetUp(Live(), entries, i, reserved, regionCount < MAX_REGIONS)
      {
        hide SetUp, EntryCarved, EntriesApart, SortedByStart;
        ghost var live, room := Live(), regionCount < MAX_REGIONS;
        var added := AddEntry(entries[i], reserved);
        SetUpMore(live, added, entries, i, reserved, room, regionCount < MAX_REGIONS);
      }
      total := Count();
      Finished(Live(), entries, reserved, regionCount < MAX_REGIONS);
    }

    /** The sum `init` returns. */
    method Count() returns (total: nat)
      requires regionCount <= regions.Length && RegionsOk(Live())
      ensures total == |FramesFrom(Live(), 0)|
    {
      total := 0;
      ghost var live := Live();
      var k: nat := regionCount;
      while k > 0
        invariant k <= |live| && total == |FramesFrom(live, k)|
      {
        k := k - 1;
        assert live[k] == regions[k];
        total := total + (regions[k].end - regions[k].next) / PAGE_SIZE;
      }
    }

    /** The next frame, if there is one.  Its address in the direct map is checked after it was taken, so a frame
      * whose mapped address would overflow is lost. */
    method AllocateFrame() returns (r: Option<(u64, u64)>)
      requires Valid()
      modifies this`currentRegion, regions
      ensures Valid()
      ensures old(Remaining()) == [] ==> r == None && Remaining() == []
      ensures old(Remaining()) != [] ==>
        && old(Remaining())[0] < ADDRESS_LIMIT && Remaining() == old(Remaining())[1..]
        && r == if old(Remaining())[0] + hhdmOffset < ADDRESS_LIMIT
                then Some((old(Remaining())[0], old(Remaining())[0] + hhdmOffset)) else None
    {
      ghost var before := Remaining();
      while currentRegion < regionCount
        invariant Valid() && Remaining() == before
        decreases regionCount - currentRegion
      {
        var region := regions[currentRegion];
        assert region == Live()[currentRegion];
        if region.next < region.end {
          FirstFrame(Live(), currentRegion);
          ghost var live := Live();
          regions[currentRegion] := region.(next := region.next + PAGE_SIZE);
          assert Live() == live[currentRegion := region.(next := region.next + PAGE_SIZE)];
          if region.next + hhdmOffset >= ADDRESS_LIMIT {
            return None;
          }
          return Some((region.next, region.next + hhdmOffset));
        }
        EmptyRegionSkipped(Live(), currentRegion);
        currentRegion := currentRegion + 1;
      }
      return None;
    }
  }

  /** The regions carved out of one entry. */
  ghost predicate EntryCarved(rs: seq<Region>, e: MapEntry, reserved: seq<PhysicalRange>, whole: bool) {
    && RegionsOk(rs) && RegionsApart(rs)
    && (forall k | 0 <= k < |rs| :: From(rs[k], e))
    && (forall f | InSome(rs, f) :: FrameOf(e, f)) && OnlyFree(rs, reserved)
    && (whole ==> forall f | FrameOf(e, f) && Free(reserved, f) :: InSome(rs, f))
  }

  lemma NothingCarved(e: MapEntry, reserved: seq<PhysicalRange>)
    ensures EntryCarved([], e, reserved, false)
    ensures (forall f :: !FrameOf(e, f)) ==> EntryCarved([], e, reserved, true)
  {}

  /** The pages of an entry are those from its start rounded up to its end rounded down. */
  lemma WholePages(e: MapEntry)
    requires e.usable && e.base + e.length < ADDRESS_LIMIT && e.base + PAGE_SIZE - 1 < ADDRESS_LIMIT
    ensures forall f :: FrameOf(e, f) <==> Aligned(f) && Down(e.base + PAGE_SIZE - 1) <= f < Down(e.base + e.length)
  {
    forall f | Aligned(f)
      ensures FrameOf(e, f) <==> Down(e.base + PAGE_SIZE - 1) <= f < Down(e.base + e.length)
    {
      PageBounds(e.base, e.base + e.length, f);
    }
  }

  lemma PageBounds(base: u64, end: u64, f: int)
    requires Aligned(f) && base + PAGE_SIZE - 1 < ADDRESS_LIMIT
    ensures base <= f <==> Down(base + PAGE_SIZE - 1) <= f
    ensures f + PAGE_SIZE <= end <==> f < Down(end)
  {
    var a, b := Down(base + PAGE_SIZE - 1), Down(end);
    assert a == PAGE_SIZE * (a / PAGE_SIZE) && b == PAGE_SIZE * (b / PAGE_SIZE) && f == PAGE_SIZE * (f / PAGE_SIZE);
  }

  lemma CarvedEntry(rs: seq<Region>, e: MapEntry, base: nat, end: nat, reserved: seq<PhysicalRange>, whole: bool)
    requires Carved(rs, base, end, reserved, whole) && e.usable && e.base <= base && end <= e.base + e.length
    requires forall f :: FrameOf(e, f) <==> Aligned(f) && base <= f < end
    ensures EntryCarved(rs, e, reserved, whole)
  {}

  /** The table after the first `i` entries. */
  ghost predicate SetUp(rs: seq<Region>, es: seq<MapEntry>, i: nat, reserved: seq<PhysicalRange>, whole: bool) {
    && i <= |es| && RegionsOk(rs) && (EntriesApart(es) ==> RegionsApart(rs))
    && (forall k | 0 <= k < |rs| :: FromSome(rs[k], es[..i]))
    && (forall f | InSome(rs, f) :: Usable(es[..i], f)) && OnlyFree(rs, reserved)
    && (whole ==> forall f | Usable(es[..i], f) && Free(reserved, f) :: InSome(rs, f))
  }

  lemma NothingSetUp(es: seq<MapEntry>, reserved: seq<PhysicalRange>)
    ensures SetUp([], es, 0, reserved, true)
  {}

  lemma UsableOneMore(es: seq<MapEntry>, i: nat, f: int)
    requires i < |es|
    ensures Usable(es[..i + 1], f) <==> Usable(es[..i], f) || FrameOf(es[i], f)
  {
    var fewer, more := es[..i], es[..i + 1];
    assert more == fewer + [es[i]];
    if Usable(fewer, f) {
      var k :| 0 <= k < i && FrameOf(fewer[k], f);
      assert more[k] == fewer[k];
    }
    if FrameOf(es[i], f) {
      assert more[i] == es[i];
    }
  }

  lemma InSomeConcat(a: seq<Region>, b: seq<Region>, f: int)
    ensures InSome(a + b, f) <==> InSome(a, f) || InSome(b, f)
  {
    if InSome(a, f) {
      var k :| 0 <= k < |a| && InRegion(a[k], f);
      assert (a + b)[k] == a[k];
    }
    if InSome(b, f) {
      var k :| 0 <= k < |b| && InRegion(b[k], f);
      assert (a + b)[|a| + k] == b[k];
    }
  }

  lemma ConcatClear(a: seq<Region>, b: seq<Region>, es: seq<MapEntry>, i: nat)
    requires i < |es| && RegionsOk(a) && RegionsOk(b) && RegionsApart(b) && (EntriesApart(es) ==> RegionsApart(a))
    requires (forall k | 0 <= k < |a| :: FromSome(a[k], es[..i])) && (forall k | 0 <= k < |b| :: From(b[k], es[i]))
    ensures RegionsOk(a + b) && (EntriesApart(es) ==> RegionsApart(a + b))
    ensures forall k | 0 <= k < |a + b| :: FromSome((a + b)[k], es[..i + 1])
  {
    var c, fewer, more := a + b, es[..i], es[..i + 1];
    forall k | 0 <= k < |c|
      ensures FromSome(c[k], more)
    {
      if k < |a| {
        assert FromSome(a[k], fewer);
        var n :| 0 <= n < |fewer| && From(a[k], fewer[n]);
        assert From(c[k], more[n]);
      } else {
        assert From(c[k], more[i]);
      }
    }
    forall m, n | EntriesApart(es) && 0 <= m < n < |c|
      ensures Clear(c[m], c[n])
    {
      if m < |a| <= n {
        assert FromSome(a[m], fewer);
        var e :| 0 <= e < |fewer| && From(a[m], fewer[e]);
        assert From(b[n - |a|], es[i]) && fewer[e] == es[e];
      }
    }
  }

  lemma SetUpMore(rs: seq<Region>, added: seq<Region>, es: seq<MapEntry>, i: nat, reserved: seq<PhysicalRange>,
                  room: bool, whole: bool)
    requires i < |es| && SetUp(rs, es, i, reserved, room) && (whole ==> room)
    requires EntryCarved(added, es[i], reserved, whole)
    ensures SetUp(rs + added, es, i + 1, reserved, whole)
  {
    ConcatClear(rs, added, es, i);
    var now, upto := rs + added, es[..i + 1];
    forall f | InSome(now, f)
      ensures Usable(upto, f) && (SortedByStart(reserved) ==> Free(reserved, f))
    {
      InSomeConcat(rs, added, f);
      UsableOneMore(es, i, f);
    }
    forall f | whole && Usable(upto, f) && Free(reserved, f)
      ensures InSome(now, f)
    {
      InSomeConcat(rs, added, f);
      UsableOneMore(es, i, f);
    }
  }

  lemma Finished(rs: seq<Region>, es: seq<MapEntry>, reserved: seq<PhysicalRange>, whole: bool)
    requires SetUp(rs, es, |es|, reserved, whole)
    ensures RegionsOk(rs) && (EntriesApart(es) ==> NoRepeats(FramesFrom(rs, 0)))
    ensures forall f: nat | f in FramesFrom(rs, 0) :: Usable(es, f) && (SortedByStart(reserved) ==> Free(reserved, f))
    ensures whole ==> forall f: nat | Usable(es, f) && Free(reserved, f) :: f in FramesFrom(rs, 0)
  {
    hide RegionOk;
    assert es[..|es|] == es;
    assert rs[0..] == rs;
    if EntriesApart(es) {
      FramesFromDistinct(rs, 0);
    }
    forall f: nat
      ensures f in FramesFrom(rs, 0) <==> InSome(rs, f)
    {
      FramesFromHas(rs, 0, f);
    }
  }

  lemma CarveBegins(base: u64, end: u64, reserved: seq<PhysicalRange>)
    requires Aligned(base) && Aligned(end) && base < end
    ensures Carving([], base, base, end, reserved, 0, true) && Carving([], base, base, end, reserved, 0, false)
  {}

  lemma CarveWeaker(rs: seq<Region>, base: nat, b: nat, end: nat, reserved: seq<PhysicalRange>, i: nat, whole: bool, less: bool)
    requires Carving(rs, base, b, end, reserved, i, whole) && (less ==> whole)
    ensures Carving(rs, base, b, end, reserved, i, less)
  {}

  lemma CarvedWeaker(rs: seq<Region>, base: nat, end: nat, reserved: seq<PhysicalRange>, whole: bool, less: bool)
    requires Carved(rs, base, end, reserved, whole) && (less ==> whole)
    ensures Carved(rs, base, end, reserved, less)
  {}

  /** A range that does not wrap ends, rounded up, no earlier than it starts, rounded down. */
  lemma UpAbove(r: PhysicalRange)
    requires r.start + r.length < ADDRESS_LIMIT
    ensures Down(r.start) <= Up(r.start + r.length)
  {
    DownMono(r.start, Min(r.start + r.length + PAGE_SIZE - 1, ADDRESS_LIMIT - 1));
  }

  /** Some address of the page was reserved. */
  ghost predicate HasReserved(reserved: seq<PhysicalRange>, f: nat) {
    exists x: nat :: f <= x < f + PAGE_SIZE && Covered(reserved, x)
  }

  /** A page not kept out has a reserved address exactly when a range that wraps, which is ignored, starts before its
    * end. */
  lemma LetThroughIff(reserved: seq<PhysicalRange>, f: nat)
    requires Free(reserved, f) && Aligned(f) && f + PAGE_SIZE < ADDRESS_LIMIT
    ensures HasReserved(reserved, f) <==> exists r :: r in reserved && Wraps(r) && r.start < f + PAGE_SIZE
  {
    if HasReserved(reserved, f) {
      var x: nat :| f <= x < f + PAGE_SIZE && Covered(reserved, x);
      var k :| 0 <= k < |reserved| && In(reserved[k], x);
      if !Wraps(reserved[k]) {
        FreeIsApart(reserved, f, k, x);
        assert false;
      }
      assert reserved[k] in reserved && Wraps(reserved[k]) && reserved[k].start < f + PAGE_SIZE;
    }
    if r :| r in reserved && Wraps(r) && r.start < f + PAGE_SIZE {
      var k :| 0 <= k < |reserved| && reserved[k] == r;
      var x: nat := Max(f, reserved[k].start);
      assert In(reserved[k], x) && Covered(reserved, x);
    }
  }

  /** So, of the ranges as they were before sorting and merging: exactly when an outlier starts before its end. */
  lemma HandedOutIff(original: seq<PhysicalRange>, merged: seq<PhysicalRange>, f: nat)
    requires forall y :: Covered(merged, y) <==> Covered(original, y)
    requires forall r :: (r in merged && Wraps(r)) <==> Outlier(original, r)
    requires Free(merged, f) && Aligned(f) && f + PAGE_SIZE < ADDRESS_LIMIT
    ensures HasReserved(original, f) <==> OutlierBefore(original, f)
  {
    hide Free, Covered, Outlier;
    LetThroughIff(merged, f);
    if HasReserved(original, f) {
      var x: nat :| f <= x < f + PAGE_SIZE && Covered(original, x);
      assert Covered(merged, x);
    }
    if HasReserved(merged, f) {
      var x: nat :| f <= x < f + PAGE_SIZE && Covered(merged, x);
      assert Covered(original, x);
    }
    assert OutlierBefore(original, f) <==> exists r :: r in merged && Wraps(r) && r.start < f + PAGE_SIZE;
  }

  ghost predicate OutlierBefore(original: seq<PhysicalRange>, f: nat) {
    exists r :: Outlier(original, r) && r.start < f + PAGE_SIZE
  }

  lemma OneTaken(taken: seq<nat>, rest: seq<nat>)
    requires rest != [] && NoRepeats(taken + rest)
    ensures NoRepeats((taken + [rest[0]]) + rest[1..]) && NoRepeats(taken + rest[1..])
  {
    assert (taken + [rest[0]]) + rest[1..] == taken + rest;
    var all, fewer := taken + rest, taken + rest[1..];
    forall i, j | 0 <= i < j < |fewer|
      ensures fewer[i] != fewer[j]
    {
      assert fewer[i] == all[if i < |taken| then i else i + 1] && fewer[j] == all[if j < |taken| then j else j + 1];
    }
  }

  /** What is promised of a frame: it is a usable page, and has a reserved address only if a range that reaches past the
    * last address, and that all others end before, starts before the page ends. */
  ghost predicate Good(entries: seq<MapEntry>, original: seq<PhysicalRange>, f: nat) {
    Usable(entries, f) && (HasReserved(original, f) <==> OutlierBefore(original, f))
  }

  /** Every usable page has an address in the direct map. */
  ghost predicate AllMapped(entries: seq<MapEntry>, hhdmOffset: u64) {
    forall f: nat | Usable(entries, f) :: f + hhdmOffset < ADDRESS_LIMIT
  }

  /** From the reserved ranges as the boot loader collects them to frames in use: sorted and merged, they are kept out
    * of the allocator, which then gives no frame twice and as many as it reported. */
  method HandOut(ranges: array<PhysicalRange>, entries: seq<MapEntry>, hhdmOffset: u64, wanted: nat)
    returns (frames: seq<nat>, total: nat)
    requires ranges.Length > 0
    modifies ranges
    ensures forall f | f in frames :: Good(entries, old(ranges[..]), f)
    ensures EntriesApart(entries) ==> NoRepeats(frames)
    ensures |frames| <= Min(wanted, total)
    ensures AllMapped(entries, hhdmOffset) ==> |frames| == Min(wanted, total)
  {
    hide Covered, Separated, SortedByStart, EntriesApart, NoRepeats, Usable, Free, Good, Outlier, AllMapped;
    ghost var original := ranges[..];
    var count := SortAndMerge(ranges);
    var merged := ranges[..count];
    SeparatedIsSorted(merged);
    var allocator := new FrameAllocator();
    total := allocator.Init(entries, hhdmOffset, merged);
    forall f: nat | f in allocator.Remaining()
      ensures Good(entries, original, f) && (AllMapped(entries, hhdmOffset) ==> f + hhdmOffset < ADDRESS_LIMIT)
    {
      FreeIsGood(entries, original, merged, hhdmOffset, f);
    }
    frames := [];
    assert frames + allocator.Remaining() == allocator.Remaining();
    for n := 0 to wanted
      invariant fresh(allocator) && fresh(allocator.regions) && allocator.Valid() && allocator.hhdmOffset == hhdmOffset
      invariant |allocator.Remaining()| == total - Min(n, total)
      invariant |frames| <= Min(n, total) && (AllMapped(entries, hhdmOffset) ==> |frames| == Min(n, total))
      invariant EntriesApart(entries) ==> NoRepeats(frames + allocator.Remaining())
      invariant forall f | f in frames :: Good(entries, original, f)
      invariant forall f | f in allocator.Remaining() ::
        Good(entries, original, f) && (AllMapped(entries, hhdmOffset) ==> f + hhdmOffset < ADDRESS_LIMIT)
    {
      ghost var rest := allocator.Remaining();
      if rest != [] {
        if EntriesApart(entries) {
          OneTaken(frames, rest);
        }
        assert rest[0] in rest;
        assert forall f | f in rest[1..] :: f in rest;
      }
      var frame := allocator.AllocateFrame();
      if frame.Some? {
        frames := frames + [frame.value.0];
      }
    }
    if EntriesApart(entries) {
      FewerRepeat(frames, allocator.Remaining());
    }
  }

  lemma FreeIsGood(entries: seq<MapEntry>, original: seq<PhysicalRange>, merged: seq<PhysicalRange>, hhdmOffset: u64,
                   f: nat)
    requires forall y :: Covered(merged, y) <==> Covered(original, y)
    requires forall r :: (r in merged && Wraps(r)) <==> Outlier(original, r)
    requires Usable(entries, f) && Free(merged, f)
    ensures Good(entries, original, f) && (AllMapped(entries, hhdmOffset) ==> f + hhdmOffset < ADDRESS_LIMIT)
  {
    hide Free, Covered, HasReserved, OutlierBefore, Outlier;
    var k :| 0 <= k < |entries| && FrameOf(entries[k], f);
    HandedOutIff(original, merged, f);
  }

  lemma FewerRepeat(a: seq<nat>, b: seq<nat>)
    requires NoRepeats(a + b)
    ensures NoRepeats(a)
  {
    forall i, j | 0 <= i < j < |a|
      ensures a[i] != a[j]
    {
      assert (a + b)[i] == a[i] && (a + b)[j] == a[j];
    }
  }
}
