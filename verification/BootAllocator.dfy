/** The boot loader's own allocator: whole runs of pages off the front of the usable regions. */
module BootAllocation {
  import opened Bytes
  import opened Physical
  import opened Memory
  import opened FrameAllocation

  predicate RangesApart(a: PhysicalRange, b: PhysicalRange) {
    a.start + a.length <= b.start || b.start + b.length <= a.start
  }

  predicate RangeClear(a: PhysicalRange, r: Region) {
    a.start + a.length <= r.next || r.end <= a.start
  }

  /** A range of whole pages within a usable entry. */
  ghost predicate Proper(a: PhysicalRange, es: seq<MapEntry>) {
    && Aligned(a.start) && Aligned(a.length) && a.start + a.length < ADDRESS_LIMIT
    && FromSome(Region(a.start, a.start + a.length), es)
  }

  /** What was given out and what is on offer are pages of usable entries; if those do not overlap, nothing was given
    * out twice and nothing given out is still on offer. */
  ghost predicate Books(given: seq<PhysicalRange>, live: seq<Region>, es: seq<MapEntry>) {
    && RegionsOk(live) && (forall k | 0 <= k < |live| :: FromSome(live[k], es))
    && (forall i | 0 <= i < |given| :: Proper(given[i], es))
    && (EntriesApart(es) ==> RegionsApart(live) && AllApart(given, live))
  }

  ghost predicate AllApart(given: seq<PhysicalRange>, live: seq<Region>) {
    && (forall i, j | 0 <= i < j < |given| :: RangesApart(given[i], given[j]))
    && (forall i, k | 0 <= i < |given| && 0 <= k < |live| :: RangeClear(given[i], live[k]))
  }

  /** The first region with that much room; a sum that overflows ends the search. */
  ghost predicate FirstFits(live: seq<Region>, bytes: nat, k: nat) {
    && k < |live| && live[k].next + bytes <= live[k].end
    && forall j | 0 <= j < k :: live[j].end < live[j].next + bytes < ADDRESS_LIMIT
  }

  ghost predicate SomeFits(live: seq<Region>, bytes: nat) {
    exists k: nat :: FirstFits(live, bytes, k)
  }

  predicate HasRoom(r: Region, bytes: nat) { r.next + bytes <= r.end }

  /** A region is found exactly when one has room and no region before it overflows: behind one that does, room is not
    * seen. */
  lemma FitsIff(live: seq<Region>, bytes: nat)
    ensures SomeFits(live, bytes) <==>
            exists k :: 0 <= k < |live| && HasRoom(live[k], bytes) && NoneOverflows(live[..k], bytes)
  {
    if k: nat :| FirstFits(live, bytes, k) {
      assert HasRoom(live[k], bytes) && NoneOverflows(live[..k], bytes);
    }
    if k :| 0 <= k < |live| && HasRoom(live[k], bytes) && NoneOverflows(live[..k], bytes) {
      var first := EarliestRoom(live, bytes, k);
      assert forall j | 0 <= j < first :: live[j] == live[..k][j];
      assert FirstFits(live, bytes, first);
    }
  }

  ghost predicate NoneOverflows(live: seq<Region>, bytes: nat) {
    forall j | 0 <= j < |live| :: live[j].next + bytes < ADDRESS_LIMIT
  }

  lemma {:induction false} EarliestRoom(live: seq<Region>, bytes: nat, k: nat) returns (first: nat)
    requires k < |live| && HasRoom(live[k], bytes)
    ensures first <= k && HasRoom(live[first], bytes) && forall j | 0 <= j < first :: !HasRoom(live[j], bytes)
    decreases k
  {
    if j :| 0 <= j < k && HasRoom(live[j], bytes) {
      first := EarliestRoom(live, bytes, j);
    } else {
      first := k;
    }
  }

  ghost predicate TakenFrom(live: seq<Region>, range: PhysicalRange) {
    exists k: nat :: FirstFits(live, range.length, k) && range.start == live[k].next
  }

  lemma BooksGive(given: seq<PhysicalRange>, live: seq<Region>, es: seq<MapEntry>, k: nat, bytes: nat)
    requires Books(given, live, es) && k < |live| && Aligned(bytes) && live[k].next + bytes <= live[k].end
    ensures var r := live[k];
      Books(given + [PhysicalRange(r.next, bytes)], live[k := r.(next := r.next + bytes)], es)
  {
    var r := live[k];
    var range, after := PhysicalRange(r.next, bytes), live[k := r.(next := r.next + bytes)];
    assert RegionOk(r) && FromSome(r, es);
    var e :| 0 <= e < |es| && From(r, es[e]);
    assert From(Region(r.next, r.next + bytes), es[e]) && From(after[k], es[e]);
    forall j | 0 <= j < |after|
      ensures FromSome(after[j], es)
    {
      assert FromSome(live[j], es);
    }
    if EntriesApart(es) {
      GiveApart(given, live, k, bytes);
    }
  }

  lemma GiveApart(given: seq<PhysicalRange>, live: seq<Region>, k: nat, bytes: nat)
    requires RegionsOk(live) && RegionsApart(live) && AllApart(given, live)
    requires k < |live| && live[k].next + bytes <= live[k].end
    ensures var r := live[k]; var after := live[k := r.(next := r.next + bytes)];
      RegionsApart(after) && AllApart(given + [PhysicalRange(r.next, bytes)], after)
  {
    var r := live[k];
    var range, after := PhysicalRange(r.next, bytes), live[k := r.(next := r.next + bytes)];
    forall i, j | 0 <= i < j < |after|
      ensures Clear(after[i], after[j])
    {
      assert Clear(live[i], live[j]);
    }
    forall j | 0 <= j < |after|
      ensures RangeClear(range, after[j])
    {
      if j < k {
        assert Clear(live[j], live[k]);
      } else if k < j {
        assert Clear(live[k], live[j]);
      }
    }
    forall i, j | 0 <= i < |given| && 0 <= j < |after|
      ensures RangeClear(given[i], after[j])
    {
      assert RangeClear(given[i], live[j]);
    }
  }

  class BootAllocator {
    var regions: array<Region>
    var count: nat
    /** Every range given out so far. */
    ghost var given: seq<PhysicalRange>
    ghost const entries: seq<MapEntry>

    ghost predicate Valid()
      reads this, regions
    {
      regions.Length == 128 && count <= 128 && Books(given, regions[..count], entries)
    }

    /** One region for each usable entry, cut down to whole pages. */
    constructor (entries: seq<MapEntry>)
      ensures Valid() && fresh(regions) && given == [] && this.entries == entries
      ensures forall f | InSome(regions[..count], f) :: Usable(entries, f)
      ensures count < 128 ==> forall f | Usable(entries, f) :: InSome(regions[..count], f)
    {
      this.entries := entries;
      regions := new Region[128](_ => EMPTY_REGION);
      count := 0;
      given := [];
      new;
      NothingSetUp(entries, []);
      for i := 0 to |entries|
        invariant fresh(regions) && regions.Length == 128 && count <= 128 && given == []
        invariant SetUp(regions[..count], entries, i, [], count < 128)
      {
        hide SetUp, EntryCarved;
        ghost var live, room := regions[..count], count < 128;
        var added := AddWhole(entries[i]);
        SetUpMore(live, added, entries, i, [], room, count < 128);
      }
      BooksOpen(regions[..count], entries, count < 128);
    }

    /** The whole pages of an entry, if it has any and there is room in the table. */
    method AddWhole(entry: MapEntry) returns (ghost added: seq<Region>)
      requires regions.Length == 128 && count <= 128
      modifies this`count, regions
      ensures count <= 128 && regions[..count] == old(regions[..count]) + added
      ensures EntryCarved(added, entry, [], count < 128)
    {
      hide EntryCarved, FrameOf;
      added := [];
      NothingCarved(entry, []);
      NoPages(entry);
      if entry.usable && count < 128
         && entry.base + entry.length < ADDRESS_LIMIT && entry.base + PAGE_SIZE - 1 < ADDRESS_LIMIT {
        var start: u64 := Down(entry.base + PAGE_SIZE - 1);
        var end: u64 := Down(entry.base + entry.length);
        if start < end {
          added := [Region(start, end)];
          WholeEntry(entry, start, end);
          regions[count] := Region(start, end);
          count := count + 1;
        }
      }
    }

    /** First fit: whole pages inside a usable entry; `Books` says that they are apart from everything given out
      * before. */
    method AllocateContiguous(bytes: u64) returns (r: Option<PhysicalRange>)
      requires Valid()
      modifies this`given, regions
      ensures Valid()
      ensures r.Some? <==>
        bytes + PAGE_SIZE - 1 < ADDRESS_LIMIT && SomeFits(old(regions[..count]), Down(bytes + PAGE_SIZE - 1))
      ensures r.None? ==> given == old(given) && regions[..count] == old(regions[..count])
      ensures r.Some? ==>
        && bytes + PAGE_SIZE - 1 < ADDRESS_LIMIT && r.value.length == Down(bytes + PAGE_SIZE - 1) >= bytes
        && given == old(given) + [r.value] && TakenFrom(old(regions[..count]), r.value)
    {
      if bytes + PAGE_SIZE - 1 >= ADDRESS_LIMIT {
        return None;
      }
      var aligned: u64 := Down(bytes + PAGE_SIZE - 1);
      ghost var live := regions[..count];
      for k := 0 to count
        invariant regions[..count] == live && Valid() && given == old(given)
        invariant forall j | 0 <= j < k :: live[j].end < live[j].next + aligned < ADDRESS_LIMIT
      {
        hide Books;
        var region := regions[k];
        assert region == live[k];
        if region.next + aligned >= ADDRESS_LIMIT {
          return None;
        }
        if region.next + aligned <= region.end {
          BooksGive(given, live, entries, k, aligned);
          var range := PhysicalRange(region.next, aligned);
          regions[k] := region.(next := region.next + aligned);
          given := given + [range];
          assert regions[..count] == live[k := region.(next := region.next + aligned)];
          assert FirstFits(live, aligned, k);
          return Some(range);
        }
      }
      return None;
    }
  }

  lemma BooksOpen(live: seq<Region>, es: seq<MapEntry>, whole: bool)
    requires SetUp(live, es, |es|, [], whole)
    ensures Books([], live, es) && forall f | InSome(live, f) :: Usable(es, f)
    ensures whole ==> forall f | Usable(es, f) :: InSome(live, f)
  {
    assert es[..|es|] == es;
    assert forall f :: Free([], f);
  }

  /** An entry with no whole page in it, or whose bounds overflow. */
  lemma NoPages(e: MapEntry)
    ensures (|| !e.usable || e.base + e.length >= ADDRESS_LIMIT || e.base + PAGE_SIZE - 1 >= ADDRESS_LIMIT
             || Down(e.base + PAGE_SIZE - 1) >= Down(e.base + e.length)) ==>
      forall f :: !FrameOf(e, f)
  {
    if e.usable && e.base + e.length < ADDRESS_LIMIT && e.base + PAGE_SIZE - 1 < ADDRESS_LIMIT {
      WholePages(e);
    }
  }

  lemma WholeEntry(e: MapEntry, start: u64, end: u64)
    requires e.usable && e.base + e.length < ADDRESS_LIMIT && e.base + PAGE_SIZE - 1 < ADDRESS_LIMIT
    requires start == Down(e.base + PAGE_SIZE - 1) && end == Down(e.base + e.length) && start < end
    ensures EntryCarved([Region(start, end)], e, [], true) && EntryCarved([Region(start, end)], e, [], false)
  {
    WholePages(e);
    var r := Region(start, end);
    forall f | InSome([r], f)
      ensures FrameOf(e, f)
    {
      assert InRegion(r, f);
    }
    forall f | FrameOf(e, f)
      ensures InSome([r], f)
    {
      assert InRegion([r][0], f);
    }
  }
}
