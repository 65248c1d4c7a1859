/** The data loop of `write_file`: file bytes go to their sectors in place, without the journal. */
module DfsData {
  import opened Bytes
  import opened Disks
  import opened DfsLayout
  import opened DfsNode
  import opened DfsExtents
  import opened DfsPatch
  import opened DfsState
  import opened DfsAlloc

  /** The sectors of a consistent file: distinct, inside the data area, as many as its extents say. */
  lemma FileSectors(l: Layout, n: nat, node: Node)
    requires Fits(l, n) && NodeOk(l, node) && node.kind == NODE_FILE
    ensures Tiled(node.extents) && Distinct(Sectors(node.extents))
    ensures forall x | x in Sectors(node.extents) :: InData(l, x) && x < n
    ensures |Sectors(node.extents)| < U32_LIMIT
  {
    FileFits(l, n, node);
    Bounds(l, n);
  }

  /** The pending writes while the data loop of `write_file` runs over `a`. */
  ghost predicate Writing(a: Image, pending: seq<Write>, ss: seq<nat>, offset: nat, input: seq<byte>, consumed: nat) {
    && (forall w | w in pending :: IsPatch(w, a, ss, offset, input))
    && Progress(a, Apply(a, pending), ss, offset, input, consumed)
    && consumed <= |input|
    && (consumed == 0 || consumed == |input| || (offset + consumed) % SECTOR_SIZE == 0)
  }

  /** The update the loop issues when `consumed` bytes are done. */
  function NextWrite(a: Image, ss: seq<nat>, offset: nat, input: seq<byte>, consumed: nat): Write
    requires (offset + consumed) / SECTOR_SIZE < |ss| && ss[(offset + consumed) / SECTOR_SIZE] < |a|
  {
    var q := (offset + consumed) / SECTOR_SIZE;
    Write(ss[q], Patched(a[ss[q]], q, offset, input))
  }

  function NextCount(offset: nat, input: seq<byte>, consumed: nat): (n: nat)
    requires consumed < |input|
    ensures 0 < n <= |input| - consumed
  {
    Min(SECTOR_SIZE - (offset + consumed) % SECTOR_SIZE, |input| - consumed)
  }

  lemma WritingInside(a: Image, ss: seq<nat>, offset: nat, input: seq<byte>, consumed: nat)
    requires consumed < |input| && offset + |input| <= SECTOR_SIZE * |ss|
    requires forall x | x in ss :: x < |a|
    ensures (offset + consumed) / SECTOR_SIZE < |ss| && ss[(offset + consumed) / SECTOR_SIZE] < |a|
  {
    assert ss[(offset + consumed) / SECTOR_SIZE] in ss;
  }

  lemma NextIsPatch(a: Image, ss: seq<nat>, offset: nat, input: seq<byte>, consumed: nat)
    requires (offset + consumed) / SECTOR_SIZE < |ss| && ss[(offset + consumed) / SECTOR_SIZE] < |a|
    ensures IsPatch(NextWrite(a, ss, offset, input, consumed), a, ss, offset, input)
  {
    assert PatchAt(NextWrite(a, ss, offset, input, consumed), a, ss, (offset + consumed) / SECTOR_SIZE, offset, input);
  }

  lemma WritingNext(a: Image, pending: seq<Write>, ss: seq<nat>, offset: nat, input: seq<byte>, consumed: nat)
    requires Distinct(ss) && forall x | x in ss :: x < |a|
    requires consumed < |input| && offset + |input| <= SECTOR_SIZE * |ss|
    requires Writing(a, pending, ss, offset, input, consumed)
    ensures (offset + consumed) / SECTOR_SIZE < |ss| && ss[(offset + consumed) / SECTOR_SIZE] < |a|
    ensures var after := pending + [NextWrite(a, ss, offset, input, consumed)];
      && Writing(a, after, ss, offset, input, consumed + NextCount(offset, input, consumed))
      && (forall c | CrashImage(a, after, c) :: TornBy(a, c, ss, offset, input))
  {
    hide Progress, Apply, Patched, Distinct, TornBy, IsPatch, PatchAt;
    WritingInside(a, ss, offset, input, consumed);
    var w := NextWrite(a, ss, offset, input, consumed);
    var after := pending + [w];
    ProgressStep(a, Apply(a, pending), ss, offset, input, consumed);
    ApplyOneMore(a, pending, w);
    NextIsPatch(a, ss, offset, input, consumed);
    forall c | CrashImage(a, after, c)
      ensures TornBy(a, c, ss, offset, input)
    {
      PatchesTear(a, after, ss, offset, input, c);
    }
  }

  /** The sector the loop is at still holds what it held before the write. */
  lemma WritingFresh(a: Image, pending: seq<Write>, ss: seq<nat>, offset: nat, input: seq<byte>, consumed: nat)
    requires Distinct(ss) && forall x | x in ss :: x < |a|
    requires consumed < |input| && offset + |input| <= SECTOR_SIZE * |ss|
    requires Writing(a, pending, ss, offset, input, consumed)
    ensures var q := (offset + consumed) / SECTOR_SIZE;
      && q < |ss| && ss[q] < |a| && Apply(a, pending)[ss[q]] == a[ss[q]]
      && Put(a[ss[q]], (offset + consumed) % SECTOR_SIZE,
             input[consumed..consumed + NextCount(offset, input, consumed)])
         == Patched(a[ss[q]], q, offset, input)
  {
    hide Put, Apply, Patched;
    WritingInside(a, ss, offset, input, consumed);
    var q := (offset + consumed) / SECTOR_SIZE;
    ProgressStep(a, Apply(a, pending), ss, offset, input, consumed);
    PatchedHere(a[ss[q]], q, offset, input, consumed);
  }

  lemma PutWhole(s: Sector, b: Sector)
    ensures Put(s, 0, b) == b
  {}

  /** One turn of the data loop: a whole sector is replaced, or read, patched and written back. */
  method WriteStep(fs: Dfs, device: Disk, node: Node, offset: nat, input: seq<byte>, consumed: nat)
    returns (r: Result<nat, DfsError>)
    requires Fits(fs.layout, |device.durable|) && NodeOk(fs.layout, node) && node.kind == NODE_FILE
    requires offset + |input| <= SECTOR_SIZE * |Sectors(node.extents)| && consumed < |input|
    requires Writing(device.durable, device.pending, Sectors(node.extents), offset, input, consumed)
    modifies device
    ensures r.Ok? && consumed < r.value <= |input| && device.durable == old(device.durable)
    ensures Writing(device.durable, device.pending, Sectors(node.extents), offset, input, r.value)
    ensures forall c | c in device.crashes ::
      c in old(device.crashes) || TornBy(device.durable, c, Sectors(node.extents), offset, input)
    ensures old(device.crashes) <= device.crashes
    ensures forall c | CrashImage(device.durable, device.pending, c) :: c in device.crashes
  {
    hide NodeOk, MakeLayout, Progress, Apply, Put, Patched, IsPatch, TornBy, Distinct, Writing, Sectors, Tiled,
      ExtentFor, CrashImage;
    FileSectors(fs.layout, |device.durable|, node);
    ghost var a, ss := device.durable, Sectors(node.extents);
    WritingFresh(a, device.pending, ss, offset, input, consumed);
    WritingNext(a, device.pending, ss, offset, input, consumed);
    var position := offset + consumed;
    var logical := position / SECTOR_SIZE;
    var within := position % SECTOR_SIZE;
    var count := Min(SECTOR_SIZE - within, |input| - consumed);
    TiledFinds(node.extents, logical);
    var physical := Locate(node.extents, logical);
    if physical.None? {
      return Err(CorruptMetadata);
    }
    var sector := ZERO_SECTOR;
    if within == 0 && count == SECTOR_SIZE {
      sector := input[consumed..consumed + count];
      PutWhole(a[ss[logical]], sector);
    } else {
      sector := device.ReadSector(physical.value);
      sector := Put(sector, within, input[consumed..consumed + count]);
    }
    device.WriteSector(physical.value, sector);
    return Ok(consumed + count);
  }

  /** With all the data pending, any choice of old and new sectors may be what is left. */
  lemma TornMayCrash(a: Image, pending: seq<Write>, ss: seq<nat>, offset: nat, input: seq<byte>, c: Image)
    requires PatchedBy(a, Apply(a, pending), ss, offset, input) && TornBy(a, c, ss, offset, input)
    ensures CrashImage(a, pending, c)
  {
    hide Apply, Patched;
    forall l | 0 <= l < |a|
      ensures c[l] == a[l] || Write(l, c[l]) in pending
    {
      if q :| 0 <= q < |ss| && ss[q] == l {
        ApplyAt(a, pending, l);
      }
    }
  }

  /** The data loop of `write_file`. */
  method WriteData(fs: Dfs, device: Disk, node: Node, offset: nat, input: seq<byte>) returns (r: Result<nat, DfsError>)
    requires Fits(fs.layout, |device.durable|) && device.pending == []
    requires NodeOk(fs.layout, node) && node.kind == NODE_FILE
    requires offset + |input| <= SECTOR_SIZE * |Sectors(node.extents)|
    modifies device
    ensures r == Ok(|input|) && device.durable == old(device.durable)
    ensures PatchedBy(old(device.durable), device.View(), Sectors(node.extents), offset, input)
    ensures forall c | c in device.crashes ::
      c in old(device.crashes) || TornBy(old(device.durable), c, Sectors(node.extents), offset, input)
    ensures old(device.crashes) <= device.crashes
    ensures input != [] ==>
      forall c | TornBy(old(device.durable), c, Sectors(node.extents), offset, input) :: c in device.crashes
  {
    ghost var a, ss := device.durable, Sectors(node.extents);
    var consumed := 0;
    assert Writing(a, device.pending, ss, offset, input, 0);
    while consumed < |input|
      invariant device.durable == a && consumed <= |input|
      invariant Writing(a, device.pending, ss, offset, input, consumed)
      invariant forall c | c in device.crashes :: c in old(device.crashes) || TornBy(a, c, ss, offset, input)
      invariant old(device.crashes) <= device.crashes
      invariant consumed > 0 ==> forall c | CrashImage(a, device.pending, c) :: c in device.crashes
    {
      hide Writing, TornBy, NodeOk, MakeLayout, CrashImage;
      var written := WriteStep(fs, device, node, offset, input, consumed);
      consumed := written.value;
    }
    ProgressDone(a, device.View(), ss, offset, input);
    hide CrashImage, TornBy, PatchedBy, NodeOk, MakeLayout, Writing;
    forall c | TornBy(a, c, ss, offset, input)
      ensures CrashImage(a, device.pending, c)
    {
      TornMayCrash(a, device.pending, ss, offset, input, c);
    }
    return Ok(consumed);
  }
}
