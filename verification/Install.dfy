/** Installing: partition the disk, fill the ESP, and format the DFS partition the table names. */
module Install {
  import opened Bytes
  import opened Crc
  import opened Disks
  import opened Gpt
  import opened Installer
  import opened Partitioning
  import opened PartitionTable
  import DfsLayout
  import DfsFormat
  import DfsImage
  import DfsState

  predicate InEsp(w: Write) { ESP_START <= w.lba < ESP_START + ESP_SECTORS }

  ghost predicate AllInEsp(ws: seq<Write>) { forall w | w in ws :: InEsp(w) }

  /** The sectors of the DFS partition. */
  function DfsSectors(total: nat): int { DfsEnd(total) - DFS_START + 1 }

  /** The DFS partition can be formatted on every disk that is large enough for the installer, and the whole
    * filesystem lies inside it. */
  lemma DfsFits(total: nat)
    requires MIN_DISK_SECTORS <= total < 0x1_0000_0000_0000_0000
    ensures DfsLayout.MakeLayout(DFS_START, DfsSectors(total)).Ok?
    ensures var l := DfsLayout.MakeLayout(DFS_START, DfsSectors(total)).value;
      DFS_START == l.start < l.data < DfsLayout.End(l) == DfsEnd(total) + 1
  {
    PartitionsInOrder(total);
  }

  /** What lies between the copies does not matter to the table. */
  lemma PartitionedFrame(step: ByteStep, a: Image, b: Image, ids: Guids)
    requires Partitioned(step, a, ids) && |a| == |b|
    requires forall i | 0 <= i < |a| && !BetweenCopies(|a|, i) :: a[i] == b[i]
    ensures Partitioned(step, b, ids)
  {
    hide HeaderSector, Crc32, EntryArray, BytesFrom;
    BytesFrame(a, b, 2);
    BytesFrame(a, b, |a| - 33);
  }

  /** Writing the ESP's own sectors. */
  method FillEsp(device: Disk, esp: seq<Write>)
    requires AllInEsp(esp) && ESP_START + ESP_SECTORS <= |device.durable|
    modifies device
    ensures device.durable == old(device.durable)
    ensures forall i | 0 <= i < |device.durable| && !(ESP_START <= i < DFS_START) ::
      device.View()[i] == old(device.View())[i]
  {
    hide Apply;
    for k := 0 to |esp|
      invariant device.durable == old(device.durable)
      invariant forall i | 0 <= i < |device.durable| && !(ESP_START <= i < DFS_START) ::
        device.View()[i] == old(device.View())[i]
    {
      assert esp[k] in esp;
      device.WriteSector(esp[k].lba, esp[k].data);
    }
  }

  /** Table and ESP are written; nothing else is. */
  method Partition(step: ByteStep, device: Disk, entries: array<byte>, ids: Guids, esp: seq<Write>)
    requires entries.Length == ARRAY_BYTES && MIN_DISK_SECTORS <= |device.durable| < 0x1_0000_0000 && AllInEsp(esp)
    modifies device, entries
    ensures |device.durable| == |old(device.durable)| && Partitioned(step, device.View(), ids)
    ensures forall i | DFS_START <= i < |device.durable| - 33 :: device.View()[i] == old(device.View())[i]
  {
    hide Apply, Partitioned, DfsEnd;
    var ok := WriteGpt(step, device, entries, ids);
    ghost var table := device.View();
    FillEsp(device, esp);
    PartitionedFrame(step, table, device.View(), ids);
  }

  /** The reader finds the DFS partition where it was put. */
  method LocateDfs(step: ByteStep, device: Disk, ghost ids: Guids) returns (r: Result<Gpt.Partition, GptError>)
    requires Partitioned(step, device.View(), ids)
    ensures r == Ok(DfsPartition(ids, |device.durable|))
  {
    hide Apply, Partitioned, Acceptable, Slot, EntryOf;
    SameLength(device);
    WrittenIsAccepted(step, device.View(), ids);
    var t := ReadPrimary(step, device);
    r := FindPartition(t.value, device, DFS_GUID);
    ghost var at: nat :| Stops(t.value, device.View(), DFS_GUID, at, r);
    SearchEnds(step, device.View(), ids, at, r);
  }

  lemma SameLength(device: Disk)
    ensures |device.View()| == |device.durable|
  {}

  /** The part of the installation that lays out the disk: it succeeds on every disk that is large enough, the table
    * then names a partition that holds an empty filesystem, and neither partition nor table copy touches another. */
  method InstallDisk(step: ByteStep, device: Disk, entries: array<byte>, ids: Guids, esp: seq<Write>)
    returns (r: Result<DfsLayout.Dfs, InstallError>)
    requires entries.Length == ARRAY_BYTES && |device.durable| < 0x1_0000_0000 && AllInEsp(esp)
    modifies device, entries
    ensures r.Err? <==> |device.durable| < MIN_DISK_SECTORS
    ensures r.Err? ==> r.error == DiskTooSmall && device.View() == old(device.View())
    ensures |device.durable| == |old(device.durable)|
    ensures r.Ok? ==>
      && Partitioned(step, device.durable, ids)
      && DfsLayout.MakeLayout(DFS_START, DfsSectors(|device.durable|)) == Ok(r.value.layout) && r.value.crc == step
      && DfsImage.FsOk(r.value, device.durable) && DfsState.NoLeaks(DfsImage.MetaOf(r.value, device.durable))
      && DfsFormat.OnlyRoot(r.value, device.durable)
      && (forall i | r.value.layout.data <= i < |device.durable| - 33 :: device.durable[i] == old(device.View())[i])
  {
    hide Apply, Partitioned, DfsEnd, DfsLayout.MakeLayout, DfsImage.FsOk, DfsFormat.OnlyRoot, DfsState.NoLeaks;
    if |device.durable| < MIN_DISK_SECTORS {
      return Err(DiskTooSmall);
    }
    Partition(step, device, entries, ids, esp);
    SameLength(device);
    ghost var laidOut := device.View();
    PartitionsInOrder(|device.durable|);
    DfsFits(|device.durable|);
    var p := LocateDfs(step, device, ids);
    var fs := DfsFormat.Format(device, step, p.value.firstLba, p.value.lastLba - p.value.firstLba + 1);
    PartitionedFrame(step, laidOut, device.durable, ids);
    return Ok(fs.value);
  }
}
