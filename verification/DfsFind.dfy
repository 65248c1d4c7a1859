/** Reading the inode table, and storing one inode. */
module DfsFind {
  import opened Bytes
  import opened Disks
  import opened DfsLayout
  import opened DfsTransaction
  import opened DfsJournal
  import opened DfsNode
  import opened DfsState
  import opened DfsNames
  import opened DfsImage
  import opened DfsAlloc
  import opened DfsEffects

  /** `read_node`. */
  method ReadNode(fs: Dfs, device: Disk, index: nat) returns (r: Result<Node, DfsError>)
    requires Fits(fs.layout, |device.durable|)
    ensures index >= INODE_COUNT ==> r == Err(CorruptMetadata)
    ensures index < INODE_COUNT ==> r == DecodeNode(fs.crc, InodeSector(fs.layout, device.View(), index))
  {
    if index >= INODE_COUNT {
      return Err(CorruptMetadata);
    }
    Bounds(fs.layout, |device.durable|);
    var sector := device.ReadSector(fs.layout.inode + index);
    r := LoadNode(fs.crc, sector);
  }

  lemma ReadableNode(fs: Dfs, img: Image, i: nat)
    requires FsOk(fs, img) && i < INODE_COUNT
    ensures DecodeNode(fs.crc, InodeSector(fs.layout, img, i)) == Ok(Nodes(fs, img)[i])
    ensures NodeOk(fs.layout, Nodes(fs, img)[i])
  {
    assert NodeOk(fs.layout, MetaOf(fs, img).nodes[i]);
  }

  lemma ReadableFits(fs: Dfs, a: Image)
    requires FsOk(fs, a)
    ensures Fits(fs.layout, |a|)
  {}

  /** One more inode that is not the one looked for. */
  lemma FindSkips(nodes: seq<Node>, k: nat, p: Path)
    requires k < |nodes| && Find(nodes[..k], p) == None
    ensures !(Live(nodes[k]) && nodes[k].path == p) ==> Find(nodes[..k + 1], p) == None
    ensures Live(nodes[k]) && nodes[k].path == p ==> Find(nodes[..k + 1], p) == Some(k)
  {
    assert nodes[..k + 1][..k] == nodes[..k];
  }

  lemma {:induction false} FindPrefix(nodes: seq<Node>, k: nat, p: Path)
    requires k <= |nodes| && Find(nodes[..k], p).Some?
    ensures Find(nodes, p) == Find(nodes[..k], p)
    decreases |nodes|
  {
    if k < |nodes| {
      assert nodes[..|nodes| - 1][..k] == nodes[..k];
      FindPrefix(nodes[..|nodes| - 1], k, p);
    } else {
      assert nodes[..k] == nodes;
    }
  }

  /** `find_index`: on a consistent disk the scan never meets an inode it cannot read. */
  method FindIndex(fs: Dfs, device: Disk, path: Path) returns (r: Result<Option<nat>, DfsError>)
    requires FsOk(fs, device.View())
    ensures r == Ok(Find(Nodes(fs, device.View()), path))
  {
    hide Consistent, MetaOf, MakeLayout;
    ghost var nodes := Nodes(fs, device.View());
    for index := 0 to INODE_COUNT
      invariant Find(nodes[..index], path) == None
    {
      ReadableNode(fs, device.View(), index);
      FindSkips(nodes, index, path);
      var loaded := ReadNode(fs, device, index);
      var node := loaded.value;
      if node.kind != 0 && node.path == path {
        FindPrefix(nodes, index + 1, path);
        return Ok(Some(index));
      }
    }
    assert nodes[..INODE_COUNT] == nodes;
    return Ok(None);
  }

  /** `find_node`. */
  method FindNode(fs: Dfs, device: Disk, path: Path) returns (r: Result<Option<Node>, DfsError>)
    requires FsOk(fs, device.View())
    ensures var i := Find(Nodes(fs, device.View()), path);
      r == Ok(if i.Some? then Some(Nodes(fs, device.View())[i.value]) else None)
  {
    var search := FindIndex(fs, device, path);
    var index := search.value;
    if index.None? {
      return Ok(None);
    }
    ReadableNode(fs, device.View(), index.value);
    var loaded := ReadNode(fs, device, index.value);
    var node := loaded.value;
    return Ok(Some(node));
  }

  /** What `commit` answers: it takes up to sixteen updates, all inside the partition and outside the journal. */
  ghost function CommitVerdict(l: Layout, updates: seq<Write>): Result<(), DfsError> {
    if |updates| > TRANSACTION_SECTORS then Err(JournalFull)
    else if !AllTargets(l, updates) then Err(InvalidFilesystem)
    else Ok(())
  }

  /** What goes through the journal for a list of updates. */
  lemma TransactedCommits(l: Layout, img: Image, us: seq<Write>)
    requires Fits(l, |img|) && us != [] && CommitVerdict(l, us).Ok?
    ensures Committable(l, Transacted(us)) && Apply(img, Transacted(us)) == Apply(img, us)
  {
    hide Apply, Transacted, OneEach;
    TransactedShape(us);
    TransactedApplies(img, us);
    forall i | 0 <= i < |Transacted(us)|
      ensures Target(l, Transacted(us)[i].lba) && Transacted(us)[i].lba < U64_LIMIT
    {
      assert Transacted(us)[i] in us;
    }
  }

  /** `commit`: the updates, checked first, go through the journal together and take effect as if carried out in
    * order. */
  method Commit(fs: Dfs, device: Disk, updates: seq<Write>) returns (r: Result<(), DfsError>)
    requires Quiet(fs, device.durable, device.pending)
    modifies device
    ensures r == CommitVerdict(fs.layout, updates)
    ensures r == Err(JournalFull) <==> |updates| > 16
    ensures |updates| <= 16 ==>
      (r == Ok(()) <==> forall u | u in updates ::
         fs.layout.start <= u.lba < fs.layout.start + fs.layout.sectors
         && !(fs.layout.journal <= u.lba < fs.layout.journal + 17))
    ensures r.Err? || updates == [] ==>
      device.durable == old(device.durable) && device.crashes == old(device.crashes)
    ensures Quiet(fs, device.durable, device.pending) && |device.durable| == |old(device.durable)|
    ensures r.Ok? ==>
      && SameCore(fs.layout, device.durable, Apply(old(device.durable), updates))
      && Apply(old(device.durable), Transacted(updates)) == Apply(old(device.durable), updates)
      && Committing(fs, old(device.crashes), device.crashes, old(device.durable), Transacted(updates))
    ensures old(device.crashes) <= device.crashes
  {
    hide Apply, Transacted, Committing, Committable, Core, MakeLayout;
    var l := fs.layout;
    ghost var before := device.durable;
    if |updates| == 0 {
      CommitNothing(fs, before, device.crashes);
      return Ok(());
    }
    if |updates| > TRANSACTION_SECTORS {
      return Err(JournalFull);
    }
    var transaction := new Transaction();
    NothingTransacted(updates);
    for index := 0 to |updates|
      invariant fresh(transaction) && transaction.writes == Transacted(updates[..index])
      invariant AllTargets(l, updates[..index])
      invariant device.durable == before && device.pending == [] && device.crashes == old(device.crashes)
    {
      var update := updates[index];
      if update.lba < l.start || update.lba >= l.start + l.sectors
         || (update.lba >= l.journal && update.lba < l.journal + JOURNAL_SECTORS) {
        assert updates[index] in updates;
        return Err(InvalidFilesystem);
      }
      TransactedNext(updates, index);
      TransactedShape(updates[..index]);
      OneMoreTarget(l, updates, index);
      var _ := transaction.Add(update.lba, update.data);
    }
    assert updates[..|updates|] == updates;
    TransactedCommits(l, before, updates);
    CommitTransaction(fs, device, transaction);
    CoreIsSame(l, device.durable, Apply(before, updates));
    return Ok(());
  }

  lemma CommitNothing(fs: Dfs, a: Image, crashes: iset<Image>)
    ensures Apply(a, []) == a && Apply(a, Transacted([])) == a && SameCore(fs.layout, a, a)
    ensures Committing(fs, crashes, crashes, a, Transacted([]))
  {}

  lemma NothingTransacted(us: seq<Write>)
    ensures Transacted(us[..0]) == []
  {}

  lemma OneMoreTarget(l: Layout, us: seq<Write>, k: nat)
    requires k < |us| && AllTargets(l, us[..k]) && Target(l, us[k].lba)
    ensures AllTargets(l, us[..k + 1])
  {
    assert us[..k + 1] == us[..k] + [us[k]];
  }

  lemma OneUpdate(a: Image, w: Write)
    requires w.lba < |a|
    ensures Apply(a, [w]) == a[w.lba := w.data]
  {
    ApplyOneMore(a, [], w);
    assert [] + [w] == [w];
  }

  lemma StoreIsEither(fs: Dfs, before: iset<Image>, now: iset<Image>, a: Image, us: seq<Write>, b: Image)
    requires Fits(fs.layout, |a|) && us != [] && CommitVerdict(fs.layout, us).Ok?
    requires Committing(fs, before, now, a, Transacted(us)) && SameCore(fs.layout, b, Apply(a, us))
    requires forall w | w in us :: w.lba != fs.layout.start
    ensures EitherWay(fs, before, now, a, b)
  {
    hide SameCore, Committing, EitherWay, Recovered, Decide, Apply, Core, Transacted;
    TransactedCommits(fs.layout, a, us);
    TransactedShape(us);
    CoreIsSame(fs.layout, b, Apply(a, us));
    CommitIsEither(fs, before, now, a, Transacted(us), b);
  }

  /** `store_node`: one inode, all or nothing. */
  method StoreNode(fs: Dfs, device: Disk, index: nat, node: Node) returns (r: Result<(), DfsError>)
    requires Quiet(fs, device.durable, device.pending) && index < INODE_COUNT && Encodable(node)
    modifies device
    ensures r.Ok?
    ensures Quiet(fs, device.durable, device.pending)
    ensures Stored(fs, old(device.durable), device.durable, index, node)
    ensures EitherWay(fs, old(device.crashes), device.crashes, old(device.durable), device.durable)
    ensures old(device.crashes) <= device.crashes
  {
    InodeInside(fs.layout, |device.durable|, index);
    var encoded := EncodeNode(fs.crc, node);
    var bytes := encoded.value;
    ghost var before := device.durable;
    var update := Write(fs.layout.inode + index, bytes);
    OneUpdate(before, update);
    var _ := Commit(fs, device, [update]);
    StoreIsEither(fs, old(device.crashes), device.crashes, before, [update], device.durable);
    return Ok(());
  }

  /** The lowest free slot behind the root. */
  method FindFree(fs: Dfs, device: Disk) returns (r: Result<nat, DfsError>)
    requires FsOk(fs, device.View())
    ensures r.Ok? ==> 1 <= r.value < INODE_COUNT && !Live(Nodes(fs, device.View())[r.value])
    ensures r.Ok? ==> forall k | 1 <= k < r.value :: Live(Nodes(fs, device.View())[k])
    ensures r.Ok? <==> HasFree(Nodes(fs, device.View()))
    ensures r.Err? ==> r.error == NoSpace
  {
    hide Consistent, MetaOf, MakeLayout, FsOk, Nodes, Apply, DecodeNode, InodeSector;
    ReadableFits(fs, device.View());
    ghost var nodes := Nodes(fs, device.View());
    for index := 1 to INODE_COUNT
      invariant forall k | 1 <= k < index :: Live(nodes[k])
    {
      ReadableNode(fs, device.View(), index);
      var node := ReadNode(fs, device, index);
      if node.Ok? && node.value.kind == 0 {
        return Ok(index);
      }
    }
    return Err(NoSpace);
  }
}
