/** Reserving and releasing runs of data sectors through the journal. */
module DfsAlloc {
  import opened Bytes
  import opened Disks
  import opened DfsLayout
  import opened DfsTransaction
  import opened DfsJournal
  import opened DfsNode
  import opened DfsBitmap
  import opened DfsRuns

  /** Between operations: everything flushed and no record in the journal. */
  ghost predicate Quiet(fs: Dfs, img: Image, pending: seq<Write>) {
    Fits(fs.layout, |img|) && pending == [] && img[fs.layout.journal] == ZERO_SECTOR
  }

  /** `b` is `a` with inode `index` stored as `node` and the bits of `[lo, hi)` set; the journal is free to differ. */
  ghost predicate Reserved(fs: Dfs, a: Image, b: Image, lo: nat, hi: nat, index: nat, node: Node)
    requires Fits(fs.layout, |a|) && index < INODE_COUNT && Encodable(node)
  {
    var l := fs.layout;
    && |a| == |b|
    && (forall i | 0 <= i < |a| && !InJournal(l, i) && !(l.bitmap <= i < l.data) && i != l.inode + index :: b[i] == a[i])
    && b[l.inode + index] == NodeSector(fs.crc, node)
    && (forall x | l.start <= x < End(l) :: Marked(l, b, x) == (lo <= x < hi || Marked(l, a, x)))
  }

  /** The inode joins the bitmap sectors as one more update: at most 16 in all. */
  lemma ReservedList(fs: Dfs, a: Image, start: nat, count: nat, index: nat, data: Sector)
    requires Reservable(fs.layout, |a|, start, count) && index < INODE_COUNT
    ensures var ws := RunWrites(fs.layout, a, start, count);
      && Added(ws, fs.layout.inode + index, data) == ws + [Write(fs.layout.inode + index, data)]
      && Committable(fs.layout, ws + [Write(fs.layout.inode + index, data)])
      && (forall w | w in ws + [Write(fs.layout.inode + index, data)] :: w.lba != fs.layout.start)
  {
    var ws := RunWrites(fs.layout, a, start, count);
    RunWritesShape(fs.layout, a, start, count);
    PositionMisses(ws, fs.layout.inode + index);
    forall i | 0 <= i < |ws|
      ensures Target(fs.layout, ws[i].lba)
    {
      assert ws[i] in ws;
    }
  }

  lemma InodeJoins(fs: Dfs, a: Image, stamped: Image, lo: nat, hi: nat, index: nat, node: Node)
    requires Fits(fs.layout, |a|) && index < INODE_COUNT && Encodable(node)
    requires Restamped(fs.layout, a, stamped, lo, hi, true)
    ensures Reserved(fs, a, stamped[fs.layout.inode + index := NodeSector(fs.crc, node)], lo, hi, index, node)
  {
    BitsFrame(fs.layout, stamped, stamped[fs.layout.inode + index := NodeSector(fs.crc, node)]);
    hide Marked;
  }

  lemma InodeInside(l: Layout, n: nat, index: nat)
    requires Fits(l, n) && index < INODE_COUNT
    ensures l.inode + index < l.bitmap < n && Target(l, l.inode + index)
  {}

  lemma ReservedWrites(fs: Dfs, a: Image, start: nat, count: nat, index: nat, node: Node)
    requires Reservable(fs.layout, |a|, start, count) && index < INODE_COUNT && Encodable(node)
    ensures var all := RunWrites(fs.layout, a, start, count) + [Write(fs.layout.inode + index, NodeSector(fs.crc, node))];
      Reserved(fs, a, Apply(a, all), start, start + count, index, node)
  {
    hide Reserved, RunWrites, StampWrites, Marked, NodeSector, Restamped, Home, Apply, MakeLayout, Encodable;
    var ws := RunWrites(fs.layout, a, start, count);
    var last := Write(fs.layout.inode + index, NodeSector(fs.crc, node));
    RunLands(fs.layout, a, start, count);
    InodeJoins(fs, a, Apply(a, ws), start, start + count, index, node);
    InodeInside(fs.layout, |a|, index);
    ApplyOneMore(a, ws, last);
  }

  lemma ReservedCore(fs: Dfs, a: Image, b: Image, c: Image, lo: nat, hi: nat, index: nat, node: Node)
    requires Fits(fs.layout, |a|) && index < INODE_COUNT && Encodable(node)
    requires Reserved(fs, a, b, lo, hi, index, node) && Core(fs.layout, b) == Core(fs.layout, c)
    ensures Reserved(fs, a, c, lo, hi, index, node)
  {
    CoreIsSame(fs.layout, b, c);
    BitsFrame(fs.layout, b, c);
  }

  /** `reserve_run`: the run is marked and the inode stored, in one transaction. */
  method ReserveRun(fs: Dfs, device: Disk, start: u64, count: u64, index: nat, node: Node) returns (r: Result<(), DfsError>)
    requires Quiet(fs, device.durable, device.pending)
    requires Reservable(fs.layout, |device.durable|, start, count) && index < INODE_COUNT && Encodable(node)
    modifies device
    ensures r.Ok?
    ensures Quiet(fs, device.durable, device.pending)
    ensures Reserved(fs, old(device.durable), device.durable, start, start + count, index, node)
    ensures EitherWay(fs, old(device.crashes), device.crashes, old(device.durable), device.durable)
  {
    hide RunWrites, Reserved, NodeSector, Home, Added, Core, MakeLayout, Marked;
    var transaction := new Transaction();
    ghost var before := device.durable;
    assert device.View() == before;
    var _ := StampRun(fs, device, transaction, start, count);
    var encoded := EncodeNode(fs.crc, node);
    var inode := encoded.value;
    ReservedList(fs, before, start, count, index, inode);
    ReservedWrites(fs, before, start, count, index, node);
    var _ := transaction.Add(fs.layout.inode + index, inode);
    ghost var ws := transaction.writes;
    CommitTransaction(fs, device, transaction);
    CommitIsEither(fs, old(device.crashes), device.crashes, before, ws, device.durable);
    ReservedCore(fs, before, Apply(before, ws), device.durable, start, start + count, index, node);
    return Ok(());
  }

  // ---------------------------------------------------------------- releasing

  /** All of `[lo, mid)` is cleared. */
  ghost predicate Released(l: Layout, a: Image, b: Image, lo: nat, mid: nat)
    requires Fits(l, |a|)
  {
    && |a| == |b|
    && (forall i | 0 <= i < |a| && !InJournal(l, i) && !(l.bitmap <= i < l.data) :: b[i] == a[i])
    && (forall x | l.start <= x < End(l) :: Marked(l, b, x) == (!(lo <= x < mid) && Marked(l, a, x)))
  }

  /** Somewhere on the way of releasing `[lo, hi)`: a first part of it is cleared and nothing else has changed. */
  ghost predicate PartReleased(l: Layout, a: Image, b: Image, lo: nat, hi: nat)
    requires Fits(l, |a|)
  {
    exists mid: nat :: lo <= mid <= hi && Released(l, a, b, lo, mid)
  }

  lemma ReleasedIsPart(l: Layout, a: Image, b: Image, lo: nat, mid: nat, hi: nat)
    requires Fits(l, |a|) && lo <= mid <= hi && Released(l, a, b, lo, mid)
    ensures PartReleased(l, a, Core(l, b), lo, hi)
  {
    BitsFrame(l, b, Core(l, b));
    assert Released(l, a, Core(l, b), lo, mid) by {
      hide Marked;
    }
  }

  /** Clearing the next stretch, committed over a journal that may differ. */
  lemma ReleaseOn(l: Layout, a: Image, b: Image, after: Image, c: Image, lo: nat, mid: nat, hi: nat)
    requires Fits(l, |a|) && lo <= mid <= hi && Released(l, a, b, lo, mid)
    requires Restamped(l, b, after, mid, hi, false) && Core(l, c) == Core(l, after)
    ensures Released(l, a, c, lo, hi)
  {
    CoreIsSame(l, c, after);
    BitsFrame(l, c, after);
    hide Marked;
  }

  lemma ClearedShape(l: Layout, img: Image, lo: nat, hi: nat, n: nat)
    requires Fits(l, |img|) && l.start <= lo && Home(l, lo) + n <= l.data && l.bitmap <= Home(l, lo)
    requires 1 <= n <= TRANSACTION_SECTORS
    ensures Committable(l, StampWrites(l, img, lo, hi, false, n))
    ensures forall w | w in StampWrites(l, img, lo, hi, false, n) :: w.lba != l.start
  {}

  /** Outcomes of a power loss while `[lo, hi)` of `a` is being released. */
  ghost function ReleaseOutcomes(l: Layout, a: Image, lo: nat, hi: nat): iset<Image>
    requires Fits(l, |a|)
  {
    iset x | PartReleased(l, a, x, lo, hi)
  }

  /** Every new crash image recovers to an image in `good`. */
  ghost predicate CrashesInto(fs: Dfs, before: iset<Image>, now: iset<Image>, good: iset<Image>) {
    forall c | c in now :: c in before || MountsInto(fs, c, good)
  }

  ghost predicate MountsInto(fs: Dfs, c: Image, good: iset<Image>) {
    Anchored(fs, c) && Recovered(fs, c).Ok? && Recovered(fs, c).value in good
  }

  lemma CrashesWeaken(fs: Dfs, a: iset<Image>, b: iset<Image>, good: iset<Image>, good': iset<Image>)
    requires CrashesInto(fs, a, b, good) && good <= good'
    ensures CrashesInto(fs, a, b, good')
  {}

  lemma EitherIsInto(fs: Dfs, before: iset<Image>, now: iset<Image>, a: Image, b: Image)
    requires EitherWay(fs, before, now, a, b)
    ensures CrashesInto(fs, before, now, iset{Core(fs.layout, a), Core(fs.layout, b)})
  {}

  /** Commits the cleared stretch `[mid, hi)` collected so far. */
  method ReleaseCommit(fs: Dfs, device: Disk, transaction: Transaction,
                       ghost a: Image, ghost lo: nat, ghost mid: nat, ghost hi: nat, ghost end: nat)
    requires Quiet(fs, device.durable, device.pending) && Fits(fs.layout, |a|)
    requires fs.layout.start <= lo <= mid < hi <= end <= End(fs.layout)
    requires Released(fs.layout, a, device.durable, lo, mid)
    requires fs.layout.bitmap <= Home(fs.layout, mid) <= Home(fs.layout, hi - 1) < fs.layout.data
    requires transaction.writes == StampWrites(fs.layout, device.durable, mid, hi, false,
                                               Home(fs.layout, hi - 1) + 1 - Home(fs.layout, mid))
    requires 1 <= |transaction.writes| <= TRANSACTION_SECTORS
    modifies device
    ensures Quiet(fs, device.durable, device.pending)
    ensures Released(fs.layout, a, device.durable, lo, hi)
    ensures CrashesInto(fs, old(device.crashes), device.crashes, ReleaseOutcomes(fs.layout, a, lo, end))
  {
    ghost var l, b, ws := fs.layout, device.durable, transaction.writes;
    ClearedShape(l, b, mid, hi, |ws|);
    StampLands(l, b, mid, hi, false, Home(l, hi - 1) + 1 - Home(l, mid));
    ReleasedIsPart(l, a, b, lo, mid, end);
    hide StampWrites, Restamped, Released, PartReleased, Home, Core, Apply, MakeLayout, Committable;
    CommitTransaction(fs, device, transaction);
    CommitIsEither(fs, old(device.crashes), device.crashes, b, ws, device.durable);
    ReleaseOn(l, a, b, Apply(b, ws), device.durable, lo, mid, hi);
    ReleasedIsPart(l, a, device.durable, lo, hi, end);
    EitherIsInto(fs, old(device.crashes), device.crashes, b, device.durable);
  }

  /** Where the release scan stands: `[lo, mid)` is on disk, `[mid, lba)` in the transaction and in hand. */
  ghost predicate Clearing(fs: Dfs, a: Image, b: Image, pending: seq<Write>, lo: nat, mid: nat, lba: nat,
                           current: nat, bitmap: Sector, ws: seq<Write>)
    requires Fits(fs.layout, |a|)
  {
    && Quiet(fs, b, pending) && |b| == |a|
    && fs.layout.start <= lo <= mid < lba <= End(fs.layout)
    && Released(fs.layout, a, b, lo, mid)
    && Stamping(fs.layout, b, mid, lba, false, current, bitmap, ws)
    && |ws| < TRANSACTION_SECTORS
  }

  /** Leaving a bitmap sector: it joins the transaction, which is committed when it is full. */
  method LeaveHome(fs: Dfs, device: Disk, transaction: Transaction, current: nat, held: Sector,
                   ghost a: Image, ghost lo: nat, ghost mid: nat, ghost lba: nat, ghost end: nat)
    returns (r: Result<Transaction, DfsError>, ghost mid': nat)
    requires Fits(fs.layout, |a|) && lba < end <= End(fs.layout)
    requires Clearing(fs, a, device.durable, device.pending, lo, mid, lba, current, held, transaction.writes)
    requires Home(fs.layout, lba) != current
    modifies device, transaction
    ensures r.Ok? && (r.value == transaction || fresh(r.value)) && lo <= mid' <= lba
    ensures Quiet(fs, device.durable, device.pending) && |device.durable| == |a|
    ensures Released(fs.layout, a, device.durable, lo, mid')
    ensures mid' < lba ==>
      && mid' == mid && device.durable == old(device.durable)
      && r.value.writes == Added(old(transaction.writes), current, held) && |r.value.writes| < TRANSACTION_SECTORS
    ensures mid' == lba ==> r.value.writes == []
    ensures CrashesInto(fs, old(device.crashes), device.crashes, ReleaseOutcomes(fs.layout, a, lo, end))
  {
    StampingSize(fs.layout, device.durable, mid, lba, false, current, held, transaction.writes);
    StampingLast(fs.layout, device.durable, mid, lba, false, current, held, transaction.writes);
    StampingNext(fs.layout, device.durable, mid, lba, false, current, held, transaction.writes);
    Located(fs.layout, |a|, mid);
    hide Stamping, StampWrites, Added, Released, Home, MakeLayout, Apply, ReleaseOutcomes, SetBit;
    var added := transaction.Add(current, held);
    if added.Err? {
      return Err(JournalFull), mid;
    }
    if |transaction.writes| == TRANSACTION_SECTORS {
      ReleaseCommit(fs, device, transaction, a, lo, mid, lba, end);
      var next := new Transaction();
      return Ok(next), lba;
    }
    return Ok(transaction), mid;
  }

  /** One turn of `release_run`. */
  method ReleaseStep(fs: Dfs, device: Disk, transaction: Transaction, lba: u64, current: nat, held: Sector,
                     ghost a: Image, ghost lo: nat, ghost mid: nat, ghost end: nat)
    returns (r: Result<nat, DfsError>, bitmap: Sector, next: Transaction, ghost mid': nat)
    requires Fits(fs.layout, |a|) && fs.layout.start <= lo <= lba < end <= End(fs.layout)
    requires lba == lo ==>
      && mid == lo && current == NO_LBA && transaction.writes == []
      && Quiet(fs, device.durable, device.pending) && device.durable == a
    requires lba > lo ==> Clearing(fs, a, device.durable, device.pending, lo, mid, lba, current, held, transaction.writes)
    modifies device, transaction
    ensures r.Ok? && (next == transaction || fresh(next))
    ensures Clearing(fs, a, device.durable, device.pending, lo, mid', lba + 1, r.value, bitmap, next.writes)
    ensures CrashesInto(fs, old(device.crashes), device.crashes, ReleaseOutcomes(fs.layout, a, lo, end))
  {
    hide Stamping, StampWrites, Added, Released, Home, MakeLayout, ReleaseOutcomes, SetBit, Slot, BitmapLocation,
      MountsInto;
    var l := fs.layout;
    Bounds(l, |a|);
    if lba > lo {
      StampingLast(l, device.durable, mid, lba, false, current, held, transaction.writes);
    }
    Located(l, |a|, lba);
    bitmap, next, mid' := held, transaction, mid;
    var place := BitmapLocation(l, lba);
    if place.Err? {
      return Err(InvalidFilesystem), bitmap, next, mid';
    }
    var home: nat, bit: nat := place.value.0, place.value.1;
    if home != current {
      if current != NO_LBA {
        ghost var b, ws := device.durable, transaction.writes;
        var left;
        left, mid' := LeaveHome(fs, device, transaction, current, held, a, lo, mid, lba, end);
        next := left.value;
        if mid' < lba {
          StampingNext(l, b, mid, lba, false, current, held, ws);
        }
      } else {
        ReleasedNothing(l, a, lo);
      }
      if mid' == lba {
        StampingFirst(l, device.durable, lba, false);
      }
      bitmap := device.ReadSector(home);
    } else {
      StampingSame(l, device.durable, mid, lba, false, current, held, transaction.writes);
    }
    bitmap := SetBit(bitmap, bit, false);
    return Ok(home), bitmap, next, mid';
  }

  lemma Bounds(l: Layout, n: nat)
    requires Fits(l, n)
    ensures l.start < l.journal < l.inode < l.bitmap < l.data < End(l) <= n
  {}

  lemma ReleasedNothing(l: Layout, a: Image, lo: nat)
    requires Fits(l, |a|)
    ensures Released(l, a, a, lo, lo)
  {}

  /** `release_run`: however long the run, no transaction overflows. */
  method ReleaseRun(fs: Dfs, device: Disk, start: u64, count: u64) returns (r: Result<(), DfsError>)
    requires Quiet(fs, device.durable, device.pending)
    requires count > 0 && fs.layout.data <= start && start + count <= End(fs.layout)
    modifies device
    ensures r.Ok?
    ensures Quiet(fs, device.durable, device.pending)
    ensures Released(fs.layout, old(device.durable), device.durable, start, start + count)
    ensures CrashesInto(fs, old(device.crashes), device.crashes,
                        ReleaseOutcomes(fs.layout, old(device.durable), start, start + count))
  {
    hide Clearing, ReleaseOutcomes, MakeLayout, Recovered, Released;
    Bounds(fs.layout, |device.durable|);
    ghost var a := device.durable;
    var transaction := new Transaction();
    var current: nat := NO_LBA;
    var bitmap := ZERO_SECTOR;
    ghost var mid: nat := start;
    for lba := start to start + count
      invariant fresh(transaction)
      invariant lba == start ==>
        && mid == start && current == NO_LBA && transaction.writes == []
        && Quiet(fs, device.durable, device.pending) && device.durable == a && device.crashes == old(device.crashes)
      invariant lba > start ==>
        Clearing(fs, a, device.durable, device.pending, start, mid, lba, current, bitmap, transaction.writes)
      invariant CrashesInto(fs, old(device.crashes), device.crashes, ReleaseOutcomes(fs.layout, a, start, start + count))
    {
      var turn;
      turn, bitmap, transaction, mid :=
        ReleaseStep(fs, device, transaction, lba, current, bitmap, a, start, mid, start + count);
      current := turn.value;
    }
    ReleaseLast(fs, device, transaction, current, bitmap, a, start, mid, start + count);
    return Ok(());
  }

  method ReleaseLast(fs: Dfs, device: Disk, transaction: Transaction, current: nat, held: Sector,
                     ghost a: Image, ghost lo: nat, ghost mid: nat, ghost end: nat)
    requires Fits(fs.layout, |a|) && lo < end <= End(fs.layout)
    requires Clearing(fs, a, device.durable, device.pending, lo, mid, end, current, held, transaction.writes)
    modifies device, transaction
    ensures Quiet(fs, device.durable, device.pending)
    ensures Released(fs.layout, a, device.durable, lo, end)
    ensures CrashesInto(fs, old(device.crashes), device.crashes, ReleaseOutcomes(fs.layout, a, lo, end))
  {
    StampingSize(fs.layout, device.durable, mid, end, false, current, held, transaction.writes);
    StampingLast(fs.layout, device.durable, mid, end, false, current, held, transaction.writes);
    Located(fs.layout, |a|, mid);
    hide Stamping, StampWrites, Released, Home, MakeLayout, Apply, ReleaseOutcomes, SetBit;
    var added := transaction.Add(current, held);
    ReleaseCommit(fs, device, transaction, a, lo, mid, end, end);
  }
}
