/** The redo journal: how a transaction is committed, and how a mount replays it. */
module DfsJournal {
  import opened Bytes
  import opened Crc
  import opened Disks
  import opened DfsLayout
  import opened DfsTransaction

  /** "DFSTXN01" */
  const JOURNAL_MAGIC: seq<byte> := [0x44, 0x46, 0x53, 0x54, 0x58, 0x4e, 0x30, 0x31]

  // ---------------------------------------------------------------- the commit record

  /** The bytes `transaction_checksum` runs over: each address, then its sector. */
  function Covered(ws: seq<Write>): seq<byte> {
    if ws == [] then []
    else Covered(ws[..|ws| - 1]) + Le(ws[|ws| - 1].lba, 8) + ws[|ws| - 1].data
  }

  /** `transaction_checksum`. */
  method TransactionChecksum(fs: Dfs, ws: seq<Write>) returns (sum: u32)
    ensures sum == Crc32(fs.crc, Covered(ws))
  {
    var crc := ALL_ONES;
    for index := 0 to |ws|
      invariant crc == Update(fs.crc, ALL_ONES, Covered(ws[..index]))
    {
      UpdateAppend(fs.crc, ALL_ONES, Covered(ws[..index]), Le(ws[index].lba, 8));
      UpdateAppend(fs.crc, ALL_ONES, Covered(ws[..index]) + Le(ws[index].lba, 8), ws[index].data);
      assert ws[..index + 1][..index] == ws[..index];
      crc := Update(fs.crc, crc, Le(ws[index].lba, 8));
      crc := Update(fs.crc, crc, ws[index].data);
    }
    assert ws[..|ws|] == ws;
    sum := ALL_ONES - crc;
  }

  /** Magic, state byte, number of entries. */
  function Started(count: byte): Sector {
    Put(Put(Put(ZERO_SECTOR, 0, JOURNAL_MAGIC), 8, [1]), 9, [count])
  }

  /** The started header, then the first `n` addresses from byte 16 on. */
  function Addressed(ws: seq<Write>, n: nat): Sector
    requires n <= |ws| <= TRANSACTION_SECTORS
  {
    if n == 0 then
      Started(|ws|)
    else
      Put(Addressed(ws, n - 1), 16 + (n - 1) * 8, Le(ws[n - 1].lba, 8))
  }

  function Record(fs: Dfs, ws: seq<Write>): Sector
    requires |ws| <= TRANSACTION_SECTORS
  {
    Put(Addressed(ws, |ws|), 10, Le(Crc32(fs.crc, Covered(ws)), 4))
  }

  /** The updates a record with `n` entries describes. */
  function Journaled(l: Layout, img: Image, n: nat): (ws: seq<Write>)
    requires n <= TRANSACTION_SECTORS && l.journal + JOURNAL_SECTORS <= |img|
    ensures |ws| == n
  {
    seq(n, i requires 0 <= i < n => Write(Read64(img[l.journal], 16 + i * 8), img[l.journal + 1 + i]))
  }

  predicate AllTargets(l: Layout, ws: seq<Write>) {
    forall w | w in ws :: Target(l, w.lba)
  }

  datatype Replay = Idle | Discard | Corrupt | Redo(ws: seq<Write>)

  /** What `replay_journal` decides from the journal alone. */
  function Decide(fs: Dfs, img: Image): (r: Replay)
    ensures r.Redo? ==> 1 <= |r.ws| <= TRANSACTION_SECTORS && AllTargets(fs.layout, r.ws)
  {
    if fs.layout.journal + JOURNAL_SECTORS > |img| then Corrupt
    else DecideFor(fs, img, img[fs.layout.journal])
  }

  function DecideFor(fs: Dfs, img: Image, header: Sector): (r: Replay)
    requires fs.layout.journal + JOURNAL_SECTORS <= |img|
    ensures r.Redo? ==> 1 <= |r.ws| <= TRANSACTION_SECTORS && AllTargets(fs.layout, r.ws)
  {
    if header == ZERO_SECTOR then Idle
    else if header[..8] != JOURNAL_MAGIC then Corrupt
    else if header[8] == 0 then Discard
    else if header[8] != 1 || header[9] == 0 || header[9] > TRANSACTION_SECTORS then Corrupt
    else DecideWrites(fs, Read32(header, 10), Journaled(fs.layout, img, header[9]))
  }

  function DecideWrites(fs: Dfs, expected: u32, ws: seq<Write>): Replay {
    if !AllTargets(fs.layout, ws) then Corrupt
    else if expected != Crc32(fs.crc, Covered(ws)) then Corrupt
    else Redo(ws)
  }

  /** The image, journal aside, that mounting `img` arrives at. */
  function Recovered(fs: Dfs, img: Image): (r: Result<Image, DfsError>)
    ensures r.Err? ==> r.error == CorruptMetadata
    ensures r.Ok? ==> |r.value| == |img|
  {
    match Decide(fs, img)
    case Idle => Ok(Core(fs.layout, img))
    case Discard => Ok(Core(fs.layout, img))
    case Corrupt => Err(CorruptMetadata)
    case Redo(ws) => Ok(Core(fs.layout, Apply(img, ws)))
  }

  // ---------------------------------------------------------------- decoding what was encoded

  lemma StartedHead(count: byte)
    ensures Started(count)[..8] == JOURNAL_MAGIC && Started(count)[8] == 1 && Started(count)[9] == count
  {
    var magic := Put(ZERO_SECTOR, 0, JOURNAL_MAGIC);
    PutElsewhere(magic, 8, [1], 0, 8);
    PutElsewhere(Put(magic, 8, [1]), 9, [count], 0, 8);
  }

  lemma {:induction false} AddressedHead(ws: seq<Write>, n: nat)
    requires n <= |ws| <= TRANSACTION_SECTORS
    ensures Addressed(ws, n)[..10] == Started(|ws|)[..10]
  {
    if n > 0 {
      AddressedHead(ws, n - 1);
      PutElsewhere(Addressed(ws, n - 1), 16 + (n - 1) * 8, Le(ws[n - 1].lba, 8), 0, 10);
      assert Addressed(ws, n)[0..10] == Addressed(ws, n)[..10];
    }
  }

  lemma {:induction false} AddressedFields(ws: seq<Write>, n: nat)
    requires n <= |ws| <= TRANSACTION_SECTORS
    requires forall i | 0 <= i < |ws| :: ws[i].lba < U64_LIMIT
    ensures forall i | 0 <= i < n :: Read64(Addressed(ws, n), 16 + i * 8) == ws[i].lba
  {
    hide Le, FromLe, Put;
    if n > 0 {
      AddressedFields(ws, n - 1);
      forall i | 0 <= i < n
        ensures Read64(Addressed(ws, n), 16 + i * 8) == ws[i].lba
      {
        if i < n - 1 {
          PutElsewhere(Addressed(ws, n - 1), 16 + (n - 1) * 8, Le(ws[n - 1].lba, 8), 16 + i * 8, 16 + i * 8 + 8);
        } else {
          Le64(ws[i].lba);
        }
      }
    }
  }

  lemma SamePrefix(a: Sector, b: Sector)
    requires a[..10] == b[..10] && a[..8] == JOURNAL_MAGIC
    ensures b[..8] == a[..8] && b[8] == a[8] && b[9] == a[9] && b != ZERO_SECTOR
  {
    assert a[..8] == a[..10][..8] && b[..8] == b[..10][..8];
    assert a[8] == a[..10][8] && b[8] == b[..10][8] && a[9] == a[..10][9] && b[9] == b[..10][9];
    assert b[0] == b[..8][0];
  }

  lemma RecordHead(fs: Dfs, ws: seq<Write>)
    requires |ws| <= TRANSACTION_SECTORS
    requires forall i | 0 <= i < |ws| :: ws[i].lba < U64_LIMIT
    ensures var r := Record(fs, ws);
      && r != ZERO_SECTOR && r[..8] == JOURNAL_MAGIC && r[8] == 1 && r[9] == |ws|
      && Read32(r, 10) == Crc32(fs.crc, Covered(ws))
  {
    hide Le, FromLe, Put, Addressed, Started, Crc32, Covered;
    StartedHead(|ws|);
    AddressedHead(ws, |ws|);
    var sum := Le(Crc32(fs.crc, Covered(ws)), 4);
    PutElsewhere(Addressed(ws, |ws|), 10, sum, 0, 10);
    Le32(Crc32(fs.crc, Covered(ws)));
    var r := Record(fs, ws);
    assert r[0..10] == r[..10] && Addressed(ws, |ws|)[0..10] == Addressed(ws, |ws|)[..10];
    SamePrefix(Started(|ws|), r);
  }

  lemma RecordAddresses(fs: Dfs, ws: seq<Write>)
    requires |ws| <= TRANSACTION_SECTORS
    requires forall i | 0 <= i < |ws| :: ws[i].lba < U64_LIMIT
    ensures forall i | 0 <= i < |ws| :: Read64(Record(fs, ws), 16 + i * 8) == ws[i].lba
  {
    hide Le, FromLe, Put, Addressed, Crc32, Covered;
    AddressedFields(ws, |ws|);
    forall i | 0 <= i < |ws|
      ensures Read64(Record(fs, ws), 16 + i * 8) == ws[i].lba
    {
      PutElsewhere(Addressed(ws, |ws|), 10, Le(Crc32(fs.crc, Covered(ws)), 4), 16 + i * 8, 16 + i * 8 + 8);
    }
  }

  lemma JournaledRecord(fs: Dfs, img: Image, ws: seq<Write>)
    requires Fits(fs.layout, |img|) && Committable(fs.layout, ws)
    requires img[fs.layout.journal] == Record(fs, ws)
    requires forall i | 0 <= i < |ws| :: img[fs.layout.journal + 1 + i] == ws[i].data
    ensures Journaled(fs.layout, img, |ws|) == ws
  {
    RecordAddresses(fs, ws);
    var js := Journaled(fs.layout, img, |ws|);
    forall i | 0 <= i < |ws|
      ensures js[i] == ws[i]
    {
      assert js[i] == Write(Read64(Record(fs, ws), 16 + i * 8), ws[i].data);
    }
  }

  /** A record written by a commit, over its payload, is decoded to exactly that commit. */
  lemma DecideRecord(fs: Dfs, img: Image, ws: seq<Write>)
    requires Fits(fs.layout, |img|) && Committable(fs.layout, ws)
    requires img[fs.layout.journal] == Record(fs, ws)
    requires forall i | 0 <= i < |ws| :: img[fs.layout.journal + 1 + i] == ws[i].data
    ensures Decide(fs, img) == Redo(ws)
  {
    RecordHead(fs, ws);
    JournaledRecord(fs, img, ws);
    assert DecideWrites(fs, Crc32(fs.crc, Covered(ws)), ws) == Redo(ws);
  }

  // ---------------------------------------------------------------- crash images of a commit

  /** While the header is zero the transaction has not happened: only the journal may differ. */
  lemma UncommittedRecovers(fs: Dfs, before: Image, c: Image)
    requires Fits(fs.layout, |before|) && |c| == |before|
    requires c[fs.layout.journal] == ZERO_SECTOR
    requires forall i | 0 <= i < |c| && !InJournal(fs.layout, i) :: c[i] == before[i]
    ensures Recovered(fs, c) == Ok(Core(fs.layout, before)) && Decide(fs, c) == Idle
  {
    assert Core(fs.layout, c) == Core(fs.layout, before);
  }

  /** The decision rests on the journal sectors alone. */
  lemma DecideFrame(fs: Dfs, a: Image, b: Image)
    requires |a| == |b|
    requires forall i | 0 <= i < |a| && InJournal(fs.layout, i) :: a[i] == b[i]
    ensures Decide(fs, a) == Decide(fs, b)
  {
    var l := fs.layout;
    if l.journal + JOURNAL_SECTORS <= |a| && a[l.journal][9] <= TRANSACTION_SECTORS {
      var n := a[l.journal][9];
      var ja, jb := Journaled(l, a, n), Journaled(l, b, n);
      forall i | 0 <= i < n
        ensures ja[i] == jb[i]
      {
        assert InJournal(l, l.journal + 1 + i);
      }
      assert ja == jb;
    }
  }

  /** Once the record is there the transaction has happened, whatever part of it reached its place. */
  lemma CommittedRecovers(fs: Dfs, before: Image, ws: seq<Write>, c: Image)
    requires |c| == |before| && Decide(fs, c) == Redo(ws)
    requires forall i | 0 <= i < |c| && !InJournal(fs.layout, i) :: c[i] == before[i] || Write(i, c[i]) in ws
    ensures Recovered(fs, c) == Ok(Core(fs.layout, Apply(before, ws)))
  {
    RedoForgets(fs.layout, before, ws, c);
  }

  lemma RedoForgets(l: Layout, before: Image, ws: seq<Write>, c: Image)
    requires |c| == |before|
    requires forall i | 0 <= i < |c| && !InJournal(l, i) :: c[i] == before[i] || Write(i, c[i]) in ws
    ensures Core(l, Apply(c, ws)) == Core(l, Apply(before, ws))
  {
    forall i | 0 <= i < |c| && !InJournal(l, i)
      ensures Apply(c, ws)[i] == Apply(before, ws)[i]
    {
      if Write(i, c[i]) in ws {
        assert Write(i, c[i]).lba == i;
      }
      ApplyForgets(c, before, ws, i);
    }
    assert Core(l, Apply(c, ws)) == Core(l, Apply(before, ws));
  }

  // ---------------------------------------------------------------- the two procedures

  /** The journal slots filled from the updates. */
  function Payload(l: Layout, ws: seq<Write>): (ps: seq<Write>)
    ensures |ps| == |ws|
  {
    seq(|ws|, i requires 0 <= i < |ws| => Write(l.journal + 1 + i, ws[i].data))
  }

  lemma PayloadExtend(l: Layout, ws: seq<Write>, index: nat)
    requires index < |ws|
    ensures Payload(l, ws[..index]) + [Write(l.journal + 1 + index, ws[index].data)] == Payload(l, ws[..index + 1])
  {}

  lemma PayloadSlot(l: Layout, img: Image, ws: seq<Write>, i: nat)
    requires l.journal + JOURNAL_SECTORS <= |img| && i < |ws| <= TRANSACTION_SECTORS
    ensures Apply(img, Payload(l, ws))[l.journal + 1 + i] == ws[i].data
  {
    hide Apply;
    var ps := Payload(l, ws);
    ApplyAt(img, ps, l.journal + 1 + i);
    assert ps[i] in ps && ps[i].lba == l.journal + 1 + i;
  }

  lemma PayloadMisses(l: Layout, img: Image, ws: seq<Write>, i: nat)
    requires i < |img| && !(l.journal < i <= l.journal + |ws|)
    ensures Apply(img, Payload(l, ws))[i] == img[i]
  {
    hide Apply;
    ApplyAt(img, Payload(l, ws), i);
  }

  lemma PayloadLands(l: Layout, img: Image, ws: seq<Write>)
    requires l.journal + JOURNAL_SECTORS <= |img| && |ws| <= TRANSACTION_SECTORS
    ensures var r := Apply(img, Payload(l, ws));
      && (forall i | 0 <= i < |ws| :: r[l.journal + 1 + i] == ws[i].data)
      && (forall i | 0 <= i < |img| && !(l.journal < i <= l.journal + |ws|) :: r[i] == img[i])
  {
    hide Apply, Payload;
    forall i | 0 <= i < |ws|
      ensures Apply(img, Payload(l, ws))[l.journal + 1 + i] == ws[i].data
    {
      PayloadSlot(l, img, ws, i);
    }
    forall i | 0 <= i < |img| && !(l.journal < i <= l.journal + |ws|)
      ensures Apply(img, Payload(l, ws))[i] == img[i]
    {
      PayloadMisses(l, img, ws, i);
    }
  }

  /** A mount of `c` either finds no record or redoes exactly `ws`, and arrives at `a` or at `a` with `ws` applied. */
  ghost predicate Undecided(fs: Dfs, c: Image, a: Image, ws: seq<Write>) {
    && (Decide(fs, c) == Idle || Decide(fs, c) == Redo(ws))
    && (Recovered(fs, c) == Ok(Core(fs.layout, a)) || Recovered(fs, c) == Ok(Core(fs.layout, Apply(a, ws))))
  }

  /** All a power loss can leave while `ws` is committed over `a`. */
  ghost predicate Committing(fs: Dfs, before: iset<Image>, now: iset<Image>, a: Image, ws: seq<Write>) {
    forall c | c in now :: c in before || Undecided(fs, c, a, ws)
  }

  /** The journal of `c` does not touch the superblock, which a mount reads before it replays. */
  ghost predicate Anchored(fs: Dfs, c: Image) {
    match Decide(fs, c)
    case Redo(ws) => forall w | w in ws :: w.lba != fs.layout.start
    case _ => true
  }

  lemma AnchoredStart(fs: Dfs, c: Image)
    requires Fits(fs.layout, |c|) && Anchored(fs, c) && Recovered(fs, c).Ok?
    ensures |Recovered(fs, c).value| == |c| && Recovered(fs, c).value[fs.layout.start] == c[fs.layout.start]
  {
    match Decide(fs, c)
    case Redo(ws) => ApplyAt(c, ws, fs.layout.start);
    case _ =>
  }

  /** Whatever a power loss leaves, a mount will arrive at one of two images. */
  ghost predicate EitherWay(fs: Dfs, before: iset<Image>, now: iset<Image>, a: Image, b: Image) {
    forall c | c in now :: c in before || EitherImage(fs, c, a, b)
  }

  ghost predicate EitherImage(fs: Dfs, c: Image, a: Image, b: Image) {
    && Anchored(fs, c)
    && (Recovered(fs, c) == Ok(Core(fs.layout, a)) || Recovered(fs, c) == Ok(Core(fs.layout, b)))
  }

  lemma CommitIsEither(fs: Dfs, before: iset<Image>, now: iset<Image>, a: Image, ws: seq<Write>, b: Image)
    requires Committing(fs, before, now, a, ws) && Core(fs.layout, b) == Core(fs.layout, Apply(a, ws))
    requires forall w | w in ws :: w.lba != fs.layout.start
    ensures EitherWay(fs, before, now, a, b)
  {
    hide Recovered, Decide, Core, Apply;
    forall c | c in now && c !in before
      ensures EitherImage(fs, c, a, b)
    {
      assert Undecided(fs, c, a, ws);
    }
  }

  /** A mount would redo exactly `ws`; outside the journal the image is still `before`. */
  ghost predicate Published(fs: Dfs, before: Image, ws: seq<Write>, img: Image) {
    && Fits(fs.layout, |before|) && |img| == |before|
    && Decide(fs, img) == Redo(ws)
    && (forall i | 0 <= i < |before| && !InJournal(fs.layout, i) :: img[i] == before[i])
  }

  /** `commit_transaction`: all of the writes or none of them, whenever the power goes. */
  method CommitTransaction(fs: Dfs, device: Disk, transaction: Transaction)
    requires Fits(fs.layout, |device.durable|) && device.pending == []
    requires device.durable[fs.layout.journal] == ZERO_SECTOR
    requires Committable(fs.layout, transaction.writes)
    modifies device
    ensures device.pending == [] && |device.durable| == |old(device.durable)|
    ensures device.durable[fs.layout.journal] == ZERO_SECTOR
    ensures Core(fs.layout, device.durable) == Core(fs.layout, Apply(old(device.durable), transaction.writes))
    ensures Committing(fs, old(device.crashes), device.crashes, old(device.durable), transaction.writes)
    ensures old(device.crashes) <= device.crashes
  {
    ghost var before := device.durable;
    var ws := transaction.writes;
    var header := WritePayload(fs, device, ws);
    PublishHeader(fs, device, header, before, ws);
    ghost var published := device.durable;
    LandTargets(fs, device, before, ws);
    forall c | Landing(fs, published, ws, c)
      ensures Undecided(fs, c, before, ws)
    {
      LandingRecovers(fs, before, ws, published, c);
    }
  }

  /** Fills the slots and flushes them, so that the header will never describe unwritten slots. */
  method WritePayload(fs: Dfs, device: Disk, ws: seq<Write>) returns (header: Sector)
    requires Fits(fs.layout, |device.durable|) && device.pending == []
    requires device.durable[fs.layout.journal] == ZERO_SECTOR && Committable(fs.layout, ws)
    modifies device
    ensures header == Record(fs, ws)
    ensures device.pending == [] && |device.durable| == |old(device.durable)|
    ensures Published(fs, old(device.durable), ws, device.durable[fs.layout.journal := header])
    ensures device.durable[fs.layout.journal] == ZERO_SECTOR
    ensures forall c | c in device.crashes :: c in old(device.crashes) || Undecided(fs, c, old(device.durable), ws)
    ensures old(device.crashes) <= device.crashes
  {
    hide Undecided, CrashImage, Apply, Put, Le, Published, Payload;
    var l := fs.layout;
    ghost var before := device.durable;
    NoPayload(l, ws);
    header := Started(|ws|);
    for index := 0 to |ws|
      invariant header == Addressed(ws, index)
      invariant device.durable == before && device.pending == Payload(l, ws[..index])
      invariant old(device.crashes) <= device.crashes
      invariant forall c | c in device.crashes :: c in old(device.crashes) || Undecided(fs, c, before, ws)
    {
      header := Put(header, 16 + index * 8, Le(ws[index].lba, 8));
      device.WriteSector(l.journal + 1 + index, ws[index].data);
      PayloadExtend(l, ws, index);
      PayloadMayLand(fs, before, ws[..index + 1], ws);
    }
    assert ws[..|ws|] == ws;
    var sum := TransactionChecksum(fs, ws);
    header := Put(header, 10, Le(sum, 4));
    FilledIsPublishable(fs, before, ws);
    device.Flush();
  }

  lemma NoPayload(l: Layout, ws: seq<Write>)
    ensures Payload(l, ws[..0]) == []
  {}

  lemma FilledIsPublishable(fs: Dfs, before: Image, ws: seq<Write>)
    requires Fits(fs.layout, |before|) && Committable(fs.layout, ws)
    requires before[fs.layout.journal] == ZERO_SECTOR
    ensures var filled := Apply(before, Payload(fs.layout, ws));
      && Published(fs, before, ws, filled[fs.layout.journal := Record(fs, ws)])
      && filled[fs.layout.journal] == ZERO_SECTOR
      && Undecided(fs, filled, before, ws)
  {
    hide Payload, Apply, Record;
    PayloadLands(fs.layout, before, ws);
    var filled := Apply(before, Payload(fs.layout, ws));
    UncommittedRecovers(fs, before, filled);
    DecideRecord(fs, filled[fs.layout.journal := Record(fs, ws)], ws);
  }

  lemma PayloadMayLand(fs: Dfs, before: Image, ws: seq<Write>, all: seq<Write>)
    requires Fits(fs.layout, |before|) && |ws| <= TRANSACTION_SECTORS
    requires before[fs.layout.journal] == ZERO_SECTOR
    ensures forall c | CrashImage(before, Payload(fs.layout, ws), c) :: Undecided(fs, c, before, all)
  {
    forall c | CrashImage(before, Payload(fs.layout, ws), c)
      ensures Undecided(fs, c, before, all)
    {
      UncommittedRecovers(fs, before, c);
    }
  }

  /** Writes every target in place, flushes, and only then retires the header. */
  method LandTargets(fs: Dfs, device: Disk, ghost before: Image, ws: seq<Write>)
    requires device.pending == [] && Published(fs, before, ws, device.durable)
    modifies device
    ensures device.pending == [] && |device.durable| == |before|
    ensures device.durable[fs.layout.journal] == ZERO_SECTOR
    ensures Core(fs.layout, device.durable) == Core(fs.layout, Apply(before, ws))
    ensures forall c | c in device.crashes :: c in old(device.crashes) || Landing(fs, old(device.durable), ws, c)
    ensures old(device.crashes) <= device.crashes
  {
    hide CrashImage, Apply, Published, Decide;
    PublishedTargets(fs, before, ws, device.durable);
    ghost var published := device.durable;
    for index := 0 to |ws|
      invariant device.durable == published && device.pending == ws[..index]
      invariant old(device.crashes) <= device.crashes
      invariant forall c | c in device.crashes :: c in old(device.crashes) || Landing(fs, published, ws, c)
    {
      device.WriteSector(ws[index].lba, ws[index].data);
      assert ws[..index] + [Write(ws[index].lba, ws[index].data)] == ws[..index + 1];
      SomeHaveLanded(fs, published, ws, index + 1);
    }
    assert ws[..|ws|] == ws;
    ViewIsCrashImage(published, ws);
    Landed(fs, before, ws, published);
    device.Flush();
    RetireHeader(fs, device);
  }

  /** What a power loss may leave while `ws` are being written over `published`. */
  ghost predicate Landing(fs: Dfs, published: Image, ws: seq<Write>, c: Image) {
    || CrashImage(published, ws, c)
    || (|published| > fs.layout.journal && c == Apply(published, ws)[fs.layout.journal := ZERO_SECTOR])
  }

  /** What the first `k` writes may leave, all of them may. */
  lemma SomeHaveLanded(fs: Dfs, published: Image, ws: seq<Write>, k: nat)
    requires k <= |ws|
    ensures forall c | CrashImage(published, ws[..k], c) :: Landing(fs, published, ws, c)
  {}

  lemma PublishedTargets(fs: Dfs, before: Image, ws: seq<Write>, published: Image)
    requires Published(fs, before, ws, published)
    ensures Fits(fs.layout, |published|) && |published| == |before| && fs.layout.journal < |published|
    ensures forall w | w in ws :: w.lba < |published|
  {}

  lemma LandingRecovers(fs: Dfs, before: Image, ws: seq<Write>, published: Image, c: Image)
    requires Published(fs, before, ws, published) && Landing(fs, published, ws, c)
    ensures Recovered(fs, c) == Ok(Core(fs.layout, Apply(before, ws)))
    ensures Undecided(fs, c, before, ws)
  {
    if CrashImage(published, ws, c) {
      assert forall w | w in ws :: Target(fs.layout, w.lba);
      DecideFrame(fs, c, published);
      CommittedRecovers(fs, before, ws, c);
    } else {
      Landed(fs, before, ws, published);
    }
  }

  lemma Landed(fs: Dfs, before: Image, ws: seq<Write>, published: Image)
    requires Published(fs, before, ws, published)
    ensures var landed := Apply(published, ws);
      && Decide(fs, landed) == Redo(ws)
      && Core(fs.layout, landed) == Core(fs.layout, Apply(before, ws))
      && Core(fs.layout, landed[fs.layout.journal := ZERO_SECTOR]) == Core(fs.layout, landed)
      && Recovered(fs, landed[fs.layout.journal := ZERO_SECTOR]) == Ok(Core(fs.layout, Apply(before, ws)))
  {
    HeaderStays(fs.layout, published, ws);
    DecideFrame(fs, Apply(published, ws), published);
    RedoForgets(fs.layout, before, ws, published);
  }

  /** Targets lie outside the journal. */
  lemma HeaderStays(l: Layout, img: Image, ws: seq<Write>)
    requires Fits(l, |img|) && AllTargets(l, ws)
    ensures forall i | InJournal(l, i) :: Apply(img, ws)[i] == img[i]
  {
    forall i | InJournal(l, i)
      ensures Apply(img, ws)[i] == img[i]
    {
      ApplyAt(img, ws, i);
    }
  }

  method PublishHeader(fs: Dfs, device: Disk, header: Sector, ghost before: Image, ghost ws: seq<Write>)
    requires Fits(fs.layout, |device.durable|) && device.pending == []
    requires Published(fs, before, ws, device.durable[fs.layout.journal := header])
    requires device.durable[fs.layout.journal] == ZERO_SECTOR
    modifies device
    ensures device.pending == [] && device.durable == old(device.durable)[fs.layout.journal := header]
    ensures Committing(fs, old(device.crashes), device.crashes, before, ws)
    ensures old(device.crashes) <= device.crashes
  {
    hide Decide, Recovered, Core, Payload;
    ghost var filled := device.durable;
    ghost var published := filled[fs.layout.journal := header];
    CommittedRecovers(fs, before, ws, published);
    UncommittedRecovers(fs, before, filled);
    device.WriteSector(fs.layout.journal, header);
    forall c | CrashImage(filled, [Write(fs.layout.journal, header)], c)
      ensures c == filled || c == published
    {}
    device.Flush();
  }

  method RetireHeader(fs: Dfs, device: Disk)
    requires Fits(fs.layout, |device.durable|) && device.pending == []
    modifies device
    ensures device.pending == [] && device.durable == old(device.durable)[fs.layout.journal := ZERO_SECTOR]
    ensures forall c | c in device.crashes ::
      c in old(device.crashes) || c == old(device.durable) || c == device.durable
    ensures old(device.crashes) <= device.crashes
  {
    ghost var landed := device.durable;
    ghost var retired := landed[fs.layout.journal := ZERO_SECTOR];
    device.WriteSector(fs.layout.journal, ZERO_SECTOR);
    forall c | CrashImage(landed, [Write(fs.layout.journal, ZERO_SECTOR)], c)
      ensures c == landed || c == retired
    {}
    device.Flush();
  }

  /** `b` may be left by a power loss while a mount replays the journal of `a`. */
  ghost predicate MayFollow(fs: Dfs, a: Image, b: Image) {
    match Decide(fs, a)
    case Idle => b == a
    case Corrupt => b == a
    case Discard => b == a || (|a| > fs.layout.journal && b == a[fs.layout.journal := ZERO_SECTOR])
    case Redo(ws) => Landing(fs, a, ws, b)
  }

  method ReadSlots(l: Layout, device: Disk, header: Sector, count: nat) returns (r: Result<seq<Write>, DfsError>)
    requires Fits(l, |device.durable|) && count <= TRANSACTION_SECTORS
    requires header == device.View()[l.journal]
    ensures r.Ok? <==> AllTargets(l, Journaled(l, device.View(), count))
    ensures r.Ok? ==> r.value == Journaled(l, device.View(), count)
    ensures r.Err? ==> r.error == CorruptMetadata
  {
    ghost var all := Journaled(l, device.View(), count);
    var ws: seq<Write> := [];
    for index := 0 to count
      invariant ws == all[..index]
      invariant AllTargets(l, ws)
    {
      var target := Read64(header, 16 + index * 8);
      if !Target(l, target) {
        assert all[index].lba == target && all[index] in all;
        return Err(CorruptMetadata);
      }
      var slot := device.ReadSector(l.journal + 1 + index);
      ws := ws + [Write(target, slot)];
    }
    assert ws == all;
    return Ok(ws);
  }

  /** `replay_journal`: what was committed is redone, what was not is left alone. */
  method ReplayJournal(fs: Dfs, device: Disk) returns (r: Result<(), DfsError>)
    requires Fits(fs.layout, |device.durable|) && device.pending == []
    modifies device
    ensures r.Ok? <==> Recovered(fs, old(device.durable)).Ok?
    ensures r.Ok? ==>
      && device.pending == [] && |device.durable| == |old(device.durable)|
      && device.durable[fs.layout.journal] == ZERO_SECTOR
      && Recovered(fs, old(device.durable)) == Ok(Core(fs.layout, device.durable))
    ensures r.Err? ==> r.error == CorruptMetadata && device.durable == old(device.durable) && device.pending == []
    ensures forall c | c in device.crashes :: c in old(device.crashes) || MayFollow(fs, old(device.durable), c)
  {
    var l := fs.layout;
    ghost var found := device.durable;
    var header := device.ReadSector(l.journal);
    if header == ZERO_SECTOR {
      return Ok(());
    }
    if header[..8] != JOURNAL_MAGIC {
      return Err(CorruptMetadata);
    }
    if header[8] == 0 {
      RetireHeader(fs, device);
      assert Core(l, device.durable) == Core(l, found);
      return Ok(());
    }
    var count := header[9];
    if header[8] != 1 || count == 0 || count > TRANSACTION_SECTORS {
      return Err(CorruptMetadata);
    }
    var ws :- ReadSlots(fs.layout, device, header, count);
    var expected := Read32(header, 10);
    var sum := TransactionChecksum(fs, ws);
    if sum != expected {
      return Err(CorruptMetadata);
    }
    LandTargets(fs, device, found, ws);
    return Ok(());
  }

  /** A mount that is cut short leaves a disk that the next mount takes to the same image. */
  lemma ReplayIsRepeatable(fs: Dfs, a: Image, b: Image)
    requires Fits(fs.layout, |a|) && MayFollow(fs, a, b)
    ensures Recovered(fs, b) == Recovered(fs, a)
    ensures |b| == |a|
    ensures Anchored(fs, a) ==> Anchored(fs, b)
  {
    match Decide(fs, a)
    case Idle =>
    case Corrupt =>
    case Discard => assert Core(fs.layout, b) == Core(fs.layout, a);
    case Redo(ws) => LandingRecovers(fs, a, ws, a, b);
  }

  /** So any number of power losses during recovery changes nothing. */
  lemma {:induction false} CrashesDuringReplay(fs: Dfs, cs: seq<Image>)
    requires cs != [] && Fits(fs.layout, |cs[0]|)
    requires forall k | 0 <= k < |cs| - 1 :: MayFollow(fs, cs[k], cs[k + 1])
    ensures Recovered(fs, cs[|cs| - 1]) == Recovered(fs, cs[0])
    ensures |cs[|cs| - 1]| == |cs[0]|
  {
    if |cs| > 1 {
      var init := cs[..|cs| - 1];
      forall k | 0 <= k < |init| - 1
        ensures MayFollow(fs, init[k], init[k + 1])
      {
        assert MayFollow(fs, cs[k], cs[k + 1]);
      }
      CrashesDuringReplay(fs, init);
      assert MayFollow(fs, cs[|cs| - 2], cs[|cs| - 2 + 1]);
      ReplayIsRepeatable(fs, cs[|cs| - 2], cs[|cs| - 1]);
    }
  }
}
