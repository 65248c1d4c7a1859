/** Runs of data sectors: finding a free one, and the bitmap updates that mark one. */
module DfsRuns {
  import opened Bytes
  import opened Disks
  import opened DfsLayout
  import opened DfsTransaction
  import opened DfsBitmap

  const MAX_RUN_HOMES := TRANSACTION_SECTORS - 1
  const NO_LBA: nat := 0xffff_ffff_ffff_ffff

  /** The run first-fit allocation takes: it starts at the first free sector and stops at the
    * requested length, at the next allocated sector, at the end of the disk, or where it would
    * touch a sixteenth bitmap sector. */
  ghost predicate FirstFit(l: Layout, img: Image, requested: nat, start: nat, count: nat)
    requires Fits(l, |img|)
  {
    && 0 < count <= requested && l.data <= start && start + count <= End(l)
    && (forall x | l.data <= x < start :: Marked(l, img, x))
    && (forall x | start <= x < start + count :: !Marked(l, img, x))
    && Home(l, start + count - 1) - Home(l, start) < MAX_RUN_HOMES
    && (count == requested || start + count == End(l) || Marked(l, img, start + count)
        || Home(l, start + count) - Home(l, start) >= MAX_RUN_HOMES)
  }

  /** No data sector is free. */
  ghost predicate Full(l: Layout, img: Image)
    requires Fits(l, |img|)
  {
    forall x | l.data <= x < End(l) :: Marked(l, img, x)
  }

  /** The bitmap and the bitmap addresses as plain sequences, indexed by sector. */
  ghost function Marks(l: Layout, img: Image): (m: seq<bool>)
    requires Fits(l, |img|)
    ensures |m| == End(l)
  {
    seq(End(l), x requires 0 <= x < End(l) => l.start <= x && Marked(l, img, x))
  }

  ghost function Homes(l: Layout): (h: seq<nat>)
    ensures |h| == End(l)
  {
    seq(End(l), x requires 0 <= x < End(l) => if l.start <= x then Home(l, x) else 0)
  }

  /** `FirstFit` over those sequences. */
  ghost predicate FirstFitIn(m: seq<bool>, h: seq<nat>, data: nat, requested: nat, start: nat, count: nat)
    requires |h| == |m|
  {
    && 0 < count <= requested && data <= start && start + count <= |m|
    && (forall x | data <= x < start :: m[x])
    && (forall x | start <= x < start + count :: !m[x])
    && h[start + count - 1] - h[start] < MAX_RUN_HOMES
    && (count == requested || start + count == |m| || m[start + count]
        || h[start + count] - h[start] >= MAX_RUN_HOMES)
  }

  /** First fit on the sequence of marks is first fit on the bitmap. */
  lemma FirstFitMeans(l: Layout, img: Image, requested: nat, start: nat, count: nat)
    requires Fits(l, |img|) && FirstFitIn(Marks(l, img), Homes(l), l.data, requested, start, count)
    ensures FirstFit(l, img, requested, start, count)
  {
    var m, h := Marks(l, img), Homes(l);
    assert forall x | l.data <= x < |m| :: m[x] == Marked(l, img, x);
    assert forall x | l.data <= x < |m| :: h[x] == Home(l, x);
  }

  /** The bit of one sector, through a one-sector cache of the bitmap. */
  method CachedBit(fs: Dfs, device: Disk, lba: u64, cached: nat, held: Sector, ghost m: seq<bool>, ghost h: seq<nat>)
    returns (r: Result<(nat, bool), DfsError>, bitmap: Sector)
    requires Fits(fs.layout, |device.durable|) && fs.layout.data <= lba < End(fs.layout)
    requires m == Marks(fs.layout, device.View()) && h == Homes(fs.layout)
    requires cached == NO_LBA || (cached < |device.durable| && held == device.View()[cached])
    ensures r.Ok? && r.value.0 == h[lba] < |device.durable| && r.value.1 == m[lba]
    ensures bitmap == device.View()[r.value.0]
  {
    Located(fs.layout, |device.durable|, lba);
    var place := BitmapLocation(fs.layout, lba);
    if place.Err? {
      return Err(InvalidFilesystem), held;
    }
    bitmap := held;
    if place.value.0 != cached {
      bitmap := device.ReadSector(place.value.0);
    }
    return Ok((place.value.0, TestBit(bitmap, place.value.1))), bitmap;
  }

  /** `find_free_run`. */
  method FindFreeRun(fs: Dfs, device: Disk, requested: nat) returns (r: Result<(nat, nat), DfsError>)
    requires Fits(fs.layout, |device.durable|) && requested > 0
    ensures r.Ok? ==> FirstFit(fs.layout, device.View(), requested, r.value.0, r.value.1)
    ensures r.Err? ==> r.error == NoSpace
    ensures r.Err? <==> Full(fs.layout, device.View())
  {
    ghost var img := device.View();
    ghost var m, h := Marks(fs.layout, img), Homes(fs.layout);
    r := Search(fs, device, requested, m, h);
    if r.Ok? {
      FirstFitMeans(fs.layout, img, requested, r.value.0, r.value.1);
      assert !Marked(fs.layout, img, r.value.0);
    } else {
      assert forall x | fs.layout.data <= x < |m| :: m[x] == Marked(fs.layout, img, x);
    }
  }

  /** The scan stands at `lba`: nothing free so far, or a free run that starts at the first free
    * sector and ends just before `lba`. */
  ghost predicate Scanned(m: seq<bool>, h: seq<nat>, data: nat, requested: nat, start: nat, count: nat, lba: nat)
    requires |h| == |m|
  {
    && data <= lba <= |m|
    && (count == 0 ==> forall x | data <= x < lba :: m[x])
    && (count > 0 ==>
        && data <= start && start + count == lba && count < requested
        && (forall x | data <= x < start :: m[x])
        && (forall x | start <= x < lba :: !m[x])
        && h[lba - 1] - h[start] < MAX_RUN_HOMES)
  }

  /** A free sector starts a run, lengthens it, completes it, or is one bitmap sector too far. */
  lemma ScanFree(m: seq<bool>, h: seq<nat>, data: nat, requested: nat, start: nat, count: nat, lba: nat)
    requires |h| == |m| && lba < |m| && !m[lba] && requested > 0
    requires Scanned(m, h, data, requested, start, count, lba)
    ensures count == 0 && 1 < requested ==> Scanned(m, h, data, requested, lba, 1, lba + 1)
    ensures count == 0 && 1 == requested ==> FirstFitIn(m, h, data, requested, lba, 1)
    ensures count > 0 && h[lba] - h[start] >= MAX_RUN_HOMES ==> FirstFitIn(m, h, data, requested, start, count)
    ensures count > 0 && h[lba] - h[start] < MAX_RUN_HOMES && count + 1 < requested ==>
      Scanned(m, h, data, requested, start, count + 1, lba + 1)
    ensures count > 0 && h[lba] - h[start] < MAX_RUN_HOMES && count + 1 == requested ==>
      FirstFitIn(m, h, data, requested, start, count + 1)
  {}

  lemma ScanUsed(m: seq<bool>, h: seq<nat>, data: nat, requested: nat, start: nat, count: nat, lba: nat)
    requires |h| == |m| && (lba < |m| ==> m[lba])
    requires Scanned(m, h, data, requested, start, count, lba)
    ensures count > 0 ==> FirstFitIn(m, h, data, requested, start, count)
    ensures count == 0 && lba < |m| ==> Scanned(m, h, data, requested, start, count, lba + 1)
    ensures count == 0 && lba == |m| ==> forall x | data <= x < |m| :: m[x]
  {}

  method Search(fs: Dfs, device: Disk, requested: nat, ghost m: seq<bool>, ghost h: seq<nat>)
    returns (r: Result<(nat, nat), DfsError>)
    requires Fits(fs.layout, |device.durable|) && requested > 0
    requires m == Marks(fs.layout, device.View()) && h == Homes(fs.layout)
    ensures r.Ok? ==> FirstFitIn(m, h, fs.layout.data, requested, r.value.0, r.value.1)
    ensures r.Err? ==> r.error == NoSpace && forall x | fs.layout.data <= x < |m| :: m[x]
  {
    var l := fs.layout;
    assert |m| == |h| == End(l);
    var runStart: nat, runLength: nat := 0, 0;
    var cached: nat, first: nat := NO_LBA, NO_LBA;
    var bitmap := ZERO_SECTOR;
    assert Scanned(m, h, l.data, requested, runStart, runLength, l.data);
    hide Marks, Homes, MakeLayout, Apply, Scanned, FirstFitIn;
    for lba := l.data to End(l)
      invariant cached == NO_LBA || (cached < |device.durable| && bitmap == device.View()[cached])
      invariant Scanned(m, h, l.data, requested, runStart, runLength, lba)
      invariant runLength > 0 ==> runStart < lba && first == h[runStart]
    {
      var bit;
      bit, bitmap := CachedBit(fs, device, lba, cached, bitmap, m, h);
      var place := bit.value;
      var home: nat, marked := place.0, place.1;
      cached := home;
      if !marked {
        ScanFree(m, h, l.data, requested, runStart, runLength, lba);
        if runLength == 0 {
          runStart := lba;
          first := home;
        } else if home - first >= MAX_RUN_HOMES {
          return Ok((runStart, runLength));
        }
        runLength := runLength + 1;
        if runLength == requested {
          return Ok((runStart, runLength));
        }
      } else {
        ScanUsed(m, h, l.data, requested, runStart, runLength, lba);
        if runLength != 0 {
          return Ok((runStart, runLength));
        }
      }
    }
    ScanUsed(m, h, l.data, requested, runStart, runLength, |m|);
    if runLength != 0 {
      return Ok((runStart, runLength));
    }
    return Err(NoSpace);
  }

  // ---------------------------------------------------------------- rewriting a range of bits

  /** Bitmap sector `h` with the bits of the sectors in `[lo, hi)` that live there set to `value`. */
  function Stamped(l: Layout, img: Image, h: nat, lo: nat, hi: nat, value: bool): Sector
    requires l.start <= lo && h < |img|
    decreases hi
  {
    if hi <= lo then img[h]
    else
      var before := Stamped(l, img, h, lo, hi - 1, value);
      if Home(l, hi - 1) == h then SetBit(before, Slot(l, hi - 1), value) else before
  }

  /** Inside its own bitmap sector a stamped range reads back, and nothing else moved. */
  lemma {:induction false} StampedBit(l: Layout, img: Image, h: nat, lo: nat, hi: nat, value: bool, x: nat)
    requires l.start <= lo && h < |img| && l.start <= x && Home(l, x) == h
    ensures TestBit(Stamped(l, img, h, lo, hi, value), Slot(l, x))
         == if lo <= x < hi then value else TestBit(img[h], Slot(l, x))
    decreases hi
  {
    hide TestBit, SetBit;
    if hi > lo {
      StampedBit(l, img, h, lo, hi - 1, value, x);
      if Home(l, hi - 1) == h {
        SetBitFrame(Stamped(l, img, h, lo, hi - 1, value), Slot(l, hi - 1), value, Slot(l, x));
        if Slot(l, x) == Slot(l, hi - 1) {
          HomeAndSlotTell(l, x, hi - 1);
        }
      }
    }
  }

  /** Bitmap sectors before that of `hi` are not touched by going further. */
  lemma {:induction false} StampedElsewhere(l: Layout, img: Image, h: nat, lo: nat, hi: nat, value: bool)
    requires l.start <= lo && h < |img|
    requires forall x | lo <= x < hi :: Home(l, x) != h
    ensures Stamped(l, img, h, lo, hi, value) == img[h]
    decreases hi
  {
    if hi > lo {
      StampedElsewhere(l, img, h, lo, hi - 1, value);
    }
  }

  /** The updates for the first `n` bitmap sectors of the range. */
  function StampWrites(l: Layout, img: Image, lo: nat, hi: nat, value: bool, n: nat): (ws: seq<Write>)
    requires Fits(l, |img|) && l.start <= lo && Home(l, lo) + n <= l.data
    ensures |ws| == n
  {
    seq(n, k requires 0 <= k < n =>
      Write(Home(l, lo) + k, Stamped(l, img, Home(l, lo) + k, lo, hi, value)))
  }

  lemma StampWritesStep(l: Layout, img: Image, lo: nat, hi: nat, value: bool, n: nat)
    requires Fits(l, |img|) && l.start <= lo <= hi && Home(l, lo) + n == Home(l, hi) && Home(l, hi) < l.data
    ensures StampWrites(l, img, lo, hi, value, n) == StampWrites(l, img, lo, hi + 1, value, n)
  {
    var a, b := StampWrites(l, img, lo, hi, value, n), StampWrites(l, img, lo, hi + 1, value, n);
    forall k | 0 <= k < n
      ensures a[k] == b[k]
    {
      assert Stamped(l, img, Home(l, lo) + k, lo, hi + 1, value) == Stamped(l, img, Home(l, lo) + k, lo, hi, value);
    }
  }

  lemma StampWritesAdd(l: Layout, img: Image, lo: nat, hi: nat, value: bool, n: nat)
    requires Fits(l, |img|) && l.start <= lo && Home(l, lo) + n < l.data
    ensures Added(StampWrites(l, img, lo, hi, value, n), Home(l, lo) + n, Stamped(l, img, Home(l, lo) + n, lo, hi, value))
         == StampWrites(l, img, lo, hi, value, n + 1)
    ensures forall w | w in StampWrites(l, img, lo, hi, value, n) :: w.lba != Home(l, lo) + n
  {
    var ws := StampWrites(l, img, lo, hi, value, n);
    var next := Write(Home(l, lo) + n, Stamped(l, img, Home(l, lo) + n, lo, hi, value));
    assert forall k | 0 <= k < n :: ws[k].lba == Home(l, lo) + k;
    assert Position(ws, next.lba) == n;
    assert StampWrites(l, img, lo, hi, value, n + 1) == ws + [next];
  }

  /** `b` is `a` with the bits of `[lo, hi)` set to `value` and nothing else changed. */
  ghost predicate Restamped(l: Layout, a: Image, b: Image, lo: nat, hi: nat, value: bool)
    requires Fits(l, |a|)
  {
    && |a| == |b|
    && (forall i | 0 <= i < |a| && !(l.bitmap <= i < l.data) :: b[i] == a[i])
    && (forall x | l.start <= x < End(l) :: Marked(l, b, x) == if lo <= x < hi then value else Marked(l, a, x))
  }

  /** The effect of the finished updates on the image. */
  lemma StampLands(l: Layout, img: Image, lo: nat, hi: nat, value: bool, n: nat)
    requires Fits(l, |img|) && l.start <= lo < hi <= End(l) && Home(l, lo) + n == Home(l, hi - 1) + 1
    requires Home(l, hi - 1) < l.data
    ensures Restamped(l, img, Apply(img, StampWrites(l, img, lo, hi, value, n)), lo, hi, value)
  {
    var ws := StampWrites(l, img, lo, hi, value, n);
    var after := Apply(img, ws);
    forall i | 0 <= i < |img| && !(l.bitmap <= i < l.data)
      ensures after[i] == img[i]
    {
      ApplyAt(img, ws, i);
    }
    forall x | l.start <= x < End(l)
      ensures Marked(l, after, x) == if lo <= x < hi then value else Marked(l, img, x)
    {
      StampLandsAt(l, img, lo, hi, value, n, x);
    }
  }

  lemma StampedSector(l: Layout, img: Image, lo: nat, hi: nat, value: bool, n: nat, h: nat)
    requires Fits(l, |img|) && l.start <= lo && Home(l, lo) + n <= l.data && h < |img|
    ensures Apply(img, StampWrites(l, img, lo, hi, value, n))[h]
         == if Home(l, lo) <= h < Home(l, lo) + n then Stamped(l, img, h, lo, hi, value) else img[h]
  {
    hide Apply, Stamped, MakeLayout;
    var ws := StampWrites(l, img, lo, hi, value, n);
    ApplyAt(img, ws, h);
    if Home(l, lo) <= h < Home(l, lo) + n {
      var w := ws[h - Home(l, lo)];
      assert w in ws && w.lba == h;
    }
  }

  lemma StampLandsAt(l: Layout, img: Image, lo: nat, hi: nat, value: bool, n: nat, x: nat)
    requires Fits(l, |img|) && l.start <= lo < hi <= End(l) && Home(l, lo) + n == Home(l, hi - 1) + 1
    requires Home(l, hi - 1) < l.data && l.start <= x < End(l)
    ensures var after := Apply(img, StampWrites(l, img, lo, hi, value, n));
      Marked(l, after, x) == if lo <= x < hi then value else Marked(l, img, x)
  {
    var h := Home(l, x);
    Located(l, |img|, x);
    StampedSector(l, img, lo, hi, value, n, h);
    StampedBit(l, img, h, lo, hi, value, x);
    HomeGrows(l, lo, x);
    HomeGrows(l, x, hi - 1);
  }

  lemma HomeGrows(l: Layout, a: nat, b: nat)
    requires l.start <= a && l.start <= b
    ensures a <= b ==> Home(l, a) <= Home(l, b)
  {}

  // ---------------------------------------------------------------- reserving

  lemma HomeStep(l: Layout, lba: nat)
    requires l.start < lba
    ensures Home(l, lba) == Home(l, lba - 1) || Home(l, lba) == Home(l, lba - 1) + 1
  {}

  /** Crossing into the next bitmap sector: the finished one is added, the new one is untouched. */
  lemma Crossed(l: Layout, img: Image, lo: nat, lba: nat, value: bool)
    requires Fits(l, |img|) && l.start <= lo < lba < End(l) && Home(l, lba) == Home(l, lba - 1) + 1
    ensures Home(l, lba) < l.data
    ensures Stamped(l, img, Home(l, lba), lo, lba, value) == img[Home(l, lba)]
  {
    Located(l, |img|, lba);
    forall x | lo <= x < lba
      ensures Home(l, x) != Home(l, lba)
    {
      HomeGrows(l, x, lba - 1);
    }
    StampedElsewhere(l, img, Home(l, lba), lo, lba, value);
  }

  /** The scan of `reserve_run` at `lba`: finished bitmap sectors in the transaction, the current one in hand. */
  ghost predicate Stamping(l: Layout, img: Image, lo: nat, lba: nat, value: bool, current: nat, bitmap: Sector, ws: seq<Write>)
    requires Fits(l, |img|) && l.start <= lo < lba <= End(l)
  {
    Located(l, |img|, lba - 1);
    Located(l, |img|, lo);
    HomeGrows(l, lo, lba - 1);
    && current == Home(l, lba - 1)
    && bitmap == Stamped(l, img, current, lo, lba, value)
    && ws == StampWrites(l, img, lo, lba, value, current - Home(l, lo))
  }

  /** One more bit inside the same bitmap sector. */
  lemma StampingSame(l: Layout, img: Image, lo: nat, lba: nat, value: bool, current: nat, bitmap: Sector, ws: seq<Write>)
    requires Fits(l, |img|) && l.start <= lo < lba < End(l) && Home(l, lba) == current
    requires Stamping(l, img, lo, lba, value, current, bitmap, ws)
    ensures Stamping(l, img, lo, lba + 1, value, current, SetBit(bitmap, Slot(l, lba), value), ws)
  {
    Located(l, |img|, lba);
    StampWritesStep(l, img, lo, lba, value, current - Home(l, lo));
  }

  /** The first bit of the next bitmap sector, after the finished sector joined the transaction. */
  lemma StampingNext(l: Layout, img: Image, lo: nat, lba: nat, value: bool, current: nat, bitmap: Sector, ws: seq<Write>)
    requires Fits(l, |img|) && l.start <= lo < lba < End(l) && Home(l, lba) != current
    requires Stamping(l, img, lo, lba, value, current, bitmap, ws)
    ensures Home(l, lba) == current + 1 < l.data
    ensures Stamping(l, img, lo, lba + 1, value, current + 1, SetBit(img[current + 1], Slot(l, lba), value),
                     Added(ws, current, bitmap))
    ensures |Added(ws, current, bitmap)| == |ws| + 1
  {
    HomeStep(l, lba);
    Crossed(l, img, lo, lba, value);
    StampWritesAdd(l, img, lo, lba, value, current - Home(l, lo));
    StampWritesStep(l, img, lo, lba, value, current + 1 - Home(l, lo));
  }

  lemma StampingSize(l: Layout, img: Image, lo: nat, lba: nat, value: bool, current: nat, bitmap: Sector, ws: seq<Write>)
    requires Fits(l, |img|) && l.start <= lo < lba <= End(l)
    requires Stamping(l, img, lo, lba, value, current, bitmap, ws)
    ensures current == Home(l, lba - 1) && |ws| == current - Home(l, lo)
  {}

  lemma StampingLast(l: Layout, img: Image, lo: nat, lba: nat, value: bool, current: nat, bitmap: Sector, ws: seq<Write>)
    requires Fits(l, |img|) && l.start <= lo < lba <= End(l)
    requires Stamping(l, img, lo, lba, value, current, bitmap, ws)
    ensures Home(l, lo) <= current < l.data
    ensures Added(ws, current, bitmap) == StampWrites(l, img, lo, lba, value, current + 1 - Home(l, lo))
  {
    StampWritesAdd(l, img, lo, lba, value, current - Home(l, lo));
  }

  lemma StampingFirst(l: Layout, img: Image, lo: nat, value: bool)
    requires Fits(l, |img|) && l.start <= lo < End(l)
    ensures l.bitmap <= Home(l, lo) < l.data
    ensures Stamping(l, img, lo, lo + 1, value, Home(l, lo), SetBit(img[Home(l, lo)], Slot(l, lo), value), [])
  {
    Located(l, |img|, lo);
    assert Stamped(l, img, Home(l, lo), lo, lo, value) == img[Home(l, lo)];
  }

  /** One turn of the reservation scan: sector `lba` is marked in the bitmap sector in hand, which
    * goes into the transaction when the next one begins. */
  method StampStep(fs: Dfs, device: Disk, transaction: Transaction, ghost lo: nat, lba: u64, current: nat, held: Sector)
    returns (r: Result<nat, DfsError>, bitmap: Sector)
    requires Fits(fs.layout, |device.durable|) && fs.layout.start <= lo <= lba < End(fs.layout)
    requires lba == lo ==> current == NO_LBA && transaction.writes == []
    requires lba > lo ==>
      Stamping(fs.layout, device.View(), lo, lba, true, current, held, transaction.writes)
    requires |transaction.writes| < TRANSACTION_SECTORS
    modifies transaction
    ensures r.Ok?
    ensures Stamping(fs.layout, device.View(), lo, lba + 1, true, r.value, bitmap, transaction.writes)
    ensures |transaction.writes| == Home(fs.layout, lba) - Home(fs.layout, lo)
  {
    var l := fs.layout;
    Located(l, |device.durable|, lba);
    var place := BitmapLocation(l, lba);
    if place.Err? {
      return Err(InvalidFilesystem), held;
    }
    var home: nat, bit: nat := place.value.0, place.value.1;
    if lba > lo {
      StampingSize(l, device.View(), lo, lba, true, current, held, transaction.writes);
      if home == current {
        StampingSame(l, device.View(), lo, lba, true, current, held, transaction.writes);
      } else {
        StampingNext(l, device.View(), lo, lba, true, current, held, transaction.writes);
      }
    } else {
      StampingFirst(l, device.View(), lo, true);
    }
    HomeGrows(l, lo, lba);
    hide Stamping, StampWrites, Stamped, SetBit, Added, Apply, MakeLayout;
    bitmap := held;
    if home != current {
      if current != NO_LBA {
        var added := transaction.Add(current, bitmap);
        if added.Err? {
          return Err(JournalFull), bitmap;
        }
      }
      bitmap := device.ReadSector(home);
    }
    bitmap := SetBit(bitmap, bit, true);
    return Ok(home), bitmap;
  }

  /** A run within the data area that touches at most 15 bitmap sectors. */
  ghost predicate Reservable(l: Layout, n: nat, start: nat, count: nat) {
    && Fits(l, n) && count > 0 && l.data <= start && start + count <= End(l)
    && Home(l, start + count - 1) - Home(l, start) < MAX_RUN_HOMES
  }

  /** The updates that mark a reservable run. */
  ghost function RunWrites(l: Layout, img: Image, start: nat, count: nat): (ws: seq<Write>)
    requires Reservable(l, |img|, start, count)
    ensures 1 <= |ws| <= MAX_RUN_HOMES
  {
    Located(l, |img|, start + count - 1);
    HomeGrows(l, start, start + count - 1);
    StampWrites(l, img, start, start + count, true, Home(l, start + count - 1) + 1 - Home(l, start))
  }

  lemma DataAfterStart(l: Layout, n: nat)
    requires Fits(l, n)
    ensures l.start < l.data
  {}

  method StampLoop(fs: Dfs, device: Disk, transaction: Transaction, start: u64, count: u64)
    returns (r: Result<nat, DfsError>, bitmap: Sector)
    requires Reservable(fs.layout, |device.durable|, start, count) && transaction.writes == []
    modifies transaction
    ensures r.Ok?
    ensures Stamping(fs.layout, device.View(), start, start + count, true, r.value, bitmap, transaction.writes)
    ensures |transaction.writes| < MAX_RUN_HOMES
  {
    hide Stamping, StampWrites, Stamped, Apply, MakeLayout;
    DataAfterStart(fs.layout, |device.durable|);
    ghost var l, img := fs.layout, device.View();
    var current: nat := NO_LBA;
    bitmap := ZERO_SECTOR;
    for lba := start to start + count
      invariant lba == start ==> current == NO_LBA && transaction.writes == []
      invariant lba > start ==> Stamping(l, img, start, lba, true, current, bitmap, transaction.writes)
      invariant |transaction.writes| < MAX_RUN_HOMES
    {
      var turn;
      turn, bitmap := StampStep(fs, device, transaction, start, lba, current, bitmap);
      current := turn.value;
      HomeGrows(l, lba, start + count - 1);
    }
    return Ok(current), bitmap;
  }

  /** The bitmap half of `reserve_run`: fills the transaction, leaves the device alone. */
  method StampRun(fs: Dfs, device: Disk, transaction: Transaction, start: u64, count: u64) returns (r: Result<(), DfsError>)
    requires Reservable(fs.layout, |device.durable|, start, count) && transaction.writes == []
    modifies transaction
    ensures r.Ok?
    ensures transaction.writes == RunWrites(fs.layout, device.View(), start, count)
  {
    hide Stamping, Added, StampWrites, MakeLayout, Apply, Home;
    DataAfterStart(fs.layout, |device.durable|);
    var loop, bitmap := StampLoop(fs, device, transaction, start, count);
    var current := loop.value;
    StampingSize(fs.layout, device.View(), start, start + count, true, current, bitmap, transaction.writes);
    StampingLast(fs.layout, device.View(), start, start + count, true, current, bitmap, transaction.writes);
    r := transaction.Add(current, bitmap);
  }

  /** Bits depend on the bitmap sectors only. */
  lemma BitsFrame(l: Layout, a: Image, b: Image)
    requires Fits(l, |a|) && |a| == |b|
    requires forall i | l.bitmap <= i < l.data :: a[i] == b[i]
    ensures forall x | l.start <= x < End(l) :: Marked(l, a, x) == Marked(l, b, x)
  {
    forall x | l.start <= x < End(l)
      ensures Marked(l, a, x) == Marked(l, b, x)
    {
      Located(l, |a|, x);
    }
  }

  lemma RunWritesShape(l: Layout, a: Image, start: nat, count: nat)
    requires Reservable(l, |a|, start, count)
    ensures forall w | w in RunWrites(l, a, start, count) :: l.bitmap <= w.lba < l.data
  {
    Located(l, |a|, start);
    Located(l, |a|, start + count - 1);
  }

  /** The collected updates mark the run and nothing else. */
  lemma RunLands(l: Layout, a: Image, start: nat, count: nat)
    requires Reservable(l, |a|, start, count)
    ensures Restamped(l, a, Apply(a, RunWrites(l, a, start, count)), start, start + count, true)
  {
    hide Restamped, Home, StampWrites, MakeLayout, Apply;
    RunEdges(l, |a|, start, count);
    StampLands(l, a, start, start + count, true, Home(l, start + count - 1) + 1 - Home(l, start));
  }

  lemma RunEdges(l: Layout, n: nat, start: nat, count: nat)
    requires Reservable(l, n, start, count)
    ensures l.start <= start < start + count <= End(l)
    ensures Home(l, start) <= Home(l, start + count - 1) < l.data
  {
    hide Home;
    Located(l, n, start);
    Located(l, n, start + count - 1);
    HomeGrows(l, start, start + count - 1);
  }
}
