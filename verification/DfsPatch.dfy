/** Writing bytes into the sectors of a file, and what a power loss leaves of them. */
module DfsPatch {
  import opened Bytes
  import opened Disks
  import opened DfsExtents

  /** `old` with `input` written over it from `offset` on, longer if need be. */
  function Splice(was: seq<byte>, offset: nat, input: seq<byte>): (r: seq<byte>)
    requires offset <= |was|
    ensures |r| == Max(|was|, offset + |input|)
  {
    was[..offset] + input + (if offset + |input| < |was| then was[offset + |input|..] else [])
  }

  lemma SpliceAt(was: seq<byte>, offset: nat, input: seq<byte>, p: nat)
    requires offset <= |was| && p < |Splice(was, offset, input)|
    ensures Splice(was, offset, input)[p] == if offset <= p < offset + |input| then input[p - offset] else was[p]
  {}

  /** The `size` bytes held by the sectors `ss`. */
  function ByteAt(img: Image, ss: seq<nat>, p: nat): byte
    requires p < SECTOR_SIZE * |ss| && forall x | x in ss :: x < |img|
  {
    assert ss[p / SECTOR_SIZE] in ss;
    img[ss[p / SECTOR_SIZE]][p % SECTOR_SIZE]
  }

  ghost function Content(img: Image, ss: seq<nat>, size: nat): (b: seq<byte>)
    requires size <= SECTOR_SIZE * |ss| && forall x | x in ss :: x < |img|
    ensures |b| == size
  {
    seq(size, p requires 0 <= p < size => ByteAt(img, ss, p))
  }

  lemma ContentFrame(a: Image, b: Image, ss: seq<nat>, size: nat)
    requires size <= SECTOR_SIZE * |ss| && |a| == |b|
    requires forall x | x in ss :: x < |a| && a[x] == b[x]
    ensures Content(a, ss, size) == Content(b, ss, size)
  {
    forall p | 0 <= p < size
      ensures ByteAt(a, ss, p) == ByteAt(b, ss, p)
    {
      assert ss[p / SECTOR_SIZE] in ss;
    }
  }

  /** More sectors at the end do not change the bytes before. */
  lemma ContentPrefix(img: Image, ss: seq<nat>, more: seq<nat>, size: nat)
    requires ss <= more && size <= SECTOR_SIZE * |ss| && forall x | x in more :: x < |img|
    ensures forall x | x in ss :: x < |img|
    ensures Content(img, ss, size) == Content(img, more, size)
  {
    forall x | x in ss
      ensures x in more
    {
      var i :| 0 <= i < |ss| && ss[i] == x;
      assert more[i] == x;
    }
    forall p | 0 <= p < size
      ensures ByteAt(img, ss, p) == ByteAt(img, more, p)
    {
      assert ss[p / SECTOR_SIZE] == more[p / SECTOR_SIZE];
    }
  }

  /** Sector `q` of a file with the part of `[offset, offset + |input|)` that falls into it replaced. */
  function Patched(s: Sector, q: nat, offset: nat, input: seq<byte>): Sector {
    seq(SECTOR_SIZE, j requires 0 <= j < SECTOR_SIZE =>
      if offset <= SECTOR_SIZE * q + j < offset + |input| then input[SECTOR_SIZE * q + j - offset] else s[j])
  }

  /** Sectors away from the written range are not changed. */
  lemma PatchedOutside(s: Sector, q: nat, offset: nat, input: seq<byte>)
    requires SECTOR_SIZE * q + SECTOR_SIZE <= offset || offset + |input| <= SECTOR_SIZE * q || input == []
    ensures Patched(s, q, offset, input) == s
  {}

  /** What the loop of `write_file` puts into a sector: the old contents with one stretch copied over. */
  lemma PatchedHere(s: Sector, q: nat, offset: nat, input: seq<byte>, consumed: nat)
    requires consumed < |input| && q == (offset + consumed) / SECTOR_SIZE
    requires consumed == 0 || (offset + consumed) % SECTOR_SIZE == 0
    ensures var within := (offset + consumed) % SECTOR_SIZE;
      var count := Min(SECTOR_SIZE - within, |input| - consumed);
      Patched(s, q, offset, input) == Put(s, within, input[consumed..consumed + count])
  {
    hide Put;
    var within := (offset + consumed) % SECTOR_SIZE;
    var count := Min(SECTOR_SIZE - within, |input| - consumed);
    var b := input[consumed..consumed + count];
    var r, patched := Put(s, within, b), Patched(s, q, offset, input);
    forall j | 0 <= j < SECTOR_SIZE
      ensures patched[j] == r[j]
    {
      PutAt(s, within, b, j);
      StretchInSector(offset, consumed, |input|, q, j);
    }
  }

  /** Which bytes of sector `q` lie in the stretch that starts `consumed` bytes into the input. */
  lemma StretchInSector(offset: nat, consumed: nat, n: nat, q: nat, j: nat)
    requires consumed < n && q == (offset + consumed) / SECTOR_SIZE && j < SECTOR_SIZE
    requires consumed == 0 || (offset + consumed) % SECTOR_SIZE == 0
    ensures var within := (offset + consumed) % SECTOR_SIZE;
      && SECTOR_SIZE * q + within == offset + consumed
      && (offset <= SECTOR_SIZE * q + j < offset + n <==> within <= j < within + Min(SECTOR_SIZE - within, n - consumed))
  {}

  /** All of the range has been written. */
  ghost predicate PatchedBy(a: Image, b: Image, ss: seq<nat>, offset: nat, input: seq<byte>) {
    && |a| == |b|
    && (forall x | 0 <= x < |a| && x !in ss :: b[x] == a[x])
    && (forall q | 0 <= q < |ss| && ss[q] < |a| :: b[ss[q]] == Patched(a[ss[q]], q, offset, input))
  }

  /** Some of the sectors have been written. */
  ghost predicate TornBy(a: Image, b: Image, ss: seq<nat>, offset: nat, input: seq<byte>) {
    && |a| == |b|
    && (forall x | 0 <= x < |a| && x !in ss :: b[x] == a[x])
    && (forall q | 0 <= q < |ss| && ss[q] < |a| ::
          b[ss[q]] == a[ss[q]] || b[ss[q]] == Patched(a[ss[q]], q, offset, input))
  }

  /** Patching sector by sector is splicing the bytes. */
  lemma PatchedContent(a: Image, b: Image, ss: seq<nat>, offset: nat, input: seq<byte>, size: nat)
    requires PatchedBy(a, b, ss, offset, input) && forall x | x in ss :: x < |a|
    requires offset <= size && Max(size, offset + |input|) <= SECTOR_SIZE * |ss|
    ensures Content(b, ss, Max(size, offset + |input|)) == Splice(Content(a, ss, size), offset, input)
  {
    var after := Max(size, offset + |input|);
    forall p | 0 <= p < after
      ensures ByteAt(b, ss, p) == Splice(Content(a, ss, size), offset, input)[p]
    {
      var q := p / SECTOR_SIZE;
      assert ss[q] in ss;
      assert SECTOR_SIZE * q + p % SECTOR_SIZE == p;
      SpliceAt(Content(a, ss, size), offset, input, p);
    }
  }

  /** While the old size is in force, every sector is old or newly written. */
  lemma TornContent(a: Image, b: Image, ss: seq<nat>, offset: nat, input: seq<byte>, size: nat)
    requires TornBy(a, b, ss, offset, input) && forall x | x in ss :: x < |a|
    requires size <= SECTOR_SIZE * |ss|
    ensures Torn(Content(a, ss, size), Content(b, ss, size), offset, input)
  {
    var was, now := Content(a, ss, size), Content(b, ss, size);
    forall q: nat | SECTOR_SIZE * q < size
      ensures Retained(was, now, q) || Renewed(was, now, offset, input, q)
    {
      assert ss[q] in ss;
      forall p | 0 <= p < size && p / SECTOR_SIZE == q
        ensures was[p] == a[ss[q]][p % SECTOR_SIZE] && now[p] == b[ss[q]][p % SECTOR_SIZE]
        ensures SECTOR_SIZE * q + p % SECTOR_SIZE == p
      {}
    }
  }

  /** Sector `q` of a file shows what it showed. */
  ghost predicate Retained(was: seq<byte>, now: seq<byte>, q: nat) {
    |now| == |was| && forall p | 0 <= p < |was| && p / SECTOR_SIZE == q :: now[p] == was[p]
  }

  /** Sector `q` of a file shows the input where that falls into it. */
  ghost predicate Renewed(was: seq<byte>, now: seq<byte>, offset: nat, input: seq<byte>, q: nat) {
    |now| == |was| && forall p | 0 <= p < |was| && p / SECTOR_SIZE == q :: now[p] == Over(was, offset, input, p)
  }

  /** The byte at `p` once `input` is written over. */
  function Over(was: seq<byte>, offset: nat, input: seq<byte>, p: nat): byte
    requires p < |was|
  {
    if offset <= p < offset + |input| then input[p - offset] else was[p]
  }

  /** Same length, and each sector as it was or as the write makes it. */
  ghost predicate Torn(was: seq<byte>, now: seq<byte>, offset: nat, input: seq<byte>) {
    && |now| == |was|
    && forall q: nat | SECTOR_SIZE * q < |was| :: Retained(was, now, q) || Renewed(was, now, offset, input, q)
  }

  /** So each byte is old or, inside the written range, new. */
  lemma TornByte(was: seq<byte>, now: seq<byte>, offset: nat, input: seq<byte>, p: nat)
    requires Torn(was, now, offset, input) && p < |was|
    ensures now[p] == was[p] || (offset <= p < offset + |input| && now[p] == input[p - offset])
  {
    assert Retained(was, now, p / SECTOR_SIZE) || Renewed(was, now, offset, input, p / SECTOR_SIZE);
  }

  /** The image in which exactly the sectors are written that `now` does not show as they were. */
  ghost function TornImage(a: Image, ss: seq<nat>, offset: nat, input: seq<byte>, was: seq<byte>,
                           now: seq<byte>): (c: Image)
    ensures |c| == |a|
  {
    seq(|a|, x requires 0 <= x < |a| =>
      if NewAt(ss, was, now, x) then Patched(a[x], Place(ss, x), offset, input) else a[x])
  }

  ghost predicate NewAt(ss: seq<nat>, was: seq<byte>, now: seq<byte>, x: nat) {
    x in ss && SECTOR_SIZE * Place(ss, x) < |was| && !Retained(was, now, Place(ss, x))
  }

  ghost function Place(ss: seq<nat>, x: nat): (q: nat)
    requires x in ss
    ensures q < |ss| && ss[q] == x
  {
    var q :| 0 <= q < |ss| && ss[q] == x;
    q
  }

  lemma PlaceIs(ss: seq<nat>, q: nat)
    requires Distinct(ss) && q < |ss|
    ensures ss[q] in ss && Place(ss, ss[q]) == q
  {
    SamePlace(ss, Place(ss, ss[q]), q);
  }

  /** Every torn text is what some torn image shows. */
  lemma TornImageShows(a: Image, ss: seq<nat>, offset: nat, input: seq<byte>, size: nat, now: seq<byte>)
    requires Distinct(ss) && (forall x | x in ss :: x < |a|) && size <= SECTOR_SIZE * |ss|
    requires Torn(Content(a, ss, size), now, offset, input)
    ensures var c := TornImage(a, ss, offset, input, Content(a, ss, size), now);
      TornBy(a, c, ss, offset, input) && Content(c, ss, size) == now
  {
    hide Patched, Place, Distinct;
    var was := Content(a, ss, size);
    var c := TornImage(a, ss, offset, input, was, now);
    forall q | 0 <= q < |ss| && ss[q] < |a|
      ensures c[ss[q]] == if SECTOR_SIZE * q < size && !Retained(was, now, q)
                          then Patched(a[ss[q]], q, offset, input) else a[ss[q]]
    {
      PlaceIs(ss, q);
    }
    forall p | 0 <= p < size
      ensures ByteAt(c, ss, p) == now[p]
    {
      assert ss[p / SECTOR_SIZE] in ss;
      TornByteShown(a, c, ss, offset, input, size, now, p);
    }
  }

  lemma TornByteShown(a: Image, c: Image, ss: seq<nat>, offset: nat, input: seq<byte>, size: nat, now: seq<byte>,
                      p: nat)
    requires |c| == |a| && (forall x | x in ss :: x < |a|) && size <= SECTOR_SIZE * |ss| && p < size
    requires Torn(Content(a, ss, size), now, offset, input)
    requires ss[p / SECTOR_SIZE] < |a|
    requires var q := p / SECTOR_SIZE;
      c[ss[q]] == if SECTOR_SIZE * q < size && !Retained(Content(a, ss, size), now, q)
                  then Patched(a[ss[q]], q, offset, input) else a[ss[q]]
    ensures ByteAt(c, ss, p) == now[p]
  {
    var was, q := Content(a, ss, size), p / SECTOR_SIZE;
    assert SECTOR_SIZE * q + p % SECTOR_SIZE == p;
    assert was[p] == ByteAt(a, ss, p);
    assert Retained(was, now, q) || Renewed(was, now, offset, input, q);
  }

  // ---------------------------------------------------------------- when a write is atomic

  /** The write changes what sector `q` of the file shows. */
  ghost predicate Alters(was: seq<byte>, offset: nat, input: seq<byte>, q: nat) {
    exists p :: 0 <= p < |was| && p / SECTOR_SIZE == q && Over(was, offset, input, p) != was[p]
  }

  /** The write shows in one go: it changes no more than one sector of what the file shows, none if the file grows. */
  ghost predicate OneStep(was: seq<byte>, offset: nat, input: seq<byte>) {
    && (forall q, r | Alters(was, offset, input, q) && Alters(was, offset, input, r) :: q == r)
    && (offset + |input| > |was| ==> forall q: nat :: !Alters(was, offset, input, q))
  }

  /** Only sector `q` renewed. */
  ghost function OnlyAt(was: seq<byte>, offset: nat, input: seq<byte>, q: nat): (now: seq<byte>)
    ensures |now| == |was|
  {
    seq(|was|, p requires 0 <= p < |was| => if p / SECTOR_SIZE == q then Over(was, offset, input, p) else was[p])
  }

  lemma OnlyAtIsTorn(was: seq<byte>, offset: nat, input: seq<byte>, q: nat)
    ensures Torn(was, OnlyAt(was, offset, input, q), offset, input)
  {
    var now := OnlyAt(was, offset, input, q);
    forall k: nat | SECTOR_SIZE * k < |was|
      ensures Retained(was, now, k) || Renewed(was, now, offset, input, k)
    {
      assert k == q ==> Renewed(was, now, offset, input, k);
      assert k != q ==> Retained(was, now, k);
    }
  }

  /** A torn overwrite shows the old bytes or the new ones, nothing between, if the write shows in one go. */
  lemma OneStepShows(was: seq<byte>, now: seq<byte>, offset: nat, input: seq<byte>)
    requires offset <= |was| && Torn(was, now, offset, input) && OneStep(was, offset, input)
    ensures now == was || now == Splice(was, offset, input)
  {
    hide Over;
    if now != was {
      var p :| 0 <= p < |was| && now[p] != was[p];
      assert Renewed(was, now, offset, input, p / SECTOR_SIZE);
      assert Alters(was, offset, input, p / SECTOR_SIZE);
      forall k | 0 <= k < |was|
        ensures now[k] == Over(was, offset, input, k)
      {
        if Over(was, offset, input, k) != was[k] {
          assert Alters(was, offset, input, k / SECTOR_SIZE);
        } else {
          assert Retained(was, now, k / SECTOR_SIZE) || Renewed(was, now, offset, input, k / SECTOR_SIZE);
        }
      }
      SpliceIsOver(was, offset, input, now);
    }
  }

  lemma SpliceIsOver(was: seq<byte>, offset: nat, input: seq<byte>, now: seq<byte>)
    requires offset <= |was| == |now| && offset + |input| <= |was|
    requires forall k | 0 <= k < |was| :: now[k] == Over(was, offset, input, k)
    ensures now == Splice(was, offset, input)
  {
    forall k | 0 <= k < |was|
      ensures now[k] == Splice(was, offset, input)[k]
    {
      SpliceAt(was, offset, input, k);
    }
  }

  /** And only if it does: otherwise a torn write shows a text that is neither. */
  lemma BetweenShows(was: seq<byte>, offset: nat, input: seq<byte>) returns (now: seq<byte>)
    requires offset <= |was| && !OneStep(was, offset, input)
    ensures Torn(was, now, offset, input) && now != was && now != Splice(was, offset, input)
  {
    hide Over;
    if q: nat :| Alters(was, offset, input, q) && offset + |input| > |was| {
      now := OnlyAt(was, offset, input, q);
      OnlyAtIsTorn(was, offset, input, q);
      var p :| 0 <= p < |was| && p / SECTOR_SIZE == q && Over(was, offset, input, p) != was[p];
      assert now[p] != was[p];
    } else {
      var q, r :| Alters(was, offset, input, q) && Alters(was, offset, input, r) && q != r;
      now := OnlyAt(was, offset, input, q);
      OnlyAtIsTorn(was, offset, input, q);
      var p :| 0 <= p < |was| && p / SECTOR_SIZE == q && Over(was, offset, input, p) != was[p];
      assert now[p] != was[p];
      var k :| 0 <= k < |was| && k / SECTOR_SIZE == r && Over(was, offset, input, k) != was[k];
      SpliceShows(was, offset, input, k);
      assert now[k] == was[k];
    }
  }

  lemma SpliceShows(was: seq<byte>, offset: nat, input: seq<byte>, k: nat)
    requires offset <= |was| && k < |was|
    ensures k < |Splice(was, offset, input)| && Splice(was, offset, input)[k] == Over(was, offset, input, k)
  {
    SpliceAt(was, offset, input, k);
  }

  /** An append that is torn shows nothing of itself. */
  lemma TornAppend(was: seq<byte>, now: seq<byte>, input: seq<byte>)
    requires Torn(was, now, |was|, input)
    ensures now == was
  {
    forall p | 0 <= p < |was|
      ensures now[p] == was[p]
    {
      TornByte(was, now, |was|, input, p);
    }
  }

  // ---------------------------------------------------------------- the write loop

  /** A pending write is the patch of one of the file's sectors. */
  ghost predicate IsPatch(w: Write, a: Image, ss: seq<nat>, offset: nat, input: seq<byte>) {
    exists q :: 0 <= q < |ss| && PatchAt(w, a, ss, q, offset, input)
  }

  ghost predicate PatchAt(w: Write, a: Image, ss: seq<nat>, q: nat, offset: nat, input: seq<byte>)
    requires q < |ss|
  {
    ss[q] < |a| && w == Write(ss[q], Patched(a[ss[q]], q, offset, input))
  }

  /** The view after `consumed` bytes: sectors before that point are done. */
  ghost predicate Progress(a: Image, view: Image, ss: seq<nat>, offset: nat, input: seq<byte>, consumed: nat) {
    && |a| == |view|
    && (forall x | 0 <= x < |a| && x !in ss :: view[x] == a[x])
    && (forall q | 0 <= q < |ss| && ss[q] < |a| ::
          view[ss[q]] == if consumed > 0 && SECTOR_SIZE * q < offset + consumed
                         then Patched(a[ss[q]], q, offset, input) else a[ss[q]])
  }

  lemma ProgressDone(a: Image, view: Image, ss: seq<nat>, offset: nat, input: seq<byte>)
    requires Progress(a, view, ss, offset, input, |input|)
    ensures PatchedBy(a, view, ss, offset, input)
  {
    forall q | 0 <= q < |ss| && ss[q] < |a|
      ensures view[ss[q]] == Patched(a[ss[q]], q, offset, input)
    {
      if |input| == 0 || SECTOR_SIZE * q >= offset + |input| {
        PatchedOutside(a[ss[q]], q, offset, input);
      }
    }
  }

  lemma DistinctAt(ss: seq<nat>, i: nat, j: nat)
    requires Distinct(ss) && i < |ss| && j < |ss| && i != j
    ensures ss[i] != ss[j]
  {
    if i < j {
      assert ss[i] != ss[j];
    } else {
      assert ss[j] != ss[i];
    }
  }

  /** One turn of the copy loop goes to the end of the input or of a sector. */
  lemma StepEnds(offset: nat, consumed: nat, n: nat)
    requires consumed < n
    ensures var count := Min(SECTOR_SIZE - (offset + consumed) % SECTOR_SIZE, n - consumed);
      consumed + count == n || (offset + consumed + count) % SECTOR_SIZE == 0
  {}

  /** The sectors begun before and after the turn that fills sector `q`. */
  lemma StepReaches(offset: nat, consumed: nat, n: nat, k: nat)
    requires consumed < n && (consumed == 0 || (offset + consumed) % SECTOR_SIZE == 0)
    ensures var q := (offset + consumed) / SECTOR_SIZE;
      var count := Min(SECTOR_SIZE - (offset + consumed) % SECTOR_SIZE, n - consumed);
      && SECTOR_SIZE * q < offset + n
      && (SECTOR_SIZE * k < offset + consumed + count <==> k <= q)
      && (k < q ==> SECTOR_SIZE * k + SECTOR_SIZE <= offset + consumed)
      && (k > q ==> SECTOR_SIZE * k >= offset + consumed + count)
      && (consumed > 0 ==> SECTOR_SIZE * q == offset + consumed)
  {}

  lemma ProgressStep(a: Image, view: Image, ss: seq<nat>, offset: nat, input: seq<byte>, consumed: nat)
    requires Distinct(ss) && forall x | x in ss :: x < |a|
    requires offset + |input| <= SECTOR_SIZE * |ss| && consumed < |input|
    requires consumed == 0 || (offset + consumed) % SECTOR_SIZE == 0
    requires Progress(a, view, ss, offset, input, consumed)
    ensures var q := (offset + consumed) / SECTOR_SIZE;
      var count := Min(SECTOR_SIZE - (offset + consumed) % SECTOR_SIZE, |input| - consumed);
      && q < |ss| && ss[q] < |a| && view[ss[q]] == a[ss[q]]
      && Progress(a, view[ss[q] := Patched(a[ss[q]], q, offset, input)], ss, offset, input, consumed + count)
      && (consumed + count == |input| || (offset + consumed + count) % SECTOR_SIZE == 0)
  {
    hide Patched, Distinct;
    var q := (offset + consumed) / SECTOR_SIZE;
    var count := Min(SECTOR_SIZE - (offset + consumed) % SECTOR_SIZE, |input| - consumed);
    StepReaches(offset, consumed, |input|, q);
    assert ss[q] in ss;
    StepEnds(offset, consumed, |input|);
    var after := view[ss[q] := Patched(a[ss[q]], q, offset, input)];
    forall k | 0 <= k < |ss| && ss[k] < |a|
      ensures after[ss[k]] == if SECTOR_SIZE * k < offset + consumed + count
                              then Patched(a[ss[k]], k, offset, input) else a[ss[k]]
    {
      StepReaches(offset, consumed, |input|, k);
      if k != q {
        DistinctAt(ss, k, q);
        if k < q && consumed == 0 {
          PatchedOutside(a[ss[k]], k, offset, input);
        }
      }
    }
  }

  lemma PatchesTear(a: Image, pending: seq<Write>, ss: seq<nat>, offset: nat, input: seq<byte>, c: Image)
    requires Distinct(ss) && CrashImage(a, pending, c)
    requires forall w | w in pending :: IsPatch(w, a, ss, offset, input)
    ensures TornBy(a, c, ss, offset, input)
  {
    hide IsPatch, PatchAt, Patched, Distinct;
    forall w | w in pending
      ensures w.lba in ss
    {
      PatchIsInside(w, a, ss, offset, input);
    }
    forall q | 0 <= q < |ss| && ss[q] < |a|
      ensures c[ss[q]] == a[ss[q]] || c[ss[q]] == Patched(a[ss[q]], q, offset, input)
    {
      var w := Write(ss[q], c[ss[q]]);
      if w in pending {
        PatchIsMine(w, a, ss, q, offset, input);
      }
    }
  }

  lemma PatchIsInside(w: Write, a: Image, ss: seq<nat>, offset: nat, input: seq<byte>)
    requires IsPatch(w, a, ss, offset, input)
    ensures w.lba in ss
  {}

  /** The patch of a sector of the file is the patch at that sector's only place in the file. */
  lemma PatchIsMine(w: Write, a: Image, ss: seq<nat>, q: nat, offset: nat, input: seq<byte>)
    requires IsPatch(w, a, ss, offset, input) && Distinct(ss) && q < |ss| && ss[q] < |a| && w.lba == ss[q]
    ensures w.data == Patched(a[ss[q]], q, offset, input)
  {
    var k :| 0 <= k < |ss| && PatchAt(w, a, ss, k, offset, input);
    SamePlace(ss, k, q);
  }

  lemma SamePlace(ss: seq<nat>, k: nat, q: nat)
    requires Distinct(ss) && k < |ss| && q < |ss| && ss[k] == ss[q]
    ensures k == q
  {}
}
