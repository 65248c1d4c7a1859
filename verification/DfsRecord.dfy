/** What a journal sector says, told by its bytes. */
module DfsRecord {
  import opened Bytes
  import opened Crc
  import opened Disks
  import opened DfsLayout
  import opened DfsTransaction
  import opened DfsJournal

  /** The header and the slots behind it hold these writes. */
  ghost predicate HoldsWrites(l: Layout, img: Image, ws: seq<Write>)
    requires |ws| <= 16 && l.journal + JOURNAL_SECTORS <= |img|
  {
    forall i | 0 <= i < |ws| ::
      Read64(img[l.journal], 16 + i * 8) == ws[i].lba && img[l.journal + 1 + i] == ws[i].data
  }

  lemma HoldsIff(l: Layout, img: Image, ws: seq<Write>)
    requires |ws| <= 16 && l.journal + JOURNAL_SECTORS <= |img|
    ensures HoldsWrites(l, img, ws) <==> Journaled(l, img, |ws|) == ws
  {
    hide Read64;
    if Journaled(l, img, |ws|) == ws {
      forall i | 0 <= i < |ws|
        ensures Read64(img[l.journal], 16 + i * 8) == ws[i].lba && img[l.journal + 1 + i] == ws[i].data
      {
        assert Journaled(l, img, |ws|)[i] == ws[i];
      }
    }
  }

  /** Inside the partition and outside the journal. */
  ghost predicate Legal(l: Layout, w: Write) {
    l.start <= w.lba < l.start + l.sectors && !(l.journal <= w.lba < l.journal + 17)
  }

  /**
   * Writes are redone exactly when the header is a committed record of them, with the right checksum, the slots hold
   * their data, and none is to a sector it may not touch.
   */
  lemma RedoIff(fs: Dfs, img: Image, ws: seq<Write>)
    requires fs.layout.journal + JOURNAL_SECTORS <= |img|
    ensures var l, h := fs.layout, img[fs.layout.journal];
      Decide(fs, img) == Redo(ws) <==>
        && h[..8] == JOURNAL_MAGIC && h[8] == 1 && h[9] == |ws| && 1 <= |ws| <= 16
        && HoldsWrites(l, img, ws) && (forall i | 0 <= i < |ws| :: Legal(l, ws[i]))
        && Read32(h, 10) == Crc32(fs.crc, Covered(ws))
  {
    hide Read32, Covered, HoldsWrites, Journaled;
    if |ws| <= 16 {
      HoldsIff(fs.layout, img, ws);
      LegalIff(fs.layout, ws);
    }
    MagicIsSomething(img[fs.layout.journal]);
  }

  lemma LegalIff(l: Layout, ws: seq<Write>)
    ensures AllTargets(l, ws) <==> forall i | 0 <= i < |ws| :: Legal(l, ws[i])
  {}

  lemma MagicIsSomething(h: Sector)
    ensures h[..8] == JOURNAL_MAGIC ==> h != ZERO_SECTOR
  {
    assert ZERO_SECTOR[0] == 0;
    assert h[..8] == JOURNAL_MAGIC ==> h[0] == JOURNAL_MAGIC[0];
  }

  /** Otherwise there is nothing to do for an empty header, or for one marked done; anything else is refused. */
  lemma ElseIff(fs: Dfs, img: Image)
    requires fs.layout.journal + JOURNAL_SECTORS <= |img|
    ensures var h := img[fs.layout.journal];
      && (Decide(fs, img) == Idle <==> forall k | 0 <= k < 512 :: h[k] == 0)
      && (Decide(fs, img) == Discard <==> h[..8] == JOURNAL_MAGIC && h[8] == 0)
      && (Recovered(fs, img).Err? <==>
            Decide(fs, img) != Idle && Decide(fs, img) != Discard && forall ws :: Decide(fs, img) != Redo(ws))
  {
    hide Read32, Covered, Journaled, AllTargets;
    var h := img[fs.layout.journal];
    MagicIsSomething(h);
    assert (forall k | 0 <= k < 512 :: h[k] == 0) <==> h == ZERO_SECTOR;
  }

  /** The checksum is over every address and every byte of data: no two records of as many writes look the same to
    * it. */
  lemma {:induction false} CoversAll(a: seq<Write>, b: seq<Write>)
    requires |a| == |b| && Covered(a) == Covered(b)
    requires forall k | 0 <= k < |a| :: a[k].lba < U64_LIMIT && b[k].lba < U64_LIMIT
    ensures a == b
  {
    if a != [] {
      var n := |a| - 1;
      var c, d := Covered(a[..n]), Covered(b[..n]);
      CoveredLength(a[..n]);
      CoveredLength(b[..n]);
      var x, y := a[n], b[n];
      ThreeParts(c, Le(x.lba, 8), x.data, d, Le(y.lba, 8), y.data);
      Le64(x.lba);
      Le64(y.lba);
      CoversAll(a[..n], b[..n]);
      assert a == a[..n] + [x] && b == b[..n] + [y];
    }
  }

  lemma {:induction false} CoveredLength(ws: seq<Write>)
    ensures |Covered(ws)| == 520 * |ws|
  {
    if ws != [] {
      CoveredLength(ws[..|ws| - 1]);
    }
  }
}
