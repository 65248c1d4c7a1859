/** The set of sector updates that go to disk together. */
module DfsTransaction {
  import opened Bytes
  import opened Disks
  import opened DfsLayout

  function Position(ws: seq<Write>, lba: nat): (i: nat)
    ensures i <= |ws|
    ensures i < |ws| ==> ws[i].lba == lba
    ensures forall j :: 0 <= j < i ==> ws[j].lba != lba
    ensures i == |ws| ==> forall w :: w in ws ==> w.lba != lba
  {
    if ws == [] then 0
    else if ws[0].lba == lba then 0
    else 1 + Position(ws[1..], lba)
  }

  lemma {:induction false} PositionMisses(ws: seq<Write>, lba: nat)
    requires forall w | w in ws :: w.lba != lba
    ensures Position(ws, lba) == |ws|
  {
    if ws != [] {
      assert ws[0] in ws;
      PositionMisses(ws[1..], lba);
    }
  }

  /** The update list after `add`: the sector replaces an earlier update of the same address. */
  function Added(ws: seq<Write>, lba: nat, data: Sector): seq<Write> {
    var i := Position(ws, lba);
    if i < |ws| then ws[i := Write(lba, data)] else ws + [Write(lba, data)]
  }

  class Transaction {
    var writes: seq<Write>

    constructor ()
      ensures writes == []
    {
      writes := [];
    }

    /** A later write to a sector replaces an earlier one; sixteen different sectors fit. */
    method Add(lba: nat, data: Sector) returns (r: Result<(), DfsError>)
      requires |writes| <= TRANSACTION_SECTORS
      modifies this
      ensures |writes| <= TRANSACTION_SECTORS
      ensures r.Ok? <==> |old(writes)| < TRANSACTION_SECTORS || exists w :: w in old(writes) && w.lba == lba
      ensures r.Ok? ==> writes == Added(old(writes), lba, data)
      ensures r.Err? ==> r.error == JournalFull && writes == old(writes)
    {
      var index := 0;
      while index < |writes|
        invariant 0 <= index <= |writes| && writes == old(writes)
        invariant forall j :: 0 <= j < index ==> writes[j].lba != lba
      {
        if writes[index].lba == lba {
          assert Position(writes, lba) == index;
          assert writes[index] in old(writes);
          writes := writes[index := Write(lba, data)];
          return Ok(());
        }
        index := index + 1;
      }
      assert Position(writes, lba) == |writes|;
      if |writes| == TRANSACTION_SECTORS {
        return Err(JournalFull);
      }
      writes := writes + [Write(lba, data)];
      return Ok(());
    }
  }

  // ---------------------------------------------------------------- several updates

  /** The update list after adding `us` one after the other. */
  function Transacted(us: seq<Write>): (ws: seq<Write>) {
    if us == [] then []
    else Added(Transacted(us[..|us| - 1]), us[|us| - 1].lba, us[|us| - 1].data)
  }

  /** No sector is updated twice. */
  predicate OneEach(ws: seq<Write>) {
    forall i, j | 0 <= i < j < |ws| :: ws[i].lba != ws[j].lba
  }

  lemma TransactedNext(us: seq<Write>, k: nat)
    requires k < |us|
    ensures Transacted(us[..k + 1]) == Added(Transacted(us[..k]), us[k].lba, us[k].data)
  {
    assert us[..k + 1][..k] == us[..k];
  }

  lemma {:induction false} TransactedShape(us: seq<Write>)
    ensures |Transacted(us)| <= |us| && (us != [] ==> Transacted(us) != []) && OneEach(Transacted(us))
    ensures forall w | w in Transacted(us) :: w in us
  {
    if us != [] {
      var init, last := us[..|us| - 1], us[|us| - 1];
      TransactedShape(init);
      assert us == init + [last] && last == Write(last.lba, last.data);
    }
  }

  /** Where no sector is updated twice, each update is what its sector ends up with. */
  lemma ApplyOneEach(img: Image, ws: seq<Write>, k: nat)
    requires OneEach(ws) && k < |ws| && ws[k].lba < |img|
    ensures Apply(img, ws)[ws[k].lba] == ws[k].data
  {
    assert ws[k] in ws;
    ApplyAt(img, ws, ws[k].lba);
    var j :| 0 <= j < |ws| && ws[j] == Write(ws[k].lba, Apply(img, ws)[ws[k].lba]);
    assert j == k;
  }

  lemma AddedAt(img: Image, ws: seq<Write>, w: Write, l: nat)
    requires OneEach(ws) && OneEach(Added(ws, w.lba, w.data)) && l < |img|
    ensures Apply(img, Added(ws, w.lba, w.data))[l] == if l == w.lba then w.data else Apply(img, ws)[l]
  {
    hide Apply, Position;
    var i := Position(ws, w.lba);
    var after := Added(ws, w.lba, w.data);
    assert after[i] == w;
    if l == w.lba {
      ApplyOneEach(img, after, i);
    } else if exists k :: 0 <= k < |ws| && ws[k].lba == l {
      var k :| 0 <= k < |ws| && ws[k].lba == l;
      ApplyOneEach(img, ws, k);
      assert after[k] == ws[k];
      ApplyOneEach(img, after, k);
    } else {
      ApplyAt(img, ws, l);
      ApplyAt(img, after, l);
    }
  }

  /** Replacing the earlier update of a sector has the effect of carrying out both. */
  lemma AddedApplies(img: Image, ws: seq<Write>, w: Write)
    requires OneEach(ws) && OneEach(Added(ws, w.lba, w.data)) && w.lba < |img|
    ensures Apply(img, Added(ws, w.lba, w.data)) == Apply(img, ws)[w.lba := w.data]
  {
    hide Apply, Added, OneEach;
    forall l | 0 <= l < |img|
      ensures Apply(img, Added(ws, w.lba, w.data))[l] == Apply(img, ws)[w.lba := w.data][l]
    {
      AddedAt(img, ws, w, l);
    }
  }

  /** What is committed for a list of updates is what carrying them out in order gives. */
  lemma {:induction false} TransactedApplies(img: Image, us: seq<Write>)
    requires forall u | u in us :: u.lba < |img|
    ensures Apply(img, Transacted(us)) == Apply(img, us)
  {
    hide Added, OneEach;
    if us != [] {
      var init, last := us[..|us| - 1], us[|us| - 1];
      TransactedApplies(img, init);
      TransactedShape(init);
      TransactedShape(us);
      AddedApplies(img, Transacted(init), last);
      assert Apply(img, us) == Apply(img, init)[last.lba := last.data] by {
        assert last in us;
      }
    }
  }

  /** Updates a commit may carry: at most 16, each inside the partition and outside the journal. */
  ghost predicate Committable(l: Layout, ws: seq<Write>) {
    && 1 <= |ws| <= TRANSACTION_SECTORS
    && forall i | 0 <= i < |ws| :: Target(l, ws[i].lba) && ws[i].lba < U64_LIMIT
  }
}
