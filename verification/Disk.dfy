/** The block device under the filesystem: a disk with a volatile write cache.
  *
  * `durable` is what is on the platter, `pending` what was written since the last
  * flush.  Losing power keeps, for every sector, either the durable contents or one
  * of the writes pending for it: exactly what "any subset of the pending writes
  * survives" amounts to when a sector is written atomically (see `CrashIsSubset`).
  */
module Disks {
  import opened Bytes

  type Image = seq<Sector>

  datatype Write = Write(lba: nat, data: Sector)

  /** The writes `ws` carried out in order. */
  function Apply(img: Image, ws: seq<Write>): (r: Image)
    ensures |r| == |img|
  {
    if ws == [] then img
    else
      var before := Apply(img, ws[..|ws| - 1]);
      var w := ws[|ws| - 1];
      if w.lba < |before| then before[w.lba := w.data] else before
  }

  /** `img` may be left when power is lost with `pending` unflushed over `durable`. */
  ghost predicate CrashImage(durable: Image, pending: seq<Write>, img: Image) {
    && |img| == |durable|
    && forall l | 0 <= l < |durable| :: img[l] == durable[l] || Write(l, img[l]) in pending
  }

  /** The writes of `ws` selected by `keep`, in order. */
  function Kept(ws: seq<Write>, keep: seq<bool>): (r: seq<Write>)
    requires |keep| == |ws|
  {
    if ws == [] then []
    else
      var rest := Kept(ws[..|ws| - 1], keep[..|ws| - 1]);
      if keep[|ws| - 1] then rest + [ws[|ws| - 1]] else rest
  }

  /** A sector after `Apply` holds its old contents or one of the writes to it; the former only
    * if nothing was written to it. */
  lemma {:induction false} ApplyAt(img: Image, ws: seq<Write>, l: nat)
    requires l < |img|
    ensures Apply(img, ws)[l] == img[l] || Write(l, Apply(img, ws)[l]) in ws
    ensures (exists w :: w in ws && w.lba == l) ==> Write(l, Apply(img, ws)[l]) in ws
    ensures (forall w :: w in ws ==> w.lba != l) ==> Apply(img, ws)[l] == img[l]
  {
    if ws != [] {
      var last := ws[|ws| - 1];
      ApplyAt(img, ws[..|ws| - 1], l);
      assert ws == ws[..|ws| - 1] + [last];
    }
  }

  lemma ApplyOneMore(img: Image, ws: seq<Write>, w: Write)
    requires w.lba < |img|
    ensures Apply(img, ws + [w]) == Apply(img, ws)[w.lba := w.data]
  {
    assert (ws + [w])[..|ws|] == ws;
  }

  /** Redoing `ws` gives the same sector whatever it held before, if `ws` writes it. */
  lemma {:induction false} ApplyForgets(a: Image, b: Image, ws: seq<Write>, l: nat)
    requires |a| == |b| && l < |a|
    requires a[l] == b[l] || exists w :: w in ws && w.lba == l
    ensures Apply(a, ws)[l] == Apply(b, ws)[l]
  {
    if ws != [] {
      var last := ws[|ws| - 1];
      assert ws == ws[..|ws| - 1] + [last];
      if last.lba != l {
        ApplyForgets(a, b, ws[..|ws| - 1], l);
      }
    }
  }

  lemma ViewIsCrashImage(durable: Image, pending: seq<Write>)
    ensures CrashImage(durable, pending, Apply(durable, pending))
    ensures CrashImage(durable, pending, durable)
  {
    forall l | 0 <= l < |durable|
      ensures Apply(durable, pending)[l] == durable[l] || Write(l, Apply(durable, pending)[l]) in pending
    {
      ApplyAt(durable, pending, l);
    }
  }

  /** Keep, for every sector `l < n`, exactly the first pending write carrying `img[l]`. */
  ghost function Selection(pending: seq<Write>, img: Image, durable: Image): (keep: seq<bool>)
    ensures |keep| == |pending|
  {
    seq(|pending|, i requires 0 <= i < |pending| =>
      pending[i].lba < |img| && pending[i].lba < |durable|
      && img[pending[i].lba] != durable[pending[i].lba]
      && img[pending[i].lba] == pending[i].data)
  }

  lemma {:induction false} KeptIn(ws: seq<Write>, keep: seq<bool>, w: Write)
    requires |keep| == |ws|
    ensures w in Kept(ws, keep) <==> exists i :: 0 <= i < |ws| && keep[i] && ws[i] == w
  {
    if ws != [] {
      var n := |ws| - 1;
      KeptIn(ws[..n], keep[..n], w);
      if exists i :: 0 <= i < |ws| && keep[i] && ws[i] == w {
        var i :| 0 <= i < |ws| && keep[i] && ws[i] == w;
        if i < n {
          assert ws[..n][i] == w && keep[..n][i];
        }
      }
    }
  }

  /** The per-sector form of `CrashImage` is the subset form. */
  lemma CrashIsSubset(durable: Image, pending: seq<Write>, img: Image)
    ensures CrashImage(durable, pending, img) <==>
            exists keep: seq<bool> :: |keep| == |pending| && img == Apply(durable, Kept(pending, keep))
  {
    if CrashImage(durable, pending, img) {
      var keep := Selection(pending, img, durable);
      var kept := Kept(pending, keep);
      forall l | 0 <= l < |durable|
        ensures img[l] == Apply(durable, kept)[l]
      {
        ApplyAt(durable, kept, l);
        forall w | w in kept && w.lba == l
          ensures w.data == img[l] && img[l] != durable[l]
        {
          KeptIn(pending, keep, w);
        }
        if img[l] != durable[l] {
          var w := Write(l, img[l]);
          var i :| 0 <= i < |pending| && pending[i] == w;
          assert keep[i];
          KeptIn(pending, keep, w);
        }
      }
      assert img == Apply(durable, kept);
    }
    forall keep: seq<bool> | |keep| == |pending| && img == Apply(durable, Kept(pending, keep))
      ensures CrashImage(durable, pending, img)
    {
      forall l | 0 <= l < |durable|
        ensures img[l] == durable[l] || Write(l, img[l]) in pending
      {
        ApplyAt(durable, Kept(pending, keep), l);
        KeptIn(pending, keep, Write(l, img[l]));
      }
    }
  }

  class Disk {
    var durable: Image
    var pending: seq<Write>
    /** Every image that a power loss at some moment so far could have left. */
    ghost var crashes: iset<Image>

    constructor (contents: Image)
      ensures durable == contents && pending == []
      ensures crashes == iset{contents}
    {
      durable, pending := contents, [];
      crashes := iset{contents};
    }

    /** What the machine reads back: the platter under the cache. */
    function View(): (img: Image)
      reads this
    {
      Apply(durable, pending)
    }

    /** The cache answers first, newest write first. */
    method ReadSector(lba: nat) returns (data: Sector)
      requires lba < |durable|
      ensures data == View()[lba]
    {
      var i := |pending|;
      assert pending[..i] == pending;
      while i > 0
        invariant 0 <= i <= |pending|
        invariant View()[lba] == Apply(durable, pending[..i])[lba]
      {
        i := i - 1;
        assert pending[..i + 1][..i] == pending[..i];
        if pending[i].lba == lba {
          return pending[i].data;
        }
      }
      data := durable[lba];
    }

    /** The write stays pending; from now on a power loss may or may not keep it. */
    method WriteSector(lba: nat, data: Sector)
      requires lba < |durable|
      modifies this
      ensures durable == old(durable) && pending == old(pending) + [Write(lba, data)]
      ensures View() == old(View())[lba := data]
      ensures crashes == old(crashes) + (iset c | CrashImage(durable, pending, c))
    {
      pending := pending + [Write(lba, data)];
      assert pending[..|pending| - 1] == old(pending);
      crashes := crashes + (iset c | CrashImage(durable, pending, c));
    }

    /** Everything pending becomes durable. */
    method Flush()
      modifies this
      ensures durable == old(View()) && pending == []
      ensures crashes == old(crashes) + iset{durable}
    {
      durable := View();
      pending := [];
      crashes := crashes + iset{durable};
    }
  }
}
