/** Which inode sectors are accepted. */
module DfsDecoding {
  import opened Bytes
  import opened Crc
  import opened Records
  import opened DfsLayout
  import opened DfsNode

  lemma ByteField(s: Sector, at: nat, v: byte)
    requires at < SECTOR_SIZE
    ensures HoldsField(s, Field(at, [v])) <==> s[at] == v
    ensures Le(v, 1) == [v]
  {
    OneByte(v);
    assert s[at..at + 1] == [s[at]];
  }

  lemma ExtentFieldIff(s: Sector, k: nat, e: Extent)
    requires k < MAX_EXTENTS
    ensures HoldsField(s, Field(NODE_EXTENTS_OFFSET + k * 16, ExtentBytes(e))) <==> ExtentAt(s, k) == e
  {
    hide Le, FromLe;
    var at := NODE_EXTENTS_OFFSET + k * 16;
    Field64(s, at, e.start);
    Field32(s, at + 8, e.logical);
    Field32(s, at + 12, e.count);
    var a, b, c := s[at..at + 8], s[at + 8..at + 12], s[at + 12..at + 16];
    assert s[at..at + 16] == a + b + c;
    ThreeParts(a, b, c, Le(e.start, 8), Le(e.logical, 4), Le(e.count, 4));
  }

  lemma ExtentsIff(s: Sector, es: seq<Extent>)
    requires |es| <= MAX_EXTENTS
    ensures (forall k | 0 <= k < |es| :: HoldsField(s, ExtentFields(es)[k])) <==> ExtentsOf(s, |es|) == es
  {
    hide HoldsField, ExtentAt, ExtentBytes;
    forall k | 0 <= k < |es|
      ensures HoldsField(s, ExtentFields(es)[k]) <==> ExtentAt(s, k) == es[k]
    {
      ExtentFieldIff(s, k, es[k]);
    }
    if ExtentsOf(s, |es|) == es {
      forall k | 0 <= k < |es|
        ensures HoldsField(s, ExtentFields(es)[k])
      {
        assert ExtentsOf(s, |es|)[k] == es[k];
      }
    }
  }

  lemma HeadIff(s: Sector, n: Node)
    requires |n.path| <= MAX_PATH && |n.extents| <= MAX_EXTENTS
    ensures (forall k | 0 <= k < 7 :: HoldsField(s, HeadFields(n)[k])) <==>
      && s[..|n.path|] == n.path && s[256] == n.kind && s[257] == |n.extents|
      && Read16(s, 258) == n.mode && Read32(s, 260) == n.uid && Read32(s, 264) == n.gid && Read64(s, 268) == n.size
  {
    hide HoldsField, Le, Read16, Read32, Read64;
    PathField(s, n.path);
    ByteField(s, 256, n.kind);
    ByteField(s, 257, |n.extents|);
    Field16(s, 258, n.mode);
    Field32(s, 260, n.uid);
    Field32(s, 264, n.gid);
    Field64(s, 268, n.size);
    var f := HeadFields(n);
    assert f[0] == Field(0, n.path) && f[1] == Field(256, [n.kind]) && f[2] == Field(257, [|n.extents|]);
    assert f[3] == Field(258, Le(n.mode, 2)) && f[4] == Field(260, Le(n.uid, 4)) && f[5] == Field(264, Le(n.gid, 4));
    assert f[6] == Field(268, Le(n.size, 8));
  }

  lemma PathField(s: Sector, p: Path)
    requires |p| <= MAX_PATH
    ensures HoldsField(s, Field(0, p)) <==> s[..|p|] == p
  {
    assert s[0..|p|] == s[..|p|];
  }

  lemma FieldsSplit(s: Sector, n: Node)
    requires |n.path| <= MAX_PATH && |n.extents| <= MAX_EXTENTS
    ensures HoldsFields(s, NodeFields(n)) <==>
      && (forall k | 0 <= k < 7 :: HoldsField(s, HeadFields(n)[k]))
      && (forall k | 0 <= k < |n.extents| :: HoldsField(s, ExtentFields(n.extents)[k]))
  {
    hide HoldsField, HeadFields, ExtentFields;
    var f, head, es := NodeFields(n), HeadFields(n), ExtentFields(n.extents);
    SevenFields(n);
    assert forall k | 0 <= k < 7 :: f[k] == head[k];
    assert forall k | 0 <= k < |es| :: f[7 + k] == es[k];
    if HoldsFields(s, f) {
      forall k | 0 <= k < |es|
        ensures HoldsField(s, es[k])
      {
        assert HoldsField(s, f[7 + k]);
      }
    }
    if (forall k | 0 <= k < 7 :: HoldsField(s, head[k])) && (forall k | 0 <= k < |es| :: HoldsField(s, es[k])) {
      forall k | 0 <= k < |f|
        ensures HoldsField(s, f[k])
      {
        assert f[k] == if k < 7 then head[k] else es[k - 7];
      }
    }
  }

  lemma SevenFields(n: Node)
    requires |n.path| <= MAX_PATH && |n.extents| <= MAX_EXTENTS
    ensures |HeadFields(n)| == 7
  {}

  /** A path fills its field or a NUL follows it. */
  ghost predicate EndsThere(s: Sector, p: Path) {
    0 !in p && |p| <= 255 && s[..|p|] == p && (|p| < 255 ==> s[|p|] == 0)
  }

  lemma {:induction false} CutIs(b: seq<byte>, p: Path)
    ensures CutAtNul(b) == p <==> 0 !in p && |p| <= |b| && b[..|p|] == p && (|p| < |b| ==> b[|p|] == 0)
  {
    if 0 !in p && |p| <= |b| && b[..|p|] == p && (|p| < |b| ==> b[|p|] == 0) {
      CutPadded(p, b[|p|..]);
      CutIsWhole(p);
      assert b == p + b[|p|..];
    }
  }

  lemma PathIff(s: Sector, p: Path)
    ensures CutAtNul(s[..MAX_PATH]) == p <==> EndsThere(s, p)
  {
    CutIs(s[..MAX_PATH], p);
    if |p| <= MAX_PATH {
      assert s[..MAX_PATH][..|p|] == s[..|p|];
    }
  }

  /** A sector is accepted as a live inode exactly when it is one of a file or directory, holds every field that is
    * written for it, its path ends there, and the checksum is right; and as an empty one whenever its kind is 0. */
  lemma NodeIff(step: ByteStep, s: Sector, n: Node)
    ensures DecodeNode(step, s) == Ok(n) <==>
      if n.kind == 0 then n == EMPTY_NODE && s[256] == 0
      else
        && Storable(n) && EndsThere(s, n.path) && HoldsFields(s, NodeFields(n))
        && HoldsField(s, Field(508, Le(Crc32(step, s[..508]), 4)))
  {
    hide HoldsFields, HoldsField, Le, NodeFields, HeadFields, ExtentFields, ExtentsOf, EndsThere, Read16, Read32,
      Read64;
    Field32(s, 508, Crc32(step, s[..508]));
    PathIff(s, n.path);
    if Storable(n) {
      FieldsSplit(s, n);
      HeadIff(s, n);
      ExtentsIff(s, n.extents);
      EndsMeans(s, n.path);
      CountedIs(n);
    }
  }

  lemma EndsMeans(s: Sector, p: Path)
    ensures EndsThere(s, p) ==> |p| <= 255 && s[..|p|] == p
  {}

  lemma CountedIs(n: Node)
    ensures AllCounted(n.extents) <==> forall k | 0 <= k < |n.extents| :: n.extents[k].count != 0
  {}
}
