/** Inodes and their sectors. */
module DfsNode {
  import opened Bytes
  import opened Crc
  import opened Records
  import opened DfsLayout

  const MAX_EXTENTS := 14
  const MAX_PATH := 255
  const NODE_KIND_OFFSET := 256
  const NODE_EXTENTS_OFFSET := 280
  const NODE_CHECKSUM_OFFSET := 508
  const NODE_FILE: byte := 1
  const NODE_DIRECTORY: byte := 2

  type Path = seq<byte>

  /** `count` consecutive sectors from `start` that hold the file's sectors from `logical` on. */
  datatype Extent = Extent(start: u64, logical: u32, count: u32)

  datatype Node = Node(
    kind: byte, path: Path, size: u64, mode: u16, uid: u32, gid: u32, extents: seq<Extent>)

  const EMPTY_NODE := Node(0, [], 0, 0, 0, 0, [])

  /** What `encode_node` accepts. */
  predicate Encodable(node: Node) {
    node.kind == 0 || (|node.path| <= MAX_PATH && |node.extents| <= MAX_EXTENTS)
  }

  /** What `decode_node` can produce for a live inode, apart from the NUL rule. */
  ghost predicate Storable(node: Node) {
    && (node.kind == NODE_FILE || node.kind == NODE_DIRECTORY)
    && |node.path| <= MAX_PATH && |node.extents| <= MAX_EXTENTS
    && (node.kind == NODE_DIRECTORY ==> node.extents == [])
    && forall k | 0 <= k < |node.extents| :: node.extents[k].count != 0
  }

  function ExtentBytes(e: Extent): (b: seq<byte>)
    ensures |b| == 16
  {
    Le(e.start, 8) + Le(e.logical, 4) + Le(e.count, 4)
  }

  function HeadFields(node: Node): (fields: seq<Field>)
    requires |node.path| <= MAX_PATH && |node.extents| <= MAX_EXTENTS
    ensures Within(fields, NODE_EXTENTS_OFFSET)
  {
    [ Field(0, node.path),
      Field(256, [node.kind]),
      Field(257, Le(|node.extents|, 1)),
      Field(258, Le(node.mode, 2)),
      Field(260, Le(node.uid, 4)),
      Field(264, Le(node.gid, 4)),
      Field(268, Le(node.size, 8)) ]
  }

  function ExtentFields(extents: seq<Extent>): (fields: seq<Field>)
    ensures |fields| == |extents|
  {
    seq(|extents|, k requires 0 <= k < |extents| => Field(NODE_EXTENTS_OFFSET + k * 16, ExtentBytes(extents[k])))
  }

  function NodeFields(node: Node): (fields: seq<Field>)
    requires |node.path| <= MAX_PATH && |node.extents| <= MAX_EXTENTS
    ensures Within(fields, NODE_CHECKSUM_OFFSET)
  {
    HeadFields(node) + ExtentFields(node.extents)
  }

  /** The sector an inode is stored as. */
  function NodeSector(step: ByteStep, node: Node): Sector
    requires Encodable(node)
  {
    if node.kind == 0 then ZERO_SECTOR
    else
      var body := Filled(ZERO_SECTOR, NodeFields(node));
      Put(body, NODE_CHECKSUM_OFFSET, Le(Crc32(step, body[..NODE_CHECKSUM_OFFSET]), 4))
  }

  /** `encode_node`: refused when the path or the extents do not fit, or the kind is none. */
  method EncodeNode(step: ByteStep, node: Node) returns (r: Result<Sector, DfsError>)
    ensures r.Ok? <==> Encodable(node)
    ensures r.Ok? ==> r.value == NodeSector(step, node)
    ensures r.Err? ==> r.error == CorruptMetadata
  {
    if node.kind == 0 {
      return Ok(ZERO_SECTOR);
    }
    if |node.path| > MAX_PATH || |node.extents| > MAX_EXTENTS {
      return Err(CorruptMetadata);
    }
    var sector := FillHead(node);
    sector := FillExtents(node, sector);
    var sum := Crc32(step, sector[..NODE_CHECKSUM_OFFSET]);
    sector := Put(sector, NODE_CHECKSUM_OFFSET, Le(sum, 4));
    return Ok(sector);
  }

  method FillExtents(node: Node, begun: seq<byte>) returns (sector: seq<byte>)
    requires |node.path| <= MAX_PATH && |node.extents| <= MAX_EXTENTS
    requires Within(HeadFields(node), SECTOR_SIZE) && begun == Filled(ZERO_SECTOR, HeadFields(node))
    ensures sector == Filled(ZERO_SECTOR, NodeFields(node))
  {
    hide Put, Filled, HeadFields, ExtentBytes;
    sector := begun;
    ghost var head := HeadFields(node);
    ghost var all := ExtentFields(node.extents);
    assert head + all[..0] == head;
    for index := 0 to |node.extents|
      invariant |sector| == SECTOR_SIZE
      invariant Within(head + all[..index], SECTOR_SIZE)
      invariant sector == Filled(ZERO_SECTOR, head + all[..index])
    {
      FilledStep(ZERO_SECTOR, head + all[..index], all[index]);
      assert head + all[..index] + [all[index]] == head + all[..index + 1];
      sector := Put(sector, NODE_EXTENTS_OFFSET + index * 16, ExtentBytes(node.extents[index]));
    }
    assert all[..|node.extents|] == all;
  }

  method FillHead(node: Node) returns (sector: Sector)
    requires |node.path| <= MAX_PATH && |node.extents| <= MAX_EXTENTS
    ensures Within(HeadFields(node), SECTOR_SIZE)
    ensures sector == Filled(ZERO_SECTOR, HeadFields(node))
  {
    hide Put, Le, Filled, Within;
    ghost var f := HeadFields(node);
    FilledNothing(ZERO_SECTOR);
    assert f[..0] == [];
    sector := Put(ZERO_SECTOR, 0, node.path);
    FilledFrom(ZERO_SECTOR, f, NODE_EXTENTS_OFFSET, 0);
    sector := Put(sector, 256, [node.kind]);
    FilledFrom(ZERO_SECTOR, f, NODE_EXTENTS_OFFSET, 1);
    sector := Put(sector, 257, Le(|node.extents|, 1));
    FilledFrom(ZERO_SECTOR, f, NODE_EXTENTS_OFFSET, 2);
    sector := Put(sector, 258, Le(node.mode, 2));
    FilledFrom(ZERO_SECTOR, f, NODE_EXTENTS_OFFSET, 3);
    sector := Put(sector, 260, Le(node.uid, 4));
    FilledFrom(ZERO_SECTOR, f, NODE_EXTENTS_OFFSET, 4);
    sector := Put(sector, 264, Le(node.gid, 4));
    FilledFrom(ZERO_SECTOR, f, NODE_EXTENTS_OFFSET, 5);
    sector := Put(sector, 268, Le(node.size, 8));
    FilledFrom(ZERO_SECTOR, f, NODE_EXTENTS_OFFSET, 6);
  }

  // ---------------------------------------------------------------- decoding

  /** The bytes before the first NUL. */
  function CutAtNul(b: seq<byte>): (p: seq<byte>)
    ensures |p| <= |b| && p == b[..|p|] && 0 !in p
    ensures |p| < |b| ==> b[|p|] == 0
  {
    if b == [] || b[0] == 0 then [] else [b[0]] + CutAtNul(b[1..])
  }

  function ExtentAt(s: Sector, k: nat): Extent
    requires k < MAX_EXTENTS
  {
    Extent(Read64(s, NODE_EXTENTS_OFFSET + k * 16),
           Read32(s, NODE_EXTENTS_OFFSET + k * 16 + 8),
           Read32(s, NODE_EXTENTS_OFFSET + k * 16 + 12))
  }

  function ExtentsOf(s: Sector, n: nat): (es: seq<Extent>)
    requires n <= MAX_EXTENTS
    ensures |es| == n
  {
    seq(n, k requires 0 <= k < n => ExtentAt(s, k))
  }

  predicate AllCounted(es: seq<Extent>) {
    forall e | e in es :: e.count != 0
  }

  function FieldsNode(s: Sector, n: nat): Node
    requires n <= MAX_EXTENTS
  {
    Node(s[NODE_KIND_OFFSET], CutAtNul(s[..MAX_PATH]), Read64(s, 268), Read16(s, 258), Read32(s, 260),
         Read32(s, 264), ExtentsOf(s, n))
  }

  /** `decode_node`. */
  function DecodeNode(step: ByteStep, s: Sector): (r: Result<Node, DfsError>)
    ensures r.Ok? ==> r.value == EMPTY_NODE || (Storable(r.value) && 0 !in r.value.path)
  {
    if s[NODE_KIND_OFFSET] == 0 then Ok(EMPTY_NODE)
    else if Crc32(step, s[..NODE_CHECKSUM_OFFSET]) != Read32(s, NODE_CHECKSUM_OFFSET) then Err(CorruptMetadata)
    else if s[NODE_KIND_OFFSET] != NODE_FILE && s[NODE_KIND_OFFSET] != NODE_DIRECTORY then Err(CorruptMetadata)
    else if s[257] > MAX_EXTENTS || (s[NODE_KIND_OFFSET] == NODE_DIRECTORY && s[257] != 0) then Err(CorruptMetadata)
    else if !AllCounted(ExtentsOf(s, s[257])) then Err(CorruptMetadata)
    else Ok(FieldsNode(s, s[257]))
  }

  /** The bytes up to the first NUL, found by scanning. */
  method PathLength(b: seq<byte>) returns (n: nat)
    ensures n == |CutAtNul(b)|
  {
    n := 0;
    assert b[..0] == [] && b[0..] == b;
    while n < |b| && b[n] != 0
      invariant n <= |b| && |CutAtNul(b)| == n + |CutAtNul(b[n..])|
    {
      assert b[n..][1..] == b[n + 1..];
      n := n + 1;
    }
  }

  /** The extent loop of `decode_node`: an extent of no sectors is refused. */
  method LoadExtents(s: Sector, n: nat) returns (r: Result<seq<Extent>, DfsError>)
    requires n <= MAX_EXTENTS
    ensures r == if AllCounted(ExtentsOf(s, n)) then Ok(ExtentsOf(s, n)) else Err(CorruptMetadata)
  {
    hide ExtentAt;
    var es := [];
    ghost var all := ExtentsOf(s, n);
    for index := 0 to n
      invariant es == all[..index] && AllCounted(es)
    {
      var e := ExtentAt(s, index);
      assert all[index] == e && e in all;
      if e.count == 0 {
        return Err(CorruptMetadata);
      }
      es := es + [e];
    }
    assert es == all;
    return Ok(es);
  }

  /** `decode_node` with its loops. */
  method LoadNode(step: ByteStep, s: Sector) returns (r: Result<Node, DfsError>)
    ensures r == DecodeNode(step, s)
  {
    hide ExtentsOf, AllCounted;
    var kind := s[NODE_KIND_OFFSET];
    if kind == 0 {
      return Ok(EMPTY_NODE);
    }
    var expected := Read32(s, NODE_CHECKSUM_OFFSET);
    if Crc32(step, s[..NODE_CHECKSUM_OFFSET]) != expected {
      return Err(CorruptMetadata);
    }
    var pathLength := PathLength(s[..MAX_PATH]);
    if (kind != NODE_FILE && kind != NODE_DIRECTORY) || pathLength > MAX_PATH {
      return Err(CorruptMetadata);
    }
    var count: nat := s[NODE_KIND_OFFSET + 1];
    if count > MAX_EXTENTS || (kind == NODE_DIRECTORY && count != 0) {
      return Err(CorruptMetadata);
    }
    var extents :- LoadExtents(s, count);
    assert s[..MAX_PATH][..pathLength] == s[..pathLength];
    return Ok(Node(kind, s[..pathLength], Read64(s, 268), Read16(s, 258), Read32(s, 260), Read32(s, 264), extents));
  }

  lemma {:induction false} CutPadded(p: Path, rest: seq<byte>)
    requires rest != [] ==> rest[0] == 0
    ensures CutAtNul(p + rest) == CutAtNul(p)
  {
    if p == [] {
      assert p + rest == rest;
    } else if p[0] != 0 {
      CutPadded(p[1..], rest);
      assert (p + rest)[1..] == p[1..] + rest;
    }
  }

  lemma {:induction false} CutIsWhole(p: Path)
    ensures CutAtNul(p) == p <==> 0 !in p
  {
    if p != [] && p[0] != 0 {
      CutIsWhole(p[1..]);
      assert p == [p[0]] + p[1..];
    }
  }

  /** The fields before the extents, in order. */
  lemma HeadFieldsApart(node: Node)
    requires |node.path| <= MAX_PATH && |node.extents| <= MAX_EXTENTS
    ensures Disjoint(HeadFields(node))
    ensures forall f | f in HeadFields(node) :: f.at == 0 || f.at >= 256
    ensures forall f | f in HeadFields(node) :: f.at == 0 ==> Past(f) == |node.path|
  {
    hide Le;
    Ascending(HeadFields(node));
  }

  lemma NodeFieldsDisjoint(node: Node)
    requires |node.path| <= MAX_PATH && |node.extents| <= MAX_EXTENTS
    ensures Disjoint(NodeFields(node))
    ensures forall f | f in NodeFields(node) :: |node.path| <= MAX_PATH && (f.at == 0 ==> Past(f) == |node.path|)
    ensures forall f | f in NodeFields(node) :: f.at == 0 || f.at >= 256
  {
    hide Le, ExtentBytes, HeadFields;
    HeadFieldsApart(node);
    var fields, head := NodeFields(node), HeadFields(node);
    forall i, j | 0 <= i < j < |fields|
      ensures Apart(fields[i], fields[j])
    {
      if |head| <= j {
        assert fields[j] == ExtentFields(node.extents)[j - |head|];
        if |head| <= i {
          assert fields[i] == ExtentFields(node.extents)[i - |head|];
        } else {
          assert fields[i] == head[i] && head[i] in head;
        }
      } else {
        assert fields[i] == head[i] && fields[j] == head[j];
      }
    }
  }

  /** A field of the inode as found in the finished sector. */
  lemma SectorField(step: ByteStep, node: Node, k: nat)
    requires Storable(node) && k < |NodeFields(node)|
    ensures NodeFields(node)[k] in NodeFields(node)
    ensures var f := NodeFields(node)[k]; NodeSector(step, node)[f.at..Past(f)] == f.bytes
  {
    var body := Filled(ZERO_SECTOR, NodeFields(node));
    var f := NodeFields(node)[k];
    NodeFieldsDisjoint(node);
    FilledReads(ZERO_SECTOR, NodeFields(node), k);
    PutElsewhere(body, NODE_CHECKSUM_OFFSET, Le(Crc32(step, body[..NODE_CHECKSUM_OFFSET]), 4), f.at, Past(f));
  }

  lemma OneByte(v: byte)
    ensures Le(v, 1) == [v]
  {
    assert Le(v / 256, 0) == [];
  }

  lemma SectorTags(step: ByteStep, node: Node)
    requires Storable(node)
    ensures var s := NodeSector(step, node);
      s[NODE_KIND_OFFSET] == node.kind && s[257] == |node.extents|
  {
    hide NodeSector, Put, Filled;
    var s := NodeSector(step, node);
    OneByte(|node.extents|);
    SectorField(step, node, 1);
    assert s[256..257] == [node.kind];
    assert s[256] == s[256..257][0];
    SectorField(step, node, 2);
    assert s[257..258] == [|node.extents|];
    assert s[257] == s[257..258][0];
  }

  lemma SectorScalars(step: ByteStep, node: Node)
    requires Storable(node)
    ensures var s := NodeSector(step, node);
      && Read16(s, 258) == node.mode && Read32(s, 260) == node.uid && Read32(s, 264) == node.gid
      && Read64(s, 268) == node.size
  {
    hide NodeSector, Le, FromLe;
    SectorField(step, node, 3);
    Le16(node.mode);
    SectorField(step, node, 4);
    Le32(node.uid);
    SectorField(step, node, 5);
    Le32(node.gid);
    SectorField(step, node, 6);
    Le64(node.size);
  }

  lemma ExtentReads(s: Sector, at: nat, e: Extent)
    requires at + 16 <= |s| && s[at..at + 16] == ExtentBytes(e)
    ensures Read64(s, at) == e.start && Read32(s, at + 8) == e.logical && Read32(s, at + 12) == e.count
  {
    var x, y, z := Le(e.start, 8), Le(e.logical, 4), Le(e.count, 4);
    SubSlice(s, at, 16, 0, 8);
    SubSlice(s, at, 16, 8, 12);
    SubSlice(s, at, 16, 12, 16);
    assert (x + y + z)[0..8] == x && (x + y + z)[8..12] == y && (x + y + z)[12..16] == z;
    Le64(e.start);
    Le32(e.logical);
    Le32(e.count);
  }

  lemma ExtentField(node: Node, k: nat)
    requires Storable(node) && k < |node.extents|
    ensures 7 + k < |NodeFields(node)|
    ensures NodeFields(node)[7 + k] == Field(NODE_EXTENTS_OFFSET + k * 16, ExtentBytes(node.extents[k]))
  {
    hide ExtentBytes, Le;
    assert NodeFields(node)[7 + k] == ExtentFields(node.extents)[k];
  }

  lemma SectorExtents(step: ByteStep, node: Node)
    requires Storable(node)
    ensures ExtentsOf(NodeSector(step, node), |node.extents|) == node.extents
  {
    hide NodeSector, NodeFields, Put, Filled, Le, FromLe, ExtentBytes;
    var s := NodeSector(step, node);
    forall k | 0 <= k < |node.extents|
      ensures ExtentAt(s, k) == node.extents[k]
    {
      ExtentField(node, k);
      SectorField(step, node, 7 + k);
      ExtentReads(s, NODE_EXTENTS_OFFSET + k * 16, node.extents[k]);
    }
  }

  lemma SectorPath(step: ByteStep, node: Node)
    requires Storable(node)
    ensures CutAtNul(NodeSector(step, node)[..MAX_PATH]) == CutAtNul(node.path)
  {
    var s := NodeSector(step, node);
    var n := |node.path|;
    var body := Filled(ZERO_SECTOR, NodeFields(node));
    SectorField(step, node, 0);
    assert NodeFields(node)[0] == Field(0, node.path);
    NodeFieldsDisjoint(node);
    FilledElsewhere(ZERO_SECTOR, NodeFields(node), n, MAX_PATH);
    PutElsewhere(body, NODE_CHECKSUM_OFFSET, Le(Crc32(step, body[..NODE_CHECKSUM_OFFSET]), 4), n, MAX_PATH);
    PathPadded(s, node.path);
  }

  lemma PathPadded(s: Sector, p: Path)
    requires |p| <= MAX_PATH && s[0..|p|] == p && s[|p|..MAX_PATH] == ZERO_SECTOR[|p|..MAX_PATH]
    ensures CutAtNul(s[..MAX_PATH]) == CutAtNul(p)
  {
    var rest := s[|p|..MAX_PATH];
    assert s[..MAX_PATH] == s[0..|p|] + rest;
    CutPadded(p, rest);
  }

  lemma SectorChecksum(step: ByteStep, node: Node)
    requires Storable(node)
    ensures var s := NodeSector(step, node);
      Read32(s, NODE_CHECKSUM_OFFSET) == Crc32(step, s[..NODE_CHECKSUM_OFFSET])
  {
    var s := NodeSector(step, node);
    var body := Filled(ZERO_SECTOR, NodeFields(node));
    Le32(Crc32(step, body[..NODE_CHECKSUM_OFFSET]));
    assert s[..NODE_CHECKSUM_OFFSET] == body[..NODE_CHECKSUM_OFFSET];
    assert s[NODE_CHECKSUM_OFFSET..NODE_CHECKSUM_OFFSET + 4] == Le(Crc32(step, body[..NODE_CHECKSUM_OFFSET]), 4);
  }

  /** An inode as it reads back: its path ends at the first NUL. */
  function ReadBack(node: Node): Node { node.(path := CutAtNul(node.path)) }

  /** A stored inode reads back as itself, except that its path ends at the first NUL byte; so it
    * reads back unchanged exactly when the path holds no NUL. */
  lemma NodeRoundTrip(step: ByteStep, node: Node)
    requires Storable(node)
    ensures DecodeNode(step, NodeSector(step, node)) == Ok(ReadBack(node))
    ensures DecodeNode(step, NodeSector(step, node)) == Ok(node) <==> 0 !in node.path
  {
    SectorTags(step, node);
    SectorScalars(step, node);
    SectorExtents(step, node);
    SectorPath(step, node);
    SectorChecksum(step, node);
    CutIsWhole(node.path);
  }

  /** A zeroed sector is the empty inode, with no checksum looked at. */
  lemma EmptyRoundTrip(step: ByteStep)
    ensures DecodeNode(step, ZERO_SECTOR) == Ok(EMPTY_NODE)
    ensures NodeSector(step, EMPTY_NODE) == ZERO_SECTOR
  {}
}
