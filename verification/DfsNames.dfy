/** Names for new inodes: which ones `create_node` accepts, and which of those keep the paths a tree. */
module DfsNames {
  import opened Bytes
  import opened DfsLayout
  import opened DfsNode
  import opened DfsPath
  import opened DfsState

  ghost predicate HasFree(nodes: seq<Node>) {
    exists i :: 1 <= i < |nodes| && !Live(nodes[i])
  }

  /** What `create_node` answers. */
  ghost function CreateVerdict(nodes: seq<Node>, path: Path): Result<(), DfsError> {
    if Find(nodes, path).Some? then Err(AlreadyExists)
    else if Find(nodes, ParentPath(path)).None? then Err(NotDirectory)
    else if nodes[Find(nodes, ParentPath(path)).value].kind != NODE_DIRECTORY then Err(NotDirectory)
    else if !HasFree(nodes) then Err(NoSpace)
    else Ok(())
  }

  /** Which answer: whether something has the path, whether a directory has its parent's, whether a slot is free. */
  lemma CreateAnswers(nodes: seq<Node>, path: Path)
    requires Tree(nodes)
    ensures var taken := exists i :: 0 <= i < |nodes| && nodes[i].kind != 0 && nodes[i].path == path;
      var under := exists i :: 0 <= i < |nodes| && nodes[i].kind == NODE_DIRECTORY && nodes[i].path == ParentPath(path);
      var free := exists i :: 1 <= i < |nodes| && nodes[i].kind == 0;
      CreateVerdict(nodes, path) ==
        if taken then Err(AlreadyExists)
        else if !under then Err(NotDirectory)
        else if !free then Err(NoSpace)
        else Ok(())
  {
    if i :| 0 <= i < |nodes| && nodes[i].kind == NODE_DIRECTORY && nodes[i].path == ParentPath(path) {
      FindUnique(nodes, i);
    }
  }

  function NewNode(path: Path, kind: byte, mode: u16, uid: u32, gid: u32): Node {
    Node(kind, path, 0, mode, uid, gid, [])
  }

  /** The name a new inode is read back under is one that can be looked up and that no inode has yet. */
  ghost predicate KeepsTree(nodes: seq<Node>, path: Path) {
    Named(CutAtNul(path)) && Find(nodes, CutAtNul(path)).None?
  }

  // ---------------------------------------------------------------- when paths stay unique

  /** No two live inodes have the same path. */
  ghost predicate UniquePaths(nodes: seq<Node>) {
    forall i, j | 0 <= i < j < |nodes| && Live(nodes[i]) && Live(nodes[j]) :: nodes[i].path != nodes[j].path
  }

  /** A live inode put into a free slot keeps paths unique exactly when no other has its path. */
  lemma UniqueIff(nodes: seq<Node>, i: nat, node: Node)
    requires UniquePaths(nodes) && i < |nodes| && !Live(nodes[i]) && Live(node)
    ensures UniquePaths(nodes[i := node]) <==> Find(nodes, node.path).None?
  {
    var after := nodes[i := node];
    if Find(nodes, node.path).Some? {
      var k := Find(nodes, node.path).value;
      assert after[k] == nodes[k] && after[i] == node;
    } else {
      forall x, y | 0 <= x < y < |after| && Live(after[x]) && Live(after[y])
        ensures after[x].path != after[y].path
      {}
    }
  }

  lemma TreeIsUnique(nodes: seq<Node>)
    requires Tree(nodes)
    ensures UniquePaths(nodes)
  {}

  /** It keeps the tree exactly when moreover the path is a proper name and its parent a live directory. */
  lemma TreeIff(nodes: seq<Node>, i: nat, node: Node)
    requires Tree(nodes) && i < |nodes| && !Live(nodes[i]) && Live(node)
    ensures Tree(nodes[i := node]) <==>
            Find(nodes, node.path).None? && Named(node.path) && HasDirectory(nodes, ParentPath(node.path))
  {
    var after := nodes[i := node];
    TreeIsUnique(nodes);
    UniqueIff(nodes, i, node);
    if Tree(after) {
      TreeIsUnique(after);
      assert after[i] == node;
      var j :| 0 <= j < |after| && after[j].kind == NODE_DIRECTORY && after[j].path == ParentPath(node.path);
      ParentSplit(node.path);
      assert nodes[j] == after[j];
    } else if Find(nodes, node.path).None? && Named(node.path) && HasDirectory(nodes, ParentPath(node.path)) {
      TreeCreate(nodes, i, node);
      assert false;
    }
  }

  // ---------------------------------------------------------------- names with a NUL

  lemma {:induction false} ParentOf(d: Path, name: Path)
    requires name != [] && SLASH !in name
    ensures ParentPath(name) == [] && ParentPath(d + [SLASH] + name) == d
    decreases |name|
  {
    var p, init := d + [SLASH] + name, name[..|name| - 1];
    assert p[..|p| - 1] == d + [SLASH] + init;
    assert name[|name| - 1] in name;
    if init == [] {
      assert d + [SLASH] + init == d + [SLASH];
      assert (d + [SLASH])[..|d|] == d;
    } else {
      ParentOf(d, init);
    }
  }

  lemma {:induction false} CutBehind(a: Path, b: Path)
    requires 0 !in a
    ensures CutAtNul(a + b) == a + CutAtNul(b)
  {
    if a == [] {
      assert a + b == b && a + CutAtNul(b) == CutAtNul(b);
    } else {
      assert (a + b)[1..] == a[1..] + b;
      CutBehind(a[1..], b);
    }
  }

  lemma {:induction false} CutIsPrefix(p: Path)
    ensures CutAtNul(p) <= p && 0 !in CutAtNul(p)
  {
    if p != [] && p[0] != 0 {
      CutIsPrefix(p[1..]);
    }
  }

  /** A name whose parent was found has its NUL, if any, behind the last slash: what is cut off leaves the parent. */
  lemma CutKeepsParent(p: Path)
    requires Clean(p) && 0 !in ParentPath(p) && Named(CutAtNul(p))
    ensures ParentPath(CutAtNul(p)) == ParentPath(p)
  {
    hide CutAtNul, ParentPath, CanonicalPath;
    ParentSplit(p);
    var d := ParentPath(p);
    if d == [] {
      CutIsPrefix(p);
      ParentOf([], CutAtNul(p));
    } else {
      var name := p[|d| + 1..];
      assert p == d + [SLASH] + name;
      CutBehind(d + [SLASH], name);
      CutIsPrefix(name);
      var q := CutAtNul(p);
      assert q == d + [SLASH] + CutAtNul(name);
      assert CutAtNul(name) != [] by {
        assert q[|q| - 1] != SLASH;
      }
      ParentOf(d, CutAtNul(name));
    }
  }

  /** What `create_node` accepts keeps the tree exactly when the name, cut at its first NUL, is a name still free. */
  lemma CreateKeepsTreeIff(nodes: seq<Node>, i: nat, node: Node)
    requires Tree(nodes) && i < |nodes| && !Live(nodes[i]) && Live(node) && Clean(node.path)
    requires forall k | 0 <= k < |nodes| && Live(nodes[k]) :: 0 !in nodes[k].path
    requires CreateVerdict(nodes, node.path).Ok?
    ensures Tree(nodes[i := node.(path := CutAtNul(node.path))]) <==> KeepsTree(nodes, node.path)
  {
    TreeIff(nodes, i, node.(path := CutAtNul(node.path)));
    var d := Find(nodes, ParentPath(node.path)).value;
    assert nodes[d].path == ParentPath(node.path) && nodes[d].kind == NODE_DIRECTORY;
    if Named(CutAtNul(node.path)) {
      CutKeepsParent(node.path);
    }
  }

  /** A name without a NUL always does. */
  lemma PlainKeepsTree(nodes: seq<Node>, path: Path)
    requires Named(path) && 0 !in path && CreateVerdict(nodes, path).Ok?
    ensures CutAtNul(path) == path && KeepsTree(nodes, path)
  {
    CutIsWhole(path);
  }

  /** The names "a" and, with a NUL in it, "a?b". */
  const PLAIN_NAME: Path := [0x61]
  const NUL_NAME: Path := [0x61, 0, 0x62]

  lemma NulName()
    ensures CanonicalPath(NUL_NAME) == Ok(NUL_NAME) && ParentPath(NUL_NAME) == [] && CutAtNul(NUL_NAME) == PLAIN_NAME
  {
    assert CutAtNul(NUL_NAME) == PLAIN_NAME by {
      assert NUL_NAME[1..][0] == 0;
    }
    OneComponent(NUL_NAME);
    ParentOf([], NUL_NAME);
    assert |NUL_NAME| == 3;
  }

  /** Where a file "a" stands in the root, "a\0b" is accepted as a new name, and makes two inodes of path "a". */
  lemma NulInput(nodes: seq<Node>, i: nat, node: Node)
    requires Tree(nodes) && 0 < i < |nodes| && !Live(nodes[i]) && Live(node) && node.path == NUL_NAME
    requires forall k | 0 <= k < |nodes| && Live(nodes[k]) :: 0 !in nodes[k].path
    requires Find(nodes, PLAIN_NAME).Some?
    ensures CanonicalPath(NUL_NAME) == Ok(NUL_NAME) && CreateVerdict(nodes, NUL_NAME) == Ok(())
    ensures var after := nodes[i := node.(path := CutAtNul(node.path))];
      && !UniquePaths(after) && !Tree(after)
      && after[i].path == PLAIN_NAME && Find(nodes, PLAIN_NAME).value != i
      && after[Find(nodes, PLAIN_NAME).value].path == PLAIN_NAME
  {
    hide CanonicalPath, ParentPath, CutAtNul, Named, Find;
    NulName();
    FindUnique(nodes, 0);
    assert 0 in NUL_NAME && Find(nodes, NUL_NAME).None?;
    assert HasFree(nodes);
    TreeIsUnique(nodes);
    UniqueIff(nodes, i, node.(path := PLAIN_NAME));
    TreeIff(nodes, i, node.(path := PLAIN_NAME));
  }

  /** A text without a slash is its own only component. */
  lemma {:induction false} OneComponent(p: Path)
    requires SLASH !in p
    ensures Split(p) == [p]
  {
    if p != [] {
      OneComponent(p[1..]);
      assert p[0] != SLASH && p == [p[0]] + p[1..];
    }
  }
}
