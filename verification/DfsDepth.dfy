/** How deep a removal reaches: what it answers, and when it gives up before anything is gone. */
module DfsDepth {
  import opened Bytes
  import opened DfsLayout
  import opened DfsNode
  import opened DfsPath
  import opened DfsState
  import opened DfsNames

  const MAX_DEPTH := 32

  /** An inode of the subtree that a removal, already `depth` levels down at `p`, does not reach. */
  ghost predicate DeepAt(node: Node, p: Path, depth: nat) {
    Live(node) && InTree(node.path, p) && depth + Level(node.path) > MAX_DEPTH + Level(p)
  }

  ghost predicate Deep(nodes: seq<Node>, p: Path, depth: nat) {
    exists k :: 0 <= k < |nodes| && DeepAt(nodes[k], p, depth)
  }

  /** What removing `p` answers, `depth` levels down: it works exactly when `p` names something other
    * than the root, is no full directory unless asked to recurse, and has nothing out of reach below it. */
  ghost function RemoveVerdict(nodes: seq<Node>, p: Path, recursive: bool, depth: nat): Result<(), DfsError> {
    if depth > MAX_DEPTH || p == [] then Err(InvalidPath)
    else
      match Find(nodes, p)
      case None => Err(NotFound)
      case Some(i) =>
        if nodes[i].kind == NODE_DIRECTORY && !recursive && !Childless(nodes, p) then Err(DirectoryNotEmpty)
        else if Deep(nodes, p, depth) then Err(InvalidPath)
        else Ok(())
  }

  /** The same for a path as it is given. */
  ghost function RemovePathVerdict(nodes: seq<Node>, path: Path, recursive: bool, depth: nat): Result<(), DfsError> {
    if depth > MAX_DEPTH then Err(InvalidPath)
    else
      match CanonicalPath(path)
      case Err(e) => Err(e)
      case Ok(p) => RemoveVerdict(nodes, p, recursive, depth)
  }

  // ---------------------------------------------------------------- first children

  predicate IsChild(node: Node, p: Path) {
    Live(node) && node.path != [] && ParentPath(node.path) == p
  }

  /** The first child of `p` in the inode table. */
  function FindChild(nodes: seq<Node>, p: Path): (r: Option<nat>)
    ensures r.Some? ==> r.value < |nodes| && IsChild(nodes[r.value], p)
    ensures r.Some? ==> forall j | 0 <= j < r.value :: !IsChild(nodes[j], p)
    ensures r.None? <==> Childless(nodes, p)
  {
    if nodes == [] then None
    else
      var n := |nodes| - 1;
      assert forall j | 0 <= j < n :: nodes[j] == nodes[..n][j];
      match FindChild(nodes[..n], p)
      case Some(i) => Some(i)
      case None => if IsChild(nodes[n], p) then Some(n) else None
  }

  /** Going from first child to first child leads out of reach: the removal gives up before anything is gone. */
  ghost predicate Straight(nodes: seq<Node>, p: Path, depth: nat)
    decreases MAX_DEPTH + 1 - depth
  {
    || depth > MAX_DEPTH
    || (FindChild(nodes, p).Some? && Straight(nodes, nodes[FindChild(nodes, p).value].path, depth + 1))
  }

  /** A refused removal that has nevertheless removed something. */
  ghost predicate Halfway(nodes: seq<Node>, p: Path, recursive: bool, depth: nat) {
    recursive && p != [] && Find(nodes, p).Some? && Deep(nodes, p, depth) && !Straight(nodes, p, depth)
  }

  /** A child is one level further down, below its parent and not above it. */
  lemma ChildFacts(c: Path, p: Path)
    requires Named(c) && ParentPath(c) == p && p != []
    ensures InTree(c, p) && Level(c) == Level(p) + 1 && !InTree(p, c) && c != []
  {
    ChildUnder(c);
    ChildLevel(c);
  }

  lemma DeepBelow(node: Node, c: Path, p: Path, depth: nat)
    requires InTree(c, p) && Level(c) == Level(p) + 1
    ensures DeepAt(node, c, depth + 1) ==> DeepAt(node, p, depth)
    ensures InTree(node.path, c) && DeepAt(node, p, depth) ==> DeepAt(node, c, depth + 1)
  {
    if InTree(node.path, c) {
      InTreeTrans(node.path, c, p);
    }
  }

  lemma FirstChildFacts(nodes: seq<Node>, p: Path)
    requires Tree(nodes) && FindChild(nodes, p).Some? && p != []
    ensures var c := nodes[FindChild(nodes, p).value].path;
      Named(c) && ParentPath(c) == p && Find(nodes, c).Some? && InTree(c, p) && Level(c) == Level(p) + 1 && c != []
  {
    var k := FindChild(nodes, p).value;
    RootIsAlone(nodes, k);
    FindUnique(nodes, k);
    ChildFacts(nodes[k].path, p);
  }

  /** A removal that runs straight out of reach is refused. */
  lemma {:induction false} StraightIsDeep(nodes: seq<Node>, p: Path, depth: nat)
    requires Tree(nodes) && p != [] && Find(nodes, p).Some? && Straight(nodes, p, depth)
    ensures Deep(nodes, p, depth)
    decreases MAX_DEPTH + 1 - depth
  {
    hide Tree, Named, Find, InTree, Level;
    if depth > MAX_DEPTH {
      OutOfReach(nodes, p, depth);
    } else {
      FirstChildFacts(nodes, p);
      var c := nodes[FindChild(nodes, p).value].path;
      StraightIsDeep(nodes, c, depth + 1);
      var k :| 0 <= k < |nodes| && DeepAt(nodes[k], c, depth + 1);
      DeepBelow(nodes[k], c, p, depth);
      assert DeepAt(nodes[k], p, depth);
    }
  }

  lemma OutOfReach(nodes: seq<Node>, p: Path, depth: nat)
    requires Find(nodes, p).Some? && depth > MAX_DEPTH
    ensures Deep(nodes, p, depth)
  {
    assert DeepAt(nodes[Find(nodes, p).value], p, depth);
  }

  lemma FileIsChildless(nodes: seq<Node>, i: nat)
    requires Tree(nodes) && 0 < i < |nodes| && Live(nodes[i]) && nodes[i].kind != NODE_DIRECTORY
    ensures Childless(nodes, nodes[i].path)
  {
    forall j | 0 <= j < |nodes| && Live(nodes[j]) && nodes[j].path != []
      ensures ParentPath(nodes[j].path) != nodes[i].path
    {
      assert HasDirectory(nodes, ParentPath(nodes[j].path));
    }
  }

  // ---------------------------------------------------------------- a tree too deep

  lemma {:induction false} JoinSplit(p: Path, name: Path)
    requires SLASH !in name
    ensures Split(p + [SLASH] + name) == Split(p) + [name]
  {
    var q := p + [SLASH] + name;
    if p == [] {
      OneComponent(name);
      assert q[1..] == name;
    } else {
      JoinSplit(p[1..], name);
      assert q[1..] == p[1..] + [SLASH] + name && q[0] == p[0];
    }
  }

  /** A proper name below a proper name is one. */
  lemma NamedChild(p: Path, name: Path)
    requires Named(p) && SLASH !in name && !BadComponent(name) && |p| + 1 + |name| <= MAX_PATH
    ensures Named(p + [SLASH] + name)
  {
    var q := p + [SLASH] + name;
    JoinSplit(p, name);
    assert q[0] == p[0];
    forall c | c in Split(q)
      ensures !BadComponent(c)
    {
      assert c in Split(p) || c == name;
    }
    assert q != [] && CanonicalPath(q) == Ok(q);
    CanonicalIsNamed(q);
  }

  const LETTER_A: byte := 0x61
  const LETTER_B: byte := 0x62
  const LETTER_D: byte := 0x64

  /** "d", "d/b", "d/b/b" and so on. */
  function Chain(k: nat): Path {
    if k == 0 then [LETTER_D] else Chain(k - 1) + [SLASH] + [LETTER_B]
  }

  lemma ChainNext(p: Path)
    requires Named(p) && |p| + 2 <= MAX_PATH
    ensures var q := p + [SLASH] + [LETTER_B];
      Named(q) && ParentPath(q) == p && Level(q) == Level(p) + 1 && q[0] == p[0]
  {
    hide CanonicalPath, Level, ParentPath;
    NamedChild(p, [LETTER_B]);
    ParentOf(p, [LETTER_B]);
    ChildLevel(p + [SLASH] + [LETTER_B]);
  }

  lemma {:induction false} ChainFacts(k: nat)
    requires 1 + 2 * k <= MAX_PATH
    ensures Named(Chain(k)) && |Chain(k)| == 1 + 2 * k && Level(Chain(k)) == k && 0 !in Chain(k)
    ensures Chain(k)[0] == LETTER_D && InTree(Chain(k), [LETTER_D])
    ensures ParentPath(Chain(k)) == if k == 0 then [] else Chain(k - 1)
  {
    hide Named, Level, ParentPath;
    if k == 0 {
      NamedLetter();
      NoSlashLevel([LETTER_D]);
      ParentOf([], [LETTER_D]);
    } else {
      ChainFacts(k - 1);
      ChainNext(Chain(k - 1));
    }
  }

  lemma NamedLetter()
    ensures Named([LETTER_D])
  {
    OneComponent([LETTER_D]);
  }

  const FIRST_NAME: Path := [LETTER_D, SLASH, LETTER_A]

  lemma FirstName()
    ensures Named(FIRST_NAME) && ParentPath(FIRST_NAME) == [LETTER_D] && 0 !in FIRST_NAME
  {
    NamedLetter();
    NamedChild([LETTER_D], [LETTER_A]);
    ParentOf([LETTER_D], [LETTER_A]);
    assert [LETTER_D] + [SLASH] + [LETTER_A] == FIRST_NAME;
  }

  /** A root with a directory "d", in it a file "d/a" and 33 directories, each inside the one before. */
  function DeepNode(i: nat): Node {
    if i == 0 then NewNode([], NODE_DIRECTORY, 0, 0, 0)
    else if i == 1 then NewNode(Chain(0), NODE_DIRECTORY, 0, 0, 0)
    else if i == 2 then NewNode(FIRST_NAME, NODE_FILE, 0, 0, 0)
    else if i < 36 then NewNode(Chain(i - 2), NODE_DIRECTORY, 0, 0, 0)
    else EMPTY_NODE
  }

  function DeepNodes(): (nodes: seq<Node>)
    ensures |nodes| == INODE_COUNT
  {
    seq(INODE_COUNT, i requires 0 <= i < INODE_COUNT => DeepNode(i))
  }

  /** The directory an inode of the table is in. */
  lemma DeepNodeFacts(i: nat)
    requires 0 < i < 36
    ensures var node := DeepNode(i);
      && Live(node) && Named(node.path) && 0 !in node.path && |node.path| <= MAX_PATH
      && ParentPath(node.path) == DeepNode(if i == 2 || i == 3 then 1 else if i == 1 then 0 else i - 1).path
      && |node.path| == (if i == 1 then 1 else if i == 2 then 3 else 2 * i - 3)
      && (i == 2 <==> node.path == FIRST_NAME)
  {
    hide Named;
    FirstName();
    if i == 1 {
      ChainFacts(0);
    } else if i > 2 {
      ChainFacts(i - 2);
      assert Chain(i - 2)[|Chain(i - 2)| - 1] == LETTER_B;
    }
  }

  lemma DeepIsTree()
    ensures Tree(DeepNodes())
  {
    hide Named, FIRST_NAME, Chain;
    var nodes := DeepNodes();
    forall i, j | 0 <= i < |nodes| && 0 <= j < |nodes| && Live(nodes[i]) && Live(nodes[j])
        && nodes[i].path == nodes[j].path
      ensures i == j
    {
      if i != 0 { DeepNodeFacts(i); }
      if j != 0 { DeepNodeFacts(j); }
    }
    forall i | 0 < i < |nodes| && Live(nodes[i])
      ensures Named(nodes[i].path) && HasDirectory(nodes, ParentPath(nodes[i].path))
    {
      DeepNodeFacts(i);
      assert nodes[if i == 2 || i == 3 then 1 else if i == 1 then 0 else i - 1].kind == NODE_DIRECTORY;
    }
  }

  /** The table is that of a consistent filesystem. */
  lemma DeepIsConsistent(l: Layout, used: set<nat>)
    ensures Consistent(l, Meta(DeepNodes(), used))
  {
    hide Tree, Named, Chain;
    DeepIsTree();
    forall i | 0 <= i < INODE_COUNT
      ensures NodeOk(l, DeepNodes()[i]) && Blocks(DeepNodes()[i]) == {}
    {
      if 0 < i < 36 {
        DeepNodeFacts(i);
      }
      EmptyOwnsNothing(DeepNodes()[i]);
    }
  }

  /** Removing "d" recursively is refused, its first child being removed before the removal finds what is too deep. */
  lemma RefusedHalfway()
    ensures RemoveVerdict(DeepNodes(), Chain(0), true, 0) == Err(InvalidPath)
    ensures Halfway(DeepNodes(), Chain(0), true, 0)
  {
    hide Tree, Named, InTree, FIRST_NAME;
    var nodes := DeepNodes();
    DeepIsTree();
    DeepNodeFacts(1);
    DeepNodeFacts(2);
    ChainFacts(0);
    ChainFacts(33);
    FindUnique(nodes, 1);
    FileIsChildless(nodes, 2);
    assert Find(nodes, Chain(0)) == Some(1) && nodes[1].path == Chain(0);
    assert DeepAt(nodes[35], Chain(0), 0);
    assert IsChild(nodes[2], Chain(0)) && !IsChild(nodes[1], Chain(0)) && !IsChild(nodes[0], Chain(0));
    assert FindChild(nodes, Chain(0)) == Some(2);
    assert FindChild(nodes, nodes[2].path) == None;
  }
}
