/** What a removal answers, told by who is whose parent. */
module DfsReach {
  import opened Bytes
  import opened DfsLayout
  import opened DfsNode
  import opened DfsPath
  import opened DfsState
  import opened DfsDepth

  /** The parent of the parent and so on, `n` times. */
  function Ancestor(q: Path, n: nat): Path
    decreases n
  {
    if n == 0 then q else Ancestor(ParentPath(q), n - 1)
  }

  lemma ParentIsClean(q: Path)
    requires Clean(q) && ParentPath(q) != []
    ensures Clean(ParentPath(q))
  {
    ParentSplit(q);
    var p := ParentPath(q);
    assert forall i | 0 <= i < |p| :: p[i] == q[i];
    assert q[|p| - 1] != SLASH;
  }

  /** The `n`-th ancestor is the path this lies below and is `n` levels down from. */
  lemma {:induction false} AncestorIff(q: Path, p: Path, n: nat)
    requires Clean(q) && Clean(p)
    ensures Ancestor(q, n) == p <==> InTree(q, p) && Level(q) == Level(p) + n
    decreases n
  {
    hide Level, Clean;
    if n == 0 {
      if InTree(q, p) && Level(q) == Level(p) {
        SameLevel(q, p);
      }
    } else {
      var r := ParentPath(q);
      NotRoot(p);
      if r == [] {
        RootsAncestor(n - 1);
        TopLevel(q, p);
      } else {
        ParentIsClean(q);
        AncestorIff(r, p, n - 1);
        OneUp(q, p, n);
      }
    }
  }

  lemma NotRoot(p: Path)
    requires Clean(p)
    ensures p != [] && p[0] != SLASH
  {}

  lemma {:induction false} RootsAncestor(n: nat)
    ensures Ancestor([], n) == []
  {
    if n > 0 {
      RootsAncestor(n - 1);
    }
  }

  lemma OneUp(q: Path, p: Path, n: nat)
    requires Clean(q) && Clean(p) && n > 0 && ParentPath(q) != []
    ensures InTree(ParentPath(q), p) && Level(ParentPath(q)) == Level(p) + (n - 1)
            <==> InTree(q, p) && Level(q) == Level(p) + n
  {
    hide Level;
    ChildLevel(q);
    ChildUnder(q);
    if InTree(ParentPath(q), p) {
      InTreeTrans(q, ParentPath(q), p);
    }
    if InTree(q, p) && q != p {
      UnderParent(q, p);
    }
  }

  lemma {:induction false} SameLevel(q: Path, p: Path)
    requires Clean(q) && Clean(p) && InTree(q, p) && Level(q) == Level(p)
    ensures q == p
    decreases |q|
  {
    if q != p {
      UnderParent(q, p);
      var r := ParentPath(q);
      ChildLevel(q);
      ParentIsClean(q);
      LevelGrows(r, p);
    }
  }

  lemma {:induction false} LevelGrows(q: Path, p: Path)
    requires Clean(q) && Clean(p) && InTree(q, p)
    ensures Level(q) >= Level(p)
    decreases |q|
  {
    if q != p {
      UnderParent(q, p);
      ChildLevel(q);
      ParentIsClean(q);
      LevelGrows(ParentPath(q), p);
    }
  }

  lemma TopLevel(q: Path, p: Path)
    requires Clean(q) && Clean(p) && ParentPath(q) == []
    ensures InTree(q, p) ==> q == p
  {
    if InTree(q, p) && q != p {
      UnderParent(q, p);
    }
  }

  ghost predicate HasPath(nodes: seq<Node>, p: Path) {
    exists i :: 0 <= i < |nodes| && nodes[i].kind != 0 && nodes[i].path == p
  }

  ghost predicate HasChildren(nodes: seq<Node>, p: Path) {
    exists i :: 0 <= i < |nodes| && nodes[i].kind != 0 && nodes[i].path != [] && ParentPath(nodes[i].path) == p
  }

  ghost predicate OutOfReach(nodes: seq<Node>, p: Path) {
    exists i, n :: 0 <= i < |nodes| && nodes[i].kind != 0 && n > 32 && Ancestor(nodes[i].path, n) == p
  }

  lemma DeepIff(nodes: seq<Node>, p: Path)
    requires Tree(nodes) && Named(p)
    ensures Deep(nodes, p, 0) <==> OutOfReach(nodes, p)
  {
    hide Level, Named, Tree, InTree;
    CleanNames(nodes, p);
    if Deep(nodes, p, 0) {
      var k :| 0 <= k < |nodes| && DeepAt(nodes[k], p, 0);
      NotRootAbove(nodes[k].path, p);
      AncestorIff(nodes[k].path, p, Level(nodes[k].path) - Level(p));
      assert OutOfReach(nodes, p);
    }
    if i, n :| 0 <= i < |nodes| && nodes[i].kind != 0 && n > 32 && Ancestor(nodes[i].path, n) == p {
      if nodes[i].path == [] {
        RootsAncestor(n);
      }
      AncestorIff(nodes[i].path, p, n);
      assert DeepAt(nodes[i], p, 0);
    }
  }

  lemma CleanNames(nodes: seq<Node>, p: Path)
    requires Tree(nodes) && Named(p)
    ensures Clean(p) && forall i | 0 <= i < |nodes| && Live(nodes[i]) :: nodes[i].path == [] || Clean(nodes[i].path)
  {
    forall i | 0 <= i < |nodes| && Live(nodes[i])
      ensures nodes[i].path == [] || Clean(nodes[i].path)
    {
      RootIsAlone(nodes, i);
    }
  }

  lemma NotRootAbove(q: Path, p: Path)
    requires InTree(q, p) && Clean(p)
    ensures q != []
  {}

  /**
   * Removing `p`: the root is refused, then what is not there, then without the flag what has children, then what has
   * a descendant more than 32 levels down; everything else goes.
   */
  lemma RemoveAnswers(nodes: seq<Node>, p: Path, recursive: bool)
    requires Tree(nodes)
    ensures RemoveVerdict(nodes, p, recursive, 0) ==
      if p == [] then Err(InvalidPath)
      else if !HasPath(nodes, p) then Err(NotFound)
      else if !recursive && HasChildren(nodes, p) then Err(DirectoryNotEmpty)
      else if OutOfReach(nodes, p) then Err(InvalidPath)
      else Ok(())
  {
    hide Deep, OutOfReach;
    if p != [] && Find(nodes, p).Some? {
      var i := Find(nodes, p).value;
      RootIsAlone(nodes, i);
      DeepIff(nodes, p);
      if nodes[i].kind != NODE_DIRECTORY {
        FileIsChildless(nodes, i);
      }
    }
  }
}
