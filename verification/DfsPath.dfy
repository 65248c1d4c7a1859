/** Path strings: what a canonical path is, its parent, and who is whose child. */
module DfsPath {
  import opened Bytes
  import opened DfsLayout
  import opened DfsNode

  const SLASH: byte := 0x2f
  const DOT: byte := 0x2e

  /** `path.split('/')`. */
  function Split(p: Path): (r: seq<Path>)
    ensures r != []
  {
    if p == [] then [[]]
    else if p[0] == SLASH then [[]] + Split(p[1..])
    else
      var rest := Split(p[1..]);
      [[p[0]] + rest[0]] + rest[1..]
  }

  predicate BadComponent(c: Path) {
    c == [] || c == [DOT] || c == [DOT, DOT]
  }

  function Stripped(p: Path): Path {
    if p != [] && p[0] == SLASH then p[1..] else p
  }

  predicate HasBadComponent(p: Path) {
    exists c | c in Split(p) :: BadComponent(c)
  }

  /** `canonical_path`: at most one leading slash goes, the empty path is the root. */
  function CanonicalPath(p: Path): Result<Path, DfsError> {
    if |Stripped(p)| > MAX_PATH || HasBadComponent(Stripped(p)) then
      if Stripped(p) == [] then Ok(Stripped(p)) else Err(InvalidPath)
    else Ok(Stripped(p))
  }

  /** `parent_path`: the text before the last slash, or the root. */
  function ParentPath(p: Path): (q: Path)
    ensures |q| <= |p|
  {
    if p == [] then []
    else if p[|p| - 1] == SLASH then p[..|p| - 1]
    else ParentPath(p[..|p| - 1])
  }

  /** `immediate_child`: the name of `path` inside `parent`, if it is directly inside. */
  function ImmediateChild(path: Path, parent: Path): Option<Path> {
    if parent == [] then
      if path == [] || SLASH in path then None else Some(path)
    else if !(parent <= path) || |path| == |parent| || path[|parent|] != SLASH then None
    else if path[|parent| + 1..] == [] || SLASH in path[|parent| + 1..] then None
    else Some(path[|parent| + 1..])
  }

  /** No component is empty: no slash at either end, no two in a row. */
  ghost predicate Clean(p: Path) {
    && p != [] && p[0] != SLASH && p[|p| - 1] != SLASH
    && forall i | 0 <= i < |p| - 1 :: p[i] != SLASH || p[i + 1] != SLASH
  }

  /** The name of something other than the root, as `canonical_path` leaves it. */
  ghost predicate Named(p: Path) {
    Clean(p) && CanonicalPath(p) == Ok(p)
  }

  /** `q` lies strictly below `p`. */
  predicate Under(q: Path, p: Path) {
    if p == [] then q != [] else p < q && q[|p|] == SLASH
  }

  lemma {:induction false} SplitClean(p: Path)
    requires forall c | c in Split(p) :: c != []
    ensures Clean(p)
    decreases |p|
  {
    SplitHead(p);
    assert p != [] && p[0] != SLASH;
    var rest := Split(p[1..]);
    assert Split(p) == [[p[0]] + rest[0]] + rest[1..];
    forall c | c in rest[1..]
      ensures c != []
    {
      assert c in Split(p);
    }
    if |p| > 1 && p[1] == SLASH {
      assert p[1..][1..] == p[2..];
      assert rest[1..] == Split(p[2..]);
      SplitClean(p[2..]);
      ShiftClean(p, 2);
    } else if |p| > 1 {
      assert rest == [rest[0]] + rest[1..];
      assert rest[0] != [];
      SplitClean(p[1..]);
      ShiftClean(p, 1);
    }
  }

  lemma SplitHead(p: Path)
    ensures Split(p)[0] in Split(p)
    ensures p == [] || p[0] == SLASH ==> Split(p)[0] == []
  {}

  lemma ShiftClean(p: Path, n: nat)
    requires n < |p| && Clean(p[n..])
    ensures p[n] != SLASH && p[|p| - 1] != SLASH
    ensures forall i | n <= i < |p| - 1 :: p[i] != SLASH || p[i + 1] != SLASH
  {
    var q := p[n..];
    assert p[|p| - 1] == q[|q| - 1];
    forall i | n <= i < |p| - 1
      ensures p[i] != SLASH || p[i + 1] != SLASH
    {
      assert q[i - n] == p[i] && q[i - n + 1] == p[i + 1];
    }
  }

  /** A canonical path is the root or clean, and short enough to be stored. */
  lemma CanonicalIsClean(p: Path)
    requires CanonicalPath(p).Ok?
    ensures var q := CanonicalPath(p).value;
      |q| <= MAX_PATH && (q == [] || Clean(q)) && (0 !in p ==> 0 !in q)
  {
    var q := CanonicalPath(p).value;
    if q != [] {
      forall c | c in Split(q)
        ensures c != []
      {
        assert !BadComponent(c);
      }
      SplitClean(q);
    }
  }

  /** A clean path is its parent, a slash and a name; or just a name when its parent is the root. */
  lemma {:induction false} ParentSplit(p: Path)
    requires p != [] && p[0] != SLASH
    ensures var q := ParentPath(p);
      && |q| < |p|
      && (q == [] ==> SLASH !in p)
      && (q != [] ==> q < p && p[|q|] == SLASH && SLASH !in p[|q| + 1..])
    decreases |p|
  {
    if p[|p| - 1] != SLASH {
      var init := p[..|p| - 1];
      if init != [] {
        ParentSplit(init);
        var q := ParentPath(p);
        assert p == init + [p[|p| - 1]];
        if q != [] {
          assert p[|q| + 1..] == init[|q| + 1..] + [p[|p| - 1]];
        }
      }
    } else {
      assert p[|p|..] == [];
    }
  }

  /** Being an immediate child is having that parent. */
  lemma ChildIffParent(p: Path, parent: Path)
    requires Clean(p) && (parent == [] || Clean(parent))
    ensures ImmediateChild(p, parent).Some? <==> ParentPath(p) == parent
  {
    ParentSplit(p);
    ParentEnds(p);
    var q := ParentPath(p);
    if ImmediateChild(p, parent).Some? && parent != [] {
      NoSlashAfter(p, |parent| + 1);
      assert q == p[..|q|] && parent == p[..|parent|];
    }
    if q == parent && q != [] {
      assert p[|p| - 1] != SLASH;
      assert p[|q| + 1..] != [];
    }
  }

  lemma NoSlashAfter(p: Path, n: nat)
    requires n <= |p|
    ensures SLASH !in p[n..] <==> forall i | n <= i < |p| :: p[i] != SLASH
  {
    if SLASH !in p[n..] {
      forall i | n <= i < |p|
        ensures p[i] != SLASH
      {
        assert p[i] == p[n..][i - n];
      }
    }
  }

  /** The parent ends at the last slash. */
  lemma ParentEnds(p: Path)
    requires p != [] && p[0] != SLASH
    ensures var q := ParentPath(p);
      forall i | 0 <= i < |p| && (q == [] || i > |q|) :: p[i] != SLASH
  {
    ParentSplit(p);
    var q := ParentPath(p);
    if q == [] {
      NoSlashAfter(p, 0);
      assert p[0..] == p;
    } else {
      NoSlashAfter(p, |q| + 1);
    }
  }

  /** Climbing from below `p` reaches `p` or stays below it. */
  lemma UnderParent(q: Path, p: Path)
    requires Clean(q) && Under(q, p) && (p == [] || Clean(p))
    ensures ParentPath(q) == p || Under(ParentPath(q), p)
    ensures |ParentPath(q)| < |q|
  {
    ParentSplit(q);
    ParentEnds(q);
    var r := ParentPath(q);
    if p != [] {
      assert r == q[..|r|] && p == q[..|p|];
    }
  }

  /** What `canonical_path` returns it returns again. */
  lemma CanonicalIsNamed(p: Path)
    requires CanonicalPath(p).Ok?
    ensures var q := CanonicalPath(p).value; q == [] || Named(q)
  {
    CanonicalIsClean(p);
  }

  /** `p` or something below it. */
  predicate InTree(q: Path, p: Path) {
    q == p || Under(q, p)
  }

  lemma InTreeTrans(r: Path, q: Path, p: Path)
    requires InTree(r, q) && InTree(q, p)
    ensures InTree(r, p)
  {}

  /** How many directories deep a path is, counted in slashes. */
  function Level(p: Path): nat {
    if p == [] then 0 else Level(p[..|p| - 1]) + if p[|p| - 1] == SLASH then 1 else 0
  }

  lemma {:induction false} NoSlashLevel(p: Path)
    requires SLASH !in p
    ensures Level(p) == 0
  {
    if p != [] {
      NoSlashLevel(p[..|p| - 1]);
    }
  }

  /** A child is one level down from its parent. */
  lemma {:induction false} ChildLevel(p: Path)
    requires p != [] && p[0] != SLASH && ParentPath(p) != []
    ensures Level(p) == Level(ParentPath(p)) + 1
  {
    if p[|p| - 1] != SLASH {
      ChildLevel(p[..|p| - 1]);
    }
  }

  /** A child lies below its parent. */
  lemma ChildUnder(p: Path)
    requires Clean(p)
    ensures Under(p, ParentPath(p))
  {
    ParentSplit(p);
  }
}
