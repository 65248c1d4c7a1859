/** Which paths the operations accept, told by the names a path joins. */
module DfsCanonical {
  import opened Bytes
  import opened DfsLayout
  import opened DfsNode
  import opened DfsPath

  /** Names with a slash between each and the next. */
  function Join(names: seq<Path>): Path
    requires names != []
  {
    if |names| == 1 then names[0] else names[0] + [0x2f] + Join(names[1..])
  }

  /** Not empty, without a slash, and neither "." nor "..". */
  predicate ProperName(name: Path) {
    name != [] && 0x2f !in name && name != [0x2e] && name != [0x2e, 0x2e]
  }

  ghost predicate ProperNames(names: seq<Path>) {
    names != [] && forall k | 0 <= k < |names| :: ProperName(names[k])
  }

  /** One or more proper names joined, in no more than 255 bytes. */
  ghost predicate JoinsNames(q: Path) {
    |q| <= 255 && exists names: seq<Path> :: ProperNames(names) && q == Join(names)
  }

  lemma SplitStart(c: byte, p: Path)
    ensures Split([c] + p) == if c == SLASH then [[]] + Split(p) else [[c] + Split(p)[0]] + Split(p)[1..]
  {
    assert ([c] + p)[1..] == p;
  }

  lemma {:induction false} SplitName(name: Path, rest: Path)
    requires SLASH !in name
    ensures Split(name) == [name] && Split(name + [SLASH] + rest) == [name] + Split(rest)
  {
    if name == [] {
      assert name + [SLASH] + rest == [SLASH] + rest;
      SplitStart(SLASH, rest);
    } else {
      var c, more := name[0], name[1..];
      SplitName(more, rest);
      assert name == [c] + more;
      assert name + [SLASH] + rest == [c] + (more + [SLASH] + rest);
      SplitStart(c, more + [SLASH] + rest);
      SplitStart(c, more);
    }
  }

  /** Splitting undoes joining. */
  lemma {:induction false} SplitJoin(names: seq<Path>)
    requires names != [] && forall k | 0 <= k < |names| :: SLASH !in names[k]
    ensures Split(Join(names)) == names
  {
    if |names| == 1 {
      SplitName(names[0], []);
    } else {
      SplitJoin(names[1..]);
      SplitName(names[0], Join(names[1..]));
      assert names == [names[0]] + names[1..];
    }
  }

  /** Joining undoes splitting. */
  lemma {:induction false} JoinSplit(p: Path)
    ensures Join(Split(p)) == p && forall c | c in Split(p) :: SLASH !in c
  {
    if p != [] {
      var rest := Split(p[1..]);
      JoinSplit(p[1..]);
      if p[0] == SLASH {
        assert Split(p)[1..] == rest;
        assert p == [] + [SLASH] + p[1..];
      } else {
        var first := [p[0]] + rest[0];
        assert Split(p) == [first] + rest[1..];
        assert rest[0] in rest;
        forall c | c in Split(p)
          ensures SLASH !in c
        {
          assert c == first || c in rest;
        }
        JoinHead(p[0], rest);
        assert p == [p[0]] + p[1..];
      }
    }
  }

  lemma JoinHead(c: byte, names: seq<Path>)
    requires names != []
    ensures Join([[c] + names[0]] + names[1..]) == [c] + Join(names)
  {
    var longer := [[c] + names[0]] + names[1..];
    assert longer[1..] == names[1..];
    if |names| > 1 {
      assert [c] + names[0] + [SLASH] + Join(names[1..]) == [c] + (names[0] + [SLASH] + Join(names[1..]));
    }
  }

  /** A path without a bad component is proper names joined, and conversely. */
  lemma GoodIff(p: Path)
    ensures !HasBadComponent(p) <==> exists names: seq<Path> :: ProperNames(names) && p == Join(names)
  {
    if !HasBadComponent(p) {
      JoinSplit(p);
      forall k | 0 <= k < |Split(p)|
        ensures ProperName(Split(p)[k])
      {
        assert Split(p)[k] in Split(p);
      }
      assert ProperNames(Split(p));
    }
    if names: seq<Path> :| ProperNames(names) && p == Join(names) {
      SplitJoin(names);
      assert forall c | c in Split(p) :: ProperName(c);
    }
  }

  lemma JoinBegins(names: seq<Path>)
    requires ProperNames(names)
    ensures Join(names) != [] && Join(names)[0] != 0x2f
  {}

  /**
   * A path is accepted, and stands for `q`, exactly when it is `q` or a slash and `q`, where `q` is nothing, which is
   * the root, or proper names joined.
   */
  lemma CanonicalIff(p: Path, q: Path)
    ensures CanonicalPath(p) == Ok(q) <==> (p == q || p == [0x2f] + q) && (q == [] || JoinsNames(q))
    ensures CanonicalPath(p).Err? ==> CanonicalPath(p).error == InvalidPath
  {
    hide Join, HasBadComponent, Split;
    var s := Stripped(p);
    GoodIff(s);
    GoodIff(q);
    if p != [] && p[0] == SLASH {
      assert p == [0x2f] + s;
    }
    if q != [] && JoinsNames(q) {
      var names: seq<Path> :| ProperNames(names) && q == Join(names);
      JoinBegins(names);
      assert p == [0x2f] + q ==> s == q;
    }
    if s == [] {
      EmptyIsBad();
    }
  }

  lemma EmptyIsBad()
    ensures HasBadComponent([])
  {
    assert [] in Split([]);
  }
}
