/**
 * The filesystem as the marshal store sees it: the set of existing directories,
 * each with its direct entries marked as a regular file or a subdirectory.
 * Paths here are canonical (what `os.path.realpath` returns), written as the
 * sequence of their components from the root down; `[]` is the root.
 */
module FileTree {
  import opened Wrappers

  type Name = string

  /** A canonical absolute path, as its components. */
  type CPath = seq<Name>

  datatype Kind = File | Dir

  /** The direct entries of one directory. */
  type Listing = map<Name, Kind>

  /** Every existing directory, with its listing. */
  type Tree = map<CPath, Listing>

  /** What `shutil.rmtree` raises. */
  datatype FsError = NotADirectory(path: CPath) | NotFound(path: CPath)

  function Parent(p: CPath): CPath
    requires p != []
  {
    p[..|p| - 1]
  }

  function Last(p: CPath): Name
    requires p != []
  {
    p[|p| - 1]
  }

  /** `os.path.exists`: `p` is a directory, or an entry of its parent directory. */
  predicate Exists(t: Tree, p: CPath): (b: bool)
    ensures p in t ==> b
  {
    p in t || (p != [] && Parent(p) in t && Last(p) in t[Parent(p)])
  }

  /** `os.path.isfile`: `p` is listed as a regular file in its parent directory. */
  predicate IsFile(t: Tree, p: CPath): (b: bool)
    ensures b ==> Exists(t, p)
  {
    p != [] && Parent(p) in t && Last(p) in t[Parent(p)] && t[Parent(p)][Last(p)] == File
  }

  /** `p` is `d` itself or lies somewhere below `d`. */
  predicate Under(p: CPath, d: CPath) {
    |d| <= |p| && p[..|d|] == d
  }

  /**
   * A well-formed tree: an entry is marked as a subdirectory exactly when that
   * subdirectory is in the tree, and every directory but the root is listed as
   * a subdirectory of its parent.
   */
  ghost predicate Consistent(t: Tree) {
    EntriesMatch(t) && ParentsList(t)
  }

  /** An entry is marked as a subdirectory exactly when that subdirectory is in the tree. */
  ghost predicate EntriesMatch(t: Tree) {
    forall d, n :: d in t && n in t[d] ==> (t[d][n] == Dir <==> d + [n] in t)
  }

  /** Every directory but the root is listed as a subdirectory of its parent. */
  ghost predicate ParentsList(t: Tree) {
    forall d :: d in t && d != [] ==> Parent(d) in t && Last(d) in t[Parent(d)] && t[Parent(d)][Last(d)] == Dir
  }

  /** In a consistent tree every path that exists is a directory or a regular file, never both. */
  lemma ExistsIsDirOrFile(t: Tree, p: CPath)
    requires Consistent(t)
    ensures Exists(t, p) <==> p in t || IsFile(t, p)
    ensures !(p in t && IsFile(t, p))
  {
    if p != [] {
      assert p == Parent(p) + [Last(p)];
    }
  }

  /** Every ancestor of a directory in a consistent tree is itself in the tree. */
  lemma {:induction false} AncestorsPresent(t: Tree, p: CPath, d: CPath)
    requires ParentsList(t) && p in t && Under(p, d)
    ensures d in t
    decreases |p|
  {
    if |p| == |d| {
      assert p == d;
    } else {
      assert Parent(p)[..|d|] == d;
      AncestorsPresent(t, Parent(p), d);
    }
  }

  /**
   * The tree after `shutil.rmtree(d)`: the directories at or below `d` are
   * dropped and `d` is no longer an entry of its parent; every other listing is
   * kept as it was.
   */
  function RemoveTree(t: Tree, d: CPath): (r: Tree)
    ensures forall p :: p in r <==> p in t && !Under(p, d)
    ensures forall p :: p in r && (d == [] || p != Parent(d)) ==> r[p] == t[p]
    ensures d != [] && Parent(d) in r ==> r[Parent(d)] == t[Parent(d)] - {Last(d)}
  {
    var kept := map p | p in t && !Under(p, d) :: t[p];
    if d != [] && Parent(d) in kept then kept[Parent(d) := kept[Parent(d)] - {Last(d)}] else kept
  }

  /** After the removal nothing at or below `d` exists, whether directory or file. */
  lemma RemovedSubtreeAbsent(t: Tree, d: CPath)
    ensures forall p :: Under(p, d) ==> !Exists(RemoveTree(t, d), p)
  {
    var r := RemoveTree(t, d);
    forall p | Under(p, d)
      ensures !Exists(r, p)
    {
      if |p| == |d| {
        assert p == d;
      } else {
        assert Parent(p)[..|d|] == d;
      }
    }
  }

  /** The removed directory itself no longer exists. */
  lemma RemovedPathAbsent(t: Tree, d: CPath)
    ensures !Exists(RemoveTree(t, d), d)
  {
    var r := RemoveTree(t, d);
    assert Under(d, d);
    if d != [] && Parent(d) in r {
      assert Last(d) !in r[Parent(d)];
    }
  }

  /** Outside the removed subtree, existence and kind of every path are as before. */
  lemma RemoveTreeKeepsOutside(t: Tree, d: CPath)
    ensures forall p :: !Under(p, d) ==> (Exists(RemoveTree(t, d), p) <==> Exists(t, p))
    ensures forall p :: !Under(p, d) ==> (IsFile(RemoveTree(t, d), p) <==> IsFile(t, p))
  {
    var r := RemoveTree(t, d);
    forall p | !Under(p, d) && p != []
      ensures !Under(Parent(p), d)
      ensures d != [] && Parent(p) == Parent(d) ==> Last(p) != Last(d)
    {
      UnderChild(Parent(p), Last(p), d);
      assert p == Parent(p) + [Last(p)];
    }
  }

  /** A child lies under `d` only when its parent does, or when it is `d` itself. */
  lemma UnderChild(p: CPath, n: Name, d: CPath)
    ensures Under(p + [n], d) <==> Under(p, d) || p + [n] == d
  {
    var c := p + [n];
    if Under(c, d) && |c| > |d| {
      assert p[..|d|] == c[..|d|];
    }
    if Under(p, d) {
      assert c[..|d|] == p[..|d|];
    }
  }

  /** Removing a subtree keeps the tree consistent. */
  lemma RemoveTreeConsistent(t: Tree, d: CPath)
    requires Consistent(t)
    ensures Consistent(RemoveTree(t, d))
  {
    var r := RemoveTree(t, d);
    forall p, n | p in r && n in r[p]
      ensures r[p][n] == Dir <==> p + [n] in r
    {
      assert p in t && n in t[p];
      RemovedEntryConsistent(t, d, p, n);
    }
    forall p | p in r && p != []
      ensures Parent(p) in r && Last(p) in r[Parent(p)] && r[Parent(p)][Last(p)] == Dir
    {
      assert p in t;
      RemovedParentConsistent(t, d, p);
    }
  }

  /** One entry of a kept listing is still marked as a directory exactly when that directory is kept. */
  lemma RemovedEntryConsistent(t: Tree, d: CPath, p: CPath, n: Name)
    requires p in RemoveTree(t, d) && n in RemoveTree(t, d)[p]
    requires p in t && n in t[p] && (t[p][n] == Dir <==> p + [n] in t)
    ensures RemoveTree(t, d)[p][n] == Dir <==> p + [n] in RemoveTree(t, d)
  {
    var r := RemoveTree(t, d);
    var c := p + [n];
    UnderChild(p, n, d);
    assert !Under(p, d);
    assert d != [];
    var dp, dn := Parent(d), Last(d);
    assert d == dp + [dn];
    assert p in t;
    if p == dp {
      assert r[p] == t[p] - {dn};
      assert n != dn;
      assert c != d;
    } else {
      assert r[p] == t[p];
      assert c != d by {
        assert c[..|p|] == p;
      }
    }
    assert n in t[p];
    assert t[p][n] == Dir <==> c in t;
    assert c in r <==> c in t;
  }

  /** A kept directory's parent is kept and still lists it as a directory. */
  lemma RemovedParentConsistent(t: Tree, d: CPath, p: CPath)
    requires p in RemoveTree(t, d) && p != []
    requires p in t && Parent(p) in t && Last(p) in t[Parent(p)] && t[Parent(p)][Last(p)] == Dir
    ensures Parent(p) in RemoveTree(t, d)
    ensures Last(p) in RemoveTree(t, d)[Parent(p)] && RemoveTree(t, d)[Parent(p)][Last(p)] == Dir
  {
    var r := RemoveTree(t, d);
    var q, n := Parent(p), Last(p);
    assert p == q + [n];
    UnderChild(q, n, d);
    assert !Under(q, d);
    assert q in t && n in t[q] && t[q][n] == Dir;
    assert q in r;
    if d != [] && q == Parent(d) {
      assert d == Parent(d) + [Last(d)];
      assert n != Last(d);
      assert r[q] == t[q] - {Last(d)};
    } else {
      assert r[q] == t[q];
    }
  }

  /** Removing a path that does not exist changes nothing. */
  lemma RemoveAbsentIsNoOp(t: Tree, d: CPath)
    requires ParentsList(t) && !Exists(t, d)
    ensures RemoveTree(t, d) == t
  {
    var r := RemoveTree(t, d);
    forall p | p in t
      ensures p in r && r[p] == t[p]
    {
      NothingBelowAbsent(t, d, p);
      if d != [] && p == Parent(d) {
        assert Last(d) !in t[p];
      }
    }
  }

  /** No directory of the tree lies below a directory that is not in it. */
  lemma NothingBelowAbsent(t: Tree, d: CPath, p: CPath)
    requires ParentsList(t) && d !in t && p in t
    ensures !Under(p, d)
  {
    if Under(p, d) {
      AncestorsPresent(t, p, d);
    }
  }

  /** A second removal of the same subtree changes nothing. */
  lemma RemoveTreeIdempotent(t: Tree, d: CPath)
    requires Consistent(t)
    ensures RemoveTree(RemoveTree(t, d), d) == RemoveTree(t, d)
  {
    RemoveTreeConsistent(t, d);
    RemoveAbsentIsNoOp(RemoveTree(t, d), d);
  }

  /** The host's filesystem, whose directories change in place. */
  class FileSystem {
    var tree: Tree

    ghost predicate Valid()
      reads this
    {
      Consistent(tree)
    }

    constructor (t: Tree)
      requires Consistent(t)
      ensures Valid() && tree == t
    {
      tree := t;
    }

    /**
     * `shutil.rmtree(p)`: deletes the directory `p` and everything below it. It
     * raises, and changes nothing, when `p` is missing or is not a directory.
     */
    method RmTree(p: CPath) returns (r: Outcome<FsError>)
      requires Valid()
      modifies this
      ensures Valid()
      ensures r == (if p in old(tree) then Pass
                    else if Exists(old(tree), p) then Fail(NotADirectory(p))
                    else Fail(NotFound(p)))
      ensures r.Pass? ==> tree == RemoveTree(old(tree), p)
      ensures r.Fail? ==> tree == old(tree)
    {
      if p in tree {
        RemoveTreeConsistent(tree, p);
        tree := RemoveTree(tree, p);
        r := Pass;
      } else if Exists(tree, p) {
        r := Fail(NotADirectory(p));
      } else {
        r := Fail(NotFound(p));
      }
    }
  }
}
