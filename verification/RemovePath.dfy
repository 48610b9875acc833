/**
 Recursive delete on a POSIX file system whose primitives may fail at any path.  A path is the sequence
 of its components; `lstat` is used, so a symbolic link is an entry of its own and never followed.
 */
module RemovePath {

  type Path = seq<string>

  datatype Kind = File | Link(target: Path) | Directory

  type Tree = map<Path, Kind>

  /** Every entry but the root stands in a directory, under a name other than `.` and `..`. */
  ghost predicate WellFormed(tree: Tree) {
    forall p | p in tree && p != [] ::
      Parent(p) in tree && tree[Parent(p)] == Directory && p[|p| - 1] != "." && p[|p| - 1] != ".."
  }

  function Parent(p: Path): Path
    requires p != []
  {
    p[..|p| - 1]
  }

  /** The entries at or under `path`. */
  ghost function Subtree(tree: Tree, path: Path): set<Path> {
    set p | p in tree && path <= p
  }

  /** All entries that are neither `path` nor under it. */
  ghost function Outside(tree: Tree, path: Path): Tree {
    map p | p in tree && !(path <= p) :: tree[p]
  }

  ghost predicate Within(after: Tree, before: Tree) {
    forall p | p in after :: p in before && after[p] == before[p]
  }

  predicate IsChild(p: Path, path: Path) {
    p != [] && Parent(p) == path
  }

  /** A directory with no entry has nothing under it at all. */
  lemma {:induction false} EmptyHasNoSubtree(tree: Tree, path: Path, p: Path)
    requires WellFormed(tree) && forall q | q in tree :: !IsChild(q, path)
    requires p in tree && path <= p
    ensures p == path
    decreases |p|
  {
    if |p| > |path| {
      assert path <= Parent(p);
      EmptyHasNoSubtree(tree, path, Parent(p));
    }
  }

  /** Removing an entry that nothing stands in clears its subtree and touches nothing else. */
  lemma RemovalClears(tree: Tree, path: Path)
    requires WellFormed(tree) && forall q | q in tree :: !IsChild(q, path)
    ensures Subtree(tree - {path}, path) == {} && Outside(tree - {path}, path) == Outside(tree, path)
  {
    forall p | p in tree && path <= p
      ensures p == path
    {
      EmptyHasNoSubtree(tree, path, p);
    }
  }

  /** The entries of `path` have their names among `names`. */
  ghost predicate Lists(names: seq<string>, tree: Tree, path: Path) {
    forall p | p in tree && IsChild(p, path) :: p[|p| - 1] in names
  }

  /** No failure under `path` concerns `p`: none is at `p`, at a directory above it, or at anything below it. */
  ghost predicate Free(broken: iset<Path>, path: Path, p: Path) {
    forall q | q in broken && path <= q :: !(q <= p) && !(p <= q)
  }

  /** Whatever is to go and is still in the directory stands in or under one of `names`. */
  ghost predicate Pending(names: seq<string>, tree: Tree, broken: iset<Path>, path: Path) {
    forall p | p in tree && path <= p && p != path && Free(broken, path, p) :: p[|path|] in names
  }

  lemma {:induction false} PrefixInTree(tree: Tree, p: Path, k: nat)
    requires WellFormed(tree) && p in tree && k <= |p|
    ensures p[..k] in tree
    decreases |p|
  {
    if k == |p| {
      assert p[..k] == p;
    } else {
      PrefixInTree(tree, Parent(p), k);
      assert Parent(p)[..k] == p[..k];
    }
  }

  /** A complete listing names everything in the directory, at any depth. */
  lemma ListingIsPending(names: seq<string>, tree: Tree, broken: iset<Path>, path: Path)
    requires WellFormed(tree) && (path !in broken ==> Lists(names, tree, path))
    ensures Pending(names, tree, broken, path)
  {
    forall p | p in tree && path <= p && p != path && Free(broken, path, p)
      ensures p[|path|] in names
    {
      var child := p[..|path| + 1];
      PrefixInTree(tree, p, |path| + 1);
      assert Parent(child) == path && child[|child| - 1] == p[|path|];
    }
  }

  lemma FreeInside(broken: iset<Path>, path: Path, name: string, p: Path)
    ensures Free(broken, path, p) ==> Free(broken, path + [name], p)
    ensures path + [name] in broken && path + [name] <= p ==> !Free(broken, path, p)
  {
    assert path <= path + [name];
    forall q | q in broken && path + [name] <= q
      ensures path <= q
    {
    }
  }

  /** A name is done with once all that can be deleted under it is gone, or its own failure keeps it. */
  lemma NameDone(before: Tree, after: Tree, broken: iset<Path>, path: Path, names: seq<string>)
    requires names != [] && Pending(names, before, broken, path) && Within(after, before)
    requires var child := path + [names[0]];
             child in broken || forall p | p in after && child <= p :: !Free(broken, child, p)
    ensures Pending(names[1..], after, broken, path)
  {
    forall p | p in after && path <= p && p != path && Free(broken, path, p)
      ensures p[|path|] in names[1..]
    {
      FreeInside(broken, path, names[0], p);
      assert path + [p[|path|]] <= p;
      assert p[|path|] in names;
    }
  }

  lemma DotsHoldNothing(tree: Tree, path: Path, name: string)
    requires WellFormed(tree) && (name == "." || name == "..")
    ensures forall p | p in tree :: !(path + [name] <= p)
  {
    forall p | p in tree && path + [name] <= p
      ensures path + [name] in tree
    {
      EntryAbove(tree, path, name, p);
    }
  }

  lemma EntryAbove(tree: Tree, path: Path, name: string, p: Path)
    requires WellFormed(tree) && p in tree && path + [name] <= p
    ensures path + [name] in tree
  {
    PrefixInTree(tree, p, |path| + 1);
    assert p[..|path| + 1] == path + [name];
  }

  lemma RemovalKeepsForm(tree: Tree, path: Path)
    requires WellFormed(tree) && forall q | q in tree :: !IsChild(q, path)
    ensures WellFormed(tree - {path})
  {
  }

  /** What lies outside a directory lies outside everything in it. */
  lemma OutsideChild(before: Tree, after: Tree, path: Path, name: string)
    requires Outside(after, path + [name]) == Outside(before, path + [name])
    ensures Outside(after, path) == Outside(before, path)
    ensures path in before ==> path in after && after[path] == before[path]
  {
    var child := path + [name];
    forall p | !(child <= p)
      ensures p in after <==> p in before
      ensures p in after ==> after[p] == before[p]
    {
      assert p in Outside(after, child) <==> p in after;
      assert p in Outside(before, child) <==> p in before;
    }
    assert path <= child && !(child <= path);
  }

  lemma ChildSubtreeSmaller(before: Tree, after: Tree, path: Path, name: string)
    requires path in before && Within(after, before)
    ensures Subtree(after, path + [name]) < Subtree(before, path)
  {
    forall p | p in Subtree(after, path + [name])
      ensures p in Subtree(before, path)
    {
      assert path <= path + [name] <= p;
    }
    assert path in Subtree(before, path) && path !in Subtree(after, path + [name]);
  }

  class FileSystem {
    var tree: Tree
    /** The paths at which a primitive may fail although its operand allows it. */
    const broken: iset<Path>

    constructor (tree: Tree, broken: iset<Path>)
      ensures this.tree == tree && this.broken == broken
    {
      this.tree := tree;
      this.broken := broken;
    }

    method Refuses(path: Path) returns (fails: bool)
      ensures path !in broken ==> !fails
    {
      fails := *;
      if path !in broken {
        fails := false;
      }
    }

    method Lstat(path: Path) returns (ok: bool, kind: Kind)
      ensures ok ==> path in tree && kind == tree[path]
      ensures path !in broken && path in tree ==> ok
    {
      var fails := Refuses(path);
      ok := path in tree && !fails;
      kind := if path in tree then tree[path] else File;
    }

    /** Unlinks an entry that is not a directory. */
    method Unlink(path: Path) returns (ok: bool)
      requires WellFormed(tree)
      modifies this`tree
      ensures WellFormed(tree)
      ensures tree == if ok then old(tree) - {path} else old(tree)
      ensures ok ==> path in old(tree) && old(tree)[path] != Directory
      ensures path !in broken && path in old(tree) && old(tree)[path] != Directory ==> ok
    {
      var fails := Refuses(path);
      ok := path in tree && tree[path] != Directory && !fails;
      if ok {
        assert forall q | q in tree :: !IsChild(q, path);
        RemovalKeepsForm(tree, path);
        tree := tree - {path};
      }
    }

    /** Removes a directory, which must be empty. */
    method Rmdir(path: Path) returns (ok: bool)
      requires WellFormed(tree)
      modifies this`tree
      ensures WellFormed(tree)
      ensures tree == if ok then old(tree) - {path} else old(tree)
      ensures ok ==> path in old(tree) && forall q | q in old(tree) :: !IsChild(q, path)
      ensures path !in broken && path in old(tree) && old(tree)[path] == Directory && Lists([], old(tree), path) ==> ok
    {
      var fails := Refuses(path);
      ok := path in tree && tree[path] == Directory && !fails && (forall q | q in tree :: !IsChild(q, path));
      if ok {
        RemovalKeepsForm(tree, path);
        tree := tree - {path};
      }
    }

    /** The names that reading a directory yields: every entry, or any names at all when reading fails. */
    method Listing(path: Path) returns (names: seq<string>)
      ensures path !in broken ==> Lists(names, tree, path)
    {
      names := *;
      if path !in broken {
        names := [];
        var rest := tree.Keys;
        while rest != {}
          invariant rest <= tree.Keys
          invariant forall p | p in tree && IsChild(p, path) && p !in rest :: p[|p| - 1] in names
          decreases rest
        {
          var p :| p in rest;
          if IsChild(p, path) {
            names := names + [p[|p| - 1]];
          }
          rest := rest - {p};
        }
      }
    }

    /**
     Deletes `path` and everything under it; the results of the inner deletes are not looked at.  True
     means that `path` was there and nothing is left at or under it; false, that it was not or still is.
     Nothing else ever changes, the targets of links included.  Whatever else fails, each entry goes that no
     failure at it, above it or below it holds back; without failures an existing path is always deleted.
     */
    method Remove(path: Path) returns (ok: bool)
      requires WellFormed(tree)
      modifies this`tree
      ensures WellFormed(tree) && Within(tree, old(tree))
      ensures Outside(tree, path) == Outside(old(tree), path)
      ensures ok ==> Subtree(tree, path) == {}
      ensures ok <==> path in old(tree) && path !in tree
      ensures forall p | p in tree && path <= p :: !Free(broken, path, p)
      ensures Free(broken, path, path) ==> (ok <==> path in old(tree))
      decreases Subtree(tree, path)
    {
      var found, kind := Lstat(path);
      if !found {
        NothingFree(tree, broken, path);
        return false;
      }
      if kind == Directory {
        var opendirFails := Refuses(path);
        if !opendirFails {
          RemoveEntries(path);
        }
        ghost var emptied := tree;
        ok := Rmdir(path);
        if ok {
          RemovalClears(emptied, path);
        }
        DirectoryDone(emptied, tree, broken, path, ok);
        return;
      }
      RemovalClears(tree, path);
      FileAlone(tree, path);
      ok := Unlink(path);
    }

    /** The loop over the entries of an open directory. */
    method RemoveEntries(path: Path)
      requires WellFormed(tree) && path in tree && tree[path] == Directory
      modifies this`tree
      ensures WellFormed(tree) && Within(tree, old(tree))
      ensures Outside(tree, path) == Outside(old(tree), path)
      ensures path in tree && tree[path] == Directory
      ensures Pending([], tree, broken, path)
      decreases Subtree(tree, path), 0
    {
      hide WellFormed, Outside, Within, Subtree, Lists, Pending, Free;
      var names := Listing(path);
      assert Within(tree, tree) by { WithinItself(tree); }
      ListingIsPending(names, tree, broken, path);
      var i := 0;
      assert names[0..] == names;
      while i < |names|
        invariant 0 <= i <= |names|
        invariant WellFormed(tree) && Within(tree, old(tree))
        invariant Outside(tree, path) == Outside(old(tree), path)
        invariant path in tree && tree[path] == Directory
        invariant Pending(names[i..], tree, broken, path)
      {
        var name := names[i];
        ghost var before := tree;
        ghost var left := names[i..];
        assert left[0] == name && left[1..] == names[i + 1..];
        WithinItself(tree);
        if name == "." || name == ".." {
          DotsHoldNothing(tree, path, name);
        } else {
          var child := path + [name];
          var mallocFails := Refuses(child);
          if !mallocFails {
            ChildSubtreeSmaller(old(tree), tree, path, name);
            var _ := Remove(child);
            OutsideChild(before, tree, path, name);
            WithinTransitive(tree, before, old(tree));
          }
        }
        NameDone(before, tree, broken, path, left);
        i := i + 1;
      }
      assert names[i..] == [];
    }
  }

  /** Nothing can be deleted where there is nothing, or where the first look fails. */
  lemma NothingFree(tree: Tree, broken: iset<Path>, path: Path)
    requires WellFormed(tree) && (path in tree ==> path in broken)
    ensures forall p | p in tree && path <= p :: !Free(broken, path, p)
  {
    forall p | p in tree && path <= p
      ensures !Free(broken, path, p)
    {
      PrefixInTree(tree, p, |path|);
      assert p[..|path|] == path;
    }
  }

  lemma FileAlone(tree: Tree, path: Path)
    requires WellFormed(tree) && path in tree && tree[path] != Directory
    ensures forall p | p in tree && path <= p :: p == path
  {
    forall p | p in tree && path <= p
      ensures p == path
    {
      EmptyHasNoSubtree(tree, path, p);
    }
  }

  /** After the loop over a directory, and the attempt to remove it. */
  lemma DirectoryDone(emptied: Tree, after: Tree, broken: iset<Path>, path: Path, ok: bool)
    requires WellFormed(emptied) && path in emptied
    requires path in broken || Pending([], emptied, broken, path)
    requires after == if ok then emptied - {path} else emptied
    requires path !in broken && Lists([], emptied, path) ==> ok
    ensures forall p | p in after && path <= p :: !Free(broken, path, p)
  {
    forall p | p in after && path <= p
      ensures !Free(broken, path, p)
    {
      if p == path && Free(broken, path, path) {
        forall c | c in emptied && IsChild(c, path)
          ensures false
        {
          assert path <= c && c != path;
          assert Free(broken, path, c);
        }
        assert Lists([], emptied, path);
      }
    }
  }

  lemma WithinItself(tree: Tree)
    ensures Within(tree, tree)
  {
  }

  lemma WithinTransitive(a: Tree, b: Tree, c: Tree)
    requires Within(a, b) && Within(b, c)
    ensures Within(a, c)
  {
  }
}
