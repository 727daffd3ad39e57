/**
 * The directory trees the package-info build tasks read and write: each tree is the set of
 * entries under one root directory, by relative path, and the file operations the tasks use
 * (`deleteRecursively`, `mkdirs`, `writeBytes`) act on it.
 */
module FileTrees {
  import opened JavaLang

  /** A path relative to a root directory, as its names; the root itself is `[]`. */
  type Path = seq<string>

  datatype Node = File(bytes: seq<bv8>) | Dir

  /** The entries under one root directory, by path. */
  type Tree = map<Path, Node>

  function Parent(p: Path): Path
    requires p != []
  {
    p[..|p| - 1]
  }

  /**
   * A tree as a file system holds it: the root, when present, is a directory, and every
   * other entry sits in a directory of the tree.
   */
  ghost predicate Wf(t: Tree)
  {
    ([] in t ==> t[[]] == Dir)
    && forall p {:trigger Parent(p)} :: p in t && p != [] ==> Parent(p) in t && t[Parent(p)] == Dir
  }

  /** Every proper ancestor of an entry of a well-formed tree is a directory of it. */
  lemma {:induction false} AncestorsAreDirs(t: Tree, p: Path, i: nat)
    requires Wf(t) && p in t && i < |p|
    ensures p[..i] in t && t[p[..i]] == Dir
    decreases |p| - i
  {
    var q := p[..i + 1];
    if i + 1 < |p| {
      AncestorsAreDirs(t, p, i + 1);
    } else {
      assert q == p;
    }
    assert Parent(q) == p[..i];
  }

  /** Two trees drawn from the entries of a third, with the same paths, are the same tree. */
  lemma SameEntries(m1: Tree, m2: Tree, t: Tree)
    requires forall e :: e in m1 ==> e in t && m1[e] == t[e]
    requires forall e :: e in m2 ==> e in t && m2[e] == t[e]
    requires forall e :: e in t ==> (e in m1 <==> e in m2)
    ensures m1 == m2
  {
    assert m1.Keys == m2.Keys;
  }

  /** The names of the entries directly inside `d`. */
  function ChildNames(t: Tree, d: Path): set<string>
  {
    set p | p in t && |p| == |d| + 1 && d <= p :: p[|d|]
  }

  /** The tree without `p` and everything under it. */
  function Without(t: Tree, p: Path): Tree
  {
    map e | e in t && !(p <= e) :: t[e]
  }

  /** The path and all its ancestors, the root included. */
  function Prefixes(p: Path): set<Path>
  {
    set i | 0 <= i <= |p| :: p[..i]
  }

  /**
   * `mkdirs` succeeds when `p` does not exist yet and none of its ancestors is a file: a
   * file in the way makes creating the directory below it fail.
   */
  predicate CanMkdirs(t: Tree, p: Path)
  {
    p !in t && forall i :: 0 <= i <= |p| && p[..i] in t ==> t[p[..i]] == Dir
  }

  /** The tree with `p` and its missing ancestors created as directories. */
  function WithDirs(t: Tree, p: Path): Tree
  {
    map q | q in t.Keys + Prefixes(p) :: if q in t then t[q] else Dir
  }

  /** `writeBytes` can open `p`: it is not the root, its parent is a directory, and it is no directory. */
  predicate CanWrite(t: Tree, p: Path)
  {
    p != [] && Parent(p) in t && t[Parent(p)] == Dir && (p !in t || t[p].File?)
  }

  /** Deleting a subtree keeps a tree well formed, and removes just that subtree. */
  lemma WithoutWf(t: Tree, p: Path)
    requires Wf(t)
    ensures Wf(Without(t, p))
    ensures forall e :: e in Without(t, p) <==> e in t && !(p <= e)
  {
    var w := Without(t, p);
    forall e | e in w && e != []
      ensures Parent(e) in w && w[Parent(e)] == Dir
    {
      assert Parent(e) <= e;
      assert p <= Parent(e) ==> p <= e;
    }
  }

  /** Creating directories keeps a tree well formed, creates `p`, and changes no entry. */
  lemma WithDirsWf(t: Tree, p: Path)
    requires Wf(t) && CanMkdirs(t, p)
    ensures Wf(WithDirs(t, p))
    ensures p in WithDirs(t, p) && WithDirs(t, p)[p] == Dir
    ensures forall e :: e in t ==> e in WithDirs(t, p) && WithDirs(t, p)[e] == t[e]
  {
    var w := WithDirs(t, p);
    assert p[..|p|] == p;
    forall e | e in w && e != []
      ensures Parent(e) in w && w[Parent(e)] == Dir
    {
      if e in t {
        assert Parent(e) in t;
      } else {
        var i :| 0 <= i <= |p| && p[..i] == e;
        assert Parent(e) == p[..i - 1];
      }
    }
    assert [] == p[..0];
  }

  /** Writing a file keeps a tree well formed, and changes that one entry only. */
  lemma WriteWf(t: Tree, p: Path, bytes: seq<bv8>)
    requires Wf(t) && CanWrite(t, p)
    ensures Wf(t[p := File(bytes)])
    ensures forall e :: e != p ==> (e in t[p := File(bytes)] <==> e in t)
  {
    var w := t[p := File(bytes)];
    forall e | e in w && e != []
      ensures Parent(e) in w && w[Parent(e)] == Dir
    {
      if e != p {
        assert Parent(e) in t && t[Parent(e)] == Dir;
      }
    }
  }

  /** A file system holding one root directory's tree. */
  class FileSystem {
    var tree: Tree

    constructor(t: Tree)
      ensures tree == t
    {
      tree := t;
    }

    /** `File.deleteRecursively`: `p` and everything under it are gone. */
    method DeleteRecursively(p: Path)
      modifies this
      ensures tree == Without(old(tree), p)
    {
      tree := Without(tree, p);
    }

    /**
     * `File.mkdirs`: creates `p` and its missing ancestors and answers true, or answers
     * false and changes nothing when `p` exists or a file is in the way.
     */
    method Mkdirs(p: Path) returns (created: bool)
      modifies this
      ensures created == CanMkdirs(old(tree), p)
      ensures tree == if created then WithDirs(old(tree), p) else old(tree)
    {
      created := CanMkdirs(tree, p);
      if created {
        tree := WithDirs(tree, p);
      }
    }

    /**
     * `File.writeBytes` on a path below the root: the file now holds `bytes`, or an
     * IOException leaves everything as it was.
     */
    method WriteBytes(p: Path, bytes: seq<bv8>) returns (r: Result<()>)
      requires p != []
      modifies this
      ensures CanWrite(old(tree), p) ==> r == Returned(()) && tree == old(tree)[p := File(bytes)]
      ensures !CanWrite(old(tree), p) ==> r == Threw(Thrown("java.io.IOException")) && tree == old(tree)
    {
      if CanWrite(tree, p) {
        tree := tree[p := File(bytes)];
        r := Returned(());
      } else {
        r := Threw(Thrown("java.io.IOException"));
      }
    }
  }
}
