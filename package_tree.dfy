/**
 * The tree task: walks the source roots, keeps each directory that holds Java sources, and
 * writes their package names, sorted and one per line, to the packages file. There are two
 * implementations: `GeneratePackageTree` (the `Task` variant), and `generatePackageHierarchy`
 * in the build script (the `Script` variant).
 */
module PackageTree {
  import opened FileTrees
  import opened PackageNames

  /** The last position of `c` in `s`. */
  function LastIndexOf(s: string, c: char): (i: nat)
    requires c in s
    ensures i < |s| && s[i] == c && c !in s[i + 1..]
  {
    if s[|s| - 1] == c then |s| - 1 else LastIndexOf(s[..|s| - 1], c)
  }

  /** The last position of `c` is the one after which `c` does not occur. */
  lemma {:induction false} LastIndexOfIs(s: string, c: char, j: nat)
    requires j < |s| && s[j] == c && c !in s[j + 1..]
    ensures LastIndexOf(s, c) == j
  {
    if j < |s| - 1 {
      assert s[|s| - 1] == s[j + 1..][|s| - 2 - j];
      assert s[..|s| - 1][j + 1..] == s[j + 1..|s| - 1];
      LastIndexOfIs(s[..|s| - 1], c, j);
    }
  }

  /** `Path.extension`: what follows the last '.' of a name, or "" when it has none. */
  function Extension(name: string): string
  {
    if '.' in name then name[LastIndexOf(name, '.') + 1..] else ""
  }

  /** A name has the java extension exactly when it ends in ".java". */
  lemma JavaExtension(name: string)
    ensures Extension(name) == "java" <==> |name| >= 5 && name[|name| - 5..] == ".java"
  {
    if |name| >= 5 && name[|name| - 5..] == ".java" {
      var j := |name| - 5;
      assert name[j] == '.' && name[j + 1..] == "java";
      LastIndexOfIs(name, '.', j);
    }
    if '.' in name && Extension(name) == "java" {
      var i := LastIndexOf(name, '.');
      assert name[|name| - 5..] == [name[i]] + name[i + 1..];
    }
  }

  // ---------------------------------------------------------------------------------------
  // Which directories are packages

  /**
   * The `Task` test: the directory holds an entry with the java extension, and no
   * package-info.java of its own, which overrides the generated one.
   */
  predicate IsTaskPackageDir(t: Tree, d: Path)
  {
    d in t && t[d] == Dir
    && PACKAGE_INFO !in ChildNames(t, d)
    && exists n :: n in ChildNames(t, d) && Extension(n) == "java"
  }

  /** The `Script` test: some regular file in the directory has the java extension. */
  predicate IsScriptPackageDir(t: Tree, d: Path)
  {
    d in t && t[d] == Dir
    && exists p :: p in t && |p| == |d| + 1 && d <= p && t[p].File? && Extension(p[|d|]) == "java"
  }

  /**
   * The loop over a directory stream in `GeneratePackageTree`: false at the first entry
   * named package-info.java, otherwise whether some entry has the java extension. The
   * stream's order is not specified, and the answer does not depend on it.
   */
  method ScanDirectory(entries: seq<string>) returns (r: bool)
    ensures r <==> PACKAGE_INFO !in entries && exists i :: 0 <= i < |entries| && Extension(entries[i]) == "java"
  {
    var foundJavaFile := false;
    for k := 0 to |entries|
      invariant PACKAGE_INFO !in entries[..k]
      invariant foundJavaFile <==> exists i :: 0 <= i < k && Extension(entries[i]) == "java"
    {
      if entries[k] == PACKAGE_INFO {
        return false;
      }
      if !foundJavaFile && Extension(entries[k]) == "java" {
        foundJavaFile := true;
      }
    }
    assert entries[..|entries|] == entries;
    return foundJavaFile;
  }

  /** The `Task` filter on one directory, given a listing of its entries in any order. */
  method CheckDirectory(t: Tree, d: Path, entries: seq<string>) returns (r: bool)
    requires d in t && t[d] == Dir
    requires forall n :: n in entries <==> n in ChildNames(t, d)
    ensures r == IsTaskPackageDir(t, d)
  {
    r := ScanDirectory(entries);
    if exists n :: n in ChildNames(t, d) && Extension(n) == "java" {
      var n :| n in ChildNames(t, d) && Extension(n) == "java";
      var i :| 0 <= i < |entries| && entries[i] == n;
    }
  }

  // ---------------------------------------------------------------------------------------
  // Package names

  /** `invariantSeparatorsPath.replace('/', '.')` of a relative directory: its names joined by dots. */
  function JoinDots(p: Path): string
  {
    if p == [] then "" else if |p| == 1 then p[0] else p[0] + "." + JoinDots(p[1..])
  }

  lemma {:induction false} SplitJoinDots(p: Path)
    requires p != [] && forall n :: n in p ==> '.' !in n
    ensures Split(JoinDots(p), '.') == p
  {
    if |p| > 1 {
      SplitFirst(p[0], '.', JoinDots(p[1..]));
      SplitJoinDots(p[1..]);
      assert p == [p[0]] + p[1..];
    }
  }

  lemma {:induction false} NonEmptySegmentsKeeps(p: Path)
    requires forall n :: n in p ==> n != ""
    ensures NonEmptySegments(p) == p
  {
    if p != [] {
      assert p[0] in p;
      assert forall n :: n in p[1..] ==> n in p;
      NonEmptySegmentsKeeps(p[1..]);
      assert p == [p[0]] + p[1..];
    }
  }

  /**
   * A directory whose names hold no '.' is where the info task looks for its package:
   * `PathOf` undoes `JoinDots`.
   */
  lemma PathOfJoinDots(p: Path)
    requires forall n :: n in p ==> n != "" && '.' !in n
    ensures PathOf(JoinDots(p)) == p
  {
    NonEmptySegmentsKeeps(p);
    if p != [] {
      SplitJoinDots(p);
    } else {
      assert Split("", '.') == [""];
      assert NonEmptySegments([""]) == [];
    }
  }

  /**
   * The directories each variant lists, and the names it keeps: `Task` drops blank names
   * (the root's) and names with LF; `Script` drops names with LF only.
   */
  predicate Found(v: Variant, t: Tree, d: Path)
  {
    match v
    case Task => IsTaskPackageDir(t, d) && !IsBlank(JoinDots(d)) && '\n' !in JoinDots(d)
    case Script => IsScriptPackageDir(t, d) && '\n' !in JoinDots(d)
  }

  /** The names a walk of one root yields, in walk order. */
  function Names(v: Variant, t: Tree, walk: seq<Path>): seq<string>
  {
    if walk == [] then []
    else (if Found(v, t, walk[0]) then [JoinDots(walk[0])] else []) + Names(v, t, walk[1..])
  }

  /** Each walk visits the entries of its root. */
  ghost predicate WalksList(roots: seq<Tree>, walks: seq<seq<Path>>)
  {
    |roots| == |walks| && forall i :: 0 <= i < |roots| ==> forall p :: p in walks[i] <==> p in roots[i]
  }

  /** `flatMap` over the roots. */
  function AllNames(v: Variant, roots: seq<Tree>, walks: seq<seq<Path>>): seq<string>
    requires |roots| == |walks|
  {
    if roots == [] then [] else Names(v, roots[0], walks[0]) + AllNames(v, roots[1..], walks[1..])
  }

  /** The contents of the packages file: the sorted set of the names, each followed by LF. */
  function PackagesText(v: Variant, roots: seq<Tree>, walks: seq<seq<Path>>): string
    requires |roots| == |walks|
  {
    Serialize(ToSortedSet(AllNames(v, roots, walks), Id))
  }

  /** A name of some directory of some root that the variant keeps. */
  ghost predicate IsPackage(v: Variant, roots: seq<Tree>, n: string)
  {
    exists i, d :: 0 <= i < |roots| && d in roots[i] && Found(v, roots[i], d) && n == JoinDots(d)
  }

  lemma {:induction false} NamesMembers(v: Variant, t: Tree, walk: seq<Path>)
    ensures forall n :: n in Names(v, t, walk) <==> exists d :: d in walk && Found(v, t, d) && n == JoinDots(d)
  {
    if walk != [] {
      NamesMembers(v, t, walk[1..]);
      assert walk == [walk[0]] + walk[1..];
    }
  }

  lemma {:induction false} AllNamesMembers(v: Variant, roots: seq<Tree>, walks: seq<seq<Path>>)
    requires WalksList(roots, walks)
    ensures forall n :: n in AllNames(v, roots, walks) <==> IsPackage(v, roots, n)
  {
    if roots != [] {
      AllNamesMembers(v, roots[1..], walks[1..]);
      NamesMembers(v, roots[0], walks[0]);
      forall n
        ensures n in AllNames(v, roots, walks) <==> IsPackage(v, roots, n)
      {
        if IsPackage(v, roots, n) {
          var i, d :| 0 <= i < |roots| && d in roots[i] && Found(v, roots[i], d) && n == JoinDots(d);
          if i == 0 {
            assert d in walks[0];
          } else {
            assert roots[1..][i - 1] == roots[i];
            assert IsPackage(v, roots[1..], n);
          }
        }
        if n in AllNames(v, roots[1..], walks[1..]) {
          var i, d :| 0 <= i < |roots[1..]| && d in roots[1..][i] && Found(v, roots[1..][i], d) && n == JoinDots(d);
          assert roots[1..][i] == roots[i + 1];
        }
      }
    }
  }

  /**
   * The packages file lists each package name of the roots exactly once, in sorted order,
   * and nothing else.
   */
  lemma PackagesListed(v: Variant, roots: seq<Tree>, walks: seq<seq<Path>>)
    requires WalksList(roots, walks)
    ensures SortedBy(ToSortedSet(AllNames(v, roots, walks), Id), Id)
    ensures forall n :: n in ToSortedSet(AllNames(v, roots, walks), Id) <==> IsPackage(v, roots, n)
  {
    var names := AllNames(v, roots, walks);
    AllNamesMembers(v, roots, walks);
    SortedSetContents(names, Id);
    forall n | n in names
      ensures n in ToSortedSet(names, Id)
    {
      var w :| w in ToSortedSet(names, Id) && Id(w) == Id(n);
    }
  }

  /** The packages file does not depend on the order in which the roots are walked. */
  lemma PackagesTextIndependentOfWalk(v: Variant, roots: seq<Tree>, walks1: seq<seq<Path>>, walks2: seq<seq<Path>>)
    requires WalksList(roots, walks1) && WalksList(roots, walks2)
    ensures PackagesText(v, roots, walks1) == PackagesText(v, roots, walks2)
  {
    PackagesListed(v, roots, walks1);
    PackagesListed(v, roots, walks2);
    SortedUnique(ToSortedSet(AllNames(v, roots, walks1), Id), ToSortedSet(AllNames(v, roots, walks2), Id));
  }

  /**
   * What `readPackagesFile` makes of the `Task` packages file: one record per package, in
   * order, each with the path of its name.
   */
  lemma TaskFileRoundTrip(roots: seq<Tree>, walks: seq<seq<Path>>)
    requires WalksList(roots, walks)
    ensures ReadPackagesFile(PackagesText(Task, roots, walks)) == Infos(ToSortedSet(AllNames(Task, roots, walks), Id))
    ensures forall info :: info in ReadPackagesFile(PackagesText(Task, roots, walks)) <==>
      IsPackage(Task, roots, info.name) && info.path == PathOf(info.name)
  {
    var names := ToSortedSet(AllNames(Task, roots, walks), Id);
    PackagesListed(Task, roots, walks);
    forall i | 0 <= i < |names|
      ensures '\n' !in names[i] && !IsBlank(names[i])
    {
      assert IsPackage(Task, roots, names[i]);
    }
    ReadSerialized(names);
    var r := ReadPackagesFile(PackagesText(Task, roots, walks));
    assert r == Infos(names);
    forall info
      ensures info in r <==> IsPackage(Task, roots, info.name) && info.path == PathOf(info.name)
    {
      if IsPackage(Task, roots, info.name) && info.path == PathOf(info.name) {
        var i :| 0 <= i < |names| && names[i] == info.name;
        assert r[i] == info;
      }
    }
  }
}
