/**
 * The info task: reads the packages file, deletes what in the output tree belongs to no
 * package any more, and writes each package's package-info.java unless it already holds
 * the right bytes. There are two implementations: `GeneratePackageInfo` with
 * `GeneratePackageInfoWorkAction` (the `Task` variant), and `generatePackageInfo` in the
 * build script (the `Script` variant).
 */
module PackageInfoTask {
  import opened JavaLang
  import opened FileTrees
  import opened PackageNames

  // ---------------------------------------------------------------------------------------
  // Which entries the clean-up deletes

  /** How an implementation decides that a path starts with a directory. */
  datatype Containment =
    /** `java.nio.file.Path.startsWith`: the empty path has one empty name, so only the empty path starts with it. */
    | NioPaths
    /** `kotlin.io.File.startsWith`: the empty path has no names, so every path starts with it. */
    | KotlinFiles

  /** The containment each variant uses: `Task` compares NIO paths, `Script` compares files. */
  function ContainmentOf(v: Variant): Containment
  {
    match v
    case Task => NioPaths
    case Script => KotlinFiles
  }

  predicate StartsWith(c: Containment, p: Path, q: Path)
  {
    match c
    case NioPaths => if q == [] then p == [] else q <= p
    case KotlinFiles => q <= p
  }

  /**
   * The directory an entry is judged by: a directory itself, a file its parent. In `Script`
   * a file at the top of the tree has no parent there, and is always deleted.
   */
  function Owner(v: Variant, e: Path, n: Node): Option<Path>
  {
    match v
    case Task => Some(if n.File? && e != [] then Parent(e) else e)
    case Script => if n.Dir? then Some(e) else if |e| <= 1 then None else Some(Parent(e))
  }

  /** The filter before `deleteRecursively`: no package path starts with the entry's directory. */
  predicate Doomed(v: Variant, c: Containment, e: Path, n: Node, pkgs: seq<PackageInfo>)
  {
    var o := Owner(v, e, n);
    o.None? || forall i :: 0 <= i < |pkgs| ==> !StartsWith(c, pkgs[i].path, o.value)
  }

  /** An entry at or above `e` is doomed, so deleting it takes `e` along. */
  predicate Condemned(v: Variant, c: Containment, t: Tree, pkgs: seq<PackageInfo>, e: Path)
  {
    exists a :: a in t && a <= e && Doomed(v, c, a, t[a], pkgs)
  }

  /** The output tree after the clean-up. */
  function Cleaned(v: Variant, c: Containment, t: Tree, pkgs: seq<PackageInfo>): Tree
  {
    map e | e in t && !Condemned(v, c, t, pkgs, e) :: t[e]
  }

  /** The walk visits exactly the entries of the tree. */
  ghost predicate Lists(walk: seq<Path>, t: Tree)
  {
    forall e :: e in walk <==> e in t
  }

  /** No entry comes after one under it, so each entry comes once. */
  ghost predicate ChildrenFirst(walk: seq<Path>)
  {
    forall j, k :: 0 <= j < k < |walk| ==> !(walk[j] <= walk[k])
  }

  /** `walkBottomUp`: every entry of the tree once, each after everything under it. */
  ghost predicate BottomUp(walk: seq<Path>, t: Tree)
  {
    Lists(walk, t) && ChildrenFirst(walk)
  }

  ghost predicate DoomedAt(v: Variant, c: Containment, t: Tree, pkgs: seq<PackageInfo>, walk: seq<Path>, j: nat)
    requires j < |walk| && walk[j] in t
  {
    Doomed(v, c, walk[j], t[walk[j]], pkgs)
  }

  /** The tree after the first `k` entries of the walk went through the filter. */
  ghost function CleanedUpTo(v: Variant, c: Containment, t: Tree, pkgs: seq<PackageInfo>, walk: seq<Path>, k: nat): Tree
    requires k <= |walk| && forall j :: 0 <= j < |walk| ==> walk[j] in t
  {
    map e | e in t && !(exists j :: 0 <= j < k && walk[j] <= e && DoomedAt(v, c, t, pkgs, walk, j)) :: t[e]
  }

  lemma CleanStep(v: Variant, c: Containment, t: Tree, pkgs: seq<PackageInfo>, walk: seq<Path>, k: nat)
    requires k < |walk| && forall j :: 0 <= j < |walk| ==> walk[j] in t
    ensures CleanedUpTo(v, c, t, pkgs, walk, k + 1) ==
      if DoomedAt(v, c, t, pkgs, walk, k) then Without(CleanedUpTo(v, c, t, pkgs, walk, k), walk[k])
      else CleanedUpTo(v, c, t, pkgs, walk, k)
  {
    var before, after := CleanedUpTo(v, c, t, pkgs, walk, k), CleanedUpTo(v, c, t, pkgs, walk, k + 1);
    var expected := if DoomedAt(v, c, t, pkgs, walk, k) then Without(before, walk[k]) else before;
    forall e
      ensures e in after <==> e in expected
    {
      if e in before && !(e in after) {
        var j :| 0 <= j < k + 1 && walk[j] <= e && DoomedAt(v, c, t, pkgs, walk, j);
        assert j == k;
      }
    }
    assert after == expected;
  }

  /** An entry survives the whole walk exactly when it is not condemned. */
  lemma WalkCondemns(v: Variant, c: Containment, t: Tree, pkgs: seq<PackageInfo>, walk: seq<Path>, e: Path)
    requires Lists(walk, t) && e in t
    requires forall j :: 0 <= j < |walk| ==> walk[j] in t
    ensures e in CleanedUpTo(v, c, t, pkgs, walk, |walk|) <==> e in Cleaned(v, c, t, pkgs)
  {
    if Condemned(v, c, t, pkgs, e) {
      var a :| a in t && a <= e && Doomed(v, c, a, t[a], pkgs);
      var j :| 0 <= j < |walk| && walk[j] == a;
      assert DoomedAt(v, c, t, pkgs, walk, j);
    }
  }

  lemma CleanedUpToAll(v: Variant, c: Containment, t: Tree, pkgs: seq<PackageInfo>, walk: seq<Path>)
    requires Lists(walk, t)
    ensures forall j :: 0 <= j < |walk| ==> walk[j] in t
    ensures CleanedUpTo(v, c, t, pkgs, walk, |walk|) == Cleaned(v, c, t, pkgs)
  {
    assert forall j :: 0 <= j < |walk| ==> walk[j] in walk;
    forall e | e in t
      ensures e in CleanedUpTo(v, c, t, pkgs, walk, |walk|) <==> e in Cleaned(v, c, t, pkgs)
    {
      WalkCondemns(v, c, t, pkgs, walk, e);
    }
    SameEntries(CleanedUpTo(v, c, t, pkgs, walk, |walk|), Cleaned(v, c, t, pkgs), t);
  }

  /**
   * The clean-up walk: each entry, bottom up, whose directory no package path starts with is
   * deleted with everything under it. The walk never reaches an entry already deleted, as
   * all that lies under an entry comes before it.
   */
  method Cleanup(fs: FileSystem, v: Variant, walk: seq<Path>, pkgs: seq<PackageInfo>)
    requires BottomUp(walk, fs.tree)
    modifies fs
    ensures fs.tree == Cleaned(v, ContainmentOf(v), old(fs.tree), pkgs)
  {
    ghost var t := fs.tree;
    var c := ContainmentOf(v);
    CleanedUpToAll(v, c, t, pkgs, walk);
    for k := 0 to |walk|
      invariant fs.tree == CleanedUpTo(v, c, t, pkgs, walk, k)
    {
      var e := walk[k];
      assert forall j :: 0 <= j < k ==> !(walk[j] <= e);
      assert e in fs.tree && fs.tree[e] == t[e];
      CleanStep(v, c, t, pkgs, walk, k);
      if Doomed(v, c, e, fs.tree[e], pkgs) {
        fs.DeleteRecursively(e);
      }
    }
  }

  // ---------------------------------------------------------------------------------------
  // What the clean-up keeps

  /** The clean-up keeps a tree well formed: a kept entry's directory is one that is kept too. */
  lemma CleanedWf(v: Variant, c: Containment, t: Tree, pkgs: seq<PackageInfo>)
    requires Wf(t)
    ensures Wf(Cleaned(v, c, t, pkgs))
    ensures forall e :: e in Cleaned(v, c, t, pkgs) ==> e in t && Cleaned(v, c, t, pkgs)[e] == t[e]
  {
    var w := Cleaned(v, c, t, pkgs);
    forall e | e in w && e != []
      ensures Parent(e) in w && w[Parent(e)] == Dir
    {
      var p := Parent(e);
      assert p in t;
      forall a | a in t && a <= p
        ensures !Doomed(v, c, a, t[a], pkgs)
      {
        assert a <= e;
      }
    }
  }

  /**
   * With file containment, an entry of a well-formed tree is kept exactly when it is not
   * doomed itself: a directory above a kept entry is never doomed.
   */
  lemma KeptIff(v: Variant, t: Tree, pkgs: seq<PackageInfo>, e: Path)
    requires Wf(t) && e in t
    ensures e in Cleaned(v, KotlinFiles, t, pkgs) <==> !Doomed(v, KotlinFiles, e, t[e], pkgs)
  {
    if !Doomed(v, KotlinFiles, e, t[e], pkgs) {
      var o := Owner(v, e, t[e]).value;
      var i :| 0 <= i < |pkgs| && StartsWith(KotlinFiles, pkgs[i].path, o);
      forall a | a in t && a <= e
        ensures !Doomed(v, KotlinFiles, a, t[a], pkgs)
      {
        if a != e {
          AncestorsAreDirs(t, e, |a|);
          assert e[..|a|] == a;
          assert a <= o;
        }
      }
    }
  }

  /**
   * With file containment, the clean-up keeps each package's directory, every directory
   * above it, and every file directly inside one of those, package-info.java included.
   */
  lemma KeepsPackageDirs(v: Variant, t: Tree, pkgs: seq<PackageInfo>, i: nat, e: Path)
    requires Wf(t) && e in t && i < |pkgs|
    requires (t[e] == Dir && e <= pkgs[i].path) || (t[e].File? && |e| >= 2 && Parent(e) <= pkgs[i].path)
    ensures e in Cleaned(v, KotlinFiles, t, pkgs)
  {
    KeptIff(v, t, pkgs, e);
  }

  /**
   * With file containment, the clean-up leaves the entries of a well-formed tree that are
   * not doomed, and nothing else.
   */
  lemma KeepsExactly(v: Variant, t: Tree, pkgs: seq<PackageInfo>, kept: Tree)
    requires Wf(t)
    requires forall e :: e in kept ==> e in t && kept[e] == t[e]
    requires forall e :: e in t ==> (e in kept <==> !Doomed(v, KotlinFiles, e, t[e], pkgs))
    ensures Cleaned(v, KotlinFiles, t, pkgs) == kept
  {
    forall e | e in t
      ensures e in Cleaned(v, KotlinFiles, t, pkgs) <==> e in kept
    {
      KeptIff(v, t, pkgs, e);
    }
    SameEntries(Cleaned(v, KotlinFiles, t, pkgs), kept, t);
  }

  /** The `Script` clean-up deletes every file at the top of the tree. */
  lemma ScriptDeletesTopFiles(t: Tree, pkgs: seq<PackageInfo>, e: Path)
    requires e in t && t[e].File? && |e| == 1
    ensures e !in Cleaned(Script, KotlinFiles, t, pkgs)
  {
    assert Doomed(Script, KotlinFiles, e, t[e], pkgs);
  }

  /**
   * The `Task` clean-up as written: the root's relative path is the empty path, which no
   * non-empty NIO path starts with, so the root is doomed and the whole tree is deleted.
   */
  lemma TaskCleanupEmptiesTree(t: Tree, pkgs: seq<PackageInfo>)
    requires [] in t && t[[]] == Dir
    requires forall i :: 0 <= i < |pkgs| ==> pkgs[i].path != []
    ensures Cleaned(Task, NioPaths, t, pkgs) == map[]
  {
    assert Doomed(Task, NioPaths, [], t[[]], pkgs);
    forall e | e in t
      ensures Condemned(Task, NioPaths, t, pkgs, e)
    {
      assert [] <= e;
    }
  }

  /**
   * The clean-up `Task` evidently intends, with file containment: it keeps each package
   * directory with everything above it and every file directly inside one of those.
   */
  lemma TaskIntendedKeepsPackages(t: Tree, pkgs: seq<PackageInfo>, e: Path)
    requires Wf(t) && e in t
    ensures e in Cleaned(Task, KotlinFiles, t, pkgs) <==>
      exists i :: 0 <= i < |pkgs| && (if t[e].File? && e != [] then Parent(e) else e) <= pkgs[i].path
  {
    KeptIff(Task, t, pkgs, e);
  }

  // ---------------------------------------------------------------------------------------
  // Writing one package-info.java

  /** The tree a work item leaves, and whether it wrote the file, or what it threw. */
  datatype WriteOutcome = WriteOutcome(tree: Tree, result: Result<bool>)

  /**
   * `GeneratePackageInfoWorkAction.execute`: nothing happens when the target is a file of
   * the same length and digest; otherwise a missing target gets its directories first, and
   * then the bytes are written. A directory at the target, or a file where a directory
   * should be, makes the write throw IOException.
   */
  function WriteIfChanged(t: Tree, target: Path, contents: seq<bv8>, digest: seq<bv8> -> seq<bv8>): WriteOutcome
    requires target != []
  {
    if target in t && t[target].File? && |t[target].bytes| == |contents|
      && digest(contents) == digest(t[target].bytes)
    then WriteOutcome(t, Returned(false))
    else
      var prepared := if target !in t && CanMkdirs(t, Parent(target)) then WithDirs(t, Parent(target)) else t;
      if CanWrite(prepared, target) then WriteOutcome(prepared[target := File(contents)], Returned(true))
      else WriteOutcome(prepared, Threw(Thrown("java.io.IOException")))
  }

  /** The work action on the file system; `digest` stands for SHA-1. */
  method Execute(fs: FileSystem, target: Path, contents: seq<bv8>, digest: seq<bv8> -> seq<bv8>) returns (r: Result<bool>)
    requires target != []
    modifies fs
    ensures WriteOutcome(fs.tree, r) == WriteIfChanged(old(fs.tree), target, contents, digest)
  {
    var present := target in fs.tree;
    if present && fs.tree[target].File? && |fs.tree[target].bytes| == |contents| {
      var expected := digest(contents);
      var actual := digest(fs.tree[target].bytes);
      if expected == actual {
        return Returned(false);
      }
    }
    if !present {
      var _ := fs.Mkdirs(Parent(target));
    }
    var written := fs.WriteBytes(target, contents);
    r := if written.Returned? then Returned(true) else Threw(written.error);
  }

  /** A digest that tells different contents apart. */
  ghost predicate CollisionFree(digest: seq<bv8> -> seq<bv8>)
  {
    forall x, y :: digest(x) == digest(y) ==> x == y
  }

  /**
   * When the write succeeds the target holds the contents (with a collision-free digest, a
   * skipped write means it held them already); the tree stays well formed; and no other
   * entry changes.
   */
  lemma WriteEstablishes(t: Tree, target: Path, contents: seq<bv8>, digest: seq<bv8> -> seq<bv8>)
    requires Wf(t) && target != []
    ensures var o := WriteIfChanged(t, target, contents, digest);
      Wf(o.tree)
      && (forall e :: e in t && e != target ==> e in o.tree && o.tree[e] == t[e])
      && (o.result == Returned(true) ==> o.tree[target] == File(contents))
      && (o.result == Returned(false) ==>
            o.tree == t && target in t && t[target].File? && digest(t[target].bytes) == digest(contents))
      && (CollisionFree(digest) && o.result.Returned? ==> target in o.tree && o.tree[target] == File(contents))
  {
    var o := WriteIfChanged(t, target, contents, digest);
    if o.result != Returned(false) {
      var prepared := if target !in t && CanMkdirs(t, Parent(target)) then WithDirs(t, Parent(target)) else t;
      if target !in t && CanMkdirs(t, Parent(target)) {
        WithDirsWf(t, Parent(target));
      }
      assert Wf(prepared);
      if CanWrite(prepared, target) {
        WriteWf(prepared, target, contents);
      }
    }
  }

  /**
   * It throws exactly when a directory sits at the target, or the target is missing and a
   * file sits where one of its directories should be.
   */
  lemma WriteFailsIff(t: Tree, target: Path, contents: seq<bv8>, digest: seq<bv8> -> seq<bv8>)
    requires Wf(t) && target != []
    ensures WriteIfChanged(t, target, contents, digest).result.Threw? <==>
      (target in t && t[target] == Dir)
      || (target !in t && exists i :: 0 <= i < |target| && target[..i] in t && t[target[..i]].File?)
  {
    var p := Parent(target);
    if target !in t && exists i :: 0 <= i < |target| && target[..i] in t && t[target[..i]].File? {
      var i :| 0 <= i < |target| && target[..i] in t && t[target[..i]].File?;
      assert p[..i] == target[..i];
      if p in t {
        if i < |p| {
          AncestorsAreDirs(t, p, i);
        }
      }
    }
    if target !in t && CanMkdirs(t, p) {
      WithDirsWf(t, p);
    }
    if target !in t && !CanMkdirs(t, p) && p in t && t[p] == Dir {
      forall i | 0 <= i < |target| && target[..i] in t
        ensures t[target[..i]] == Dir
      {
        assert target[..i] == p[..i];
        if i < |p| {
          AncestorsAreDirs(t, p, i);
        }
      }
    }
    if target !in t && !CanMkdirs(t, p) && p !in t {
      var i :| 0 <= i <= |p| && p[..i] in t && t[p[..i]] != Dir;
      assert target[..i] == p[..i];
    }
  }

  /** A second run right after a successful one writes nothing and changes nothing. */
  lemma WriteIdempotent(t: Tree, target: Path, contents: seq<bv8>, digest: seq<bv8> -> seq<bv8>)
    requires Wf(t) && target != []
    requires WriteIfChanged(t, target, contents, digest).result.Returned?
    ensures var t1 := WriteIfChanged(t, target, contents, digest).tree;
      WriteIfChanged(t1, target, contents, digest) == WriteOutcome(t1, Returned(false))
  {
    WriteEstablishes(t, target, contents, digest);
  }

  // ---------------------------------------------------------------------------------------
  // The whole task

  /** One unit of work: the file to write, and the text to put in it. */
  datatype WorkItem = WorkItem(target: Path, text: string)

  /** One item per package: its package-info.java, with the generator's text for its name. */
  function WorkItems(pkgs: seq<PackageInfo>, generator: string -> string): (r: seq<WorkItem>)
    ensures |r| == |pkgs|
    ensures forall i :: 0 <= i < |pkgs| ==> r[i] == WorkItem(pkgs[i].path + [PACKAGE_INFO], generator(pkgs[i].name))
  {
    if pkgs == [] then []
    else [WorkItem(pkgs[0].path + [PACKAGE_INFO], generator(pkgs[0].name))] + WorkItems(pkgs[1..], generator)
  }

  /** The `Task` generator's default: a bare package declaration. */
  function DefaultGenerator(name: string): string
  {
    "package " + name + ";"
  }

  /** The text the `Script` variant writes: the declaration, marked generated and annotated. */
  function ScriptGenerator(name: string): string
  {
    "/* AUTOGENERATED, DO NOT EDIT */ " + "@org.jetbrains.annotations.NotNullByDefault " + "package " + name + ";"
  }

  /**
   * The text each variant writes: the `Task` variant's `packageInfoGenerator` property, which
   * the build plug-in sets and which defaults to `DefaultGenerator`; the fixed text of the
   * build script.
   */
  function GeneratorOf(v: Variant, generator: string -> string): string -> string
  {
    match v
    case Task => generator
    case Script => ScriptGenerator
  }

  /** The `Script` reading of the packages file: the non-blank lines with their paths, in file order. */
  function ScriptPackages(text: string): seq<PackageInfo>
  {
    Infos(NonBlank(Split(text, '\n')))
  }

  /** The packages each variant works on. */
  function PackagesOf(v: Variant, text: string): seq<PackageInfo>
  {
    match v
    case Task => ReadPackagesFile(text)
    case Script => ScriptPackages(text)
  }

  /** The `Script` reading of a file written from names without LF: the non-blank names, in order. */
  lemma ScriptReadsSerialized(names: seq<string>)
    requires forall x :: x in names ==> '\n' !in x
    ensures ScriptPackages(Serialize(names)) == Infos(NonBlank(names))
  {
    SplitSerialized(names);
    NonBlankAppendBlank(names);
  }

  lemma {:induction false} NonBlankAppendBlank(names: seq<string>)
    ensures NonBlank(names + [""]) == NonBlank(names)
  {
    if names == [] {
      assert NonBlank([""]) == [] + NonBlank([]);
    } else {
      NonBlankAppendBlank(names[1..]);
      assert (names + [""])[1..] == names[1..] + [""];
    }
  }

  /** Every item writes below the root. */
  predicate NonEmptyTargets(items: seq<WorkItem>)
  {
    forall j :: 0 <= j < |items| ==> items[j].target != []
  }

  /** The items from `i` on, run one after another: the final tree and each item's result. */
  function RunFrom(t: Tree, items: seq<WorkItem>, i: nat, utf8: string -> seq<bv8>,
                   digest: seq<bv8> -> seq<bv8>, stopAtError: bool): (Tree, seq<Result<bool>>)
    requires i <= |items| && NonEmptyTargets(items)
    decreases |items| - i
  {
    if i == |items| then (t, [])
    else
      var o := WriteIfChanged(t, items[i].target, utf8(items[i].text), digest);
      if o.result.Threw? && stopAtError then (o.tree, [o.result])
      else var rest := RunFrom(o.tree, items, i + 1, utf8, digest, stopAtError); (rest.0, [o.result] + rest.1)
  }

  /** The results so far, followed by the rest of a run. */
  function Resume(done: seq<Result<bool>>, run: (Tree, seq<Result<bool>>)): (Tree, seq<Result<bool>>)
  {
    (run.0, done + run.1)
  }

  /** One item further into a run: what is left of it once item `i` gave `t1` and `r`. */
  lemma RunAdvance(whole: (Tree, seq<Result<bool>>), done: seq<Result<bool>>, t: Tree, items: seq<WorkItem>, i: nat,
                   utf8: string -> seq<bv8>, digest: seq<bv8> -> seq<bv8>, stopAtError: bool, t1: Tree, r: Result<bool>)
    requires i < |items| && NonEmptyTargets(items)
    requires whole == Resume(done, RunFrom(t, items, i, utf8, digest, stopAtError))
    requires WriteOutcome(t1, r) == WriteIfChanged(t, items[i].target, utf8(items[i].text), digest)
    ensures r.Threw? && stopAtError ==> whole == (t1, done + [r])
    ensures !(r.Threw? && stopAtError) ==> whole == Resume(done + [r], RunFrom(t1, items, i + 1, utf8, digest, stopAtError))
  {
    if !(r.Threw? && stopAtError) {
      var rest := RunFrom(t1, items, i + 1, utf8, digest, stopAtError);
      assert RunFrom(t, items, i, utf8, digest, stopAtError) == (rest.0, [r] + rest.1);
      assert done + ([r] + rest.1) == (done + [r]) + rest.1;
    }
  }

  /**
   * The work items, one after another. `Task` hands them to the worker queue, where a
   * failure does not stop the others; the `Script` loop stops at the first exception.
   */
  method RunItems(fs: FileSystem, items: seq<WorkItem>, utf8: string -> seq<bv8>,
                  digest: seq<bv8> -> seq<bv8>, stopAtError: bool) returns (results: seq<Result<bool>>)
    requires NonEmptyTargets(items)
    modifies fs
    ensures (fs.tree, results) == RunFrom(old(fs.tree), items, 0, utf8, digest, stopAtError)
  {
    ghost var whole := RunFrom(fs.tree, items, 0, utf8, digest, stopAtError);
    results := [];
    assert [] + whole.1 == whole.1;
    var i := 0;
    while i < |items|
      invariant i <= |items| && whole == Resume(results, RunFrom(fs.tree, items, i, utf8, digest, stopAtError))
      decreases |items| - i
    {
      ghost var before := fs.tree;
      var r := Execute(fs, items[i].target, utf8(items[i].text), digest);
      RunAdvance(whole, results, before, items, i, utf8, digest, stopAtError, fs.tree, r);
      results := results + [r];
      if r.Threw? && stopAtError {
        return;
      }
      i := i + 1;
    }
    assert results + [] == results;
  }

  /**
   * `GeneratePackageInfo.run` and the `generatePackageInfo` action: read the packages,
   * clean the output tree, then run one work item per package.
   */
  method GeneratePackageInfo(fs: FileSystem, v: Variant, text: string, walk: seq<Path>,
                             generator: string -> string, utf8: string -> seq<bv8>,
                             digest: seq<bv8> -> seq<bv8>) returns (results: seq<Result<bool>>)
    requires BottomUp(walk, fs.tree)
    modifies fs
    ensures (fs.tree, results) == RunFrom(Cleaned(v, ContainmentOf(v), old(fs.tree), PackagesOf(v, text)),
                                          WorkItems(PackagesOf(v, text), GeneratorOf(v, generator)),
                                          0, utf8, digest, v == Script)
  {
    var pkgs := PackagesOf(v, text);
    Cleanup(fs, v, walk, pkgs);
    var items := WorkItems(pkgs, GeneratorOf(v, generator));
    results := RunItems(fs, items, utf8, digest, v == Script);
  }

  /** No two items write the same file. */
  ghost predicate DistinctTargets(items: seq<WorkItem>)
  {
    forall j, k :: 0 <= j < k < |items| ==> items[j].target != items[k].target
  }

  /** Running the items from `i` on changes no entry outside their targets and keeps the tree well formed. */
  lemma {:induction false} RunFrame(t: Tree, items: seq<WorkItem>, i: nat, utf8: string -> seq<bv8>,
                                    digest: seq<bv8> -> seq<bv8>, stopAtError: bool, e: Path)
    requires Wf(t) && i <= |items| && NonEmptyTargets(items)
    requires e in t && forall j :: i <= j < |items| ==> items[j].target != e
    ensures var final := RunFrom(t, items, i, utf8, digest, stopAtError).0;
      Wf(final) && e in final && final[e] == t[e]
    decreases |items| - i
  {
    if i < |items| {
      WriteEstablishes(t, items[i].target, utf8(items[i].text), digest);
      var o := WriteIfChanged(t, items[i].target, utf8(items[i].text), digest);
      if !(o.result.Threw? && stopAtError) {
        RunFrame(o.tree, items, i + 1, utf8, digest, stopAtError, e);
      }
    }
  }

  /**
   * A run in which no item throws leaves each target holding the bytes of its text, when no
   * two items share a target and the digest tells contents apart.
   */
  lemma {:induction false} RunEstablishes(t: Tree, items: seq<WorkItem>, i: nat, utf8: string -> seq<bv8>,
                                          digest: seq<bv8> -> seq<bv8>, stopAtError: bool)
    requires Wf(t) && CollisionFree(digest) && i <= |items| && NonEmptyTargets(items) && DistinctTargets(items)
    requires forall r :: r in RunFrom(t, items, i, utf8, digest, stopAtError).1 ==> r.Returned?
    ensures var final := RunFrom(t, items, i, utf8, digest, stopAtError).0;
      Wf(final)
      && forall j :: i <= j < |items| ==> items[j].target in final && final[items[j].target] == File(utf8(items[j].text))
    decreases |items| - i
  {
    if i < |items| {
      var target := items[i].target;
      WriteEstablishes(t, target, utf8(items[i].text), digest);
      var o := WriteIfChanged(t, target, utf8(items[i].text), digest);
      var rest := RunFrom(o.tree, items, i + 1, utf8, digest, stopAtError);
      assert RunFrom(t, items, i, utf8, digest, stopAtError) == (rest.0, [o.result] + rest.1);
      assert o.result in [o.result] + rest.1;
      forall r | r in rest.1
        ensures r.Returned?
      {
        assert r in [o.result] + rest.1;
      }
      RunEstablishes(o.tree, items, i + 1, utf8, digest, stopAtError);
      RunFrame(o.tree, items, i + 1, utf8, digest, stopAtError, target);
    }
  }

  // ---------------------------------------------------------------------------------------
  // Scenarios

  /** A package `a` whose package-info.java already holds the bytes the work item writes. */
  function UpToDateTree(bytes: seq<bv8>): Tree
  {
    map[[] := Dir, ["a"] := Dir, ["a", PACKAGE_INFO] := File(bytes)]
  }

  /**
   * The `Task` clean-up as written deletes the up-to-date package-info.java of `a`, so the
   * work item writes it again.
   */
  lemma TaskRewritesUpToDateFile(bytes: seq<bv8>, digest: seq<bv8> -> seq<bv8>)
    ensures WriteIfChanged(Cleaned(Task, NioPaths, UpToDateTree(bytes), [PackageInfo("a", ["a"])]),
                           ["a", PACKAGE_INFO], bytes, digest).result == Returned(true)
  {
    var t := UpToDateTree(bytes);
    TaskCleanupEmptiesTree(t, [PackageInfo("a", ["a"])]);
    var target: Path := ["a", PACKAGE_INFO];
    assert Parent(target) == ["a"];
    assert ["a"][..0] == [] && ["a"][..1] == ["a"];
    assert WithDirs(map[], ["a"]) == map[[] := Dir, ["a"] := Dir];
  }

  /** With the intended clean-up the file stays, and the work item writes nothing. */
  lemma IntendedSkipsUpToDateFile(bytes: seq<bv8>, digest: seq<bv8> -> seq<bv8>)
    ensures WriteIfChanged(Cleaned(Task, KotlinFiles, UpToDateTree(bytes), [PackageInfo("a", ["a"])]),
                           ["a", PACKAGE_INFO], bytes, digest).result == Returned(false)
  {
    var t := UpToDateTree(bytes);
    assert Wf(t) by {
      assert Parent(["a"]) == [] && Parent(["a", PACKAGE_INFO]) == ["a"];
    }
    KeepsPackageDirs(Task, t, [PackageInfo("a", ["a"])], 0, ["a", PACKAGE_INFO]);
  }

  /** Packages `a` and `a.b`, each with its package-info.java. */
  function NestedTree(x: seq<bv8>, y: seq<bv8>): Tree
  {
    map[[] := Dir, ["a"] := Dir, ["a", PACKAGE_INFO] := File(x), ["a", "b"] := Dir, ["a", "b", PACKAGE_INFO] := File(y)]
  }

  lemma NestedTreeWf(x: seq<bv8>, y: seq<bv8>)
    ensures Wf(NestedTree(x, y))
  {
    assert Parent(["a"]) == [] && Parent(["a", PACKAGE_INFO]) == ["a"] && Parent(["a", "b"]) == ["a"];
    assert Parent(["a", "b", PACKAGE_INFO]) == ["a", "b"];
  }

  /**
   * `a.b` dropped from the packages: the `Script` clean-up deletes `a/b` with its
   * package-info.java and keeps `a` with its own.
   */
  lemma ScriptRemovesDroppedPackage(x: seq<bv8>, y: seq<bv8>)
    ensures Cleaned(Script, KotlinFiles, NestedTree(x, y), [PackageInfo("a", ["a"])])
      == map[[] := Dir, ["a"] := Dir, ["a", PACKAGE_INFO] := File(x)]
  {
    var t := NestedTree(x, y);
    var pkgs := [PackageInfo("a", ["a"])];
    var kept := map[[] := Dir, ["a"] := Dir, ["a", PACKAGE_INFO] := File(x)];
    NestedTreeWf(x, y);
    forall e | e in t
      ensures e in kept <==> !Doomed(Script, KotlinFiles, e, t[e], pkgs)
    {
      var o := Owner(Script, e, t[e]).value;
      assert o == [] || o == ["a"] || o == ["a", "b"];
      assert StartsWith(KotlinFiles, pkgs[0].path, o) <==> o != ["a", "b"];
    }
    KeepsExactly(Script, t, pkgs, kept);
  }

  /**
   * `a` dropped while `a.b` stays: `a`'s package-info.java is kept, as its directory still
   * holds a package, and so the whole tree stays.
   */
  lemma StalePackageInfoKept(x: seq<bv8>, y: seq<bv8>)
    ensures Cleaned(Script, KotlinFiles, NestedTree(x, y), [PackageInfo("a.b", ["a", "b"])]) == NestedTree(x, y)
  {
    var t := NestedTree(x, y);
    var pkgs := [PackageInfo("a.b", ["a", "b"])];
    NestedTreeWf(x, y);
    forall e | e in t
      ensures !Doomed(Script, KotlinFiles, e, t[e], pkgs)
    {
      var o := Owner(Script, e, t[e]).value;
      assert o == [] || o == ["a"] || o == ["a", "b"];
      assert StartsWith(KotlinFiles, pkgs[0].path, o);
    }
    KeepsExactly(Script, t, pkgs, t);
  }
}
