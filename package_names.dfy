/**
 * The packages file that connects the two package-info build tasks: one Java package name
 * per line, each line ended by LF, in sorted order. The tree task writes it; `readPackagesFile`
 * reads it back into sorted `PackageInfo` records, each with the relative directory of its
 * package.
 *
 * Text is a `string`; the UTF-8 encoding on both sides is left abstract.
 */
module PackageNames {
  import opened JavaLang
  import opened FileTrees

  /**
   * The two implementations of each package-info task: the task classes of the build
   * plug-in, and the tasks written inline in the build script.
   */
  datatype Variant = Task | Script

  /** The name of the file each package directory receives, and that marks it generated. */
  const PACKAGE_INFO: string := "package-info.java"

  // ---------------------------------------------------------------------------------------
  // String order

  /**
   * `String.compareTo`: the difference of the first differing characters, else of the
   * lengths. Characters are code points, so this is Java's order only on names within the
   * Basic Multilingual Plane.
   */
  function CompareStrings(a: string, b: string): int
  {
    if a == [] || b == [] then |a| - |b|
    else if a[0] != b[0] then a[0] as int - b[0] as int
    else CompareStrings(a[1..], b[1..])
  }

  /** `a` sorts before `b`. */
  predicate Before(a: string, b: string)
  {
    CompareStrings(a, b) < 0
  }

  lemma {:induction false} CompareZero(a: string, b: string)
    ensures CompareStrings(a, b) == 0 <==> a == b
  {
    if a != [] && b != [] && a[0] == b[0] {
      CompareZero(a[1..], b[1..]);
      assert a == [a[0]] + a[1..] && b == [b[0]] + b[1..];
    }
  }

  lemma {:induction false} CompareAntisymmetric(a: string, b: string)
    ensures CompareStrings(a, b) == -CompareStrings(b, a)
  {
    if a != [] && b != [] && a[0] == b[0] {
      CompareAntisymmetric(a[1..], b[1..]);
    }
  }

  lemma {:induction false} CompareTransitive(a: string, b: string, c: string)
    requires Before(a, b) && Before(b, c)
    ensures Before(a, c)
  {
    if a != [] && b != [] && c != [] && a[0] == b[0] && b[0] == c[0] {
      CompareTransitive(a[1..], b[1..], c[1..]);
    }
  }

  /** Of two different strings, one sorts before the other. */
  lemma CompareTotal(a: string, b: string)
    requires a != b
    ensures Before(a, b) || Before(b, a)
  {
    CompareZero(a, b);
    CompareAntisymmetric(a, b);
  }

  // ---------------------------------------------------------------------------------------
  // Sorted sets

  /** The identity key: strings are ordered by themselves. */
  function Id(s: string): string
  {
    s
  }

  /** Strictly increasing by key: sorted, and no two elements with the same key. */
  ghost predicate SortedBy<T>(xs: seq<T>, key: T -> string)
  {
    forall i, j :: 0 <= i < j < |xs| ==> Before(key(xs[i]), key(xs[j]))
  }

  /** Some element of `xs` has key `k`. */
  ghost predicate HasKey<T>(xs: seq<T>, key: T -> string, k: string)
  {
    exists y :: y in xs && key(y) == k
  }

  /**
   * `TreeSet.add` on a set ordered by `key`: `x` goes in its place, unless an element that
   * compares equal to it is already there, which then stays.
   */
  function Insert<T>(x: T, ys: seq<T>, key: T -> string): seq<T>
  {
    if ys == [] then [x]
    else if CompareStrings(key(x), key(ys[0])) == 0 then ys
    else if Before(key(x), key(ys[0])) then [x] + ys
    else [ys[0]] + Insert(x, ys[1..], key)
  }

  /** `toSortedSet()` on a sequence: its elements added one by one, first to last. */
  function ToSortedSet<T>(xs: seq<T>, key: T -> string): seq<T>
  {
    if xs == [] then [] else Insert(xs[|xs| - 1], ToSortedSet(xs[..|xs| - 1], key), key)
  }

  /** Inserting keeps a sorted set sorted, adds nothing but `x`, and adds `x`'s key. */
  lemma {:induction false} InsertSorted<T>(x: T, ys: seq<T>, key: T -> string)
    requires SortedBy(ys, key)
    ensures SortedBy(Insert(x, ys, key), key)
    ensures forall y :: y in Insert(x, ys, key) ==> y == x || y in ys
    ensures forall y :: y in ys ==> y in Insert(x, ys, key)
    ensures HasKey(Insert(x, ys, key), key, key(x))
    decreases |ys|, 1
  {
    var r := Insert(x, ys, key);
    if ys == [] {
      assert r[0] == x;
    } else if CompareStrings(key(x), key(ys[0])) == 0 {
      CompareZero(key(x), key(ys[0]));
      assert ys[0] in r;
    } else if Before(key(x), key(ys[0])) {
      forall y | y in ys
        ensures Before(key(x), key(y))
      {
        if y != ys[0] {
          var k :| 0 <= k < |ys| && ys[k] == y;
          CompareTransitive(key(x), key(ys[0]), key(y));
        }
      }
      SortedCons(x, ys, key);
      assert r[0] == x;
    } else {
      CompareZero(key(x), key(ys[0]));
      CompareTotal(key(x), key(ys[0]));
      InsertAfterHead(x, ys, key);
    }
  }

  /** The case of `InsertSorted` where `x` goes after the head of `ys`. */
  lemma {:induction false} InsertAfterHead<T>(x: T, ys: seq<T>, key: T -> string)
    requires SortedBy(ys, key) && ys != [] && Before(key(ys[0]), key(x))
    ensures Insert(x, ys, key) == [ys[0]] + Insert(x, ys[1..], key)
    ensures SortedBy(Insert(x, ys, key), key)
    ensures forall y :: y in Insert(x, ys, key) ==> y == x || y in ys
    ensures forall y :: y in ys ==> y in Insert(x, ys, key)
    ensures HasKey(Insert(x, ys, key), key, key(x))
    decreases |ys|, 0
  {
    CompareAntisymmetric(key(ys[0]), key(x));
    var tail := ys[1..];
    SortedTail(ys, key);
    InsertSorted(x, tail, key);
    var rest := Insert(x, tail, key);
    forall y | y in rest
      ensures Before(key(ys[0]), key(y))
    {
      if y != x {
        var k :| 0 <= k < |tail| && tail[k] == y;
        assert y == ys[k + 1];
      }
    }
    SortedCons(ys[0], rest, key);
    assert ys == [ys[0]] + tail;
    var w :| w in rest && key(w) == key(x);
    assert w in [ys[0]] + rest;
  }

  /** The tail of a sorted sequence is sorted. */
  lemma SortedTail<T>(ys: seq<T>, key: T -> string)
    requires SortedBy(ys, key) && ys != []
    ensures SortedBy(ys[1..], key)
  {
    var tail := ys[1..];
    forall i, j | 0 <= i < j < |tail|
      ensures Before(key(tail[i]), key(tail[j]))
    {
      assert tail[i] == ys[i + 1] && tail[j] == ys[j + 1];
    }
  }

  /** A head before every element of a sorted sequence extends it to a sorted sequence. */
  lemma SortedCons<T>(h: T, ys: seq<T>, key: T -> string)
    requires SortedBy(ys, key) && forall y :: y in ys ==> Before(key(h), key(y))
    ensures SortedBy([h] + ys, key)
  {
    var r := [h] + ys;
    forall i, j | 0 <= i < j < |r|
      ensures Before(key(r[i]), key(r[j]))
    {
      if i == 0 {
        assert r[j] == ys[j - 1];
      } else {
        assert r[i] == ys[i - 1] && r[j] == ys[j - 1];
      }
    }
  }

  /**
   * `toSortedSet()` is sorted, holds only elements of its input, and holds an element with
   * each key of the input.
   */
  lemma {:induction false} SortedSetContents<T>(xs: seq<T>, key: T -> string)
    ensures SortedBy(ToSortedSet(xs, key), key)
    ensures forall y :: y in ToSortedSet(xs, key) ==> y in xs
    ensures forall x :: x in xs ==> HasKey(ToSortedSet(xs, key), key, key(x))
  {
    if xs != [] {
      var init, last := xs[..|xs| - 1], xs[|xs| - 1];
      SortedSetContents(init, key);
      var s := ToSortedSet(init, key);
      InsertSorted(last, s, key);
      assert xs == init + [last];
      forall x | x in xs
        ensures HasKey(ToSortedSet(xs, key), key, key(x))
      {
        if x != last {
          assert x in init;
          var w :| w in s && key(w) == key(x);
          assert w in ToSortedSet(xs, key);
        }
      }
    }
  }

  /** Adding an element after every element of a sorted set appends it. */
  lemma {:induction false} InsertLast<T>(x: T, ys: seq<T>, key: T -> string)
    requires forall i :: 0 <= i < |ys| ==> Before(key(ys[i]), key(x))
    ensures Insert(x, ys, key) == ys + [x]
  {
    if ys != [] {
      CompareAntisymmetric(key(ys[0]), key(x));
      InsertLast(x, ys[1..], key);
      assert ys == [ys[0]] + ys[1..];
    }
  }

  /** A sequence that is already a sorted set is its own `toSortedSet()`. */
  lemma {:induction false} SortedSetOfSorted<T>(xs: seq<T>, key: T -> string)
    requires SortedBy(xs, key)
    ensures ToSortedSet(xs, key) == xs
  {
    if xs != [] {
      var init := xs[..|xs| - 1];
      assert SortedBy(init, key);
      SortedSetOfSorted(init, key);
      InsertLast(xs[|xs| - 1], init, key);
      assert init + [xs[|xs| - 1]] == xs;
    }
  }

  /** Every element of a sorted sequence is its head or sorts after it. */
  lemma SortedHeadLeast(a: seq<string>, x: string)
    requires SortedBy(a, Id) && x in a
    ensures x == a[0] || Before(a[0], x)
  {
    var j :| 0 <= j < |a| && a[j] == x;
    assert j == 0 || Before(Id(a[0]), Id(a[j]));
  }

  /** Two sorted sets of strings with the same elements are the same sequence. */
  lemma {:induction false} SortedUnique(a: seq<string>, b: seq<string>)
    requires SortedBy(a, Id) && SortedBy(b, Id)
    requires forall x :: x in a <==> x in b
    ensures a == b
  {
    if a != [] || b != [] {
      var w := if a != [] then a[0] else b[0];
      assert w in a && w in b;
      SortedHeadLeast(a, b[0]);
      SortedHeadLeast(b, a[0]);
      CompareAntisymmetric(a[0], b[0]);
      SortedTail(a, Id);
      SortedTail(b, Id);
      forall x
        ensures x in a[1..] <==> x in b[1..]
      {
        CompareZero(a[0], x);
        if x in a[1..] {
          SortedHeadLeast(a, x);
          var j :| 0 <= j < |a[1..]| && a[1..][j] == x;
          assert Before(Id(a[0]), Id(a[j + 1]));
        }
        if x in b[1..] {
          var j :| 0 <= j < |b[1..]| && b[1..][j] == x;
          assert Before(Id(b[0]), Id(b[j + 1]));
        }
        assert x in a <==> x == a[0] || x in a[1..];
        assert x in b <==> x == b[0] || x in b[1..];
      }
      SortedUnique(a[1..], b[1..]);
      assert a == [a[0]] + a[1..] && b == [b[0]] + b[1..];
    }
  }

  // ---------------------------------------------------------------------------------------
  // Lines

  /** The first position of `c` in `s`. */
  function IndexOf(s: string, c: char): (i: nat)
    requires c in s
    ensures i < |s| && s[i] == c && c !in s[..i]
  {
    if s[0] == c then 0 else 1 + IndexOf(s[1..], c)
  }

  /** The first position of `c` is the one before which `c` does not occur. */
  lemma {:induction false} IndexOfFirst(s: string, c: char, j: nat)
    requires j < |s| && s[j] == c && forall k :: 0 <= k < j ==> s[k] != c
    ensures IndexOf(s, c) == j
  {
    if j > 0 {
      IndexOfFirst(s[1..], c, j - 1);
    }
  }

  /** `splitToSequence(sep)`: the pieces between separators, so one more piece than separators. */
  function Split(s: string, sep: char): (r: seq<string>)
    ensures |r| >= 1
    decreases |s|
  {
    if sep !in s then [s] else var i := IndexOf(s, sep); [s[..i]] + Split(s[i + 1..], sep)
  }

  /** Each string followed by one LF: what the tree task writes. */
  function Serialize(names: seq<string>): string
  {
    if names == [] then "" else names[0] + "\n" + Serialize(names[1..])
  }

  /**
   * `isWhitespace` on a Kotlin `Char`: `Character.isWhitespace` or `Character.isSpaceChar`,
   * which adds the non-breaking spaces.
   */
  predicate KotlinWhitespace(c: char)
  {
    IsWhitespace(c) || c == '\U{00A0}' || c == '\U{2007}' || c == '\U{202F}'
  }

  /** `isBlank()`: empty, or white space only. */
  predicate IsBlank(s: string)
  {
    forall i :: 0 <= i < |s| ==> KotlinWhitespace(s[i])
  }

  /** `filter(String::isNotBlank)`. */
  function NonBlank(lines: seq<string>): (r: seq<string>)
  {
    if lines == [] then []
    else (if IsBlank(lines[0]) then [] else [lines[0]]) + NonBlank(lines[1..])
  }

  /** Splitting what `Serialize` wrote gives back the names, and the empty piece after the last LF. */
  lemma {:induction false} SplitSerialized(names: seq<string>)
    requires forall x :: x in names ==> '\n' !in x
    ensures Split(Serialize(names), '\n') == names + [""]
  {
    if names != [] {
      var rest := names[1..];
      assert Serialize(names) == names[0] + "\n" + Serialize(rest);
      SplitFirst(names[0], '\n', Serialize(rest));
      SplitSerialized(rest);
      assert names + [""] == [names[0]] + (rest + [""]);
    }
  }

  /** A first piece without the separator is the first piece, and the rest is split on. */
  lemma SplitFirst(x: string, sep: char, rest: string)
    requires sep !in x
    ensures Split(x + [sep] + rest, sep) == [x] + Split(rest, sep)
  {
    var s := x + [sep] + rest;
    assert forall k :: 0 <= k < |x| ==> s[k] == x[k];
    IndexOfFirst(s, sep, |x|);
    assert s[..|x|] == x && s[|x| + 1..] == rest;
  }

  /** Only blank lines are dropped. */
  lemma {:induction false} NonBlankKeepsNames(names: seq<string>)
    requires forall i :: 0 <= i < |names| ==> !IsBlank(names[i])
    ensures NonBlank(names + [""]) == names
  {
    if names == [] {
      assert NonBlank([""]) == [] + NonBlank([]);
    } else {
      NonBlankKeepsNames(names[1..]);
      assert (names + [""])[1..] == names[1..] + [""];
      assert names == [names[0]] + names[1..];
    }
  }

  // ---------------------------------------------------------------------------------------
  // Package records

  /** The segments that are not empty: `resolve("")` leaves a path as it is. */
  function NonEmptySegments(parts: seq<string>): (r: Path)
    ensures forall i :: 0 <= i < |r| ==> r[i] != ""
    ensures forall x :: x in r <==> x in parts && x != ""
    ensures |r| <= |parts|
  {
    if parts == [] then []
    else (if parts[0] == "" then [] else [parts[0]]) + NonEmptySegments(parts[1..])
  }

  /**
   * Resolving segment by segment: the non-empty segments of a concatenation are those of
   * each half, in order, so a non-empty segment stays and an empty one is dropped.
   */
  lemma {:induction false} NonEmptySegmentsConcat(a: seq<string>, b: seq<string>)
    ensures NonEmptySegments(a + b) == NonEmptySegments(a) + NonEmptySegments(b)
  {
    if a == [] {
      assert a + b == b;
    } else {
      assert (a + b)[1..] == a[1..] + b;
      NonEmptySegmentsConcat(a[1..], b);
    }
  }

  /** The directory of a package: its dot-separated components resolved one by one from `Path("")`. */
  function PathOf(name: string): Path
  {
    NonEmptySegments(Split(name, '.'))
  }

  /** `PackageInfo(name, path)`. */
  datatype PackageInfo = PackageInfo(name: string, path: Path)

  function Name(info: PackageInfo): string
  {
    info.name
  }

  /** `compareTo`: the order of the names. */
  function CompareInfos(a: PackageInfo, b: PackageInfo): int
  {
    CompareStrings(a.name, b.name)
  }

  /** `equals`: the same name. */
  predicate EqualInfos(a: PackageInfo, b: PackageInfo)
  {
    a.name == b.name
  }

  /**
   * `String.hashCode`: the 31-polynomial over the characters, in 32-bit arithmetic, which
   * is Java's hash on names within the Basic Multilingual Plane.
   */
  function StringHash(s: string): Int32
  {
    if s == [] then 0 else Wrap32(31 * StringHash(s[..|s| - 1]) + s[|s| - 1] as int)
  }

  /** `hashCode`: the hash of the name. */
  function HashInfo(info: PackageInfo): Int32
  {
    StringHash(info.name)
  }

  /**
   * The order, equality and hash of `PackageInfo` are those of the name alone: the order
   * agrees with equality, and equal records hash alike, whatever their paths.
   */
  lemma InfoOrderIsByName(a: PackageInfo, b: PackageInfo)
    ensures CompareInfos(a, b) == 0 <==> EqualInfos(a, b)
    ensures EqualInfos(a, b) ==> HashInfo(a) == HashInfo(b)
    ensures CompareInfos(a, b) == -CompareInfos(b, a)
  {
    CompareZero(a.name, b.name);
    CompareAntisymmetric(a.name, b.name);
  }

  function Infos(lines: seq<string>): (r: seq<PackageInfo>)
    ensures |r| == |lines|
    ensures forall i :: 0 <= i < |lines| ==> r[i] == PackageInfo(lines[i], PathOf(lines[i]))
  {
    if lines == [] then [] else [PackageInfo(lines[0], PathOf(lines[0]))] + Infos(lines[1..])
  }

  /**
   * `readPackagesFile`: split on LF, drop blank lines, pair each line with its path, and
   * collect into a set sorted by name.
   */
  function ReadPackagesFile(text: string): seq<PackageInfo>
  {
    ToSortedSet(Infos(NonBlank(Split(text, '\n'))), Name)
  }

  /** `readPackagesFile` is sorted by name, and its records are the file's non-blank lines. */
  lemma ReadIsSortedSet(text: string)
    ensures SortedBy(ReadPackagesFile(text), Name)
    ensures forall info :: info in ReadPackagesFile(text) ==>
      info.path == PathOf(info.name) && info.name in Split(text, '\n') && !IsBlank(info.name)
  {
    var lines := NonBlank(Split(text, '\n'));
    NonBlankMembers(Split(text, '\n'));
    SortedSetContents(Infos(lines), Name);
  }

  lemma {:induction false} NonBlankMembers(lines: seq<string>)
    ensures forall x :: x in NonBlank(lines) ==> x in lines && !IsBlank(x)
  {
    if lines != [] {
      NonBlankMembers(lines[1..]);
    }
  }

  /**
   * Reading a file written from a sorted set of non-blank names without LF gives exactly
   * those names, in that order, each with its path.
   */
  lemma ReadSerialized(names: seq<string>)
    requires SortedBy(names, Id)
    requires forall i :: 0 <= i < |names| ==> '\n' !in names[i] && !IsBlank(names[i])
    ensures |ReadPackagesFile(Serialize(names))| == |names|
    ensures forall i :: 0 <= i < |names| ==>
      ReadPackagesFile(Serialize(names))[i] == PackageInfo(names[i], PathOf(names[i]))
  {
    SplitSerialized(names);
    NonBlankKeepsNames(names);
    var infos := Infos(names);
    assert SortedBy(infos, Name) by {
      forall i, j | 0 <= i < j < |infos|
        ensures Before(Name(infos[i]), Name(infos[j]))
      {
        assert Id(names[i]) == Name(infos[i]) && Id(names[j]) == Name(infos[j]);
      }
    }
    SortedSetOfSorted(infos, Name);
  }
}
