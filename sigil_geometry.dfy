/**
 * What a Sigil is, independently of how `canonicalize` checks it: a path of grid points
 * in which each step goes to one of the (up to eight) neighbouring points and no line is
 * drawn twice. A line is undirected, so it is stored with its endpoints in unsigned order.
 *
 * The multiset `Lines(s)` is the figure the path draws. Reversing a path, starting a
 * closed loop at another point, and reversing an inner loop all keep it, and validity
 * depends only on it and the path's length (`ValidSigilByLines`).
 */
module SigilGeometry {
  import opened JavaLang
  import opened SigilEncoding
  import opened Reversal

  /** An undirected line between two points; `lo <= hi`. */
  datatype Line = Line(lo: bv8, hi: bv8)

  function LineOf(a: bv8, b: bv8): (l: Line)
    ensures l.lo <= l.hi
    ensures (l.lo == a && l.hi == b) || (l.lo == b && l.hi == a)
  {
    if a <= b then Line(a, b) else Line(b, a)
  }

  /** Two distinct points at most one apart along each axis. */
  predicate Adjacent(a: bv8, b: bv8)
  {
    a != b && Near(X(a), Y(a), X(b), Y(b))
  }

  /** Two coordinate pairs at most one apart along each axis. */
  predicate Near(x1: int, y1: int, x2: int, y2: int)
  {
    AbsInt(x1 - x2) <= 1 && AbsInt(y1 - y2) <= 1
  }

  /** One step of a Sigil: between two neighbouring points of the grid. */
  predicate GridStep(a: bv8, b: bv8)
  {
    InGrid(a) && InGrid(b) && Adjacent(a, b)
  }

  /** The line drawn by the `k`-th step. */
  function LineAt(s: seq<bv8>, k: nat): Line
    requires k + 1 < |s|
  {
    LineOf(s[k], s[k + 1])
  }

  /** The lines drawn by the path, step by step. */
  function LineSeq(s: seq<bv8>): (r: seq<Line>)
    ensures |r| == if |s| == 0 then 0 else |s| - 1
    ensures forall k :: 0 <= k < |r| ==> r[k] == LineAt(s, k)
  {
    if |s| < 2 then [] else [LineAt(s, 0)] + LineSeq(s[1..])
  }

  /** The figure the path draws. */
  function Lines(s: seq<bv8>): multiset<Line>
  {
    multiset(LineSeq(s))
  }

  predicate GridSteps(s: seq<bv8>)
  {
    forall k :: 0 <= k < |s| - 1 ==> GridStep(s[k], s[k + 1])
  }

  /** Some line is drawn by two different steps. */
  predicate LineRedrawn(s: seq<bv8>)
  {
    exists a, b :: 0 <= a < b < |s| - 1 && LineAt(s, a) == LineAt(s, b)
  }

  /** The invariants `canonicalize` documents for an acceptable Sigil. */
  predicate ValidSigil(s: seq<bv8>)
  {
    2 <= |s| <= MAX_SIGIL_LENGTH && GridSteps(s) && !LineRedrawn(s)
  }

  /** A closed loop: it ends where it starts. */
  predicate Closed(s: seq<bv8>)
  {
    |s| >= 2 && s[0] == s[|s| - 1]
  }

  // ---------------------------------------------------------------------------------------
  // Validity depends only on the figure.

  lemma LineOfSymmetric(a: bv8, b: bv8)
    ensures LineOf(a, b) == LineOf(b, a)
  {
  }

  lemma GridStepSymmetric(a: bv8, b: bv8)
    ensures GridStep(a, b) == GridStep(b, a)
    ensures GridStep(a, b) == GridStep(LineOf(a, b).lo, LineOf(a, b).hi)
  {
  }

  /** A sequence has no repeated element exactly when each element occurs at most once. */
  lemma {:induction false} DistinctIffMultiplicityOne<T>(q: seq<T>)
    ensures (forall a, b :: 0 <= a < b < |q| ==> q[a] != q[b]) <==> (forall x :: multiset(q)[x] <= 1)
  {
    if q != [] {
      var t := q[1..];
      DistinctIffMultiplicityOne(t);
      assert q == [q[0]] + t;
      if forall a, b :: 0 <= a < b < |q| ==> q[a] != q[b] {
        forall b | 0 <= b < |t| ensures t[b] != q[0] { assert t[b] == q[b + 1]; }
        assert q[0] !in t;
        forall a, b | 0 <= a < b < |t| ensures t[a] != t[b] { assert q[a + 1] != q[b + 1]; }
      } else {
        var a, b :| 0 <= a < b < |q| && q[a] == q[b];
        if a == 0 {
          assert q[b] in t by { assert t[b - 1] == q[b]; }
          assert multiset(q)[q[0]] >= 2;
        } else {
          assert t[a - 1] == t[b - 1];
          var x :| multiset(t)[x] > 1;
          assert multiset(q)[x] >= multiset(t)[x];
        }
      }
    }
  }

  /** All steps are grid steps exactly when every line of the figure is one. */
  lemma GridStepsByLines(s: seq<bv8>)
    ensures GridSteps(s) <==> forall l :: l in Lines(s) ==> GridStep(l.lo, l.hi)
  {
    var q := LineSeq(s);
    if GridSteps(s) {
      forall l | l in Lines(s) ensures GridStep(l.lo, l.hi) {
        var k :| 0 <= k < |q| && q[k] == l;
        GridStepSymmetric(s[k], s[k + 1]);
      }
    } else {
      var k :| 0 <= k < |s| - 1 && !GridStep(s[k], s[k + 1]);
      GridStepSymmetric(s[k], s[k + 1]);
      assert q[k] in Lines(s);
    }
  }

  /** Validity stated on the figure: a length, grid steps only, no line twice. */
  lemma ValidSigilByLines(s: seq<bv8>)
    ensures ValidSigil(s) <==>
      2 <= |s| <= MAX_SIGIL_LENGTH
      && (forall l :: l in Lines(s) ==> GridStep(l.lo, l.hi))
      && (forall l :: Lines(s)[l] <= 1)
  {
    GridStepsByLines(s);
    DistinctIffMultiplicityOne(LineSeq(s));
  }

  /** Two paths of one length that draw the same figure are valid or invalid together. */
  lemma SameFigureSameValidity(s: seq<bv8>, t: seq<bv8>)
    requires |s| == |t| && Lines(s) == Lines(t)
    ensures ValidSigil(s) <==> ValidSigil(t)
  {
    ValidSigilByLines(s);
    ValidSigilByLines(t);
  }

  // ---------------------------------------------------------------------------------------
  // Operations that keep the figure.

  /** Two paths that meet at a point draw, together, the figures of both. */
  lemma LineSeqJoin(a: seq<bv8>, b: seq<bv8>)
    requires |a| >= 1 && |b| >= 1 && a[|a| - 1] == b[0]
    ensures LineSeq(a + b[1..]) == LineSeq(a) + LineSeq(b)
    ensures Lines(a + b[1..]) == Lines(a) + Lines(b)
  {
    var j := a + b[1..];
    var l, r := LineSeq(j), LineSeq(a) + LineSeq(b);
    forall k | 0 <= k < |l| ensures l[k] == r[k] {
      if k < |a| - 1 {
        assert j[k] == a[k] && j[k + 1] == a[k + 1];
      } else {
        assert j[k] == b[k - |a| + 1] && j[k + 1] == b[k - |a| + 2];
      }
    }
    assert l == r;
  }

  /** A reversed path draws the same lines in the opposite order. */
  lemma LineSeqReversed(s: seq<bv8>)
    ensures LineSeq(Reversed(s)) == Reversed(LineSeq(s))
    ensures Lines(Reversed(s)) == Lines(s)
  {
    var r := Reversed(s);
    var q := LineSeq(s);
    forall k | 0 <= k < |LineSeq(r)| ensures LineSeq(r)[k] == q[|q| - 1 - k] {
      ReversedAt(s, k);
      ReversedAt(s, k + 1);
      LineOfSymmetric(s[|s| - 1 - k], s[|s| - 2 - k]);
    }
    ReversedIndexwise(q, LineSeq(r));
    ReversedMultiset(q);
  }

  /** The lines of a prefix of a path are the path's first lines. */
  lemma LineSeqPrefix(s: seq<bv8>, j: nat)
    requires 0 < j <= |s|
    ensures LineSeq(s[..j]) == LineSeq(s)[..j - 1]
  {
    var p := s[..j];
    forall k | 0 <= k < |p| - 1 ensures LineSeq(p)[k] == LineSeq(s)[k] {
      assert p[k] == s[k] && p[k + 1] == s[k + 1];
    }
  }

  /** The lines of a suffix of a path are the path's last lines. */
  lemma LineSeqSuffix(s: seq<bv8>, i: nat)
    requires i < |s|
    ensures LineSeq(s[i..]) == LineSeq(s)[i..]
  {
    var p := s[i..];
    var q := LineSeq(s)[i..];
    forall k | 0 <= k < |p| - 1 ensures LineSeq(p)[k] == q[k] {
      assert p[k] == s[i + k] && p[k + 1] == s[i + k + 1];
      assert LineAt(p, k) == LineAt(s, i + k);
    }
  }

  /** The path `s` with the piece between its visits at `j` and `i` walked backwards. */
  lemma ReverseRangeAsJoin(s: seq<bv8>, j: nat, i: nat)
    requires j < i < |s| && s[j] == s[i]
    ensures |Reversed(s[j..i + 1])| == i - j + 1
    ensures ReverseRange(s, j + 1, i - j - 1) == s[..j + 1] + Reversed(s[j..i + 1])[1..] + s[i + 1..]
  {
    var m := s[j..i + 1];
    assert m[1..] == s[j + 1..i] + [s[i]];
    ReversedSnoc(s[j + 1..i], s[i]);
    assert Reversed(m)[1..] == Reversed(s[j + 1..i]) + [s[j]];
    assert s[i..] == [s[i]] + s[i + 1..];
  }

  /** Reversing the part of a path strictly between two visits of one point keeps the figure. */
  lemma LinesReverseInnerLoop(s: seq<bv8>, j: nat, i: nat)
    requires j < i < |s| && s[j] == s[i]
    ensures Lines(ReverseRange(s, j + 1, i - j - 1)) == Lines(s)
  {
    var a, m, t := s[..j + 1], s[j..i + 1], s[i..];
    var mr := Reversed(m);
    ReverseRangeAsJoin(s, j, i);
    ReversedAt(m, 0);
    ReversedAt(m, |m| - 1);
    assert s == (a + m[1..]) + t[1..];
    assert ReverseRange(s, j + 1, i - j - 1) == (a + mr[1..]) + t[1..];
    LineSeqJoin(a, m);
    LineSeqJoin(a, mr);
    LineSeqJoin(a + m[1..], t);
    LineSeqJoin(a + mr[1..], t);
    LineSeqReversed(m);
  }

  // ---------------------------------------------------------------------------------------
  // Validity decided step by step, for paths written out point by point.

  /** Every step from the `k`-th on is a grid step. */
  predicate StepsFrom(s: seq<bv8>, k: nat)
    decreases |s| - k
  {
    k + 1 >= |s| || (GridStep(s[k], s[k + 1]) && StepsFrom(s, k + 1))
  }

  /** No step from the `k`-th on draws `l`. */
  predicate LineAbsent(s: seq<bv8>, l: Line, k: nat)
    decreases |s| - k
  {
    k + 1 >= |s| || (LineOf(s[k], s[k + 1]) != l && LineAbsent(s, l, k + 1))
  }

  /** No line is drawn twice from the `k`-th step on. */
  predicate LinesDistinctFrom(s: seq<bv8>, k: nat)
    decreases |s| - k
  {
    k + 1 >= |s| || (LineAbsent(s, LineOf(s[k], s[k + 1]), k + 1) && LinesDistinctFrom(s, k + 1))
  }

  lemma {:induction false} StepsFromSteps(s: seq<bv8>, k: nat, i: nat)
    requires StepsFrom(s, k) && k <= i && i + 1 < |s|
    ensures GridStep(s[i], s[i + 1])
    decreases i - k
  {
    if k < i { StepsFromSteps(s, k + 1, i); }
  }

  lemma {:induction false} LineAbsentAt(s: seq<bv8>, l: Line, k: nat, i: nat)
    requires LineAbsent(s, l, k) && k <= i && i + 1 < |s|
    ensures LineAt(s, i) != l
    decreases i - k
  {
    if k < i { LineAbsentAt(s, l, k + 1, i); }
  }

  lemma {:induction false} LinesDistinctAt(s: seq<bv8>, k: nat, a: nat, b: nat)
    requires LinesDistinctFrom(s, k) && k <= a < b && b + 1 < |s|
    ensures LineAt(s, a) != LineAt(s, b)
    decreases a - k
  {
    if k < a {
      LinesDistinctAt(s, k + 1, a, b);
    } else {
      LineAbsentAt(s, LineAt(s, a), a + 1, b);
    }
  }

  /** The step-by-step checks decide validity. */
  lemma ValidSigilByChecks(s: seq<bv8>)
    requires 2 <= |s| <= MAX_SIGIL_LENGTH && StepsFrom(s, 0) && LinesDistinctFrom(s, 0)
    ensures ValidSigil(s)
  {
    forall i | 0 <= i < |s| - 1 ensures GridStep(s[i], s[i + 1]) { StepsFromSteps(s, 0, i); }
    forall a, b | 0 <= a < b < |s| - 1 ensures LineAt(s, a) != LineAt(s, b) {
      LinesDistinctAt(s, 0, a, b);
    }
  }

  /** The closed loop `s` walked from its `k`-th point round to the same point again. */
  function StartLoopAt(s: seq<bv8>, k: nat): (r: seq<bv8>)
    requires Closed(s) && k < |s| - 1
    ensures |r| == |s| && Closed(r) && r[0] == s[k]
  {
    s[k..] + s[1..k + 1]
  }

  lemma StartLoopAtZero(s: seq<bv8>)
    requires Closed(s)
    ensures StartLoopAt(s, 0) == s
  {
  }

  /** A rotated loop is its tail from `k` joined to its head up to `k`. */
  lemma StartLoopAtAsJoin(s: seq<bv8>, k: nat)
    requires Closed(s) && k < |s| - 1
    ensures StartLoopAt(s, k) == s[k..] + s[..k + 1][1..]
  {
  }

  /** The lines of a loop started elsewhere are the same lines, rotated. */
  lemma LineSeqStartLoopAt(s: seq<bv8>, k: nat)
    requires Closed(s) && k < |s| - 1
    ensures LineSeq(StartLoopAt(s, k)) == LineSeq(s)[k..] + LineSeq(s)[..k]
  {
    StartLoopAtAsJoin(s, k);
    LineSeqSuffix(s, k);
    LineSeqPrefix(s, k + 1);
    LineSeqJoin(s[k..], s[..k + 1]);
  }

  /** Starting a closed loop at another point keeps the figure. */
  lemma LinesStartLoopAt(s: seq<bv8>, k: nat)
    requires Closed(s) && k < |s| - 1
    ensures Lines(StartLoopAt(s, k)) == Lines(s)
  {
    var q := LineSeq(s);
    LineSeqStartLoopAt(s, k);
    assert q == q[..k] + q[k..];
  }

  /** Position `x` of a loop of `len` steps, counted round from its start: `x` or `x - len`. */
  function LoopIndex(len: nat, x: nat): (i: nat)
    requires x < 2 * len
    ensures i < len
  {
    if x < len then x else x - len
  }

  /** The `t`-th point of a loop started at `k` is the loop's point `k + t` places round from 0. */
  lemma StartLoopAtIndex(s: seq<bv8>, k: nat, t: nat)
    requires Closed(s) && k < |s| - 1 && t < |s|
    ensures StartLoopAt(s, k)[t] == s[LoopIndex(|s| - 1, k + t)]
  {
  }

  /** `r` is the closed loop `s` walked from its `k`-th point, described point by point. */
  predicate IsRotation(s: seq<bv8>, r: seq<bv8>, k: nat)
    requires Closed(s) && k < |s| - 1
  {
    |r| == |s| && forall t :: 0 <= t < |r| ==> r[t] == s[LoopIndex(|s| - 1, k + t)]
  }

  /** A rotation is determined by its starting index. */
  lemma RotationUnique(s: seq<bv8>, r: seq<bv8>, q: seq<bv8>, k: nat)
    requires Closed(s) && k < |s| - 1 && IsRotation(s, r, k) && IsRotation(s, q, k)
    ensures r == q
  {
  }

  lemma StartLoopAtRotation(s: seq<bv8>, k: nat)
    requires Closed(s) && k < |s| - 1
    ensures IsRotation(s, StartLoopAt(s, k), k)
  {
    forall t | 0 <= t < |s| ensures StartLoopAt(s, k)[t] == s[LoopIndex(|s| - 1, k + t)] {
      StartLoopAtIndex(s, k, t);
    }
  }

  /** Counting round a loop twice adds the offsets. */
  lemma LoopIndexAdd(len: nat, k: nat, j: nat, t: nat)
    requires k < len && j < len && t <= len
    ensures LoopIndex(len, k + LoopIndex(len, j + t)) == LoopIndex(len, LoopIndex(len, k + j) + t)
  {
  }

  /** Two rotations in a row are one rotation by the sum of the offsets. */
  lemma RotationTwice(s: seq<bv8>, r: seq<bv8>, u: seq<bv8>, q: seq<bv8>, k: nat, j: nat)
    requires Closed(s) && Closed(r) && k < |s| - 1 && j < |s| - 1
    requires IsRotation(s, r, k) && IsRotation(r, u, j) && IsRotation(s, q, LoopIndex(|s| - 1, k + j))
    ensures u == q
  {
    var len := |s| - 1;
    forall t | 0 <= t < |s| ensures u[t] == q[t] {
      var p := LoopIndex(len, j + t);
      assert u[t] == r[p];
      LoopIndexAdd(len, k, j, t);
    }
  }

  /** Starting a loop at `k` and then at `j` starts it at `k + j`, counted round. */
  lemma StartLoopAtTwice(s: seq<bv8>, k: nat, j: nat)
    requires Closed(s) && k < |s| - 1 && j < |s| - 1
    ensures StartLoopAt(StartLoopAt(s, k), j) == StartLoopAt(s, LoopIndex(|s| - 1, k + j))
  {
    var r := StartLoopAt(s, k);
    StartLoopAtRotation(s, k);
    StartLoopAtRotation(r, j);
    StartLoopAtRotation(s, LoopIndex(|s| - 1, k + j));
    RotationTwice(s, r, StartLoopAt(r, j), StartLoopAt(s, LoopIndex(|s| - 1, k + j)), k, j);
  }
}
