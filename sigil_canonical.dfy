/**
 * The canonical form `canonicalize` computes, stated as functions on sequences.
 *
 * `Orient` turns an open path so that it starts at its smaller end (unsigned) and starts a
 * closed loop at the first occurrence of its smallest point. `InnerPass` then scans the
 * path from index 3: whenever the point at `i` closes a loop with an earlier visit at `j`
 * whose inner part is out of order (the point after `j` is larger than the point before
 * `i`), it reverses the inner part and resumes at `j + 1`. `Canon` is the whole
 * computation on a valid Sigil.
 *
 * Each reversal makes the path strictly smaller as an unsigned base-256 numeral (`Rank`),
 * which is what makes the pass terminate.
 */
module SigilCanonical {
  import opened JavaLang
  import opened SigilEncoding
  import opened SigilGeometry
  import opened Reversal

  /** The first position of the smallest of the first `n` points, in unsigned byte order. */
  function FirstMinOf(s: seq<bv8>, n: nat): (m: nat)
    requires 0 < n <= |s|
    ensures m < n
    ensures forall k :: 0 <= k < n ==> s[m] <= s[k]
    ensures forall k :: 0 <= k < m ==> s[m] < s[k]
  {
    if n == 1 then 0
    else
      var m := FirstMinOf(s, n - 1);
      if s[n - 1] < s[m] then n - 1 else m
  }

  /** The first position of the smallest point, in unsigned byte order. */
  function FirstMinIndex(s: seq<bv8>): (m: nat)
    requires |s| > 0
    ensures m < |s|
    ensures forall k :: 0 <= k < |s| ==> s[m] <= s[k]
    ensures forall k :: 0 <= k < m ==> s[m] < s[k]
  {
    FirstMinOf(s, |s|)
  }

  /**
   * The first step of the canonical form: a closed loop is started at its smallest point,
   * an open path is reversed when its first point is larger than its last.
   */
  function Orient(s: seq<bv8>): seq<bv8>
    requires |s| >= 2
  {
    if Closed(s) then
      var m := FirstMinIndex(s);
      if m > 0 then StartLoopAt(s, m) else s
    else if s[0] > s[|s| - 1] then Reversed(s)
    else s
  }

  // ---------------------------------------------------------------------------------------
  // The termination measure.

  /** The first `n` points of the path read as an unsigned base-256 numeral, first point most significant. */
  function RankOf(s: seq<bv8>, n: nat): nat
    requires n <= |s|
  {
    if n == 0 then 0 else 256 * RankOf(s, n - 1) + s[n - 1] as int
  }

  /** The whole path read as an unsigned base-256 numeral. */
  function Rank(s: seq<bv8>): nat
  {
    RankOf(s, |s|)
  }

  lemma {:induction false} RankOfSame(s: seq<bv8>, t: seq<bv8>, n: nat)
    requires n <= |s| && n <= |t| && forall k :: 0 <= k < n ==> s[k] == t[k]
    ensures RankOf(s, n) == RankOf(t, n)
  {
    if n > 0 {
      RankOfSame(s, t, n - 1);
    }
  }

  lemma {:induction false} RankOfLess(s: seq<bv8>, t: seq<bv8>, p: nat, n: nat)
    requires p < n <= |s| && n <= |t| && s[p] < t[p]
    requires forall k :: 0 <= k < p ==> s[k] == t[k]
    ensures RankOf(s, n) < RankOf(t, n)
  {
    if n == p + 1 {
      RankOfSame(s, t, p);
    } else {
      RankOfLess(s, t, p, n - 1);
      assert s[n - 1] as int < 256;
    }
  }

  /** Of two paths of one length, the one smaller at the first difference has the smaller rank. */
  lemma RankLess(s: seq<bv8>, t: seq<bv8>, p: nat)
    requires |s| == |t| && p < |s| && s[p] < t[p]
    requires forall k :: 0 <= k < p ==> s[k] == t[k]
    ensures Rank(s) < Rank(t)
  {
    RankOfLess(s, t, p, |s|);
  }

  lemma ByteOfValue(a: bv8, b: bv8)
    requires a as int == b as int
    ensures a == b
  {
  }

  /** Base-256 digits are unique. */
  lemma DigitSplit(x: int, y: int, u: int, v: int)
    requires 0 <= u < 256 && 0 <= v < 256 && 256 * x + u == 256 * y + v
    ensures x == y && u == v
  {
  }

  lemma {:induction false} RankOfInjective(s: seq<bv8>, t: seq<bv8>, n: nat)
    requires n <= |s| && n <= |t| && RankOf(s, n) == RankOf(t, n)
    ensures forall k :: 0 <= k < n ==> s[k] == t[k]
  {
    if n > 0 {
      var x, y, u, v := RankOf(s, n - 1), RankOf(t, n - 1), s[n - 1] as int, t[n - 1] as int;
      DigitSplit(x, y, u, v);
      RankOfInjective(s, t, n - 1);
      ByteOfValue(s[n - 1], t[n - 1]);
    }
  }

  /** Paths of one length with the same rank are the same path. */
  lemma RankInjective(s: seq<bv8>, t: seq<bv8>)
    requires |s| == |t| && Rank(s) == Rank(t)
    ensures s == t
  {
    RankOfInjective(s, t, |s|);
  }

  // ---------------------------------------------------------------------------------------
  // The inner-loop pass.

  /** The visits at `j` and `i` of one point close a loop whose inner part is out of order. */
  predicate OutOfOrder(s: seq<bv8>, j: int, i: int)
    requires 0 <= j && j + 1 < i < |s|
  {
    s[j] == s[i] && s[j + 1] > s[i - 1]
  }

  /** The backward search from `j` down to 0 for a loop closed at `i` out of order; -1 if none. */
  function FindLoop(s: seq<bv8>, i: nat, j: int): (r: int)
    requires 1 <= i < |s| && j < i - 1
    ensures r == -1 || 0 <= r <= j
    ensures r >= 0 ==> OutOfOrder(s, r, i)
    ensures forall k :: 0 <= k <= j && r < k ==> !OutOfOrder(s, k, i)
    decreases j + 1
  {
    if j < 0 then -1
    else if OutOfOrder(s, j, i) then j
    else FindLoop(s, i, j - 1)
  }

  /** `s` with the part strictly between positions `j` and `i` reversed. */
  function ReverseInner(s: seq<bv8>, j: nat, i: nat): (r: seq<bv8>)
    requires j < i < |s|
    ensures |r| == |s|
  {
    ReverseRange(s, j + 1, i - j - 1)
  }

  lemma ReverseInnerAt(s: seq<bv8>, j: nat, i: nat, k: nat)
    requires j < i < |s| && k < |s|
    ensures ReverseInner(s, j, i)[k] == if j < k < i then s[i + j - k] else s[k]
  {
    var start, count := j + 1, i - j - 1;
    ReverseRangeAt(s, start, count, k);
  }

  /** Reversing an out-of-order inner loop makes the path strictly smaller. */
  lemma ReverseLoopSmaller(s: seq<bv8>, j: nat, i: nat)
    requires j + 1 < i < |s| && OutOfOrder(s, j, i)
    ensures Rank(ReverseInner(s, j, i)) < Rank(s)
  {
    var t := ReverseInner(s, j, i);
    forall k | 0 <= k <= j ensures t[k] == s[k] { ReverseInnerAt(s, j, i, k); }
    ReverseInnerAt(s, j, i, j + 1);
    RankLess(t, s, j + 1);
  }

  /**
   * One step of the scan at `i`: the path with the loop closed at `i` reversed and the
   * position after its start when that loop is out of order, else the path and `i + 1`.
   */
  function PassStep(s: seq<bv8>, i: nat): (r: (seq<bv8>, int))
    requires 1 <= i < |s|
    ensures 1 <= r.1
  {
    var j := FindLoop(s, i, i - 3);
    if j >= 0 then (ReverseInner(s, j, i), j + 1) else (s, i + 1)
  }

  /** A step either makes the path strictly smaller or moves on to the next index. */
  lemma PassStepProgress(s: seq<bv8>, i: nat)
    requires 1 <= i < |s|
    ensures Rank(PassStep(s, i).0) < Rank(s) || PassStep(s, i) == (s, i + 1)
  {
    var j := FindLoop(s, i, i - 3);
    if j >= 0 {
      ReverseLoopSmaller(s, j, i);
    }
  }

  /** The scan from index `i` on, reversing out-of-order loops and resuming after each. */
  function InnerPass(s: seq<bv8>, i: nat): seq<bv8>
    requires 1 <= i
    decreases Rank(s), |s| - i
  {
    if i >= |s| then s
    else
      var step := PassStep(s, i);
      PassStepProgress(s, i);
      InnerPass(step.0, step.1)
  }

  /** The visits at `a` and `b`, if they are of one point, close a loop that is in order. */
  predicate InOrder(s: seq<bv8>, a: nat, b: nat)
    requires a + 1 < b < |s|
  {
    s[a] == s[b] ==> s[a + 1] <= s[b - 1]
  }

  /** No loop closed before index `k` is out of order. */
  predicate Settled(s: seq<bv8>, k: nat)
  {
    forall a: nat, b: nat :: a + 3 <= b < |s| && b < k ==> InOrder(s, a, b)
  }

  /** What `SigilKey.isCanonical` checks: at least two points and every loop in order. */
  predicate IsCanonical(s: seq<bv8>)
  {
    |s| >= 2 && Settled(s, |s|)
  }

  /** The canonical form of a valid Sigil; `None` for anything else. */
  function Canon(s: seq<bv8>): Option<seq<bv8>>
  {
    if ValidSigil(s) then Some(InnerPass(Orient(s), 3)) else None
  }

  // ---------------------------------------------------------------------------------------
  // What the pass keeps and what it establishes.

  lemma SettledStep(s: seq<bv8>, i: nat)
    requires 1 <= i < |s| && Settled(s, i) && FindLoop(s, i, i - 3) == -1
    ensures Settled(s, i + 1)
  {
    forall a: nat, b: nat | a + 3 <= b < |s| && b < i + 1 ensures InOrder(s, a, b) {
      if b == i { assert !OutOfOrder(s, a, i); }
    }
  }

  lemma SettledAfterReverse(s: seq<bv8>, j: nat, i: nat)
    requires j + 1 < i < |s| && Settled(s, i)
    ensures Settled(ReverseInner(s, j, i), j + 1)
  {
    var t := ReverseInner(s, j, i);
    forall k | 0 <= k <= j ensures t[k] == s[k] { ReverseInnerAt(s, j, i, k); }
    forall a: nat, b: nat | a + 3 <= b < |t| && b < j + 1 ensures InOrder(t, a, b) {
      assert InOrder(s, a, b);
    }
  }

  lemma ReverseInnerEnds(s: seq<bv8>, j: nat, i: nat)
    requires j + 1 < i < |s|
    ensures ReverseInner(s, j, i)[0] == s[0]
    ensures ReverseInner(s, j, i)[|s| - 1] == s[|s| - 1]
  {
    ReverseInnerAt(s, j, i, 0);
    ReverseInnerAt(s, j, i, |s| - 1);
  }

  /** `r` has the length, the endpoints, the points and the figure of `s`. */
  predicate SameFigure(s: seq<bv8>, r: seq<bv8>)
  {
    |r| == |s| >= 2 && r[0] == s[0] && r[|s| - 1] == s[|s| - 1]
    && multiset(r) == multiset(s) && Lines(r) == Lines(s)
  }

  lemma SameFigureTrans(s: seq<bv8>, t: seq<bv8>, r: seq<bv8>)
    requires SameFigure(s, t) && SameFigure(t, r)
    ensures SameFigure(s, r)
  {
  }

  /** One reversal of the pass keeps the figure. */
  lemma ReverseLoopKeeps(s: seq<bv8>, j: nat, i: nat)
    requires j + 1 < i < |s| && s[j] == s[i]
    ensures SameFigure(s, ReverseInner(s, j, i))
  {
    var start, count := j + 1, i - j - 1;
    ReverseRangeMultiset(s, start, count);
    ReverseInnerEnds(s, j, i);
    LinesReverseInnerLoop(s, j, i);
  }

  /** One step of the pass that finds an out-of-order loop reverses it and resumes after `j`. */
  lemma InnerPassReverses(s: seq<bv8>, i: nat, j: nat)
    requires 1 <= i < |s| && FindLoop(s, i, i - 3) == j
    ensures j + 1 < i && OutOfOrder(s, j, i)
    ensures InnerPass(s, i) == InnerPass(ReverseInner(s, j, i), j + 1)
  {
    assert PassStep(s, i) == (ReverseInner(s, j, i), j + 1);
  }

  /** One step of the pass that finds no out-of-order loop moves on. */
  lemma InnerPassSkips(s: seq<bv8>, i: nat)
    requires 1 <= i < |s| && FindLoop(s, i, i - 3) == -1
    ensures InnerPass(s, i) == InnerPass(s, i + 1)
  {
    assert PassStep(s, i) == (s, i + 1);
  }

  /** The pass keeps the length, the endpoints, the points and the figure. */
  lemma {:induction false} InnerPassFigure(s: seq<bv8>, i: nat)
    requires 1 <= i && |s| >= 2
    ensures SameFigure(s, InnerPass(s, i))
    decreases Rank(s), |s| - i, 1
  {
    if i < |s| {
      var j := FindLoop(s, i, i - 3);
      if j >= 0 {
        FigureReversing(s, i, j);
      } else {
        FigureSkipping(s, i);
      }
    }
  }

  /** A step that reverses a loop, then the rest of the pass. */
  lemma {:induction false} FigureReversing(s: seq<bv8>, i: nat, j: nat)
    requires 1 <= i < |s| && FindLoop(s, i, i - 3) == j
    ensures SameFigure(s, InnerPass(s, i))
    decreases Rank(s), |s| - i, 0
  {
    InnerPassReverses(s, i, j);
    ReverseLoopSmaller(s, j, i);
    var t := ReverseInner(s, j, i);
    ReverseLoopKeeps(s, j, i);
    InnerPassFigure(t, j + 1);
    SameFigureTrans(s, t, InnerPass(t, j + 1));
  }

  /** A step that moves on, then the rest of the pass. */
  lemma {:induction false} FigureSkipping(s: seq<bv8>, i: nat)
    requires 1 <= i < |s| && FindLoop(s, i, i - 3) == -1
    ensures SameFigure(s, InnerPass(s, i))
    decreases Rank(s), |s| - i, 0
  {
    InnerPassSkips(s, i);
    InnerPassFigure(s, i + 1);
  }

  /** The pass leaves every loop in order. */
  lemma {:induction false} InnerPassSettles(s: seq<bv8>, i: nat)
    requires 1 <= i && Settled(s, i)
    ensures Settled(InnerPass(s, i), |s|)
    decreases Rank(s), |s| - i, 1
  {
    if i < |s| {
      var j := FindLoop(s, i, i - 3);
      if j >= 0 {
        SettlesReversing(s, i, j);
      } else {
        SettlesSkipping(s, i);
      }
    }
  }

  /** A step that reverses a loop, then the rest of the pass. */
  lemma {:induction false} SettlesReversing(s: seq<bv8>, i: nat, j: nat)
    requires 1 <= i < |s| && FindLoop(s, i, i - 3) == j && Settled(s, i)
    ensures Settled(InnerPass(s, i), |s|)
    decreases Rank(s), |s| - i, 0
  {
    InnerPassReverses(s, i, j);
    ReverseLoopSmaller(s, j, i);
    SettledAfterReverse(s, j, i);
    InnerPassSettles(ReverseInner(s, j, i), j + 1);
  }

  /** A step that moves on, then the rest of the pass. */
  lemma {:induction false} SettlesSkipping(s: seq<bv8>, i: nat)
    requires 1 <= i < |s| && FindLoop(s, i, i - 3) == -1 && Settled(s, i)
    ensures Settled(InnerPass(s, i), |s|)
    decreases Rank(s), |s| - i, 0
  {
    SettledStep(s, i);
    InnerPassSkips(s, i);
    InnerPassSettles(s, i + 1);
  }

  /** A path whose loops are all in order goes through the pass unchanged. */
  lemma {:induction false} InnerPassOfSettled(s: seq<bv8>, i: nat)
    requires 1 <= i && Settled(s, |s|)
    ensures InnerPass(s, i) == s
    decreases |s| - i
  {
    if i < |s| {
      var j := FindLoop(s, i, i - 3);
      assert j >= 0 ==> InOrder(s, j, i);
      InnerPassSkips(s, i);
      InnerPassOfSettled(s, i + 1);
    }
  }

  // ---------------------------------------------------------------------------------------
  // What the orientation step does.

  /** A closed loop's smallest point never first occurs at its last position. */
  lemma FirstMinOfClosed(s: seq<bv8>)
    requires Closed(s)
    ensures FirstMinIndex(s) < |s| - 1
  {
  }

  /** The orientation of a closed loop, whether or not it moves: the loop from its first minimum. */
  lemma OrientClosed(s: seq<bv8>)
    requires Closed(s)
    ensures FirstMinIndex(s) < |s| - 1
    ensures Orient(s) == StartLoopAt(s, FirstMinIndex(s))
  {
    if FirstMinIndex(s) == 0 { StartLoopAtZero(s); }
  }

  /** Rotating a loop neither adds nor loses a point. */
  lemma StartLoopAtPoints(s: seq<bv8>, k: nat)
    requires Closed(s) && k < |s| - 1
    ensures forall x :: x in StartLoopAt(s, k) <==> x in s
  {
    var r := StartLoopAt(s, k);
    forall x | x in s ensures x in r {
      var a :| 0 <= a < |s| && s[a] == x;
      if a == 0 { assert r[|s| - 1 - k] == s[|s| - 1]; }
      else if a < k { assert r[|s| - k + a - 1] == s[a]; }
      else { assert r[a - k] == s[a]; }
    }
  }

  /** A closed loop stays closed, keeps its figure and its points, and starts at its smallest point. */
  lemma OrientClosedShape(s: seq<bv8>)
    requires Closed(s)
    ensures |Orient(s)| == |s| && Lines(Orient(s)) == Lines(s)
    ensures forall x :: x in Orient(s) <==> x in s
    ensures Closed(Orient(s)) && forall x :: x in s ==> Orient(s)[0] <= x
  {
    var m := FirstMinIndex(s);
    OrientClosed(s);
    LinesStartLoopAt(s, m);
    StartLoopAtPoints(s, m);
  }

  /** `r` and `s` have the same two endpoints, in either order. */
  predicate SameEndpoints(r: seq<bv8>, s: seq<bv8>)
    requires |r| == |s| > 0
  {
    (r[0] == s[0] && r[|s| - 1] == s[|s| - 1]) || (r[0] == s[|s| - 1] && r[|s| - 1] == s[0])
  }

  /** An open path is kept as it is when its first point is the smaller end, reversed otherwise. */
  lemma OrientOpen(s: seq<bv8>)
    requires |s| >= 2 && !Closed(s)
    ensures s[0] < s[|s| - 1] ==> Orient(s) == s
    ensures s[0] > s[|s| - 1] ==> Orient(s) == Reversed(s)
  {
  }

  /** Reversal keeps the figure and the points of a path and swaps its ends. */
  lemma ReversedShape(s: seq<bv8>)
    requires |s| >= 2
    ensures |Reversed(s)| == |s| && Lines(Reversed(s)) == Lines(s)
    ensures forall x :: x in Reversed(s) <==> x in s
    ensures Reversed(s)[0] == s[|s| - 1] && Reversed(s)[|s| - 1] == s[0]
  {
    ReversedEnds(s);
    LineSeqReversed(s);
    ReversedPoints(s);
  }

  /** An open path keeps its figure, its points and its endpoints, the smaller one first. */
  lemma OrientOpenShape(s: seq<bv8>)
    requires |s| >= 2 && !Closed(s)
    ensures |Orient(s)| == |s| && Lines(Orient(s)) == Lines(s)
    ensures forall x :: x in Orient(s) <==> x in s
    ensures !Closed(Orient(s)) && Orient(s)[0] < Orient(s)[|s| - 1]
    ensures SameEndpoints(Orient(s), s)
  {
    OrientOpen(s);
    var o := Orient(s);
    if s[0] > s[|s| - 1] {
      ReversedShape(s);
      assert o[0] == s[|s| - 1] && o[|s| - 1] == s[0];
    } else {
      assert o == s;
    }
  }

  /**
   * Orientation keeps the length and the figure. A closed loop stays closed and starts at
   * its smallest point; an open path ends up with its smaller endpoint first.
   */
  lemma OrientShape(s: seq<bv8>)
    requires |s| >= 2
    ensures |Orient(s)| == |s| && Lines(Orient(s)) == Lines(s)
    ensures forall x :: x in Orient(s) <==> x in s
    ensures Closed(s) ==> Closed(Orient(s)) && forall x :: x in s ==> Orient(s)[0] <= x
    ensures !Closed(s) ==> !Closed(Orient(s)) && Orient(s)[0] < Orient(s)[|s| - 1]
    ensures !Closed(s) ==> SameEndpoints(Orient(s), s)
  {
    if Closed(s) { OrientClosedShape(s); } else { OrientOpenShape(s); }
  }

  // ---------------------------------------------------------------------------------------
  // The canonical form.

  /**
   * The canonical form of a valid Sigil is a valid Sigil of the same length that draws the
   * same figure, passes `isCanonical`, and keeps the oriented endpoints.
   */
  lemma CanonShape(s: seq<bv8>)
    requires ValidSigil(s)
    ensures Canon(s).Some?
    ensures |Canon(s).value| == |s| && Lines(Canon(s).value) == Lines(s)
    ensures ValidSigil(Canon(s).value) && IsCanonical(Canon(s).value)
    ensures Canon(s).value[0] == Orient(s)[0]
    ensures Canon(s).value[|s| - 1] == Orient(s)[|s| - 1]
    ensures multiset(Canon(s).value) == multiset(Orient(s))
  {
    var o := Orient(s);
    OrientShape(s);
    InnerPassFigure(o, 3);
    InnerPassSettles(o, 3);
    SameFigureSameValidity(s, Canon(s).value);
  }

  /** Every input that is not a valid Sigil is rejected. */
  lemma CanonRejects(s: seq<bv8>)
    ensures Canon(s).None? <==> !ValidSigil(s)
  {
  }

  /** An open path comes out with its smaller endpoint first, and keeps its two endpoints. */
  lemma CanonOpenEnds(s: seq<bv8>)
    requires ValidSigil(s) && !Closed(s)
    ensures Canon(s).Some? && |Canon(s).value| == |s|
    ensures Canon(s).value[0] < Canon(s).value[|s| - 1]
    ensures SameEndpoints(Canon(s).value, s)
  {
    CanonShape(s);
    OrientShape(s);
  }

  /** A closed loop comes out closed, starting and ending at its smallest point. */
  lemma CanonClosedStart(s: seq<bv8>)
    requires ValidSigil(s) && Closed(s)
    ensures Canon(s).Some? && Closed(Canon(s).value)
    ensures Canon(s).value[0] in s && forall x :: x in s ==> Canon(s).value[0] <= x
  {
    CanonShape(s);
    OrientShape(s);
  }

  /** A closed loop that starts at its smallest point is already oriented. */
  lemma OrientOfStartMin(r: seq<bv8>)
    requires Closed(r) && forall k :: 0 <= k < |r| ==> r[0] <= r[k]
    ensures Orient(r) == r
  {
    var m := FirstMinIndex(r);
    assert r[0] <= r[m];
  }

  /** An open path whose first point is the smaller end is already oriented. */
  lemma OrientOfOrderedOpen(r: seq<bv8>)
    requires |r| >= 2 && r[0] < r[|r| - 1]
    ensures Orient(r) == r
  {
  }

  /** The canonical form of a closed loop starts at its smallest point. */
  lemma CanonStartsAtMin(s: seq<bv8>)
    requires ValidSigil(s) && Closed(s)
    ensures Canon(s).Some? && Closed(Canon(s).value)
    ensures forall k :: 0 <= k < |Canon(s).value| ==> Canon(s).value[0] <= Canon(s).value[k]
  {
    var r := Canon(s).value;
    var o := Orient(s);
    CanonShape(s);
    OrientClosedShape(s);
    forall k | 0 <= k < |r| ensures r[0] <= r[k] {
      assert r[k] in multiset(o);
      assert r[k] in o;
    }
  }

  /** A canonical form is already oriented: it starts at its smallest point when closed. */
  lemma OrientOfCanon(s: seq<bv8>)
    requires ValidSigil(s)
    ensures Canon(s).Some? && |Canon(s).value| >= 2 && Orient(Canon(s).value) == Canon(s).value
  {
    CanonShape(s);
    if Closed(s) {
      CanonStartsAtMin(s);
      OrientOfStartMin(Canon(s).value);
    } else {
      OrientOpenShape(s);
      OrientOfOrderedOpen(Canon(s).value);
    }
  }

  /** A valid, oriented path with every loop in order is its own canonical form. */
  lemma CanonOfCanonical(t: seq<bv8>)
    requires ValidSigil(t) && IsCanonical(t) && Orient(t) == t
    ensures Canon(t) == Some(t)
  {
    InnerPassOfSettled(t, 3);
  }

  /** Canonicalising a canonical form gives it back: the serialised key reads back equal. */
  lemma CanonIdempotent(s: seq<bv8>)
    requires Canon(s).Some?
    ensures Canon(Canon(s).value) == Canon(s)
  {
    CanonShape(s);
    OrientOfCanon(s);
    CanonOfCanonical(Canon(s).value);
  }

  /** An open path and its reversal are oriented alike. */
  lemma OrientReversedOpen(s: seq<bv8>)
    requires |s| >= 2 && !Closed(s)
    ensures |Reversed(s)| == |s| && !Closed(Reversed(s))
    ensures Orient(Reversed(s)) == Orient(s)
  {
    var r := Reversed(s);
    ReversedEnds(s);
    OrientOpen(s);
    OrientOpen(r);
    ReversedReversed(s);
  }

  /** An open path and its reversal have the same canonical form. */
  lemma CanonReversedOpen(s: seq<bv8>)
    requires |s| >= 2 && !Closed(s)
    ensures Canon(Reversed(s)) == Canon(s)
  {
    ReversedShape(s);
    SameFigureSameValidity(s, Reversed(s));
    OrientReversedOpen(s);
  }

  // ---------------------------------------------------------------------------------------
  // Starting a closed loop elsewhere.

  /** The loop passes through its smallest point once (the closing repeat of its start aside). */
  predicate MinVisitedOnce(s: seq<bv8>)
    requires |s| > 0
  {
    forall a :: 0 <= a < |s| - 1 && s[a] == s[FirstMinIndex(s)] ==> a == FirstMinIndex(s)
  }

  /** When the smallest point is visited once, a rotation starts over exactly there. */
  lemma RotationMinIndex(s: seq<bv8>, r: seq<bv8>, k: nat)
    requires Closed(s) && k < |s| - 1 && IsRotation(s, r, k) && MinVisitedOnce(s)
    ensures LoopIndex(|s| - 1, k + FirstMinIndex(r)) == FirstMinIndex(s)
  {
    var m, m' := FirstMinIndex(s), FirstMinIndex(r);
    MinOfRotation(s, r, k, m, m');
    var p := LoopIndex(|s| - 1, k + m');
    SmallestVisitedOnce(s, p);
  }

  /** A rotation's smallest point is the same value as the loop's. */
  lemma MinOfRotation(s: seq<bv8>, r: seq<bv8>, k: nat, m: nat, m': nat)
    requires Closed(s) && k < |s| - 1 && IsRotation(s, r, k) && m < |s| - 1 && m' < |r|
    requires forall t :: 0 <= t < |s| ==> s[m] <= s[t]
    requires forall t :: 0 <= t < |r| ==> r[m'] <= r[t]
    ensures s[LoopIndex(|s| - 1, k + m')] == s[m]
  {
    RotationMeetsMin(s, r, k, m);
    assert r[m'] <= s[m];
    assert s[m] <= s[LoopIndex(|s| - 1, k + m')];
  }

  /** The loop's smallest point is somewhere on its rotation. */
  lemma RotationMeetsMin(s: seq<bv8>, r: seq<bv8>, k: nat, m: nat)
    requires Closed(s) && k < |s| - 1 && IsRotation(s, r, k) && m < |s| - 1
    ensures exists t :: 0 <= t < |r| && r[t] == s[m]
  {
    var t := if m >= k then m - k else m + |s| - 1 - k;
    assert r[t] == s[m];
  }

  lemma NoneSmaller(s: seq<bv8>, k: nat)
    requires k < |s|
    ensures s[FirstMinIndex(s)] <= s[k]
  {
  }

  lemma SmallestVisitedOnce(s: seq<bv8>, a: nat)
    requires |s| > 0 && MinVisitedOnce(s) && a < |s| - 1 && s[a] == s[FirstMinIndex(s)]
    ensures a == FirstMinIndex(s)
  {
  }

  /**
   * When the smallest point is visited once, every starting point of a closed loop gives
   * the same canonical form.
   */
  lemma CanonRotation(s: seq<bv8>, k: nat)
    requires Closed(s) && k < |s| - 1 && MinVisitedOnce(s)
    ensures Canon(StartLoopAt(s, k)) == Canon(s)
  {
    var r := StartLoopAt(s, k);
    LinesStartLoopAt(s, k);
    SameFigureSameValidity(s, r);
    OrientClosed(s);
    OrientClosed(r);
    StartLoopAtRotation(s, k);
    RotationMinIndex(s, r, k);
    StartLoopAtTwice(s, k, FirstMinIndex(r));
  }

  // ---------------------------------------------------------------------------------------
  // Drawings of one figure that the canonical form keeps apart.

  /** A path that passes the step-by-step checks and is already in canonical form is its own key. */
  lemma CanonOfChecked(t: seq<bv8>)
    requires 2 <= |t| <= MAX_SIGIL_LENGTH && StepsFrom(t, 0) && LinesDistinctFrom(t, 0)
    requires IsCanonical(t) && Orient(t) == t
    ensures Canon(t) == Some(t)
  {
    ValidSigilByChecks(t);
    CanonOfCanonical(t);
  }

  /**
   * A loop through (0,1) three times, and the same loop started at its second visit of
   * (0,1). Both are already in canonical form, so the two starts give different keys.
   */
  const THRICE: seq<bv8> := [0x01, 0x02, 0x12, 0x01, 0x10, 0x11, 0x01]
  const THRICE_FROM_3: seq<bv8> := [0x01, 0x10, 0x11, 0x01, 0x02, 0x12, 0x01]

  lemma ThriceCanonical()
    ensures Canon(THRICE) == Some(THRICE)
  {
    CanonOfChecked(THRICE);
  }

  lemma ThriceFrom3Canonical()
    ensures Canon(THRICE_FROM_3) == Some(THRICE_FROM_3)
  {
    CanonOfChecked(THRICE_FROM_3);
  }

  /** Starting a closed loop elsewhere can change its canonical form. */
  lemma RotationChangesCanon()
    ensures Closed(THRICE) && Lines(StartLoopAt(THRICE, 3)) == Lines(THRICE)
    ensures Canon(StartLoopAt(THRICE, 3)) != Canon(THRICE)
  {
    assert StartLoopAt(THRICE, 3) == THRICE_FROM_3;
    LinesStartLoopAt(THRICE, 3);
    ThriceCanonical();
    ThriceFrom3Canonical();
  }
}
