/**
 * `org.echoesfrombeyond.sigil.SigilValidation.canonicalize`: validation and canonical
 * rewriting of an untrusted point array, on a private copy.
 *
 * The method runs in the stages of the Java code: the length check, the copy, the grid
 * and step checks, the orientation (a closed loop is restarted at its smallest point with
 * `System.arraycopy`, an open path reversed when it starts at its larger end), the
 * `duplicates` table of the positions of each point, the redrawn-line check over that
 * table, and the inner-loop pass. Each stage is a method proved against a function of
 * `SigilCanonical`; `Outcome` is what the whole method returns, and the lemmas below it
 * say what that outcome is in terms of `Canon`.
 *
 * The `int` bit sets of the Java code are modelled by what they denote: an entry of
 * `duplicates` is the increasing sequence of the positions whose bits are set (at most
 * 32, one per position), and the `short` neighbour set is a set of keys below 16.
 * `Integer.bitCount` is the length or the cardinality; `Integer.highestOneBit` with
 * `numberOfTrailingZeros` is the last element, and `data ^= mask` drops it.
 *
 * The grid check can be run as written (`unsignedColumn` false) or with the column read
 * from the unsigned byte (`unsignedColumn` true). As written, a byte with its top bit set
 * passes it, and the table lookup then fails with an index out of bounds.
 */
module SigilValidation {
  import opened JavaLang
  import opened SigilEncoding
  import opened SigilGeometry
  import opened SigilCanonical
  import opened Reversal
  import ArrayUtil
  import opened SigilKeys

  // ---------------------------------------------------------------------------------------
  // The early checks: the length bounds, the first point on the grid, then each step.

  /** `pointOutsideGrid` as written, or with the column read unsigned. */
  predicate OutsideGrid(p: bv8, unsignedColumn: bool)
  {
    if unsignedColumn then PointOutsideGridUnsigned(p) else PointOutsideGrid(p)
  }

  /**
   * The test that rejects the step from `first` to `second`. The differences of two
   * promoted bytes lie within -255..255, where `Math.abs` is the plain absolute value
   * (`AbsOfByteDifference`).
   */
  predicate StepRejected(first: bv8, second: bv8, unsignedColumn: bool)
  {
    first == second
    || OutsideGrid(second, unsignedColumn)
    || AbsInt(Signed(UnpackX(first)) - Signed(UnpackX(second))) > 1
    || AbsInt(Signed(UnpackY(first)) - Signed(UnpackY(second))) > 1
  }

  /** `Math.abs` of the difference of two promoted bytes cannot overflow. */
  lemma AbsOfByteDifference(a: bv8, b: bv8)
    ensures Abs(Signed(a) - Signed(b)) == AbsInt(Signed(a) - Signed(b))
  {
  }

  /** The length is acceptable, the first point is on the grid, and no step is rejected. */
  predicate PassesChecks(s: seq<bv8>, unsignedColumn: bool)
  {
    2 <= |s| <= MAX_SIGIL_LENGTH
    && !OutsideGrid(s[0], unsignedColumn)
    && forall i :: 1 <= i < |s| ==> !StepRejected(s[i - 1], s[i], unsignedColumn)
  }

  predicate AllInGrid(s: seq<bv8>)
  {
    forall k :: 0 <= k < |s| ==> InGrid(s[k])
  }

  /** Some point has a key past the end of the 16-entry `duplicates` table. */
  predicate KeyOverflow(s: seq<bv8>)
  {
    exists k :: 0 <= k < |s| && CompactKey(s[k]) >= TABLE_SIZE
  }

  /** Between grid points, the step check accepts exactly the steps to a neighbouring point. */
  lemma StepOnGrid(a: bv8, b: bv8, unsignedColumn: bool)
    requires InGrid(a) && InGrid(b)
    ensures !StepRejected(a, b, unsignedColumn) <==> GridStep(a, b)
  {
    UnpackInGrid(a);
    UnpackInGrid(b);
    GridCheckAsWritten(b);
    GridCheckUnsigned(b);
  }

  /** A point that survives the checks is on the grid, or, as written, has its top bit set. */
  lemma CheckedPoint(s: seq<bv8>, unsignedColumn: bool, k: nat)
    requires PassesChecks(s, unsignedColumn) && k < |s|
    ensures InGrid(s[k]) || (!unsignedColumn && s[k] >= 0x80)
  {
    if k > 0 {
      assert !StepRejected(s[k - 1], s[k], unsignedColumn);
    }
    GridCheckAsWritten(s[k]);
    GridCheckUnsigned(s[k]);
  }

  /** Without a key overflow, a path that passes the checks lies on the grid and takes grid steps. */
  lemma CheckedOnGrid(s: seq<bv8>, unsignedColumn: bool)
    requires PassesChecks(s, unsignedColumn) && !KeyOverflow(s)
    ensures AllInGrid(s) && GridSteps(s)
  {
    forall k | 0 <= k < |s| ensures InGrid(s[k]) {
      CheckedPoint(s, unsignedColumn, k);
      if s[k] >= 0x80 { CompactKeyHighBit(s[k]); }
    }
    forall k | 0 <= k < |s| - 1 ensures GridStep(s[k], s[k + 1]) {
      var i := k + 1;
      assert !StepRejected(s[i - 1], s[i], unsignedColumn);
      StepOnGrid(s[k], s[k + 1], unsignedColumn);
    }
  }

  /** A path of grid steps of acceptable length passes the checks and fits the table. */
  lemma GridStepsChecked(s: seq<bv8>, unsignedColumn: bool)
    requires 2 <= |s| <= MAX_SIGIL_LENGTH && GridSteps(s)
    ensures PassesChecks(s, unsignedColumn) && !KeyOverflow(s) && AllInGrid(s)
  {
    forall k | 0 <= k < |s| ensures InGrid(s[k]) {
      if k < |s| - 1 { assert GridStep(s[k], s[k + 1]); } else { assert GridStep(s[k - 1], s[k]); }
    }
    GridCheckAsWritten(s[0]);
    GridCheckUnsigned(s[0]);
    forall i | 1 <= i < |s| ensures !StepRejected(s[i - 1], s[i], unsignedColumn) {
      StepOnGrid(s[i - 1], s[i], unsignedColumn);
    }
    forall k | 0 <= k < |s| ensures CompactKey(s[k]) < TABLE_SIZE {
      CompactKeyInGrid(s[k]);
    }
  }

  /** Two paths with the same points agree on lying on the grid and on overflowing the table. */
  lemma SamePointsSameKeys(s: seq<bv8>, t: seq<bv8>)
    requires forall x :: x in s <==> x in t
    ensures AllInGrid(s) <==> AllInGrid(t)
    ensures KeyOverflow(s) <==> KeyOverflow(t)
  {
    if !AllInGrid(s) {
      var k :| 0 <= k < |s| && !InGrid(s[k]);
      assert s[k] in t;
    }
    if !AllInGrid(t) {
      var k :| 0 <= k < |t| && !InGrid(t[k]);
      assert t[k] in s;
    }
    if KeyOverflow(s) {
      var k :| 0 <= k < |s| && CompactKey(s[k]) >= TABLE_SIZE;
      assert s[k] in t;
    }
    if KeyOverflow(t) {
      var k :| 0 <= k < |t| && CompactKey(t[k]) >= TABLE_SIZE;
      assert t[k] in s;
    }
  }

  // ---------------------------------------------------------------------------------------
  // The redrawn-line check.

  /**
   * For a point visited at `a` and again at `b > a`: the points visited just before and
   * after the two visits are pairwise distinct. The point after `a` and the one before `b`
   * are always there; the point before `a` and the one after `b` only when `a` is not the
   * first and `b` not the last position.
   */
  predicate NeighboursDistinct(s: seq<bv8>, a: nat, b: nat)
    requires a < b < |s|
  {
    var before, after := s[b - 1], s[a + 1];
    before != after
    && (b < |s| - 1 ==> s[b + 1] != before && s[b + 1] != after)
    && (a > 0 ==> s[a - 1] != before && s[a - 1] != after && (b < |s| - 1 ==> s[a - 1] != s[b + 1]))
  }

  /** What the check accepts: every pair of visits of one point has distinct neighbours. */
  predicate RedrawCheckPasses(s: seq<bv8>)
  {
    forall a: nat, b: nat :: a < b < |s| && s[a] == s[b] ==> NeighboursDistinct(s, a, b)
  }

  /** The keys the check collects for the visits at `a` and `b` (`set` in the Java code). */
  function NeighbourKeys(s: seq<bv8>, a: nat, b: nat): set<nat>
    requires a < b < |s|
  {
    var keys := {CompactKey(s[b - 1])} + {CompactKey(s[a + 1])};
    var keys := if b < |s| - 1 then keys + {CompactKey(s[b + 1])} else keys;
    if a > 0 then keys + {CompactKey(s[a - 1])} else keys
  }

  /** How many keys the check expects (`expected`). */
  function NeighbourCount(a: nat, b: nat, n: nat): nat
  {
    2 + (if b < n - 1 then 1 else 0) + (if a > 0 then 1 else 0)
  }

  lemma CardAdd(keys: set<nat>, x: nat)
    ensures |keys + {x}| == if x in keys then |keys| else |keys| + 1
  {
    if x in keys {
      assert keys + {x} == keys;
    }
  }

  /** On grid points the keys are distinct exactly when the points are. */
  lemma NeighbourKeysMeaning(s: seq<bv8>, a: nat, b: nat)
    requires a < b < |s| && AllInGrid(s)
    ensures |NeighbourKeys(s, a, b)| == NeighbourCount(a, b, |s|) <==> NeighboursDistinct(s, a, b)
  {
    var kb, ka := CompactKey(s[b - 1]), CompactKey(s[a + 1]);
    var k1 := {kb} + {ka};
    CardAdd({kb}, ka);
    if kb == ka { CompactKeyInjective(s[b - 1], s[a + 1]); }
    var k2 := if b < |s| - 1 then k1 + {CompactKey(s[b + 1])} else k1;
    if b < |s| - 1 {
      CardAdd(k1, CompactKey(s[b + 1]));
      if CompactKey(s[b + 1]) == kb { CompactKeyInjective(s[b + 1], s[b - 1]); }
      if CompactKey(s[b + 1]) == ka { CompactKeyInjective(s[b + 1], s[a + 1]); }
    }
    if a > 0 {
      CardAdd(k2, CompactKey(s[a - 1]));
      if CompactKey(s[a - 1]) == kb { CompactKeyInjective(s[a - 1], s[b - 1]); }
      if CompactKey(s[a - 1]) == ka { CompactKeyInjective(s[a - 1], s[a + 1]); }
      if b < |s| - 1 && CompactKey(s[a - 1]) == CompactKey(s[b + 1]) {
        CompactKeyInjective(s[a - 1], s[b + 1]);
      }
    }
  }

  lemma LineOfEqual(a: bv8, b: bv8, c: bv8, d: bv8)
    requires LineOf(a, b) == LineOf(c, d)
    ensures (a == c && b == d) || (a == d && b == c)
  {
    var l, m := LineOf(a, b), LineOf(c, d);
    assert (l.lo == a && l.hi == b) || (l.lo == b && l.hi == a);
    assert (m.lo == c && m.hi == d) || (m.lo == d && m.hi == c);
  }

  /** Two steps drawing one line make a pair of visits with equal neighbours. */
  lemma RedrawnFailsCheck(s: seq<bv8>, x: nat, y: nat)
    requires x < y < |s| - 1 && LineAt(s, x) == LineAt(s, y)
    ensures !RedrawCheckPasses(s)
  {
    LineOfEqual(s[x], s[x + 1], s[y], s[y + 1]);
    if s[x] == s[y] && s[x + 1] == s[y + 1] {
      assert !NeighboursDistinct(s, x, y);
    } else {
      var b := y + 1;
      assert s[b - 1] == s[x + 1];
      assert !NeighboursDistinct(s, x, b);
    }
  }

  /** Equal neighbours of two visits of a point draw one line twice. */
  lemma FailedCheckRedrawn(s: seq<bv8>, a: nat, b: nat)
    requires GridSteps(s) && a < b < |s| && s[a] == s[b] && !NeighboursDistinct(s, a, b)
    ensures LineRedrawn(s)
  {
    assert GridStep(s[a], s[a + 1]);
    assert a + 1 < b;
    var p := s[a];
    var before, after := s[b - 1], s[a + 1];
    if before == after {
      LineOfSymmetric(p, after);
      assert LineAt(s, a) == LineAt(s, b - 1);
    } else if b < |s| - 1 && s[b + 1] == before {
      LineOfSymmetric(p, before);
      assert LineAt(s, b - 1) == LineAt(s, b);
    } else if b < |s| - 1 && s[b + 1] == after {
      assert LineAt(s, a) == LineAt(s, b);
    } else if a > 0 && s[a - 1] == before {
      assert LineAt(s, a - 1) == LineAt(s, b - 1);
    } else if a > 0 && s[a - 1] == after {
      LineOfSymmetric(p, after);
      assert LineAt(s, a - 1) == LineAt(s, a);
    } else {
      LineOfSymmetric(p, s[b + 1]);
      assert LineAt(s, a - 1) == LineAt(s, b);
    }
  }

  /** On a path of grid steps the check rejects exactly the paths that redraw a line. */
  lemma RedrawCheckMeaning(s: seq<bv8>)
    requires GridSteps(s)
    ensures RedrawCheckPasses(s) <==> !LineRedrawn(s)
  {
    if LineRedrawn(s) {
      var x, y :| 0 <= x < y < |s| - 1 && LineAt(s, x) == LineAt(s, y);
      RedrawnFailsCheck(s, x, y);
    }
    if !RedrawCheckPasses(s) {
      var a: nat, b: nat :| a < b < |s| && s[a] == s[b] && !NeighboursDistinct(s, a, b);
      FailedCheckRedrawn(s, a, b);
    }
  }

  // ---------------------------------------------------------------------------------------
  // The `duplicates` table.

  /** The positions below `n` whose point has key `key`, in increasing order. */
  function KeyIndices(s: seq<bv8>, key: nat, n: nat): seq<nat>
    requires n <= |s|
  {
    if n == 0 then []
    else KeyIndices(s, key, n - 1) + (if CompactKey(s[n - 1]) == key then [n - 1] else [])
  }

  /** The table entry lists every position with that key, and no other, in increasing order. */
  lemma {:induction false} KeyIndicesSpec(s: seq<bv8>, key: nat, n: nat)
    requires n <= |s|
    ensures forall p :: 0 <= p < |KeyIndices(s, key, n)| ==>
      KeyIndices(s, key, n)[p] < n && CompactKey(s[KeyIndices(s, key, n)[p]]) == key
    ensures forall p, q :: 0 <= p < q < |KeyIndices(s, key, n)| ==>
      KeyIndices(s, key, n)[p] < KeyIndices(s, key, n)[q]
    ensures forall t :: 0 <= t < n && CompactKey(s[t]) == key ==> t in KeyIndices(s, key, n)
  {
    if n > 0 {
      KeyIndicesSpec(s, key, n - 1);
    }
  }

  /** How often `x` occurs in `s`. */
  function Count<T(==)>(s: seq<T>, x: T): nat
  {
    if s == [] then 0 else Count(s[..|s| - 1], x) + (if s[|s| - 1] == x then 1 else 0)
  }

  lemma {:induction false} CountMultiplicity<T>(s: seq<T>, x: T)
    ensures Count(s, x) == multiset(s)[x]
  {
    if s != [] {
      CountMultiplicity(s[..|s| - 1], x);
      assert s == s[..|s| - 1] + [s[|s| - 1]];
    }
  }

  /** Rearranging a sequence keeps every count. */
  lemma SameMultisetSameCount<T>(s: seq<T>, t: seq<T>, x: T)
    requires multiset(s) == multiset(t)
    ensures Count(s, x) == Count(t, x)
  {
    CountMultiplicity(s, x);
    CountMultiplicity(t, x);
  }

  /** An element found at two positions occurs at least twice. */
  lemma TwoVisits<T>(s: seq<T>, j: nat, i: nat)
    requires j < i < |s| && s[j] == s[i]
    ensures Count(s, s[i]) >= 2
  {
    var front, back := s[..i], s[i..];
    assert s == front + back;
    assert front[j] == s[i] && back[0] == s[i];
    assert s[i] in front && s[i] in back;
    CountMultiplicity(s, s[i]);
  }

  /** On the grid, the table entry of a point has as many positions as the point has visits. */
  lemma {:induction false} KeyIndicesCount(s: seq<bv8>, p: bv8, n: nat)
    requires n <= |s| && AllInGrid(s) && InGrid(p)
    ensures |KeyIndices(s, CompactKey(p), n)| == Count(s[..n], p)
  {
    if n > 0 {
      var key := CompactKey(p);
      KeyIndicesCount(s, p, n - 1);
      assert s[..n][..n - 1] == s[..n - 1];
      if CompactKey(s[n - 1]) == key {
        assert InGrid(s[n - 1]);
        CompactKeyInjective(s[n - 1], p);
      }
    }
  }

  /** A point of a path with the same points as a grid path is on the grid. */
  lemma InGridBySameMultiset(o: seq<bv8>, s: seq<bv8>, k: nat)
    requires AllInGrid(o) && multiset(s) == multiset(o) && k < |s|
    ensures InGrid(s[k])
  {
    assert s[k] in multiset(o);
    var t :| 0 <= t < |o| && o[t] == s[k];
  }

  /**
   * The inner loop's skip of a point the table lists at most once is sound: when the table holds at most one position for the point at
   * `i`, there is no loop closed at `i` to reverse.
   */
  lemma SkipSound(o: seq<bv8>, s: seq<bv8>, i: nat)
    requires AllInGrid(o) && multiset(s) == multiset(o) && 1 <= i < |s|
    requires InGrid(s[i]) && |KeyIndices(o, CompactKey(s[i]), |o|)| <= 1
    ensures FindLoop(s, i, i - 3) == -1
  {
    KeyIndicesCount(o, s[i], |o|);
    assert o[..|o|] == o;
    SameMultisetSameCount(s, o, s[i]);
    var j := FindLoop(s, i, i - 3);
    if j >= 0 {
      TwoVisits(s, j, i);
    }
  }

  /** Every pair of positions of the entry, if they are increasing positions of `s`, has distinct neighbours. */
  predicate EntryChecked(s: seq<bv8>, entry: seq<nat>)
  {
    forall p, q :: 0 <= p < q < |entry| && entry[p] < entry[q] < |s| ==> NeighboursDistinct(s, entry[p], entry[q])
  }

  /** On the grid, checking one table entry checks exactly the pairs of visits of the point with that key. */
  lemma EntryCheckedMeaning(s: seq<bv8>, key: nat)
    requires AllInGrid(s)
    ensures EntryChecked(s, KeyIndices(s, key, |s|)) <==>
      forall a: nat, b: nat :: a < b < |s| && s[a] == s[b] && CompactKey(s[a]) == key ==> NeighboursDistinct(s, a, b)
  {
    if EntryChecked(s, KeyIndices(s, key, |s|)) {
      forall a: nat, b: nat | a < b < |s| && s[a] == s[b] && CompactKey(s[a]) == key
        ensures NeighboursDistinct(s, a, b)
      {
        EntryCheckedPair(s, key, a, b);
      }
    } else {
      EntryUncheckedPair(s, key);
    }
  }

  /** A checked entry covers each pair of positions with its key. */
  lemma EntryCheckedPair(s: seq<bv8>, key: nat, a: nat, b: nat)
    requires EntryChecked(s, KeyIndices(s, key, |s|))
    requires a < b < |s| && CompactKey(s[a]) == key && CompactKey(s[b]) == key
    ensures NeighboursDistinct(s, a, b)
  {
    var L := KeyIndices(s, key, |s|);
    KeyIndicesSpec(s, key, |s|);
    var p :| 0 <= p < |L| && L[p] == a;
    var q :| 0 <= q < |L| && L[q] == b;
    assert p < q;
  }

  /** On the grid, an entry that fails its check names a pair of visits of one point. */
  lemma EntryUncheckedPair(s: seq<bv8>, key: nat)
    requires AllInGrid(s) && !EntryChecked(s, KeyIndices(s, key, |s|))
    ensures exists a: nat, b: nat :: a < b < |s| && s[a] == s[b] && CompactKey(s[a]) == key && !NeighboursDistinct(s, a, b)
  {
    var L := KeyIndices(s, key, |s|);
    KeyIndicesSpec(s, key, |s|);
    var p, q :| 0 <= p < q < |L| && L[p] < L[q] < |s| && !NeighboursDistinct(s, L[p], L[q]);
    CompactKeyInjective(s[L[p]], s[L[q]]);
  }

  /** On the grid, the redrawn-line check passes exactly when every table entry passes. */
  lemma RedrawCheckByEntries(s: seq<bv8>)
    requires AllInGrid(s)
    ensures RedrawCheckPasses(s) <==> forall key :: 0 <= key < TABLE_SIZE ==> EntryChecked(s, KeyIndices(s, key, |s|))
  {
    forall key | 0 <= key < TABLE_SIZE {
      EntryCheckedMeaning(s, key);
    }
    if !RedrawCheckPasses(s) {
      var a: nat, b: nat :| a < b < |s| && s[a] == s[b] && !NeighboursDistinct(s, a, b);
      CompactKeyInGrid(s[a]);
      EntryCheckedMeaning(s, CompactKey(s[a]));
    }
  }

  // ---------------------------------------------------------------------------------------
  // What the whole method returns.

  /**
   * The outcome of `canonicalize` on the contents `s` of a non-null array: empty when a
   * check fails, an index-out-of-bounds failure when a point's key does not fit the table,
   * and otherwise the canonical form (empty when a line is redrawn).
   */
  function Outcome(s: seq<bv8>, unsignedColumn: bool): Result<Option<seq<bv8>>>
  {
    if !PassesChecks(s, unsignedColumn) then Returned(None)
    else if KeyOverflow(s) then Threw(ArrayIndexOutOfBounds)
    else Returned(Canon(s))
  }

  /** Every valid Sigil passes the early checks, whichever grid check is used. */
  lemma ValidPassesChecks(s: seq<bv8>, unsignedColumn: bool)
    requires ValidSigil(s)
    ensures PassesChecks(s, unsignedColumn) && !KeyOverflow(s)
  {
    GridStepsChecked(s, unsignedColumn);
  }

  /** With the unsigned grid check, the method never throws and returns the canonical form. */
  lemma OutcomeUnsigned(s: seq<bv8>)
    ensures Outcome(s, true) == Returned(Canon(s))
  {
    if PassesChecks(s, true) {
      forall k | 0 <= k < |s| ensures CompactKey(s[k]) < TABLE_SIZE {
        CheckedPoint(s, true, k);
        CompactKeyInGrid(s[k]);
      }
    } else if ValidSigil(s) {
      ValidPassesChecks(s, true);
    }
  }

  /**
   * As written, the method returns the canonical form except on the inputs that pass the
   * checks with a byte whose top bit is set: those throw.
   */
  lemma OutcomeAsWritten(s: seq<bv8>)
    ensures Outcome(s, false) == if PassesChecks(s, false) && (exists k :: 0 <= k < |s| && s[k] >= 0x80)
      then Threw(ArrayIndexOutOfBounds) else Returned(Canon(s))
  {
    if PassesChecks(s, false) {
      if exists k :: 0 <= k < |s| && s[k] >= 0x80 {
        var k :| 0 <= k < |s| && s[k] >= 0x80;
        CompactKeyHighBit(s[k]);
      } else {
        forall k | 0 <= k < |s| ensures CompactKey(s[k]) < TABLE_SIZE {
          CheckedPoint(s, false, k);
          CompactKeyInGrid(s[k]);
        }
      }
    } else if ValidSigil(s) {
      ValidPassesChecks(s, false);
    }
  }

  const HIGH_BIT_SIGIL: seq<bv8> := [0x80, 0x90]

  /**
   * The two bytes 0x80 and 0x90, columns -8 and -7 once sign-extended, pass every check as
   * written and then throw, although they are no Sigil; the unsigned check rejects them.
   */
  lemma HighBitSigilThrows()
    ensures !ValidSigil(HIGH_BIT_SIGIL)
    ensures Outcome(HIGH_BIT_SIGIL, false) == Threw(ArrayIndexOutOfBounds)
    ensures Outcome(HIGH_BIT_SIGIL, true) == Returned(None)
  {
    var s := HIGH_BIT_SIGIL;
    UnpackXValue(s[0]);
    UnpackXValue(s[1]);
    UnpackYValue(s[0]);
    UnpackYValue(s[1]);
    assert !StepRejected(s[0], s[1], false);
    assert PassesChecks(s, false);
    assert !InGrid(s[0]);
    OutcomeAsWritten(s);
    OutcomeUnsigned(s);
  }

  // ---------------------------------------------------------------------------------------
  // The stages.

  /** The contents of `dest` after `length` elements of `src` from `srcPos` are copied to `destPos`. */
  function CopyInto(src: seq<bv8>, srcPos: nat, dest: seq<bv8>, destPos: nat, length: nat): (r: seq<bv8>)
    requires srcPos + length <= |src| && destPos + length <= |dest|
    ensures |r| == |dest|
  {
    seq(|dest|, t requires 0 <= t < |dest| =>
      if destPos <= t < destPos + length then src[srcPos + t - destPos] else dest[t])
  }

  /** Inside the target range the source element, elsewhere the old one. */
  lemma CopyIntoAt(src: seq<bv8>, srcPos: nat, dest: seq<bv8>, destPos: nat, length: nat, t: nat)
    requires srcPos + length <= |src| && destPos + length <= |dest| && t < |dest|
    ensures CopyInto(src, srcPos, dest, destPos, length)[t] ==
      if destPos <= t < destPos + length then src[srcPos + t - destPos] else dest[t]
  {
  }

  /** Copying one more element extends the copied range by one. */
  lemma CopyIntoStep(src: seq<bv8>, dest: seq<bv8>, destPos: nat, k: nat)
    requires k < |src| && destPos + k < |dest|
    ensures CopyInto(src, 0, dest, destPos, k)[destPos + k := src[k]] == CopyInto(src, 0, dest, destPos, k + 1)
  {
    var stored, extended := CopyInto(src, 0, dest, destPos, k)[destPos + k := src[k]], CopyInto(src, 0, dest, destPos, k + 1);
    forall t | 0 <= t < |dest| ensures stored[t] == extended[t] {
      CopyIntoAt(src, 0, dest, destPos, k, t);
      CopyIntoAt(src, 0, dest, destPos, k + 1, t);
    }
  }

  /** Copying from a buffer holding the source range is copying from the source. */
  lemma CopyIntoFromBuffer(src: seq<bv8>, srcPos: nat, dest: seq<bv8>, destPos: nat, length: nat)
    requires srcPos + length <= |src| && destPos + length <= |dest|
    ensures CopyInto(src[srcPos..srcPos + length], 0, dest, destPos, length) == CopyInto(src, srcPos, dest, destPos, length)
  {
    var buffered, direct := CopyInto(src[srcPos..srcPos + length], 0, dest, destPos, length), CopyInto(src, srcPos, dest, destPos, length);
    forall t | 0 <= t < |dest| ensures buffered[t] == direct[t] {
      CopyIntoAt(src[srcPos..srcPos + length], 0, dest, destPos, length, t);
      CopyIntoAt(src, srcPos, dest, destPos, length, t);
    }
  }

  /** `System.arraycopy`: the `length` elements from `srcPos` land at `destPos`, as if copied via a buffer. */
  method ArrayCopy(src: array<bv8>, srcPos: nat, dest: array<bv8>, destPos: nat, length: nat)
    requires srcPos + length <= src.Length && destPos + length <= dest.Length
    modifies dest
    ensures dest[..] == CopyInto(old(src[..]), srcPos, old(dest[..]), destPos, length)
  {
    var buffer := src[srcPos..srcPos + length];
    ghost var original := dest[..];
    CopyIntoFromBuffer(src[..], srcPos, original, destPos, length);
    var k := 0;
    while k < length
      invariant 0 <= k <= length
      invariant dest[..] == CopyInto(buffer, 0, original, destPos, k)
    {
      CopyIntoStep(buffer, original, destPos, k);
      dest[destPos + k] := buffer[k];
      k := k + 1;
    }
  }

  /** `Arrays.copyOf(sigil, sigil.length)`. */
  method CopyOf(sigil: array<bv8>) returns (points: array<bv8>)
    ensures fresh(points) && points[..] == sigil[..]
  {
    points := new bv8[sigil.Length](k requires 0 <= k < sigil.Length reads sigil => sigil[k]);
  }

  /** The steps from position 1 up to `n` are all accepted. */
  predicate StepsAccepted(s: seq<bv8>, unsignedColumn: bool, n: nat)
    requires n <= |s|
  {
    n <= 1 || (StepsAccepted(s, unsignedColumn, n - 1) && !StepRejected(s[n - 2], s[n - 1], unsignedColumn))
  }

  lemma {:induction false} StepsAcceptedAll(s: seq<bv8>, unsignedColumn: bool, n: nat)
    requires n <= |s|
    ensures StepsAccepted(s, unsignedColumn, n) <==> forall i :: 1 <= i < n ==> !StepRejected(s[i - 1], s[i], unsignedColumn)
  {
    if n > 1 {
      StepsAcceptedAll(s, unsignedColumn, n - 1);
    }
  }

  /** The early checks after the length bounds: the first point on the grid, then every step checked. */
  method CheckSteps(points: array<bv8>, unsignedColumn: bool) returns (ok: bool)
    requires 2 <= points.Length <= MAX_SIGIL_LENGTH
    ensures ok == PassesChecks(points[..], unsignedColumn)
  {
    ghost var s := points[..];
    StepsAcceptedAll(s, unsignedColumn, |s|);
    if OutsideGrid(points[0], unsignedColumn) {
      return false;
    }
    var i := 1;
    while i < points.Length
      invariant 1 <= i <= points.Length
      invariant StepsAccepted(s, unsignedColumn, i)
    {
      var first, second := points[i - 1], points[i];
      if StepRejected(first, second, unsignedColumn) {
        return false;
      }
      i := i + 1;
    }
    return true;
  }

  /** The pair (`smallestIndex`, `smallest`) after the search for the smallest point has sampled the first `i` points. */
  function SmallestScan(s: seq<bv8>, i: nat): (int, bv8)
    requires i <= |s|
  {
    if i == 0 then (-1, 0xFF)
    else
      var prev := SmallestScan(s, i - 1);
      if s[i - 1] < prev.1 then (i - 1, s[i - 1]) else prev
  }

  lemma FirstMinOfStep(s: seq<bv8>, i: nat)
    requires 0 < i < |s|
    ensures FirstMinOf(s, i + 1) == if s[i] < s[FirstMinOf(s, i)] then i else FirstMinOf(s, i)
  {
  }

  /** The scan holds -1 while every sampled point is 0xFF, and the first smallest sampled point after that. */
  lemma {:induction false} SmallestScanSoFar(s: seq<bv8>, i: nat)
    requires i <= |s|
    ensures SmallestScan(s, i).0 == -1 ==> SmallestScan(s, i).1 == 0xFF && forall k :: 0 <= k < i ==> s[k] == 0xFF
    ensures SmallestScan(s, i).0 != -1 ==>
      0 < i && SmallestScan(s, i).0 == FirstMinOf(s, i) && SmallestScan(s, i).1 == s[FirstMinOf(s, i)]
  {
    if i > 0 {
      SmallestScanSoFar(s, i - 1);
      if i > 1 { FirstMinOfStep(s, i - 1); }
    }
  }

  /** Two distinct points cannot both be 0xFF, so the scan ends on the first position of the smallest point. */
  lemma SmallestScanFinds(s: seq<bv8>)
    requires |s| >= 2 && s[0] != s[1]
    ensures SmallestScan(s, |s|) == (FirstMinIndex(s), s[FirstMinIndex(s)])
  {
    SmallestScanSoFar(s, |s|);
  }

  /** The search for the smallest point: its first position, unsigned; never -1, as the `assert` after the loop says. */
  method FindSmallest(points: array<bv8>) returns (smallestIndex: int, smallest: bv8)
    requires points.Length >= 2 && points[0] != points[1]
    ensures smallestIndex == FirstMinIndex(points[..]) && smallest == points[smallestIndex]
  {
    ghost var s := points[..];
    smallestIndex, smallest := -1, 0xFF;
    var i := 0;
    while i < points.Length
      invariant 0 <= i <= points.Length
      invariant (smallestIndex, smallest) == SmallestScan(s, i)
    {
      var sample := points[i];
      if sample < smallest {
        smallestIndex := i;
        smallest := sample;
      }
      i := i + 1;
    }
    SmallestScanFinds(s);
  }

  /** The contents after the three `System.arraycopy` copies and the final store of the loop restart. */
  function RestartCopies(s: seq<bv8>, m: nat, buffer: seq<bv8>): (r: seq<bv8>)
    requires 0 < m < |s| && |buffer| == |s| - m
    ensures |r| == |s|
  {
    var n := |s|;
    var start := CopyInto(s, m, buffer, 0, n - m);
    var moved := CopyInto(s, 1, s, n - m, m - 1);
    CopyInto(start, 0, moved, 0, n - m)[n - 1 := s[m]]
  }

  /** Each point after the copies is the loop's point `m + t` places round from 0. */
  lemma RestartCopiesAt(s: seq<bv8>, m: nat, buffer: seq<bv8>, t: nat)
    requires Closed(s) && 0 < m < |s| - 1 && |buffer| == |s| - m && t < |s|
    ensures RestartCopies(s, m, buffer)[t] == s[LoopIndex(|s| - 1, m + t)]
  {
    var n := |s|;
    var start := CopyInto(s, m, buffer, 0, n - m);
    var moved := CopyInto(s, 1, s, n - m, m - 1);
    var q := n - m;
    if t < n - 1 {
      CopyIntoAt(start, 0, moved, 0, q, t);
      if t < q {
        CopyIntoAt(s, m, buffer, 0, q, t);
      } else {
        CopyIntoAt(s, 1, s, q, m - 1, t);
      }
    }
  }

  /** The three copies and the final store restart the loop at `m`. */
  lemma RestartByCopies(s: seq<bv8>, m: nat, buffer: seq<bv8>)
    requires Closed(s) && 0 < m < |s| - 1 && |buffer| == |s| - m
    ensures RestartCopies(s, m, buffer) == StartLoopAt(s, m)
  {
    var r := RestartCopies(s, m, buffer);
    forall t | 0 <= t < |s| ensures r[t] == s[LoopIndex(|s| - 1, m + t)] {
      RestartCopiesAt(s, m, buffer, t);
    }
    assert IsRotation(s, r, m);
    StartLoopAtRotation(s, m);
    RotationUnique(s, r, StartLoopAt(s, m), m);
  }

  /**
   * The loop restart: the loop restarted at `m` by three `System.arraycopy` calls, the last
   * point set to the new first one.
   */
  method RestartLoop(points: array<bv8>, m: nat, smallest: bv8)
    requires Closed(points[..]) && 0 < m < points.Length - 1 && smallest == points[m]
    modifies points
    ensures points[..] == StartLoopAt(old(points[..]), m)
  {
    ghost var s := points[..];
    var n := points.Length;
    var newStartSequence := new bv8[n - m];
    ghost var buffer := newStartSequence[..];
    ArrayCopy(points, m, newStartSequence, 0, n - m);
    ghost var start := newStartSequence[..];
    assert start == CopyInto(s, m, buffer, 0, n - m);
    ArrayCopy(points, 1, points, n - m, m - 1);
    ghost var moved := points[..];
    assert moved == CopyInto(s, 1, s, n - m, m - 1);
    assert newStartSequence[..] == start;
    ArrayCopy(newStartSequence, 0, points, 0, n - m);
    ghost var copied := points[..];
    assert copied == CopyInto(start, 0, moved, 0, n - m);
    points[n - 1] := smallest;
    assert points[..] == copied[n - 1 := smallest];
    RestartByCopies(s, m, buffer);
  }

  /** The orientation step: a closed loop restarted at its smallest point, an open path read from its smaller end. */
  method OrientInPlace(points: array<bv8>)
    requires 2 <= points.Length <= MAX_SIGIL_LENGTH && points[0] != points[1]
    modifies points
    ensures points[..] == Orient(old(points[..]))
  {
    ghost var s := points[..];
    var n := points.Length;
    var first, last := points[0], points[n - 1];
    if first == last {
      assert Closed(s);
      var smallestIndex, smallest := FindSmallest(points);
      OrientClosed(s);
      if smallestIndex > 0 {
        RestartLoop(points, smallestIndex, smallest);
      } else {
        assert Orient(s) == s;
      }
    } else if first > last {
      assert Orient(s) == Reversed(s);
      ArrayUtil.Reverse(points, 0, n);
      ReverseRangeWhole(s);
    } else {
      assert Orient(s) == s;
    }
  }

  /** Filling `duplicates`: the positions of each point filed under its key; a key past the table throws. */
  method FillDuplicates(points: array<bv8>) returns (r: Result<array<seq<nat>>>)
    ensures r.Threw? <==> KeyOverflow(points[..])
    ensures r.Threw? ==> r.error == ArrayIndexOutOfBounds
    ensures r.Returned? ==> fresh(r.value) && r.value.Length == TABLE_SIZE
    ensures r.Returned? ==> forall key :: 0 <= key < TABLE_SIZE ==>
      r.value[key] == KeyIndices(points[..], key, points.Length)
  {
    ghost var s := points[..];
    var duplicates := new seq<nat>[TABLE_SIZE](_ => []);
    var i := 0;
    while i < points.Length
      invariant 0 <= i <= points.Length
      invariant forall k :: 0 <= k < i ==> CompactKey(s[k]) < TABLE_SIZE
      invariant forall key :: 0 <= key < TABLE_SIZE ==> duplicates[key] == KeyIndices(s, key, i)
    {
      var key := CompactKey(points[i]);
      if key >= duplicates.Length {
        return Threw(ArrayIndexOutOfBounds);
      }
      duplicates[key] := duplicates[key] + [i];
      i := i + 1;
    }
    return Returned(duplicates);
  }

  /** One pass of the `do` loop over two visits of one point: the neighbour keys of two visits are distinct. */
  method CheckPair(points: array<bv8>, secondIndex: nat, firstIndex: nat) returns (ok: bool)
    requires secondIndex < firstIndex < points.Length && AllInGrid(points[..])
    ensures ok == NeighboursDistinct(points[..], secondIndex, firstIndex)
  {
    ghost var s := points[..];
    var n := points.Length;
    var seen: set<nat> := {CompactKey(points[firstIndex - 1])} + {CompactKey(points[secondIndex + 1])};
    var expected := 2;
    if firstIndex < n - 1 {
      seen := seen + {CompactKey(points[firstIndex + 1])};
      expected := expected + 1;
    }
    if secondIndex > 0 {
      seen := seen + {CompactKey(points[secondIndex - 1])};
      expected := expected + 1;
    }
    assert seen == NeighbourKeys(s, secondIndex, firstIndex);
    assert expected == NeighbourCount(secondIndex, firstIndex, n);
    NeighbourKeysMeaning(s, secondIndex, firstIndex);
    ok := |seen| == expected;
  }

  /** One table entry: every pair of positions of one table entry, taken from the highest down, is checked. */
  method CheckEntry(points: array<bv8>, entry: seq<nat>) returns (ok: bool)
    requires AllInGrid(points[..])
    requires forall p :: 0 <= p < |entry| ==> entry[p] < points.Length
    requires forall p, q :: 0 <= p < q < |entry| ==> entry[p] < entry[q]
    ensures ok == EntryChecked(points[..], entry)
  {
    ghost var s := points[..];
    var data := entry;
    var i := |data|;
    while i > 1
      invariant 0 <= i <= |entry| && data == entry[..i]
      invariant forall p, q :: 0 <= p < q < |entry| && i <= q ==> NeighboursDistinct(s, entry[p], entry[q])
    {
      var firstIndex := data[|data| - 1];
      data := data[..|data| - 1];
      var basis := data;
      // A do-while in the Java code: `basis` is not empty here, as `i > 1`.
      while |basis| > 0
        invariant |basis| <= i - 1 && basis == entry[..|basis|]
        invariant forall p :: |basis| <= p < i - 1 ==> NeighboursDistinct(s, entry[p], firstIndex)
      {
        var secondIndex := basis[|basis| - 1];
        basis := basis[..|basis| - 1];
        var distinct := CheckPair(points, secondIndex, firstIndex);
        if !distinct {
          assert secondIndex == entry[|basis|] && firstIndex == entry[i - 1];
          return false;
        }
      }
      i := i - 1;
    }
    return true;
  }

  /** The redrawn-line check run on every entry of the table. */
  method CheckRedrawn(points: array<bv8>, duplicates: array<seq<nat>>) returns (ok: bool)
    requires duplicates.Length == TABLE_SIZE && AllInGrid(points[..])
    requires forall key :: 0 <= key < TABLE_SIZE ==> duplicates[key] == KeyIndices(points[..], key, points.Length)
    ensures ok == RedrawCheckPasses(points[..])
  {
    ghost var s := points[..];
    var n := points.Length;
    RedrawCheckByEntries(s);
    var key := 0;
    while key < duplicates.Length
      invariant 0 <= key <= TABLE_SIZE
      invariant forall k :: 0 <= k < key ==> EntryChecked(s, KeyIndices(s, k, n))
    {
      KeyIndicesSpec(s, key, n);
      var data := duplicates[key];
      var entryOk := CheckEntry(points, data);
      if !entryOk {
        return false;
      }
      key := key + 1;
    }
    return true;
  }

  /** What one iteration of the inner-loop pass does to the path, in terms of the pass. */
  lemma PassStepTaken(s: seq<bv8>, i: nat, found: int, t: seq<bv8>)
    requires 1 <= i < |s| && found == FindLoop(s, i, i - 3)
    requires found >= 0 ==> t == ReverseInner(s, found, i)
    requires found < 0 ==> t == s
    ensures multiset(t) == multiset(s)
    ensures found >= 0 ==> Rank(t) < Rank(s) && InnerPass(t, found + 1) == InnerPass(s, i)
    ensures found < 0 ==> InnerPass(t, i + 1) == InnerPass(s, i)
  {
    if found >= 0 {
      InnerPassReverses(s, i, found);
      ReverseLoopSmaller(s, found, i);
      ReverseRangeMultiset(s, found + 1, i - found - 1);
    } else {
      InnerPassSkips(s, i);
    }
  }

  /**
   * The backward search for a loop closed at `i` and out of order, and its
   * reversal when one is found.
   */
  method FindAndReverse(points: array<bv8>, i: nat, point: bv8) returns (found: int)
    requires 1 <= i < points.Length <= MAX_SIGIL_LENGTH && point == points[i]
    modifies points
    ensures found == FindLoop(old(points[..]), i, i - 3)
    ensures found >= 0 ==> points[..] == ReverseInner(old(points[..]), found, i)
    ensures found < 0 ==> points[..] == old(points[..])
  {
    ghost var s := points[..];
    var j := i - 3;
    while j >= 0
      invariant j <= i - 3
      invariant points[..] == s
      invariant FindLoop(s, i, j) == FindLoop(s, i, i - 3)
    {
      if points[j] != point || points[j + 1] <= points[i - 1] {
        j := j - 1;
        continue;
      }
      ArrayUtil.Reverse(points, j + 1, i - j - 1);
      return j;
    }
    return -1;
  }

  /** A point of a rearranged grid path has its key inside the table. */
  lemma KeyInTable(o: seq<bv8>, s: seq<bv8>, i: nat)
    requires AllInGrid(o) && multiset(s) == multiset(o) && i < |s|
    ensures CompactKey(s[i]) < TABLE_SIZE
  {
    InGridBySameMultiset(o, s, i);
    CompactKeyInGrid(s[i]);
  }

  /** A point the table lists at most once closes no loop, so the pass moves past it. */
  lemma SkipFromTable(o: seq<bv8>, s: seq<bv8>, i: nat, entry: seq<nat>)
    requires AllInGrid(o) && multiset(s) == multiset(o) && 1 <= i < |s|
    requires entry == KeyIndices(o, CompactKey(s[i]), |o|) && |entry| <= 1
    ensures InnerPass(s, i + 1) == InnerPass(s, i)
  {
    InGridBySameMultiset(o, s, i);
    SkipSound(o, s, i);
    PassStepTaken(s, i, -1, s);
  }

  /** The inner-loop pass, with the skip of points the table lists at most once. */
  method InnerLoopPass(points: array<bv8>, duplicates: array<seq<nat>>)
    requires points.Length <= MAX_SIGIL_LENGTH && duplicates as object != points
    requires duplicates.Length == TABLE_SIZE && AllInGrid(points[..])
    requires forall key :: 0 <= key < TABLE_SIZE ==> duplicates[key] == KeyIndices(points[..], key, points.Length)
    modifies points
    ensures points[..] == InnerPass(old(points[..]), 3)
  {
    ghost var o := points[..];
    var n := points.Length;
    var i := 3;
    while i < n
      invariant 1 <= i
      invariant InnerPass(points[..], i) == InnerPass(o, 3)
      invariant multiset(points[..]) == multiset(o)
      decreases Rank(points[..]), n - i
    {
      ghost var s := points[..];
      var point := points[i];
      KeyInTable(o, s, i);
      if |duplicates[CompactKey(point)]| <= 1 {
        SkipFromTable(o, s, i, duplicates[CompactKey(point)]);
        i := i + 1;
        continue;
      }
      var found := FindAndReverse(points, i, point);
      ghost var t, i0 := points[..], i;
      PassStepTaken(s, i, found, t);
      if found >= 0 {
        i := found;
      }
      i := i + 1;
      assert InnerPass(t, i) == InnerPass(s, i0);
    }
  }

  /**
   * After the checks pass, the oriented path overflows the table exactly when the input
   * does, and otherwise lies on the grid, where the redrawn-line check accepts it exactly
   * when the input is a valid Sigil.
   */
  lemma ChecksPrepareCanon(s: seq<bv8>, unsignedColumn: bool)
    requires PassesChecks(s, unsignedColumn)
    ensures s[0] != s[1]
    ensures KeyOverflow(Orient(s)) <==> KeyOverflow(s)
    ensures !KeyOverflow(s) ==>
      AllInGrid(Orient(s)) && GridSteps(Orient(s)) && (RedrawCheckPasses(Orient(s)) <==> ValidSigil(s))
  {
    assert !StepRejected(s[0], s[1], unsignedColumn);
    var o := Orient(s);
    OrientShape(s);
    SamePointsSameKeys(s, o);
    if !KeyOverflow(s) {
      CheckedOnGrid(s, unsignedColumn);
      GridStepsByLines(s);
      GridStepsByLines(o);
      SameFigureSameValidity(s, o);
      RedrawCheckMeaning(o);
    }
  }

  /**
   * `canonicalize(byte[])`, with the grid check chosen by `unsignedColumn`: a null array
   * throws, a rejected one gives empty, and an accepted one a fresh key over a private copy
   * holding the canonical form. The caller's array is not written (no `modifies`).
   */
  method CanonicalizeWith(sigil: array?<bv8>, unsignedColumn: bool) returns (r: Result<Option<SigilKey>>)
    ensures sigil == null ==> r == Threw(NullPointer)
    ensures sigil != null && Outcome(sigil[..], unsignedColumn).Threw? ==>
      r == Threw(Outcome(sigil[..], unsignedColumn).error)
    ensures sigil != null && Outcome(sigil[..], unsignedColumn) == Returned(None) ==> r == Returned(None)
    ensures sigil != null && Outcome(sigil[..], unsignedColumn).Returned? && Outcome(sigil[..], unsignedColumn).value.Some? ==>
      r.Returned? && r.value.Some? && fresh(r.value.value) && fresh(r.value.value.points)
      && r.value.value.Valid() && r.value.value.points[..] == Outcome(sigil[..], unsignedColumn).value.value
  {
    if sigil == null {
      return Threw(NullPointer);
    }
    ghost var s := sigil[..];
    if sigil.Length <= 1 || sigil.Length > MAX_SIGIL_LENGTH {
      assert Outcome(s, unsignedColumn) == Returned(None);
      return Returned(None);
    }
    var points := CopyOf(sigil);
    var ok := CheckSteps(points, unsignedColumn);
    if !ok {
      assert Outcome(s, unsignedColumn) == Returned(None);
      return Returned(None);
    }
    ChecksPrepareCanon(s, unsignedColumn);
    OrientInPlace(points);
    var duplicates := FillDuplicates(points);
    if duplicates.Threw? {
      assert Outcome(s, unsignedColumn) == Threw(ArrayIndexOutOfBounds);
      return Threw(duplicates.error);
    }
    var noRedrawnLine := CheckRedrawn(points, duplicates.value);
    if !noRedrawnLine {
      assert Outcome(s, unsignedColumn) == Returned(None);
      return Returned(None);
    }
    assert Outcome(s, unsignedColumn) == Returned(Some(InnerPass(points[..], 3)));
    InnerLoopPass(points, duplicates.value);
    var key := new SigilKey(points);
    return Returned(Some(key));
  }

  /**
   * `canonicalize` as written. It returns empty for every input that is no Sigil except
   * those that pass the checks with a top-bit byte, on which it throws.
   */
  method Canonicalize(sigil: array?<bv8>) returns (r: Result<Option<SigilKey>>)
    ensures sigil == null ==> r == Threw(NullPointer)
    ensures sigil != null && PassesChecks(sigil[..], false) && (exists k :: 0 <= k < sigil.Length && sigil[k] >= 0x80) ==>
      r == Threw(ArrayIndexOutOfBounds)
    ensures sigil != null && Canon(sigil[..]).None? && !(PassesChecks(sigil[..], false) && exists k :: 0 <= k < sigil.Length && sigil[k] >= 0x80) ==>
      r == Returned(None)
    ensures sigil != null && Canon(sigil[..]).Some? ==>
      r.Returned? && r.value.Some? && fresh(r.value.value) && fresh(r.value.value.points)
      && r.value.value.Valid() && r.value.value.points[..] == Canon(sigil[..]).value
  {
    if sigil != null {
      OutcomeAsWritten(sigil[..]);
      if Canon(sigil[..]).Some? {
        ValidPassesChecks(sigil[..], false);
      }
    }
    r := CanonicalizeWith(sigil, false);
  }

  /**
   * `canonicalize` with the grid check reading the column unsigned: it never throws on a
   * non-null array, returns empty exactly for the arrays that are no valid Sigil, and
   * otherwise a key holding the canonical form.
   */
  method CanonicalizeUnsigned(sigil: array?<bv8>) returns (r: Result<Option<SigilKey>>)
    ensures sigil == null ==> r == Threw(NullPointer)
    ensures sigil != null ==> r.Returned?
    ensures sigil != null ==> (r.value.None? <==> !ValidSigil(sigil[..]))
    ensures sigil != null && r.Returned? && r.value.Some? ==>
      fresh(r.value.value) && fresh(r.value.value.points)
      && r.value.value.Valid() && r.value.value.points[..] == Canon(sigil[..]).value
  {
    if sigil != null {
      OutcomeUnsigned(sigil[..]);
    }
    r := CanonicalizeWith(sigil, true);
  }
}

/**
 * The serialised form of `SigilKey`: `Proxy`, which `writeReplace` substitutes for a key
 * and whose `readResolve` turns an untrusted array back into a key by canonicalising it.
 */
module SigilKeyProxy {
  import opened JavaLang
  import opened SigilGeometry
  import opened SigilCanonical
  import opened SigilKeys
  import SigilValidation

  /** `SigilKey.Proxy`: a bare point array, possibly null. */
  datatype Proxy = Proxy(untrustedPoints: array?<bv8>)

  /**
   * `Proxy.readResolve`: a null array and an array `canonicalize` rejects both throw
   * `InvalidObjectException`; otherwise the canonicalised key. The exception `canonicalize`
   * throws on an array that passes its checks with a top-bit byte passes through unchanged.
   */
  method ReadResolve(p: Proxy) returns (r: Result<SigilKey>)
    ensures p.untrustedPoints == null ==> r == Threw(InvalidObject)
    ensures p.untrustedPoints != null && ValidSigil(p.untrustedPoints[..]) ==>
      r.Returned? && r.value.Valid() && r.value.points[..] == Canon(p.untrustedPoints[..]).value
    ensures p.untrustedPoints != null && !ValidSigil(p.untrustedPoints[..]) ==>
      r == if SigilValidation.PassesChecks(p.untrustedPoints[..], false)
              && (exists k :: 0 <= k < p.untrustedPoints.Length && p.untrustedPoints[k] >= 0x80)
           then Threw(ArrayIndexOutOfBounds) else Threw(InvalidObject)
  {
    if p.untrustedPoints == null {
      return Threw(InvalidObject);
    }
    var c := SigilValidation.Canonicalize(p.untrustedPoints);
    match c {
      case Threw(e) => return Threw(e);
      case Returned(None) => return Threw(InvalidObject);
      case Returned(Some(key)) => return Returned(key);
    }
  }

  /**
   * Writing a key (`writeReplace`) and reading it back (`readResolve`) gives an equal key:
   * the canonical form of a Sigil is its own canonical form.
   */
  method SerializationRoundTrip(ghost drawn: seq<bv8>, key: SigilKey) returns (r: Result<SigilKey>, same: bool)
    requires key.Valid() && Canon(drawn) == Some(key.points[..])
    ensures r.Returned? && r.value.points[..] == key.points[..] && same
  {
    CanonShape(drawn);
    CanonIdempotent(drawn);
    var proxy := Proxy(key.points);
    r := ReadResolve(proxy);
    same := r.value.Equals(key);
  }
}
