/**
 * `SigilPoint`, the record a Sigil point is exchanged in outside the byte encoding: two
 * `int` coordinates. The two copies of the record (in the `echoesfrombeyond` and `main`
 * modules) share `encodeArray` and `decodeArray`; the `echoesfrombeyond` one adds
 * `isAdjacentTo` and `isInBounds`. In the `main` copy the coordinates are annotated with
 * the range 0..GRID_SIZE-1, which Java does not enforce, so the model allows every `int`.
 */
module SigilPoints {
  import opened JavaLang
  import opened SigilEncoding
  import opened SigilGeometry

  datatype SigilPoint = SigilPoint(x: Int32, y: Int32)

  /** `SigilPoint.ZERO`. */
  const ZERO: SigilPoint := SigilPoint(0, 0)

  /**
   * `isAdjacentTo`, as the Java code computes it: the differences `x - other.x` and
   * `y - other.y` are 32-bit subtractions, and `Math.abs` of `Integer.MIN_VALUE` is negative.
   */
  function IsAdjacentTo(p: SigilPoint, other: SigilPoint): bool
  {
    var diffX := AbsDiff(p.x, other.x);
    var diffY := AbsDiff(p.y, other.y);
    NearDiffs(diffX, diffY)
  }

  /** `Math.abs(a - b)` on `int`: a 32-bit subtraction, then `Math.abs`. */
  function AbsDiff(a: Int32, b: Int32): Int32
  {
    Abs(Wrap32(a - b))
  }

  /** The test `isAdjacentTo` applies to the two absolute differences. */
  predicate NearDiffs(diffX: int, diffY: int)
  {
    !(diffX == 0 && diffY == 0) && diffX <= 1 && diffY <= 1
  }

  /** The Chebyshev distance: the larger of the two exact coordinate differences. */
  function Chebyshev(p: SigilPoint, q: SigilPoint): nat
  {
    var dx, dy := AbsInt(p.x - q.x), AbsInt(p.y - q.y);
    if dx < dy then dy else dx
  }

  /** Neither coordinate difference leaves the range in which `Math.abs(a - b)` is exact. */
  predicate NoOverflow(p: SigilPoint, q: SigilPoint)
  {
    -INT_MAX <= p.x - q.x <= INT_MAX && -INT_MAX <= p.y - q.y <= INT_MAX
  }

  /**
   * Adjacency as the documentation describes it, computed on exact differences (as
   * `Math.abs((long) x - other.x)` would): distinct points at most one unit apart on each axis.
   */
  function IsAdjacentToExact(p: SigilPoint, other: SigilPoint): bool
  {
    NearDiffs(AbsInt(p.x - other.x), AbsInt(p.y - other.y))
  }

  /** `isInBounds`: both coordinates on the grid. */
  predicate IsInBounds(p: SigilPoint)
  {
    p.x >= 0 && p.x < GRID_SIZE && p.y >= 0 && p.y < GRID_SIZE
  }

  // ---------------------------------------------------------------------------------------
  // Adjacency

  /** `Math.abs` of a wrapped difference does not depend on the order of the operands. */
  lemma AbsWrapNegate(d: int)
    requires -0x1_0000_0000 < d < 0x1_0000_0000
    ensures Abs(Wrap32(-d)) == Abs(Wrap32(d))
  {
    if d >= 0x8000_0000 {
      assert Wrap32(d) == d - 0x1_0000_0000;
      if d == 0x8000_0000 {
        assert Wrap32(-d) == INT_MIN;
      } else {
        assert Wrap32(-d) == -d + 0x1_0000_0000;
      }
    } else if d < -0x8000_0000 {
      assert Wrap32(d) == d + 0x1_0000_0000;
      assert Wrap32(-d) == -d - 0x1_0000_0000;
    } else if d == -0x8000_0000 {
      assert Wrap32(-d) == INT_MIN;
    }
  }

  /** No point is adjacent to itself. */
  lemma AdjacentIrreflexive(p: SigilPoint)
    ensures !IsAdjacentTo(p, p)
  {
    assert Wrap32(p.x - p.x) == 0 && Wrap32(p.y - p.y) == 0;
  }

  /** Adjacency is symmetric, overflow included. */
  lemma AdjacentSymmetric(p: SigilPoint, q: SigilPoint)
    ensures IsAdjacentTo(p, q) == IsAdjacentTo(q, p)
  {
    AbsDifferenceSymmetric(p.x, q.x);
    AbsDifferenceSymmetric(p.y, q.y);
  }

  lemma AbsDifferenceSymmetric(a: Int32, b: Int32)
    ensures AbsDiff(a, b) == AbsDiff(b, a)
  {
    var d := a - b;
    AbsWrapNegate(d);
    assert b - a == -d;
  }

  /** The corrected check holds exactly at Chebyshev distance 1, for every pair of `int` points. */
  lemma ExactAdjacentMeaning(p: SigilPoint, q: SigilPoint)
    ensures IsAdjacentToExact(p, q) <==> Chebyshev(p, q) == 1
  {
  }

  /** Where the subtractions cannot overflow, the Java check is the corrected one. */
  lemma AdjacentWithoutOverflow(p: SigilPoint, q: SigilPoint)
    requires NoOverflow(p, q)
    ensures IsAdjacentTo(p, q) == IsAdjacentToExact(p, q)
    ensures IsAdjacentTo(p, q) <==> Chebyshev(p, q) == 1
  {
    var dx, dy := p.x - q.x, p.y - q.y;
    assert Wrap32(dx) == dx && Wrap32(dy) == dy;
    assert Abs(dx) == AbsInt(dx) && Abs(dy) == AbsInt(dy);
  }

  /** Grid points never overflow the subtraction. */
  lemma InBoundsNoOverflow(p: SigilPoint, q: SigilPoint)
    requires IsInBounds(p) && IsInBounds(q)
    ensures NoOverflow(p, q)
  {
  }

  /** (0, 0) and (Integer.MIN_VALUE, 0), 2^31 apart, pass the Java check. */
  lemma AdjacentOverflow()
    ensures IsAdjacentTo(ZERO, SigilPoint(INT_MIN, 0))
    ensures Chebyshev(ZERO, SigilPoint(INT_MIN, 0)) == 0x8000_0000
    ensures !IsAdjacentToExact(ZERO, SigilPoint(INT_MIN, 0))
  {
    var d := Wrap32(0 - INT_MIN);
    assert d == INT_MIN;
    assert Abs(d) == INT_MIN;
  }

  /** (Integer.MAX_VALUE, 0) and (Integer.MIN_VALUE, 0) pass as well: their difference wraps to -1. */
  lemma AdjacentWrapAround()
    ensures IsAdjacentTo(SigilPoint(INT_MAX, 0), SigilPoint(INT_MIN, 0))
    ensures !IsAdjacentToExact(SigilPoint(INT_MAX, 0), SigilPoint(INT_MIN, 0))
  {
    var d := Wrap32(INT_MAX - INT_MIN);
    assert d == -1;
    assert Abs(d) == 1;
  }

  // ---------------------------------------------------------------------------------------
  // The byte encoding of points

  /** `new SigilPoint(unpackX(point), unpackY(point))`. */
  function DecodePoint(b: bv8): SigilPoint
  {
    SigilPoint(Signed(UnpackX(b)), Signed(UnpackY(b)))
  }

  /** `encodePoint(p.x(), p.y())`. */
  function Encoded(p: SigilPoint): bv8
  {
    EncodePoint(p.x, p.y)
  }

  /** The points whose coordinates a byte can hold: the column read signed, the row unsigned. */
  predicate Representable(p: SigilPoint)
  {
    -8 <= p.x < 8 && 0 <= p.y < 16
  }

  /** What `encodeArray` returns for a non-null array. */
  function EncodeAll(ps: seq<SigilPoint>): (r: seq<bv8>)
    ensures |r| == |ps|
  {
    seq(|ps|, i requires 0 <= i < |ps| => Encoded(ps[i]))
  }

  /** What `decodeArray` returns for a non-null array. */
  function DecodeAll(bs: seq<bv8>): (r: seq<SigilPoint>)
    ensures |r| == |bs|
  {
    seq(|bs|, i requires 0 <= i < |bs| => DecodePoint(bs[i]))
  }

  /** Element `i` of the encoding is `encodePoint` of element `i`. */
  lemma EncodeAllAt(ps: seq<SigilPoint>, i: nat)
    requires i < |ps|
    ensures |EncodeAll(ps)| == |ps| && EncodeAll(ps)[i] == EncodePoint(ps[i].x, ps[i].y)
  {
  }

  /** Element `i` of the decoding is the unpacked byte `i`. */
  lemma DecodeAllAt(bs: seq<bv8>, i: nat)
    requires i < |bs|
    ensures |DecodeAll(bs)| == |bs| && DecodeAll(bs)[i] == SigilPoint(Signed(UnpackX(bs[i])), Signed(UnpackY(bs[i])))
  {
  }

  /** A point survives encoding and decoding exactly when a byte can hold its coordinates. */
  lemma DecodeEncodePoint(p: SigilPoint)
    ensures DecodePoint(Encoded(p)) == p <==> Representable(p)
  {
    UnpackEncodePoint(p.x, p.y);
  }

  /** Decoding then encoding gives back every byte. */
  lemma EncodeDecodePoint(b: bv8)
    ensures Encoded(DecodePoint(b)) == b
  {
    EncodePointOfUnpacked(b);
  }

  /**
   * `decodeArray` inverts `encodeArray` exactly on arrays of representable points, which
   * include every array of grid points.
   */
  lemma DecodeEncodeAll(ps: seq<SigilPoint>)
    ensures DecodeAll(EncodeAll(ps)) == ps <==> forall i :: 0 <= i < |ps| ==> Representable(ps[i])
  {
    var r := DecodeAll(EncodeAll(ps));
    forall i | 0 <= i < |ps|
      ensures r[i] == DecodePoint(Encoded(ps[i]))
      ensures r[i] == ps[i] <==> Representable(ps[i])
    {
      DecodeEncodePoint(ps[i]);
    }
  }

  /** `encodeArray` inverts `decodeArray` on every byte array. */
  lemma EncodeDecodeAll(bs: seq<bv8>)
    ensures EncodeAll(DecodeAll(bs)) == bs
  {
    var r := EncodeAll(DecodeAll(bs));
    forall i | 0 <= i < |bs|
      ensures r[i] == bs[i]
    {
      EncodeDecodePoint(bs[i]);
    }
  }

  /** Points within the declared coordinate range 0..GRID_SIZE-1 come back unchanged. */
  lemma GridRoundTrip(ps: seq<SigilPoint>)
    requires forall i :: 0 <= i < |ps| ==> IsInBounds(ps[i])
    ensures DecodeAll(EncodeAll(ps)) == ps
  {
    DecodeEncodeAll(ps);
  }

  /** A point is in bounds exactly when its encoding lies on the grid and decodes back to it. */
  lemma InBoundsEncoding(p: SigilPoint)
    ensures IsInBounds(p) <==> InGrid(Encoded(p)) && DecodePoint(Encoded(p)) == p
  {
    var b := Encoded(p);
    DecodeEncodePoint(p);
    if IsInBounds(p) {
      EncodePointInGrid(p.x, p.y);
    }
    if InGrid(b) && DecodePoint(b) == p {
      UnpackInGrid(b);
    }
  }

  /** Every grid byte decodes to an in-bounds point. */
  lemma GridDecodesInBounds(b: bv8)
    requires InGrid(b)
    ensures IsInBounds(DecodePoint(b)) && Encoded(DecodePoint(b)) == b
  {
    UnpackInGrid(b);
    EncodePointOfUnpacked(b);
  }

  /** Different grid points have different encodings. */
  lemma EncodedInjective(p: SigilPoint, q: SigilPoint)
    requires IsInBounds(p) && IsInBounds(q) && Encoded(p) == Encoded(q)
    ensures p == q
  {
    InBoundsEncoding(p);
    InBoundsEncoding(q);
  }

  /** On the grid, the corrected check is the adjacency `canonicalize` checks on the encoded bytes. */
  lemma ExactAdjacentOnGrid(p: SigilPoint, q: SigilPoint)
    requires IsInBounds(p) && IsInBounds(q)
    ensures IsAdjacentToExact(p, q) <==> GridStep(Encoded(p), Encoded(q))
  {
    var a, b := Encoded(p), Encoded(q);
    EncodePointInGrid(p.x, p.y);
    EncodePointInGrid(q.x, q.y);
    if a == b {
      EncodedInjective(p, q);
    }
    GridStepByCoordinates(a, b, p, q);
  }

  lemma GridStepByCoordinates(a: bv8, b: bv8, p: SigilPoint, q: SigilPoint)
    requires InGrid(a) && InGrid(b) && (a == b <==> p == q)
    requires X(a) == p.x && Y(a) == p.y && X(b) == q.x && Y(b) == q.y
    ensures IsAdjacentToExact(p, q) <==> GridStep(a, b)
  {
  }

  /** On the grid, `isAdjacentTo` is the adjacency `canonicalize` checks on the encoded bytes. */
  lemma AdjacentOnGrid(p: SigilPoint, q: SigilPoint)
    requires IsInBounds(p) && IsInBounds(q)
    ensures IsAdjacentTo(p, q) <==> GridStep(Encoded(p), Encoded(q))
  {
    InBoundsNoOverflow(p, q);
    AdjacentWithoutOverflow(p, q);
    ExactAdjacentOnGrid(p, q);
  }

  /** `encodeArray`: null stays null; otherwise a new array holding each point's encoding. */
  method EncodeArray(objects: array?<SigilPoint>) returns (points: array?<bv8>)
    ensures objects == null <==> points == null
    ensures points != null ==> fresh(points) && points[..] == EncodeAll(objects[..])
  {
    if objects == null {
      return null;
    }
    points := new bv8[objects.Length];
    var i := 0;
    while i < objects.Length
      invariant 0 <= i <= objects.Length
      invariant forall k :: 0 <= k < i ==> points[k] == Encoded(objects[k])
    {
      var point := objects[i];
      points[i] := EncodePoint(point.x, point.y);
      i := i + 1;
    }
  }

  /** `decodeArray`: null stays null; otherwise a new array holding each byte's point. */
  method DecodeArray(bytes: array?<bv8>) returns (objects: array?<SigilPoint>)
    ensures bytes == null <==> objects == null
    ensures objects != null ==> fresh(objects) && objects[..] == DecodeAll(bytes[..])
  {
    if bytes == null {
      return null;
    }
    objects := new SigilPoint[bytes.Length](_ => ZERO);
    var i := 0;
    while i < bytes.Length
      invariant 0 <= i <= bytes.Length
      invariant forall k :: 0 <= k < i ==> objects[k] == DecodePoint(bytes[k])
    {
      var point := bytes[i];
      objects[i] := SigilPoint(Signed(UnpackX(point)), Signed(UnpackY(point)));
      i := i + 1;
    }
  }
}
