/**
 * Drawing a Sigil on the HUD grid. `SigilDrawComponent` holds the drawing state of one
 * player: whether the HUD is open, whether a stroke is in progress, the highlighted grid
 * square and the points drawn so far. `BeginSigilDraw` starts a stroke at the highlighted
 * square, `SigilDrawSystem.maybeDrawLine` extends the stroke to the highlighted square,
 * takes one step back, or refuses to draw a line twice, and `EndSigilDraw` hands the
 * points to validation and clears them.
 *
 * HUD updates are modelled as the commands they add to a `UICommandBuilder`; a null
 * builder is `None`.
 */
module SigilDraw {
  import opened JavaLang
  import opened SigilEncoding
  import opened SigilGeometry
  import opened SigilPoints

  /** `SigilDrawComponent.DEFAULT_GRID_DISTANCE`. */
  const DEFAULT_GRID_DISTANCE: real := 4.0
  /** `SigilDrawComponent.DEFAULT_CURSOR_XY`: `gridToPixelCoordinates(0.5F)`, that is 0.5 * 150. */
  const DEFAULT_CURSOR_XY: real := 75.0

  /** A HUD command added to a `UICommandBuilder`. */
  datatype HudCommand =
    | SetLine(from: SigilPoint, to: SigilPoint, draw: bool)  // `hud.line(builder, from, to, set)`
    | UnsetLines(points: seq<SigilPoint>)                 // `hud.unsetLines(builder, points)`

  /** The commands of a possibly null builder. */
  function Commands(builder: Option<seq<HudCommand>>): seq<HudCommand>
  {
    if builder.Some? then builder.value else []
  }

  /** `com.hypixel.hytale.math.vector.Vector3f`, as far as the component uses it. */
  class Vector3f {
    var x: real
    var y: real
    var z: real

    constructor(x0: real, y0: real, z0: real)
      ensures x == x0 && y == y0 && z == z0
    {
      x, y, z := x0, y0, z0;
    }

    /** `assign(x, y, z)`. */
    method Assign(x0: real, y0: real, z0: real)
      modifies this
      ensures x == x0 && y == y0 && z == z0
    {
      x, y, z := x0, y0, z0;
    }

    /** `clone()`: a new vector with the same coordinates. */
    method Clone() returns (v: Vector3f)
      ensures fresh(v) && v.x == x && v.y == y && v.z == z
    {
      v := new Vector3f(x, y, z);
    }
  }

  /** A `java.util.ArrayList<SigilPoint>` with the operations the drawing code calls. */
  class PointList {
    var items: seq<SigilPoint>

    /** `new ArrayList<>()`. */
    constructor()
      ensures items == []
    {
      items := [];
    }

    /** `new ArrayList<>(other)`: a new list with the same elements. */
    constructor Copy(other: PointList)
      ensures items == other.items
    {
      items := other.items;
    }

    /** `add(p)`. */
    method Add(p: SigilPoint)
      modifies this
      ensures items == old(items) + [p]
    {
      items := items + [p];
    }

    /** `removeLast()`, on a non-empty list. */
    method RemoveLast()
      requires |items| > 0
      modifies this
      ensures items == old(items)[..|old(items)| - 1]
    {
      items := items[..|items| - 1];
    }

    /** `clear()`. */
    method Clear()
      modifies this
      ensures items == []
    {
      items := [];
    }
  }

  // ---------------------------------------------------------------------------------------
  // Paths of points

  function Last(ps: seq<SigilPoint>): SigilPoint
    requires |ps| > 0
  {
    ps[|ps| - 1]
  }

  /** The undirected lines {a, b} and {c, d} are the same. */
  predicate SameLine(a: SigilPoint, b: SigilPoint, c: SigilPoint, d: SigilPoint)
  {
    (a == c && b == d) || (a == d && b == c)
  }

  /** Step `k` of the path draws the line {a, b}. */
  predicate StepDraws(ps: seq<SigilPoint>, k: int, a: SigilPoint, b: SigilPoint)
    requires 0 <= k < |ps| - 1
  {
    SameLine(ps[k], ps[k + 1], a, b)
  }

  /** Step `k` of the path goes to an adjacent point. */
  predicate StepAdjacent(ps: seq<SigilPoint>, k: int)
    requires 0 <= k < |ps| - 1
  {
    IsAdjacentTo(ps[k], ps[k + 1])
  }

  /** Steps `j` and `k` of the path draw the same line. */
  predicate SameStepLine(ps: seq<SigilPoint>, j: int, k: int)
    requires 0 <= j < |ps| - 1 && 0 <= k < |ps| - 1
  {
    StepDraws(ps, j, ps[k], ps[k + 1])
  }

  /** Some step of the path draws the line {a, b}. */
  predicate LineDrawn(ps: seq<SigilPoint>, a: SigilPoint, b: SigilPoint)
  {
    exists k :: 0 <= k < |ps| - 1 && StepDraws(ps, k, a, b)
  }

  predicate AdjacentSteps(ps: seq<SigilPoint>)
  {
    forall k :: 0 <= k < |ps| - 1 ==> StepAdjacent(ps, k)
  }

  predicate NoLineTwice(ps: seq<SigilPoint>)
  {
    forall j, k :: 0 <= j < k < |ps| - 1 ==> !SameStepLine(ps, j, k)
  }

  /**
   * What a stroke may look like: at most MAX_SIGIL_LENGTH points, each adjacent to the one
   * before, and no line drawn twice.
   */
  predicate DrawnPath(ps: seq<SigilPoint>)
  {
    |ps| <= MAX_SIGIL_LENGTH && AdjacentSteps(ps) && NoLineTwice(ps)
  }

  /** What `maybeDrawLine` does with the stroke. */
  datatype Move = Stay | Extend | Backtrack

  /**
   * The move `maybeDrawLine` makes towards `h`: none unless a stroke with room for another
   * point is in progress and the last point is adjacent to `h`; a step back when `h` is the
   * point before the last; none when the line from the last point to `h` is already drawn;
   * otherwise a step to `h`.
   */
  function NextMove(ps: seq<SigilPoint>, drawing: bool, h: SigilPoint): Move
  {
    if !drawing || |ps| == 0 || |ps| >= MAX_SIGIL_LENGTH then Stay
    else if !IsAdjacentTo(Last(ps), h) then Stay
    else if |ps| >= 2 && ps[|ps| - 2] == h then Backtrack
    else if LineDrawn(ps, Last(ps), h) then Stay
    else Extend
  }

  /** The stroke after a move. */
  function Moved(ps: seq<SigilPoint>, m: Move, h: SigilPoint): seq<SigilPoint>
    requires m == Backtrack ==> |ps| > 0
  {
    match m
    case Stay => ps
    case Extend => ps + [h]
    case Backtrack => ps[..|ps| - 1]
  }

  /** The builder after a move: a move adds the line command, drawing or erasing the line. */
  function MoveCommands(builder: Option<seq<HudCommand>>, ps: seq<SigilPoint>, m: Move, h: SigilPoint): Option<seq<HudCommand>>
    requires m != Stay ==> |ps| > 0
  {
    if m == Stay then builder else Some(Commands(builder) + [SetLine(Last(ps), h, m == Extend)])
  }

  /** The scan of `maybeDrawLine`'s loop: visit `i` of the last point `a` sits next to `h`. */
  predicate RetraceAt(ps: seq<SigilPoint>, a: SigilPoint, h: SigilPoint, i: int)
  {
    0 <= i < |ps| - 1 && ps[i] == a && ((i > 0 && ps[i - 1] == h) || ps[i + 1] == h)
  }

  /**
   * The scan finds the line {last, h} wherever it was drawn, except as the last step; that
   * step is the backtracking case, which is decided before the scan.
   */
  lemma RetraceMeansDrawn(ps: seq<SigilPoint>, h: SigilPoint)
    requires |ps| > 0 && Last(ps) != h
    requires |ps| == 1 || ps[|ps| - 2] != h
    ensures (exists i :: RetraceAt(ps, Last(ps), h, i)) <==> LineDrawn(ps, Last(ps), h)
  {
    var a := Last(ps);
    if exists i :: RetraceAt(ps, a, h, i) {
      var i :| RetraceAt(ps, a, h, i);
      if i > 0 && ps[i - 1] == h {
        assert StepDraws(ps, i - 1, a, h);
      } else {
        assert StepDraws(ps, i, a, h);
      }
    }
    if LineDrawn(ps, a, h) {
      var k :| 0 <= k < |ps| - 1 && StepDraws(ps, k, a, h);
      if ps[k] == a {
        assert RetraceAt(ps, a, h, k);
      } else {
        assert k + 1 < |ps| - 1;
        assert RetraceAt(ps, a, h, k + 1);
      }
    }
  }

  /** A step to an adjacent point whose line is new keeps the stroke well formed. */
  lemma ExtendKeepsPath(ps: seq<SigilPoint>, h: SigilPoint)
    requires DrawnPath(ps) && 0 < |ps| < MAX_SIGIL_LENGTH
    requires IsAdjacentTo(Last(ps), h) && !LineDrawn(ps, Last(ps), h)
    ensures DrawnPath(ps + [h])
  {
    var r := ps + [h];
    var n := |ps|;
    forall k | 0 <= k < |r| - 1
      ensures StepAdjacent(r, k)
    {
      if k < n - 1 {
        assert StepAdjacent(ps, k);
        assert r[k] == ps[k] && r[k + 1] == ps[k + 1];
      } else {
        assert r[k] == Last(ps) && r[k + 1] == h;
      }
    }
    forall j, k | 0 <= j < k < |r| - 1
      ensures !SameStepLine(r, j, k)
    {
      assert r[j] == ps[j] && r[j + 1] == ps[j + 1];
      if k == n - 1 {
        assert r[k] == Last(ps) && r[k + 1] == h;
        assert !StepDraws(ps, j, Last(ps), h);
      } else {
        assert r[k] == ps[k] && r[k + 1] == ps[k + 1];
        assert !SameStepLine(ps, j, k);
      }
    }
  }

  /** Dropping the last point keeps the stroke well formed. */
  lemma BacktrackKeepsPath(ps: seq<SigilPoint>)
    requires DrawnPath(ps) && |ps| > 0
    ensures DrawnPath(ps[..|ps| - 1])
  {
    var r := ps[..|ps| - 1];
    forall k | 0 <= k < |r| - 1
      ensures StepAdjacent(r, k)
    {
      assert StepAdjacent(ps, k);
    }
    forall j, k | 0 <= j < k < |r| - 1
      ensures !SameStepLine(r, j, k)
    {
      assert !SameStepLine(ps, j, k);
    }
  }

  /** Every move of `maybeDrawLine` keeps the stroke well formed. */
  lemma MoveKeepsPath(ps: seq<SigilPoint>, drawing: bool, h: SigilPoint)
    requires DrawnPath(ps)
    ensures DrawnPath(Moved(ps, NextMove(ps, drawing, h), h))
  {
    match NextMove(ps, drawing, h)
    case Stay =>
    case Extend => ExtendKeepsPath(ps, h);
    case Backtrack => BacktrackKeepsPath(ps);
  }

  /** A step forward draws exactly one new line: the one from the last point to `h`. */
  lemma ExtendDrawsOneLine(ps: seq<SigilPoint>, h: SigilPoint, a: SigilPoint, b: SigilPoint)
    requires |ps| > 0
    ensures LineDrawn(ps + [h], a, b) <==> LineDrawn(ps, a, b) || SameLine(Last(ps), h, a, b)
  {
    var r := ps + [h];
    var n := |ps|;
    if LineDrawn(r, a, b) {
      var k :| 0 <= k < |r| - 1 && StepDraws(r, k, a, b);
      if k < n - 1 {
        assert r[k] == ps[k] && r[k + 1] == ps[k + 1];
        assert StepDraws(ps, k, a, b);
      } else {
        assert r[k] == Last(ps) && r[k + 1] == h;
      }
    }
    if LineDrawn(ps, a, b) {
      var k :| 0 <= k < n - 1 && StepDraws(ps, k, a, b);
      assert r[k] == ps[k] && r[k + 1] == ps[k + 1];
      assert StepDraws(r, k, a, b);
    }
    if SameLine(Last(ps), h, a, b) {
      assert r[n - 1] == Last(ps) && r[n] == h;
      assert StepDraws(r, n - 1, a, b);
    }
  }

  /** Stepping back to the previous point right after a step forward undoes it. */
  lemma BacktrackUndoesExtend(ps: seq<SigilPoint>, h: SigilPoint)
    requires NextMove(ps, true, h) == Extend && |ps| + 1 < MAX_SIGIL_LENGTH
    ensures NextMove(ps + [h], true, Last(ps)) == Backtrack
    ensures Moved(ps + [h] , Backtrack, Last(ps)) == ps
  {
    AdjacentSymmetric(Last(ps), h);
    assert (ps + [h])[..|ps|] == ps;
  }

  /** A full stroke is frozen: at MAX_SIGIL_LENGTH points not even a step back is taken. */
  lemma FullStrokeFrozen(ps: seq<SigilPoint>, h: SigilPoint)
    requires |ps| >= MAX_SIGIL_LENGTH
    ensures NextMove(ps, true, h) == Stay
  {
  }

  // ---------------------------------------------------------------------------------------
  // From drawn strokes to Sigils

  /** On the grid, the lines of the encoded points are the same exactly when the lines are. */
  lemma SameLineEncoded(a: SigilPoint, b: SigilPoint, c: SigilPoint, d: SigilPoint)
    requires IsInBounds(a) && IsInBounds(b) && IsInBounds(c) && IsInBounds(d)
    ensures LineOf(Encoded(a), Encoded(b)) == LineOf(Encoded(c), Encoded(d)) <==> SameLine(a, b, c, d)
  {
    var ea, eb, ec, ed := Encoded(a), Encoded(b), Encoded(c), Encoded(d);
    if LineOf(ea, eb) == LineOf(ec, ed) {
      assert (ea == ec && eb == ed) || (ea == ed && eb == ec);
      if ea == ec && eb == ed {
        EncodedInjective(a, c);
        EncodedInjective(b, d);
      } else {
        EncodedInjective(a, d);
        EncodedInjective(b, c);
      }
    }
    if SameLine(a, b, c, d) {
      LineOfSymmetric(ea, eb);
    }
  }

  /** Adjacent grid points encode to grid steps. */
  lemma EncodedSteps(ps: seq<SigilPoint>)
    requires AdjacentSteps(ps)
    requires forall i :: 0 <= i < |ps| ==> IsInBounds(ps[i])
    ensures GridSteps(EncodeAll(ps))
  {
    forall k | 0 <= k < |ps| - 1
      ensures GridStep(EncodeAll(ps)[k], EncodeAll(ps)[k + 1])
    {
      EncodedStep(ps, k);
    }
  }

  /** Step `k` of a stroke of grid points encodes to a grid step. */
  lemma EncodedStep(ps: seq<SigilPoint>, k: nat)
    requires k < |ps| - 1 && StepAdjacent(ps, k) && IsInBounds(ps[k]) && IsInBounds(ps[k + 1])
    ensures GridStep(EncodeAll(ps)[k], EncodeAll(ps)[k + 1])
  {
    AdjacentOnGrid(ps[k], ps[k + 1]);
  }

  /** Distinct lines between grid points encode to distinct lines. */
  lemma EncodedLinesDistinct(ps: seq<SigilPoint>)
    requires NoLineTwice(ps)
    requires forall i :: 0 <= i < |ps| ==> IsInBounds(ps[i])
    ensures !LineRedrawn(EncodeAll(ps))
  {
    var e := EncodeAll(ps);
    forall a, b | 0 <= a < b < |e| - 1
      ensures LineAt(e, a) != LineAt(e, b)
    {
      assert !SameStepLine(ps, a, b);
      EncodedStepLines(ps, a, b);
    }
  }

  /** Steps `a` and `b` of grid points draw the same line exactly when their encodings do. */
  lemma EncodedStepLines(ps: seq<SigilPoint>, a: nat, b: nat)
    requires a < |ps| - 1 && b < |ps| - 1
    requires IsInBounds(ps[a]) && IsInBounds(ps[a + 1]) && IsInBounds(ps[b]) && IsInBounds(ps[b + 1])
    ensures LineAt(EncodeAll(ps), a) == LineAt(EncodeAll(ps), b) <==> SameStepLine(ps, a, b)
  {
    var e := EncodeAll(ps);
    var p, q, u, v := ps[a], ps[a + 1], ps[b], ps[b + 1];
    assert e[a] == Encoded(p) && e[a + 1] == Encoded(q) && e[b] == Encoded(u) && e[b + 1] == Encoded(v);
    SameLineEncoded(p, q, u, v);
  }

  /**
   * A stroke of at least two grid points that `maybeDrawLine` could have built encodes to a
   * Sigil `canonicalize` accepts: the drawing rules are the validation rules.
   */
  lemma DrawnPathIsSigil(ps: seq<SigilPoint>)
    requires DrawnPath(ps) && |ps| >= 2
    requires forall i :: 0 <= i < |ps| ==> IsInBounds(ps[i])
    ensures ValidSigil(EncodeAll(ps))
  {
    EncodedSteps(ps);
    EncodedLinesDistinct(ps);
  }

  /** And conversely: a Sigil's points, decoded, form a stroke that obeys the drawing rules. */
  lemma SigilIsDrawnPath(s: seq<bv8>)
    requires ValidSigil(s)
    ensures DrawnPath(DecodeAll(s)) && EncodeAll(DecodeAll(s)) == s
    ensures forall i :: 0 <= i < |s| ==> IsInBounds(DecodeAll(s)[i])
  {
    var ps := DecodeAll(s);
    EncodeDecodeAll(s);
    forall i | 0 <= i < |s|
      ensures IsInBounds(ps[i]) && Encoded(ps[i]) == s[i]
    {
      if i < |s| - 1 {
        assert GridStep(s[i], s[i + 1]);
      } else {
        assert GridStep(s[i - 1], s[i]);
      }
      GridDecodesInBounds(s[i]);
    }
    forall k | 0 <= k < |ps| - 1
      ensures StepAdjacent(ps, k)
    {
      assert GridStep(s[k], s[k + 1]);
      AdjacentOnGrid(ps[k], ps[k + 1]);
    }
    forall a, b | 0 <= a < b < |ps| - 1
      ensures !SameStepLine(ps, a, b)
    {
      assert LineAt(s, a) != LineAt(s, b);
      SameLineEncoded(ps[a], ps[a + 1], ps[b], ps[b + 1]);
    }
  }

  /**
   * A square `tick` can highlight: it clamps each coordinate to `0..GRID_SIZE` inclusive, so
   * the highlight may sit one square past the grid, and `maybeDrawLine` does not check bounds.
   */
  predicate Highlightable(p: SigilPoint)
  {
    0 <= p.x <= GRID_SIZE && 0 <= p.y <= GRID_SIZE
  }

  /** A highlightable square off the grid encodes to a byte off the grid. */
  lemma HighlightOffGrid(p: SigilPoint)
    requires Highlightable(p) && !IsInBounds(p)
    ensures !InGrid(Encoded(p))
  {
    EncodePointValue(p.x, p.y);
    NibbleValues(Encoded(p));
  }

  /**
   * A stroke of highlightable squares that obeys the drawing rules is accepted exactly when it
   * has at least two points and none of them lies on the clamped edge past the grid.
   */
  lemma DrawnStrokeAccepted(ps: seq<SigilPoint>)
    requires DrawnPath(ps)
    requires forall i :: 0 <= i < |ps| ==> Highlightable(ps[i])
    ensures ValidSigil(EncodeAll(ps)) <==>
      |ps| >= 2 && forall i :: 0 <= i < |ps| ==> IsInBounds(ps[i])
  {
    var s := EncodeAll(ps);
    if |ps| >= 2 && forall i :: 0 <= i < |ps| ==> IsInBounds(ps[i]) {
      DrawnPathIsSigil(ps);
    } else if |ps| >= 2 {
      var i :| 0 <= i < |ps| && !IsInBounds(ps[i]);
      HighlightOffGrid(ps[i]);
      if i < |ps| - 1 {
        assert !GridStep(s[i], s[i + 1]);
      } else {
        assert !GridStep(s[i - 1], s[i]);
      }
    }
  }

  // ---------------------------------------------------------------------------------------
  // The component and the transitions

  /** `SigilDrawComponent`. */
  class SigilDrawComponent {
    var open: bool
    var drawing: bool
    var initialRotation: Vector3f
    var gridDistance: real
    var lastCursorX: real
    var lastCursorY: real
    var highlighted: SigilPoint
    var points: PointList

    /** Every field holds the value the constructor gives it. */
    ghost predicate AtDefaults()
      reads this, initialRotation, points
    {
      !open && !drawing
      && initialRotation.x == 0.0 && initialRotation.y == 0.0 && initialRotation.z == 0.0
      && gridDistance == DEFAULT_GRID_DISTANCE
      && lastCursorX == DEFAULT_CURSOR_XY && lastCursorY == DEFAULT_CURSOR_XY
      && highlighted == ZERO && points.items == []
    }

    /**
     * The drawing state the transitions keep: no points while no stroke is in progress, at
     * least the starting point while one is, and the stroke well formed.
     */
    ghost predicate StrokeState()
      reads this, points
    {
      (!drawing ==> points.items == [])
      && (drawing ==> |points.items| >= 1)
      && DrawnPath(points.items)
    }

    /** `SigilDrawComponent()`. */
    constructor()
      ensures AtDefaults() && StrokeState()
      ensures fresh(initialRotation) && fresh(points)
    {
      open := false;
      drawing := false;
      initialRotation := new Vector3f(0.0, 0.0, 0.0);
      gridDistance := DEFAULT_GRID_DISTANCE;
      lastCursorX := DEFAULT_CURSOR_XY;
      lastCursorY := DEFAULT_CURSOR_XY;
      highlighted := ZERO;
      points := new PointList();
    }

    /** The private copy constructor: a new rotation vector and a new list with the same points. */
    constructor Copy(other: SigilDrawComponent)
      ensures open == other.open && drawing == other.drawing
      ensures gridDistance == other.gridDistance
      ensures lastCursorX == other.lastCursorX && lastCursorY == other.lastCursorY
      ensures highlighted == other.highlighted
      ensures fresh(initialRotation) && initialRotation.x == other.initialRotation.x
      ensures initialRotation.y == other.initialRotation.y && initialRotation.z == other.initialRotation.z
      ensures fresh(points) && points.items == other.points.items
    {
      var rotation := other.initialRotation.Clone();
      var list := new PointList.Copy(other.points);
      open := other.open;
      drawing := other.drawing;
      initialRotation := rotation;
      gridDistance := other.gridDistance;
      lastCursorX := other.lastCursorX;
      lastCursorY := other.lastCursorY;
      highlighted := other.highlighted;
      points := list;
    }

    /**
     * `reset()`: every field back to its default. The rotation vector and the points list
     * are the same objects as before, set to zero and cleared in place.
     */
    method Reset()
      modifies this, initialRotation, points
      ensures AtDefaults() && StrokeState()
      ensures initialRotation == old(initialRotation) && points == old(points)
    {
      open := false;
      drawing := false;
      initialRotation.Assign(0.0, 0.0, 0.0);
      gridDistance := DEFAULT_GRID_DISTANCE;
      lastCursorX := DEFAULT_CURSOR_XY;
      lastCursorY := DEFAULT_CURSOR_XY;
      highlighted := ZERO;
      points.Clear();
    }

    /**
     * `clone()`: a copy of every field that shares no mutable object with this component,
     * so changing either afterwards does not affect the other.
     */
    method Clone() returns (c: SigilDrawComponent)
      ensures fresh(c) && fresh(c.initialRotation) && fresh(c.points)
      ensures c.open == open && c.drawing == drawing && c.highlighted == highlighted
      ensures c.gridDistance == gridDistance && c.lastCursorX == lastCursorX && c.lastCursorY == lastCursorY
      ensures c.initialRotation.x == initialRotation.x && c.initialRotation.y == initialRotation.y
      ensures c.initialRotation.z == initialRotation.z
      ensures c.points.items == points.items
      ensures StrokeState() ==> c.StrokeState()
    {
      c := new SigilDrawComponent.Copy(this);
    }
  }

  /**
   * The loop of `maybeDrawLine`: whether some earlier visit of the last point `a` of the
   * list sits next to `h`, that is whether the line {a, h} was drawn already.
   */
  method ScanRetrace(list: PointList, a: SigilPoint, h: SigilPoint) returns (found: bool)
    ensures found <==> exists i :: RetraceAt(list.items, a, h, i)
  {
    var i := 0;
    while i < |list.items| - 1
      invariant 0 <= i
      invariant forall t :: 0 <= t < i ==> !RetraceAt(list.items, a, h, t)
    {
      if list.items[i] == a {
        if (i > 0 && list.items[i - 1] == h) || list.items[i + 1] == h {
          assert RetraceAt(list.items, a, h, i);
          return true;
        }
      }
      i := i + 1;
    }
    return false;
  }

  /** `SigilDrawSystem.maybeDrawLine`: makes `NextMove` and adds its line command to the builder. */
  method MaybeDrawLine(builder: Option<seq<HudCommand>>, draw: SigilDrawComponent)
    returns (r: Option<seq<HudCommand>>)
    modifies draw.points
    ensures var m := NextMove(old(draw.points.items), draw.drawing, draw.highlighted);
      draw.points.items == Moved(old(draw.points.items), m, draw.highlighted)
      && r == MoveCommands(builder, old(draw.points.items), m, draw.highlighted)
  {
    var list := draw.points;
    ghost var ps := list.items;
    ghost var m := NextMove(ps, draw.drawing, draw.highlighted);
    if !draw.drawing || |list.items| == 0 || |list.items| >= MAX_SIGIL_LENGTH {
      assert m == Stay;
      return builder;
    }
    var mostRecentPoint := list.items[|list.items| - 1];
    if !IsAdjacentTo(mostRecentPoint, draw.highlighted) {
      assert m == Stay;
      return builder;
    }
    var length := |list.items|;
    var drawNew := length == 1 || list.items[length - 2] != draw.highlighted;
    if drawNew {
      AdjacentIrreflexive(mostRecentPoint);
      var retraced := ScanRetrace(list, mostRecentPoint, draw.highlighted);
      RetraceMeansDrawn(ps, draw.highlighted);
      if retraced {
        assert m == Stay;
        return builder;
      }
      assert m == Extend;
      list.Add(draw.highlighted);
    } else {
      assert m == Backtrack;
      list.RemoveLast();
    }
    r := Some(Commands(builder) + [SetLine(mostRecentPoint, draw.highlighted, drawNew)]);
  }

  /**
   * `MaybeDrawLine` keeps the stroke well formed, so every stroke the drawing code builds
   * has adjacent steps, at most MAX_SIGIL_LENGTH points and no line drawn twice.
   */
  method MaybeDrawLineKeepsStroke(builder: Option<seq<HudCommand>>, draw: SigilDrawComponent)
    returns (r: Option<seq<HudCommand>>)
    requires draw.StrokeState()
    modifies draw.points
    ensures draw.StrokeState()
  {
    ghost var ps := draw.points.items;
    r := MaybeDrawLine(builder, draw);
    MoveKeepsPath(ps, draw.drawing, draw.highlighted);
  }

  /**
   * `BeginSigilDraw.run`: with a component whose HUD is open and no stroke in progress,
   * starts a stroke by appending the highlighted point (the list is not cleared first);
   * otherwise, or without a component, nothing changes.
   */
  method BeginSigilDraw(draw: SigilDrawComponent?)
    modifies if draw == null then {} else {draw, draw.points}
    ensures draw != null ==>
      && draw.points == old(draw.points) && draw.open == old(draw.open)
      && draw.highlighted == old(draw.highlighted) && draw.initialRotation == old(draw.initialRotation)
      && draw.gridDistance == old(draw.gridDistance)
      && draw.lastCursorX == old(draw.lastCursorX) && draw.lastCursorY == old(draw.lastCursorY)
    ensures draw != null && (old(draw.drawing) || !old(draw.open)) ==>
      draw.drawing == old(draw.drawing) && draw.points.items == old(draw.points.items)
    ensures draw != null && !old(draw.drawing) && old(draw.open) ==>
      draw.drawing && draw.points.items == old(draw.points.items) + [old(draw.highlighted)]
    ensures draw != null && old(draw.StrokeState()) ==> draw.StrokeState()
  {
    if draw == null || draw.drawing || !draw.open {
      return;
    }
    draw.points.Add(draw.highlighted);
    draw.drawing := true;
  }

  /** `SigilValidateSystem.Event`: holds the list it is given, not a copy. */
  class ValidateEvent {
    const points: PointList

    constructor(points: PointList)
      ensures this.points == points
    {
      this.points := points;
    }
  }

  /**
   * `EndSigilDraw.firstRunPlayer`: with a component whose HUD is open and a stroke in
   * progress, erases the drawn lines when there are any and a HUD is shown, raises a
   * validation event carrying the points list, then clears that list and ends the stroke.
   * Otherwise, or without a component, nothing happens.
   *
   * The event holds the component's own list, which is cleared before this returns: a
   * handler that reads the event after that sees no points.
   */
  method EndSigilDraw(draw: SigilDrawComponent?, hudPresent: bool)
    returns (commands: Option<seq<HudCommand>>, event: ValidateEvent?)
    modifies if draw == null then {} else {draw, draw.points}
    ensures draw == null || !old(draw.drawing) || !old(draw.open) ==> commands == None && event == null
    ensures draw != null && (!old(draw.drawing) || !old(draw.open)) ==>
      draw.drawing == old(draw.drawing) && draw.points.items == old(draw.points.items)
    ensures draw != null && old(draw.drawing) && old(draw.open) ==>
      && commands == (if |old(draw.points.items)| > 1 && hudPresent then Some([UnsetLines(old(draw.points.items))]) else None)
      && event != null && fresh(event) && event.points == draw.points
      && draw.points.items == [] && !draw.drawing
    ensures draw != null ==>
      && draw.points == old(draw.points) && draw.open == old(draw.open)
      && draw.highlighted == old(draw.highlighted) && draw.initialRotation == old(draw.initialRotation)
      && draw.gridDistance == old(draw.gridDistance)
      && draw.lastCursorX == old(draw.lastCursorX) && draw.lastCursorY == old(draw.lastCursorY)
    ensures draw != null && old(draw.StrokeState()) ==> draw.StrokeState()
  {
    commands, event := None, null;
    if draw == null || !draw.drawing || !draw.open {
      return;
    }
    if |draw.points.items| > 1 && hudPresent {
      commands := Some([UnsetLines(draw.points.items)]);
    }
    event := new ValidateEvent(draw.points);
    draw.points.Clear();
    draw.drawing := false;
  }
}
