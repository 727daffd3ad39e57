# Echoes from Beyond: a verified model of the Sigil logic, two utilities and the package-info build

This project models, in Dafny, four self-contained parts of the Echoes from Beyond game plug-ins and their Gradle build. It proves properties of each.

1. **Sigil canonicalisation.** A Sigil is a stroke drawn on a 4x4 grid: a sequence of points, each one byte.
   - `SigilValidation.canonicalize` checks an untrusted array of these points:
     - the length is 2 to 32;
     - every point is on the grid;
     - every step goes to one of the neighbouring points;
     - no line is drawn twice.
   - On a private copy, it then rotates a closed loop to start at its smallest point, turns an open path around, and reverses each inner loop that is out of order.
   - `SigilKey` stores the result. Both `ArrayUtil.reverse` variants and `Preconditions` support it.
   - Modules:
     - `SigilEncoding`: the byte encoding and its bit-level helpers.
     - `SigilGeometry`: what a Sigil is, as a multiset of undirected lines.
     - `SigilCanonical`: the canonical form as functions.
     - `SigilValidation`: the imperative `canonicalize`, stage by stage, over arrays.
     - `SigilKeys`: `SigilKey` and its serialisation proxy.
     - `SigilFigureKey`: the key that depends only on the figure.
     - `Reversal` and `ArrayUtil` / `CheckedArrayUtil`: the reversals.
     - `Preconditions`: the argument checks.
     - `JavaLang`: Java's `byte` and `int`, modelled bit-exactly.
2. **Drawing a Sigil.** This part covers:
   - the `SigilDrawComponent` state with its constructor, copy constructor, `reset` and `clone`;
   - `BeginSigilDraw` and `EndSigilDraw`;
   - `SigilDrawSystem.maybeDrawLine`, which extends the stroke, steps back one point, or refuses to draw a line twice.

   These live in `SigilDraw`. `SigilPoints` models the `SigilPoint` records and their array encoding. `SigilPointCodec` models the `"x, y"` string codec of the assets.

   The central results are `DrawnPathIsSigil`, `SigilIsDrawnPath` and `DrawnStrokeAccepted`:
   - every stroke of at least two grid points that the drawing rules allow encodes to a Sigil that `canonicalize` accepts;
   - conversely, every such Sigil can be drawn;
   - `tick` clamps the highlighted square to `0..GRID_SIZE` inclusive and `maybeDrawLine` does not check bounds, so a stroke can reach one square past the grid; such a stroke, or one of a single point, is rejected.
3. **Utilities.**
   - `HashClassHierarchyMap` (`ClassHierarchyMaps`) is given the class hierarchy as two functions: `inheritanceDistance` and `traverseHierarchy`.
   - `Once` (`OnceCell`) is a sequential model of the lazy-initialisation state machine.
4. **The package-info generator.** It has a tree task and an info task, each in two implementations:
   - the `Task` variant: the buildSrc classes `GeneratePackageTree`, `GeneratePackageInfo` and `GeneratePackageInfoWorkAction`;
   - the `Script` variant: the inline tasks of `build.gradle.kts`.

   Modules:
   - `FileTrees`: a directory is a map from relative paths to files and directories.
   - `PackageNames`: the packages file and `readPackagesFile`, with `toSortedSet` and `String.compareTo`.
   - `PackageTree`: the tree task.
   - `PackageInfoTask`: the clean-up walk, the write-avoiding work action and the whole info task.

   The SHA-1 digest and the UTF-8 encoder are parameters of the model.

Where the code and its documentation disagree, the model follows the code:
- A stale package-info.java in a directory that is only an ancestor of active packages survives the clean-up (`StalePackageInfoKept`).
- `canonicalize` does not give every drawing of a figure the same key (finding 2 below).

## Model

| member | source | states |
|---|---|---|
| Reversal.ReversedReversed | util/src/main/java/org/echoesfrombeyond/util/array/ArrayUtil.java:52-60 | reversing a sequence twice gives it back |
| Reversal.ReversedMultiset | util/src/main/java/org/echoesfrombeyond/util/array/ArrayUtil.java:52-60 | reversal keeps every element with its multiplicity |
| Reversal.ReverseRangeTwice | util/src/main/java/org/echoesfrombeyond/util/array/ArrayUtil.java:44-61 | reversing the same range twice restores the array |
| Reversal.ReverseRangeMultiset | util/src/main/java/org/echoesfrombeyond/util/array/ArrayUtil.java:44-61 | a range reversal only permutes the array |
| Reversal.ReverseRangeWhole | util/src/main/java/org/echoesfrombeyond/util/array/ArrayUtil.java:44-61 | reversing the range 0..length is plain reversal |
| Reversal.ReverseShortRange | util/src/main/java/org/echoesfrombeyond/util/array/ArrayUtil.java:52 | a range of fewer than two elements is left as it is (`count / 2` is 0) |
| ArrayUtil.SwappedAt | src/main/java/org/echoesfrombeyond/util/ArrayUtil.java:35-43 | after i swap steps the outer i elements at each end of the range are mirrored and the rest are untouched |
| ArrayUtil.SwappedReversed | src/main/java/org/echoesfrombeyond/util/ArrayUtil.java:35-43 | `count / 2` swap steps reverse the range; a middle element stays put |
| ArrayUtil.Reverse | src/main/java/org/echoesfrombeyond/util/ArrayUtil.java:32-44 | the unchecked reverse leaves the array as the range reversal of its old contents |
| CheckedArrayUtil.Reverse | util/src/main/java/org/echoesfrombeyond/util/array/ArrayUtil.java:43-61 | a null array throws NullPointerException; otherwise the result is that of `Check.inBounds`, a failed check leaves the array unchanged, and a passed one reverses exactly the range |
| Preconditions.CheckInRangeExact | util/src/main/java/org/echoesfrombeyond/util/Preconditions.java:40-49 | the range check passes exactly when the index is inside the array and `index + len` stays in 0..length without 32-bit wrap; an index outside the array is reported as ArrayIndexOutOfBounds before the length is looked at |
| Preconditions.NonNull | util/src/main/java/org/echoesfrombeyond/util/Preconditions.java:59-63 | null throws NullPointerException; anything else is returned unchanged |
| Preconditions.InBoundsOutcome | util/src/main/java/org/echoesfrombeyond/util/Preconditions.java:78-84 | a null array throws NullPointerException; otherwise `inBounds` passes exactly for an in-range subsequence |
| Preconditions.CheckInRangeExamples | util/src/test/java/org/echoesfrombeyond/util/CheckTest.java:26-61 | the library's own range-check cases: empty range, empty array, full length, one past it, large and small negative lengths |
| Preconditions.CheckInRange | util/src/main/java/org/echoesfrombeyond/util/Preconditions.java:40-49 | `checkInRange`: an index outside the array fails with ArrayIndexOutOfBounds, then an end `index + len` that wraps below the index or passes the array's end fails with IllegalArgument; `CheckInRangeExact` states exactly when it passes |
| Preconditions.InBounds | util/src/main/java/org/echoesfrombeyond/util/Preconditions.java:78-84 | `inBounds`: the null check, then the range check against the array's length; `InBoundsOutcome` states what it accepts and how each failure is reported |
| SigilEncoding.UnpackXValue | main/src/main/java/org/echoesfrombeyond/sigil/SigilValidation.java:63-65 | `unpackX` is the signed byte divided by 16 rounded down, in -8..7 |
| SigilEncoding.UnpackYValue | main/src/main/java/org/echoesfrombeyond/sigil/SigilValidation.java:67-69 | `unpackY` is the low nibble, in 0..15 |
| SigilEncoding.UnpackInGrid | main/src/main/java/org/echoesfrombeyond/sigil/SigilValidation.java:63-69 | on a grid point the unpacked coordinates are its column and row |
| SigilEncoding.GridCheckAsWritten | main/src/main/java/org/echoesfrombeyond/sigil/SigilValidation.java:59-61 | the check as written accepts exactly the grid points plus the bytes with the top bit set whose row is on the grid |
| SigilEncoding.GridCheckUnsigned | main/src/main/java/org/echoesfrombeyond/sigil/SigilValidation.java:59-61 | the check with an unsigned column read accepts exactly the grid points |
| SigilEncoding.CompactKeyInGrid | main/src/main/java/org/echoesfrombeyond/sigil/SigilValidation.java:48-57 | on the grid the key is 4x + y, below TABLE_SIZE |
| SigilEncoding.CompactKeyInjective | main/src/main/java/org/echoesfrombeyond/sigil/SigilValidation.java:48-57 | distinct grid points have distinct keys (a perfect hash) |
| SigilEncoding.CompactKeyHighBit | main/src/main/java/org/echoesfrombeyond/sigil/SigilValidation.java:48-57 | a byte with the top bit set has a key of at least 32, past the end of the 16-entry table |
| SigilEncoding.EncodePointValue | main/src/main/java/org/echoesfrombeyond/sigil/SigilValidation.java:364-366 | `encodePoint(x, y)` is the byte 16 * (x mod 16) + (y mod 16), for every int x and y |
| SigilEncoding.UnpackEncodePoint | main/src/main/java/org/echoesfrombeyond/sigil/SigilValidation.java:364-366 | unpacking gives back (x, y) exactly when x is in -8..7 and y in 0..15 |
| SigilEncoding.EncodePointOfUnpacked | main/src/main/java/org/echoesfrombeyond/sigil/SigilValidation.java:364-366 | every byte is the encoding of its own unpacked coordinates |
| SigilEncoding.EncodePointInGrid | main/src/main/java/org/echoesfrombeyond/sigil/SigilValidation.java:364-366 | a coordinate pair on the grid encodes to the grid point with that column and row |
| SigilEncoding.UnpackX | main/src/main/java/org/echoesfrombeyond/sigil/SigilValidation.java:63-65 | `unpackX` as written: the byte sign-extended to an int, masked with 0xF0, shifted right without sign and cast back to a byte; its value is stated by `UnpackXValue` |
| SigilEncoding.UnpackY | main/src/main/java/org/echoesfrombeyond/sigil/SigilValidation.java:67-69 | `unpackY`: the low nibble of the byte; its value is stated by `UnpackYValue` |
| SigilEncoding.PointOutsideGrid | main/src/main/java/org/echoesfrombeyond/sigil/SigilValidation.java:59-61 | `pointOutsideGrid` with the signed comparisons of the Java code; `GridCheckAsWritten` states exactly which bytes it lets through |
| SigilEncoding.CompactKey | main/src/main/java/org/echoesfrombeyond/sigil/SigilValidation.java:48-57 | `compactKey` on the unsigned byte: the column shifted into bits 2-3, or-ed with the row; `CompactKeyInGrid`, `CompactKeyInjective` and `CompactKeyHighBit` state its values |
| SigilEncoding.EncodePoint | main/src/main/java/org/echoesfrombeyond/sigil/SigilValidation.java:364-366 | `encodePoint`: each coordinate truncated to its low 8 bits, the column shifted into the high nibble and masked, or-ed with the masked row; `EncodePointValue` gives its value for every int pair |
| SigilGeometry.LineOf | main/src/main/java/org/echoesfrombeyond/sigil/SigilValidation.java:88-90 | a line has its endpoints in unsigned order and joins exactly the two given points, so it is undirected |
| SigilGeometry.GridStepsByLines | main/src/main/java/org/echoesfrombeyond/sigil/SigilValidation.java:84-92 | every step is a grid step exactly when every line of the drawn figure joins two neighbouring grid points |
| SigilGeometry.ValidSigilByLines | main/src/main/java/org/echoesfrombeyond/sigil/SigilValidation.java:84-92 | the documented invariants hold exactly when the length is 2..32, every line of the figure is a grid step, and no line occurs twice |
| SigilGeometry.SameFigureSameValidity | main/src/main/java/org/echoesfrombeyond/sigil/SigilValidation.java:96-97 | two paths of one length that draw the same figure are valid or invalid together |
| SigilGeometry.LineSeqJoin | main/src/main/java/org/echoesfrombeyond/sigil/SigilValidation.java:173-195 | two paths that meet at a point draw, joined, the lines of both in order |
| SigilGeometry.LineSeqReversed | main/src/main/java/org/echoesfrombeyond/sigil/SigilValidation.java:139-140 | a reversed path draws the same lines in the opposite order, so the figure is kept |
| SigilGeometry.LinesReverseInnerLoop | main/src/main/java/org/echoesfrombeyond/sigil/SigilValidation.java:334-335 | reversing the part strictly between two visits of one point keeps the figure |
| SigilGeometry.ValidSigilByChecks | main/src/main/java/org/echoesfrombeyond/sigil/SigilValidation.java:84-92 | the step-by-step checks of each step and of each pair of lines establish validity |
| SigilGeometry.StartLoopAt | main/src/main/java/org/echoesfrombeyond/sigil/SigilValidation.java:133-134 | a closed loop started at another point has the same length, is closed and begins with that point |
| SigilGeometry.LineSeqStartLoopAt | main/src/main/java/org/echoesfrombeyond/sigil/SigilValidation.java:173-195 | a loop started elsewhere draws the same lines, rotated |
| SigilGeometry.LinesStartLoopAt | main/src/main/java/org/echoesfrombeyond/sigil/SigilValidation.java:187-195 | starting a closed loop at another point keeps the figure |
| SigilGeometry.StartLoopAtIndex | main/src/main/java/org/echoesfrombeyond/sigil/SigilValidation.java:196-211 | the t-th point of a loop started at k is its point k + t places round from the start |
| SigilGeometry.RotationUnique | main/src/main/java/org/echoesfrombeyond/sigil/SigilValidation.java:196-211 | a rotation of a loop is determined by its start index |
| SigilGeometry.StartLoopAtTwice | main/src/main/java/org/echoesfrombeyond/sigil/SigilValidation.java:133-134 | starting a loop at k and then at j is starting it at k + j, counted round |
| SigilCanonical.FirstMinOf | main/src/main/java/org/echoesfrombeyond/sigil/SigilValidation.java:148-155 | the forward scan over the first n points finds a position whose point is no larger (unsigned) than any of them and strictly smaller than every point before it |
| SigilCanonical.FirstMinIndex | main/src/main/java/org/echoesfrombeyond/sigil/SigilValidation.java:142-155 | the position found is that of the first occurrence of the smallest point, in unsigned byte order |
| SigilCanonical.RankLess | main/src/main/java/org/echoesfrombeyond/sigil/SigilValidation.java:331 | of two paths of one length, the one that is smaller (unsigned) at the first difference has the smaller rank |
| SigilCanonical.RankInjective | main/src/main/java/org/echoesfrombeyond/sigil/SigilValidation.java:320-347 | two paths of one length with the same rank are the same path |
| SigilCanonical.FindLoop | main/src/main/java/org/echoesfrombeyond/sigil/SigilValidation.java:328-332 | the backward search from j finds the nearest earlier visit of the point at i whose inner loop is out of order, or -1, and no closer visit is out of order |
| SigilCanonical.ReverseInnerAt | main/src/main/java/org/echoesfrombeyond/sigil/SigilValidation.java:335 | after reversing the loop between j and i, the point at k is the one at i + j - k inside the loop and unchanged outside it |
| SigilCanonical.ReverseLoopSmaller | main/src/main/java/org/echoesfrombeyond/sigil/SigilValidation.java:334-345 | reversing an out-of-order inner loop makes the path strictly smaller, so the pass terminates even though it resets `i` |
| SigilCanonical.PassStepProgress | main/src/main/java/org/echoesfrombeyond/sigil/SigilValidation.java:320-347 | each step of the scan either makes the path strictly smaller (a reversal) or moves on to the next index unchanged |
| SigilCanonical.SettledStep | main/src/main/java/org/echoesfrombeyond/sigil/SigilValidation.java:320-332 | when no out-of-order loop closes at i, every loop closed up to i is in order |
| SigilCanonical.SettledAfterReverse | main/src/main/java/org/echoesfrombeyond/sigil/SigilValidation.java:337-345 | after a reversal every loop closed before j + 1 is still in order, which is why the scan resumes at j + 1 |
| SigilCanonical.ReverseLoopKeeps | main/src/main/java/org/echoesfrombeyond/sigil/SigilValidation.java:334-335 | one reversal keeps the length, the endpoints, the points and the figure |
| SigilCanonical.InnerPassReverses | main/src/main/java/org/echoesfrombeyond/sigil/SigilValidation.java:331-345 | a step that finds an out-of-order loop reverses it and resumes after j |
| SigilCanonical.InnerPassSkips | main/src/main/java/org/echoesfrombeyond/sigil/SigilValidation.java:320-332 | a step that finds no out-of-order loop moves on to i + 1 |
| SigilCanonical.InnerPassFigure | main/src/main/java/org/echoesfrombeyond/sigil/SigilValidation.java:320-347 | the whole pass keeps the length, the endpoints, the points and the figure |
| SigilCanonical.InnerPassSettles | main/src/main/java/org/echoesfrombeyond/sigil/SigilValidation.java:320-347 | after the pass every loop of the path is in order |
| SigilCanonical.InnerPassOfSettled | main/src/main/java/org/echoesfrombeyond/sigil/SigilValidation.java:320-347 | a path whose loops are all in order goes through the pass unchanged |
| SigilCanonical.FirstMinOfClosed | main/src/main/java/org/echoesfrombeyond/sigil/SigilValidation.java:157-160 | in a closed loop the smallest point first occurs before the last position |
| SigilCanonical.OrientClosed | main/src/main/java/org/echoesfrombeyond/sigil/SigilValidation.java:196-211 | the rotation step yields the loop started at its first smallest point; with the smallest already first it changes nothing |
| SigilCanonical.OrientClosedShape | main/src/main/java/org/echoesfrombeyond/sigil/SigilValidation.java:141-211 | a closed loop stays closed, keeps its length, figure and points, and starts at its smallest point |
| SigilCanonical.OrientOpen | main/src/main/java/org/echoesfrombeyond/sigil/SigilValidation.java:212 | an open path is kept when its first point is smaller (unsigned) than its last and reversed when it is larger |
| SigilCanonical.ReversedShape | main/src/main/java/org/echoesfrombeyond/sigil/SigilValidation.java:139-140 | reversal keeps the figure and the points and swaps the endpoints |
| SigilCanonical.OrientOpenShape | main/src/main/java/org/echoesfrombeyond/sigil/SigilValidation.java:212 | an open path keeps its length, figure, points and endpoints, with the smaller endpoint first |
| SigilCanonical.OrientShape | main/src/main/java/org/echoesfrombeyond/sigil/SigilValidation.java:133-212 | orientation keeps length and figure; a loop stays closed and starts at its smallest point; an open path ends with its smaller endpoint first |
| SigilCanonical.CanonShape | main/src/main/java/org/echoesfrombeyond/sigil/SigilValidation.java:108-350 | a valid Sigil is accepted, and its canonical form is a valid Sigil of the same length and figure, passes `isCanonical`, and keeps the oriented endpoints and points |
| SigilCanonical.CanonRejects | main/src/main/java/org/echoesfrombeyond/sigil/SigilValidation.java:105-111 | the result is empty exactly when the input breaks one of the documented invariants |
| SigilCanonical.CanonOpenEnds | main/src/main/java/org/echoesfrombeyond/sigil/SigilValidation.java:136-137 | an open path comes out with its smaller endpoint first and keeps both endpoints |
| SigilCanonical.CanonClosedStart | main/src/main/java/org/echoesfrombeyond/sigil/SigilValidation.java:133-134 | a closed loop comes out closed and starting at its smallest point |
| SigilCanonical.CanonStartsAtMin | main/src/main/java/org/echoesfrombeyond/sigil/SigilValidation.java:141-211 | the canonical form of a closed loop starts at a point no larger than any of its points |
| SigilCanonical.OrientOfCanon | main/src/main/java/org/echoesfrombeyond/sigil/SigilValidation.java:141-212 | a canonical form is already oriented |
| SigilCanonical.CanonOfCanonical | main/src/main/java/org/echoesfrombeyond/sigil/SigilValidation.java:108-350 | a valid, oriented path whose loops are all in order is its own canonical form |
| SigilCanonical.CanonIdempotent | main/src/main/java/org/echoesfrombeyond/sigil/SigilKey.java:47-58 | canonicalising a canonical form gives it back, so a key read back through its proxy equals the key written |
| SigilCanonical.OrientReversedOpen | main/src/main/java/org/echoesfrombeyond/sigil/SigilValidation.java:212 | an open path and its reversal are oriented alike |
| SigilCanonical.CanonReversedOpen | main/src/main/java/org/echoesfrombeyond/sigil/SigilValidation.java:96-97 | an open path and its reversal have the same canonical form |
| SigilCanonical.CanonRotation | main/src/main/java/org/echoesfrombeyond/sigil/SigilValidation.java:96-97 | when the smallest point is visited once, every starting point of a closed loop gives the same canonical form |
| SigilCanonical.CanonOfChecked | main/src/main/java/org/echoesfrombeyond/sigil/SigilValidation.java:108-350 | a path that passes the step-by-step checks and is in canonical form is its own key |
| SigilCanonical.ThriceCanonical | main/src/main/java/org/echoesfrombeyond/sigil/SigilValidation.java:108-350 | the loop THRICE is its own canonical form |
| SigilCanonical.ThriceFrom3Canonical | main/src/main/java/org/echoesfrombeyond/sigil/SigilValidation.java:108-350 | the same loop started at its second visit of (0,1) is its own canonical form too |
| SigilCanonical.RotationChangesCanon | main/src/main/java/org/echoesfrombeyond/sigil/SigilValidation.java:96-97 | two starts of one closed loop that draw the same figure get different keys |
| SigilCanonical.Orient | main/src/main/java/org/echoesfrombeyond/sigil/SigilValidation.java:130-212 | the orientation step as a function: a closed loop restarted at the first occurrence of its smallest point, an open path reversed when its first point is larger than its last; `OrientShape` states what it keeps and establishes |
| SigilCanonical.InnerPass | main/src/main/java/org/echoesfrombeyond/sigil/SigilValidation.java:320-347 | the inner-loop pass from index i, reversing each out-of-order loop and resuming after it; `InnerPassFigure`, `InnerPassSettles` and `InnerPassOfSettled` state what it keeps, what it establishes and that an ordered path is its own pass |
| SigilCanonical.IsCanonical | main/src/main/java/org/echoesfrombeyond/sigil/SigilKey.java:93-112 | what `isCanonical` checks: at least two points and every loop closed at distance three or more in unsigned order; `SigilKeys.SigilKey.IsCanonical` is proved to compute it |
| SigilCanonical.Canon | main/src/main/java/org/echoesfrombeyond/sigil/SigilValidation.java:108-350 | the canonical form of a valid Sigil, and none for anything else; `CanonShape`, `CanonRejects` and `CanonIdempotent` state what it accepts, what it returns and that it is a projection |
| SigilFigureKey.LeastBelow | main/src/main/java/org/echoesfrombeyond/sigil/SigilValidation.java:94-97 | every figure that has a valid drawing has a least-ranked one |
| SigilFigureKey.LeastUnique | main/src/main/java/org/echoesfrombeyond/sigil/SigilValidation.java:94-97 | the least-ranked drawing of a figure is unique |
| SigilFigureKey.FigureKey | main/src/main/java/org/echoesfrombeyond/sigil/SigilValidation.java:94-97 | the intended key exists exactly for valid Sigils and is the least-ranked valid drawing of the same lines |
| SigilFigureKey.FigureKeyDraws | main/src/main/java/org/echoesfrombeyond/sigil/SigilValidation.java:94-97 | the key is a valid Sigil of the same length drawing the same lines |
| SigilFigureKey.FigureKeyLeast | main/src/main/java/org/echoesfrombeyond/sigil/SigilValidation.java:94-97 | no drawing of the figure ranks below the key, and only the key ranks the same |
| SigilFigureKey.FigureKeySameFigure | main/src/main/java/org/echoesfrombeyond/sigil/SigilValidation.java:96-97 | two valid Sigils share a key exactly when they draw the same lines |
| SigilFigureKey.FigureKeyRotation | main/src/main/java/org/echoesfrombeyond/sigil/SigilValidation.java:133-134 | a closed loop started at any of its points has the key of the original |
| SigilFigureKey.FigureKeyReversal | main/src/main/java/org/echoesfrombeyond/sigil/SigilValidation.java:139-140 | a path walked backwards has the key of the original |
| SigilFigureKey.FigureKeyIdempotent | main/src/main/java/org/echoesfrombeyond/sigil/SigilKey.java:47-58 | the key is its own key |
| SigilFigureKey.FigureKeyOfCanon | main/src/main/java/org/echoesfrombeyond/sigil/SigilValidation.java:108-350 | the output of `canonicalize` draws the figure, so it has the same intended key and never ranks below it |
| SigilKeys.HashIsPolynomial | main/src/main/java/org/echoesfrombeyond/sigil/SigilKey.java:78-81 | the wrapped step-by-step hash is the 32-bit reduction of the exact polynomial, so it depends on the contents alone |
| SigilKeys.LexCompareZero | main/src/main/java/org/echoesfrombeyond/sigil/SigilKey.java:148-151 | the comparison is zero exactly on equal contents |
| SigilKeys.LexCompareAntisymmetric | main/src/main/java/org/echoesfrombeyond/sigil/SigilKey.java:148-151 | swapping the operands negates the result |
| SigilKeys.LexComparePrefix | main/src/main/java/org/echoesfrombeyond/sigil/SigilKey.java:148-151 | a proper prefix comes first |
| SigilKeys.LexCompareTransitive | main/src/main/java/org/echoesfrombeyond/sigil/SigilKey.java:148-151 | the order is transitive |
| SigilKeys.LexCompareFrom | main/src/main/java/org/echoesfrombeyond/sigil/SigilKey.java:148-151 | dropping a common prefix does not change the comparison |
| SigilKeys.LexCompareMismatch | main/src/main/java/org/echoesfrombeyond/sigil/SigilKey.java:148-151 | the result is the signed difference at the first differing position, or the difference of the lengths when one is a prefix |
| SigilKeys.SigilKey.constructor | main/src/main/java/org/echoesfrombeyond/sigil/SigilKey.java:78-81 | the key keeps the given array itself and stores its `Arrays.hashCode` |
| SigilKeys.SigilKey.HashCode | main/src/main/java/org/echoesfrombeyond/sigil/SigilKey.java:138-141 | the stored hash is the content hash of the points |
| SigilKeys.SigilKey.Equals | main/src/main/java/org/echoesfrombeyond/sigil/SigilKey.java:143-146 | true exactly for another key with element-wise equal points; false for null |
| SigilKeys.SigilKey.CompareTo | main/src/main/java/org/echoesfrombeyond/sigil/SigilKey.java:148-151 | a null argument throws NullPointerException; otherwise the result is the lexicographic signed-byte comparison of the two arrays |
| SigilKeys.SigilKey.IsCanonical | main/src/main/java/org/echoesfrombeyond/sigil/SigilKey.java:93-112 | true exactly when there are at least two points and every loop closed at distance three or more has its inner part in unsigned order |
| SigilKeys.HashOf | main/src/main/java/org/echoesfrombeyond/sigil/SigilKey.java:80 | `Arrays.hashCode` of the points: the 31-polynomial over the signed bytes with 32-bit wrap-around, starting from 1; `HashIsPolynomial` states it as the exact polynomial reduced to 32 bits |
| SigilKeys.LexCompare | main/src/main/java/org/echoesfrombeyond/sigil/SigilKey.java:150 | `Arrays.compare` of two byte arrays: the signed difference at the first differing position, or the difference of the lengths; `LexCompareZero`, `LexCompareAntisymmetric` and `LexCompareTransitive` state that it is a total order |
| SigilValidation.AbsOfByteDifference | main/src/main/java/org/echoesfrombeyond/sigil/SigilValidation.java:126-127 | `Math.abs` of the difference of two promoted bytes is the plain absolute value: it cannot overflow |
| SigilValidation.StepOnGrid | main/src/main/java/org/echoesfrombeyond/sigil/SigilValidation.java:120-128 | between grid points the step check accepts exactly the steps to a distinct neighbouring point |
| SigilValidation.CheckedPoint | main/src/main/java/org/echoesfrombeyond/sigil/SigilValidation.java:115-128 | a point that survives the early checks is on the grid, or, with the check as written, has its top bit set |
| SigilValidation.CheckedOnGrid | main/src/main/java/org/echoesfrombeyond/sigil/SigilValidation.java:115-128 | without a key past the table, a path that passes the checks lies on the grid and takes only grid steps |
| SigilValidation.GridStepsChecked | main/src/main/java/org/echoesfrombeyond/sigil/SigilValidation.java:111-128 | a path of grid steps of acceptable length passes the checks, lies on the grid and fits the table, whichever grid check is used |
| SigilValidation.SamePointsSameKeys | main/src/main/java/org/echoesfrombeyond/sigil/SigilValidation.java:232-235 | two paths with the same points agree on lying on the grid and on overflowing the table |
| SigilValidation.NeighbourKeysMeaning | main/src/main/java/org/echoesfrombeyond/sigil/SigilValidation.java:277-305 | on grid points the collected neighbour keys number `expected` exactly when the neighbouring points are pairwise distinct |
| SigilValidation.RedrawnFailsCheck | main/src/main/java/org/echoesfrombeyond/sigil/SigilValidation.java:237-307 | two steps that draw one line make a pair of visits whose neighbour check fails |
| SigilValidation.FailedCheckRedrawn | main/src/main/java/org/echoesfrombeyond/sigil/SigilValidation.java:237-307 | a failed neighbour check on two visits of one point means some line is drawn twice |
| SigilValidation.RedrawCheckMeaning | main/src/main/java/org/echoesfrombeyond/sigil/SigilValidation.java:237-307 | on a path of grid steps the check passes exactly when no line is redrawn |
| SigilValidation.KeyIndicesSpec | main/src/main/java/org/echoesfrombeyond/sigil/SigilValidation.java:230-235 | a table entry lists, in increasing order, every position whose point has that key and no other |
| SigilValidation.CountMultiplicity | main/src/main/java/org/echoesfrombeyond/sigil/SigilValidation.java:249 | the count of a point is its multiplicity (`Integer.bitCount` of the entry) |
| SigilValidation.KeyIndicesCount | main/src/main/java/org/echoesfrombeyond/sigil/SigilValidation.java:230-235 | on the grid, a point's entry holds as many positions as the point has visits |
| SigilValidation.SkipSound | main/src/main/java/org/echoesfrombeyond/sigil/SigilValidation.java:323-325 | when the table lists a point at most once, no loop closes at it, although the pass has moved points since the table was filled |
| SigilValidation.EntryCheckedMeaning | main/src/main/java/org/echoesfrombeyond/sigil/SigilValidation.java:240-307 | on the grid, checking one entry checks exactly the pairs of visits of the point with that key |
| SigilValidation.EntryCheckedPair | main/src/main/java/org/echoesfrombeyond/sigil/SigilValidation.java:249-306 | a checked entry covers each pair of positions with its key |
| SigilValidation.EntryUncheckedPair | main/src/main/java/org/echoesfrombeyond/sigil/SigilValidation.java:249-306 | on the grid, an entry that fails its check names a pair of visits of one point with equal neighbours |
| SigilValidation.RedrawCheckByEntries | main/src/main/java/org/echoesfrombeyond/sigil/SigilValidation.java:240-308 | on the grid the check passes exactly when every one of the 16 entries passes |
| SigilValidation.ValidPassesChecks | main/src/main/java/org/echoesfrombeyond/sigil/SigilValidation.java:111-128 | every valid Sigil passes the early checks and fits the table, whichever grid check is used |
| SigilValidation.OutcomeUnsigned | main/src/main/java/org/echoesfrombeyond/sigil/SigilValidation.java:108-350 | with the unsigned grid check the method never throws and returns the canonical form |
| SigilValidation.OutcomeAsWritten | main/src/main/java/org/echoesfrombeyond/sigil/SigilValidation.java:108-350 | as written, the method returns the canonical form except for inputs that pass the checks with a top-bit byte, which throw ArrayIndexOutOfBounds |
| SigilValidation.HighBitSigilThrows | main/src/main/java/org/echoesfrombeyond/sigil/SigilValidation.java:59-65 | bytes 0x80, 0x90 are no Sigil, yet pass every check as written and then throw; the unsigned check rejects them |
| SigilValidation.CopyIntoAt | main/src/main/java/org/echoesfrombeyond/sigil/SigilValidation.java:200-207 | after an `arraycopy` the target range holds the source elements and the rest of the destination is unchanged |
| SigilValidation.ArrayCopy | main/src/main/java/org/echoesfrombeyond/sigil/SigilValidation.java:200-207 | `System.arraycopy` leaves the destination as if copied via a buffer, even when source and destination are the same array |
| SigilValidation.CopyOf | main/src/main/java/org/echoesfrombeyond/sigil/SigilValidation.java:113 | the copy is a new array with the same contents, so the caller's array is never written |
| SigilValidation.StepsAcceptedAll | main/src/main/java/org/echoesfrombeyond/sigil/SigilValidation.java:120-128 | the step loop accepts up to n exactly when no step below n is rejected |
| SigilValidation.CheckSteps | main/src/main/java/org/echoesfrombeyond/sigil/SigilValidation.java:115-128 | the early checks answer true exactly when the first point is on the grid and no step is rejected |
| SigilValidation.SmallestScanSoFar | main/src/main/java/org/echoesfrombeyond/sigil/SigilValidation.java:142-155 | the scan holds -1 only while every sampled point is 0xFF, and afterwards the first smallest sampled point and its position |
| SigilValidation.SmallestScanFinds | main/src/main/java/org/echoesfrombeyond/sigil/SigilValidation.java:157-160 | with two distinct first points the scan ends on the first position of the smallest point, so the assertion holds |
| SigilValidation.FindSmallest | main/src/main/java/org/echoesfrombeyond/sigil/SigilValidation.java:142-160 | the loop returns the first position of the smallest point (unsigned) and that point |
| SigilValidation.RestartCopiesAt | main/src/main/java/org/echoesfrombeyond/sigil/SigilValidation.java:196-211 | after the three copies and the final store, the point at t is the loop's point m + t places round |
| SigilValidation.RestartByCopies | main/src/main/java/org/echoesfrombeyond/sigil/SigilValidation.java:196-211 | the three copies and the final store restart the closed loop at m |
| SigilValidation.RestartLoop | main/src/main/java/org/echoesfrombeyond/sigil/SigilValidation.java:196-211 | the array becomes the loop restarted at the smallest point's position |
| SigilValidation.OrientInPlace | main/src/main/java/org/echoesfrombeyond/sigil/SigilValidation.java:130-212 | the array becomes the oriented path: restarted at its smallest point when closed, reversed when open and starting at its larger end |
| SigilValidation.FillDuplicates | main/src/main/java/org/echoesfrombeyond/sigil/SigilValidation.java:230-235 | a key past the table throws ArrayIndexOutOfBounds; otherwise each of the 16 entries lists the positions of its key |
| SigilValidation.CheckPair | main/src/main/java/org/echoesfrombeyond/sigil/SigilValidation.java:263-306 | one pass of the `do` loop succeeds exactly when the neighbours of the two visits are pairwise distinct |
| SigilValidation.CheckEntry | main/src/main/java/org/echoesfrombeyond/sigil/SigilValidation.java:249-307 | the nested loops over one entry succeed exactly when every pair of its positions passes |
| SigilValidation.CheckRedrawn | main/src/main/java/org/echoesfrombeyond/sigil/SigilValidation.java:240-308 | the check over the table succeeds exactly when every pair of visits of a point has distinct neighbours |
| SigilValidation.PassStepTaken | main/src/main/java/org/echoesfrombeyond/sigil/SigilValidation.java:320-347 | one iteration keeps the points, and a reversal lowers the rank and resumes the pass at j + 1 |
| SigilValidation.FindAndReverse | main/src/main/java/org/echoesfrombeyond/sigil/SigilValidation.java:328-346 | the backward search finds the nearest out-of-order loop closed at i and reverses it, or changes nothing |
| SigilValidation.KeyInTable | main/src/main/java/org/echoesfrombeyond/sigil/SigilValidation.java:325 | a point of a rearranged grid path has its key inside the table |
| SigilValidation.SkipFromTable | main/src/main/java/org/echoesfrombeyond/sigil/SigilValidation.java:325 | skipping a point listed at most once does not change the pass |
| SigilValidation.InnerLoopPass | main/src/main/java/org/echoesfrombeyond/sigil/SigilValidation.java:320-347 | the loop from index 3, with its skip, leaves the array as the inner-loop pass of its old contents |
| SigilValidation.ChecksPrepareCanon | main/src/main/java/org/echoesfrombeyond/sigil/SigilValidation.java:111-235 | after the checks pass, the oriented path overflows the table exactly when the input does; otherwise it lies on the grid and the redrawn check accepts it exactly when the input is valid |
| SigilValidation.CanonicalizeWith | main/src/main/java/org/echoesfrombeyond/sigil/SigilValidation.java:108-350 | a null array throws; otherwise the result is the outcome: the exception, empty, or a fresh key over a private copy holding the canonical form |
| SigilValidation.Canonicalize | main/src/main/java/org/echoesfrombeyond/sigil/SigilValidation.java:108-350 | as written: null throws; an input passing the checks with a top-bit byte throws ArrayIndexOutOfBounds; every other non-Sigil gives empty; a valid Sigil gives a key holding its canonical form |
| SigilValidation.CanonicalizeUnsigned | main/src/main/java/org/echoesfrombeyond/sigil/SigilValidation.java:59-61 | with the corrected grid check the method never throws on a non-null array, is empty exactly for non-Sigils, and otherwise returns a key holding the canonical form |
| SigilValidation.Outcome | main/src/main/java/org/echoesfrombeyond/sigil/SigilValidation.java:108-350 | the result of `canonicalize` on the contents of a non-null array: empty when an early check fails, ArrayIndexOutOfBounds when a point's key passes the table, the canonical form otherwise; `Canonicalize` is proved to return it, and `OutcomeAsWritten` and `OutcomeUnsigned` say when it is `Canon` |
| SigilKeyProxy.ReadResolve | main/src/main/java/org/echoesfrombeyond/sigil/SigilKey.java:47-58 | a null array throws InvalidObjectException; a valid Sigil gives the key of its canonical form; any other array throws ArrayIndexOutOfBoundsException when it passes `canonicalize`'s early checks with a top-bit byte, and InvalidObjectException otherwise |
| SigilKeyProxy.SerializationRoundTrip | main/src/main/java/org/echoesfrombeyond/sigil/SigilKey.java:61-65 | writing a key through its proxy and reading it back gives a key with the same points |
| SigilPoints.AdjacentIrreflexive | echoesfrombeyond/src/main/java/org/echoesfrombeyond/echoesfrombeyond/codec/SigilPoint.java:48-62 | no point is adjacent to itself |
| SigilPoints.AdjacentSymmetric | echoesfrombeyond/src/main/java/org/echoesfrombeyond/echoesfrombeyond/codec/SigilPoint.java:57-62 | adjacency as computed in 32-bit arithmetic is symmetric, overflow included |
| SigilPoints.ExactAdjacentMeaning | echoesfrombeyond/src/main/java/org/echoesfrombeyond/echoesfrombeyond/codec/SigilPoint.java:48-55 | the documented adjacency holds exactly at Chebyshev distance 1 |
| SigilPoints.AdjacentWithoutOverflow | echoesfrombeyond/src/main/java/org/echoesfrombeyond/echoesfrombeyond/codec/SigilPoint.java:57-62 | where the subtractions cannot overflow, the Java check is the documented adjacency: Chebyshev distance 1 |
| SigilPoints.InBoundsNoOverflow | echoesfrombeyond/src/main/java/org/echoesfrombeyond/echoesfrombeyond/codec/SigilPoint.java:57-70 | grid points never overflow the subtraction |
| SigilPoints.AdjacentOverflow | echoesfrombeyond/src/main/java/org/echoesfrombeyond/echoesfrombeyond/codec/SigilPoint.java:57-62 | (0, 0) and (Integer.MIN_VALUE, 0), 2^31 apart, pass the Java check although they are not adjacent |
| SigilPoints.AdjacentWrapAround | echoesfrombeyond/src/main/java/org/echoesfrombeyond/echoesfrombeyond/codec/SigilPoint.java:57-62 | (Integer.MAX_VALUE, 0) and (Integer.MIN_VALUE, 0) pass the Java check as well |
| SigilPoints.EncodeAllAt | main/src/main/java/org/echoesfrombeyond/codec/SigilPoint.java:57-67 | element i of the encoding is `encodePoint` of point i |
| SigilPoints.DecodeAllAt | main/src/main/java/org/echoesfrombeyond/codec/SigilPoint.java:78-88 | element i of the decoding is the unpacked byte i |
| SigilPoints.DecodeEncodePoint | echoesfrombeyond/src/main/java/org/echoesfrombeyond/echoesfrombeyond/codec/SigilPoint.java:72-79 | a point survives encoding then decoding exactly when x is in -8..7 and y in 0..15 |
| SigilPoints.EncodeDecodePoint | echoesfrombeyond/src/main/java/org/echoesfrombeyond/echoesfrombeyond/codec/SigilPoint.java:93-100 | decoding then encoding gives back every byte |
| SigilPoints.DecodeEncodeAll | main/src/main/java/org/echoesfrombeyond/codec/SigilPoint.java:48-55 | `decodeArray` inverts `encodeArray` exactly on arrays of representable points |
| SigilPoints.EncodeDecodeAll | main/src/main/java/org/echoesfrombeyond/codec/SigilPoint.java:69-76 | `encodeArray` inverts `decodeArray` on every byte array |
| SigilPoints.GridRoundTrip | main/src/main/java/org/echoesfrombeyond/codec/SigilPoint.java:39-41 | points within the declared coordinate range 0..GRID_SIZE-1 come back unchanged |
| SigilPoints.InBoundsEncoding | echoesfrombeyond/src/main/java/org/echoesfrombeyond/echoesfrombeyond/codec/SigilPoint.java:68-70 | a point is in bounds exactly when its encoding lies on the grid and decodes back to it |
| SigilPoints.GridDecodesInBounds | echoesfrombeyond/src/main/java/org/echoesfrombeyond/echoesfrombeyond/codec/SigilPoint.java:102-112 | every grid byte decodes to an in-bounds point that encodes back to it |
| SigilPoints.EncodedInjective | echoesfrombeyond/src/main/java/org/echoesfrombeyond/echoesfrombeyond/codec/SigilPoint.java:81-91 | different grid points have different encodings |
| SigilPoints.ExactAdjacentOnGrid | echoesfrombeyond/src/main/java/org/echoesfrombeyond/echoesfrombeyond/codec/SigilPoint.java:48-55 | on the grid the documented adjacency is the step `canonicalize` accepts between the encoded bytes |
| SigilPoints.AdjacentOnGrid | echoesfrombeyond/src/main/java/org/echoesfrombeyond/echoesfrombeyond/codec/SigilPoint.java:57-62 | on the grid `isAdjacentTo` is the step `canonicalize` accepts between the encoded bytes |
| SigilPoints.EncodeArray | echoesfrombeyond/src/main/java/org/echoesfrombeyond/echoesfrombeyond/codec/SigilPoint.java:80-91 | null gives null; otherwise a new array holding each point's encoding |
| SigilPoints.DecodeArray | echoesfrombeyond/src/main/java/org/echoesfrombeyond/echoesfrombeyond/codec/SigilPoint.java:101-112 | null gives null; otherwise a new array holding each byte's unpacked point |
| SigilPoints.IsAdjacentTo | echoesfrombeyond/src/main/java/org/echoesfrombeyond/echoesfrombeyond/codec/SigilPoint.java:57-62 | `isAdjacentTo` as computed, with 32-bit subtraction and `Math.abs`; `AdjacentWithoutOverflow` ties it to Chebyshev distance 1 and `AdjacentOverflow` shows where it departs from it |
| SigilPoints.EncodeAll | main/src/main/java/org/echoesfrombeyond/codec/SigilPoint.java:57-67 | `encodeArray` on a non-null array as a function: one byte per point, so the result has the input's length; element i is stated by `EncodeAllAt` |
| SigilPoints.DecodeAll | main/src/main/java/org/echoesfrombeyond/codec/SigilPoint.java:78-88 | `decodeArray` on a non-null array as a function: one point per byte, so the result has the input's length; element i is stated by `DecodeAllAt` |
| SigilPointCodec.NatToString | main/src/main/java/org/echoesfrombeyond/codec/SigilPointCodec.java:66-69 | the decimal digits carry no leading zero |
| SigilPointCodec.NatToStringValue | main/src/main/java/org/echoesfrombeyond/codec/SigilPointCodec.java:66-69 | the written digits denote the number |
| SigilPointCodec.ParseIntToString | main/src/main/java/org/echoesfrombeyond/codec/SigilPointCodec.java:55-69 | parsing reads back every `int` that `Integer.toString` writes, negative ones included |
| SigilPointCodec.IntToStringDigit | main/src/main/java/org/echoesfrombeyond/codec/SigilPointCodec.java:66-69 | a coordinate below ten is written as its single digit |
| SigilPointCodec.StripLeading | main/src/main/java/org/echoesfrombeyond/codec/SigilPointCodec.java:60-61 | the result is a suffix of the input, all of whose dropped characters are white space, and it does not start with white space |
| SigilPointCodec.StripTrailing | main/src/main/java/org/echoesfrombeyond/codec/SigilPointCodec.java:60-61 | the result is a prefix of the input, all of whose dropped characters are white space, and it does not end with white space |
| SigilPointCodec.StripUnpadded | main/src/main/java/org/echoesfrombeyond/codec/SigilPointCodec.java:60-61 | stripping a string that neither starts nor ends with white space changes nothing |
| SigilPointCodec.StripPadded | main/src/main/java/org/echoesfrombeyond/codec/SigilPointCodec.java:60-61 | stripping a character padded with white space leaves that character |
| SigilPointCodec.StripSlice | main/src/main/java/org/echoesfrombeyond/codec/SigilPointCodec.java:60-61 | stripping removes white space from the two ends only |
| SigilPointCodec.IndexOfComma | main/src/main/java/org/echoesfrombeyond/codec/SigilPointCodec.java:58 | the position of the first comma, or -1 exactly when there is none |
| SigilPointCodec.SplitAtFirstComma | main/src/main/java/org/echoesfrombeyond/codec/SigilPointCodec.java:58 | without a comma the whole string; otherwise the parts before and after the first comma |
| SigilPointCodec.SplitAfter | main/src/main/java/org/echoesfrombeyond/codec/SigilPointCodec.java:58 | the first comma of `a + "," + b` is the one after a when a has none |
| SigilPointCodec.DecodeEncode | main/src/main/java/org/echoesfrombeyond/codec/SigilPointCodec.java:55-69 | decoding reads back every encoded point, negative coordinates included |
| SigilPointCodec.DecodeParts | main/src/main/java/org/echoesfrombeyond/codec/SigilPointCodec.java:55-64 | a string whose two parts parse after stripping decodes to the point of those numbers |
| SigilPointCodec.EncodeShape | main/src/main/java/org/echoesfrombeyond/codec/SigilPointCodec.java:66-69 | the encoding splits into the written x and the written y after one space |
| SigilPointCodec.EncodeMatchesPattern | main/src/main/java/org/echoesfrombeyond/codec/SigilPointCodec.java:43-51 | the encoding of every grid point matches `SIGIL_POINT_PATTERN` |
| SigilPointCodec.ParsePaddedDigit | main/src/main/java/org/echoesfrombeyond/codec/SigilPointCodec.java:43-61 | a digit 0..3 padded with spaces or tabs parses as that digit |
| SigilPointCodec.PatternParts | main/src/main/java/org/echoesfrombeyond/codec/SigilPointCodec.java:50-51 | a string matching the pattern is two grid digits and a comma, each padded with blanks |
| SigilPointCodec.PatternDecodesInGrid | main/src/main/java/org/echoesfrombeyond/codec/SigilPointCodec.java:43-64 | every string the pattern admits decodes, to a point on the grid |
| SigilPointCodec.NoCommaFails | main/src/main/java/org/echoesfrombeyond/codec/SigilPointCodec.java:56-61 | a string without a comma never decodes; when its text is a number, reading `split[1]` is what fails |
| SigilPointCodec.CommaSurvivesStrip | main/src/main/java/org/echoesfrombeyond/codec/SigilPointCodec.java:58-61 | a comma is not white space, so it survives stripping |
| SigilPointCodec.ParseRejectsComma | main/src/main/java/org/echoesfrombeyond/codec/SigilPointCodec.java:60-61 | no number contains a comma |
| SigilPointCodec.LaterCommaFails | main/src/main/java/org/echoesfrombeyond/codec/SigilPointCodec.java:58-61 | only the first comma splits; a second one stays in the y part and fails to parse |
| SigilPointCodec.IsDigit | main/src/main/java/org/echoesfrombeyond/codec/SigilPointCodec.java:60-61 | a character `Character.digit(c, 10)` accepts, as `Integer.parseInt` reads its digits: one of the 37 runs of ten decimal digits of the Basic Multilingual Plane, ASCII first |
| SigilPointCodec.DigitRunZero | main/src/main/java/org/echoesfrombeyond/codec/SigilPointCodec.java:60-61 | every decimal digit lies among the ten characters of its run, counted from that run's zero; -1 marks a character that is not a digit |
| SigilPointCodec.OtherRunZero | main/src/main/java/org/echoesfrombeyond/codec/SigilPointCodec.java:60-61 | the same for the 36 runs after ASCII: a digit of one of them lies among the ten characters counted from that run's zero |
| SigilPointCodec.ParseOneDigit | main/src/main/java/org/echoesfrombeyond/codec/SigilPointCodec.java:60-61 | a lone decimal digit of any of the runs parses to its value, not only an ASCII one |
| SigilPointCodec.ParseInt | main/src/main/java/org/echoesfrombeyond/codec/SigilPointCodec.java:60-61 | `Integer.parseInt`: an optional sign, at least one decimal digit and a value that fits in an `int`, otherwise NumberFormatException; `ParseIntToString` and `ParseOneDigit` state what it reads |
| SigilPointCodec.IntToString | main/src/main/java/org/echoesfrombeyond/codec/SigilPointCodec.java:68 | `Integer.toString`: a minus sign for a negative number, then the ASCII digits of the magnitude; `ParseIntToString` states that parsing reads it back |
| SigilPointCodec.Strip | main/src/main/java/org/echoesfrombeyond/codec/SigilPointCodec.java:60-61 | `String.strip`: the leading and then the trailing white space (`Character.isWhitespace`) removed; `StripSlice`, `StripUnpadded` and `StripPadded` state what it removes |
| SigilPointCodec.Encode | main/src/main/java/org/echoesfrombeyond/codec/SigilPointCodec.java:66-69 | `encode`: the two coordinates written with `Integer.toString`, joined by a comma and a space; `DecodeEncode` states that decoding reads every encoding back |
| SigilPointCodec.Decode | main/src/main/java/org/echoesfrombeyond/codec/SigilPointCodec.java:55-64 | `decode`: split at the first comma, strip each half and parse it, with `parseInt` failing before the missing half is read; `DecodeEncode`, `PatternDecodesInGrid`, `NoCommaFails` and `LaterCommaFails` state its results and failures |
| SigilPointCodec.DecodeOtherScripts | main/src/main/java/org/echoesfrombeyond/codec/SigilPointCodec.java:55-64 | an Arabic-Indic three, a comma, a space and a fullwidth three decode to the point (3, 3), as `Character.digit` makes them decimal digits |
| SigilDraw.PointList.Add | echoesfrombeyond/src/main/java/org/echoesfrombeyond/echoesfrombeyond/sigil/SigilDrawSystem.java:149 | `add` appends the point to the list |
| SigilDraw.PointList.RemoveLast | echoesfrombeyond/src/main/java/org/echoesfrombeyond/echoesfrombeyond/sigil/SigilDrawSystem.java:150 | `removeLast` drops the last point |
| SigilDraw.PointList.Clear | main/src/main/java/org/echoesfrombeyond/interaction/sigil/EndSigilDraw.java:72 | `clear` empties the list |
| SigilDraw.RetraceMeansDrawn | echoesfrombeyond/src/main/java/org/echoesfrombeyond/echoesfrombeyond/sigil/SigilDrawSystem.java:137-143 | the loop finds a visit of the last point next to the highlighted one exactly when that line is already drawn, the backtracking step aside |
| SigilDraw.ExtendKeepsPath | echoesfrombeyond/src/main/java/org/echoesfrombeyond/echoesfrombeyond/sigil/SigilDrawSystem.java:127-149 | a step to an adjacent point along a new line keeps the stroke within 32 points, adjacent step by step, and with no line drawn twice |
| SigilDraw.BacktrackKeepsPath | echoesfrombeyond/src/main/java/org/echoesfrombeyond/echoesfrombeyond/sigil/SigilDrawSystem.java:150 | dropping the last point keeps the stroke well formed |
| SigilDraw.MoveKeepsPath | echoesfrombeyond/src/main/java/org/echoesfrombeyond/echoesfrombeyond/sigil/SigilDrawSystem.java:125-153 | every move `maybeDrawLine` makes keeps the stroke well formed |
| SigilDraw.ExtendDrawsOneLine | echoesfrombeyond/src/main/java/org/echoesfrombeyond/echoesfrombeyond/sigil/SigilDrawSystem.java:147-149 | a step forward draws exactly one new line, from the last point to the highlighted one |
| SigilDraw.BacktrackUndoesExtend | echoesfrombeyond/src/main/java/org/echoesfrombeyond/echoesfrombeyond/sigil/SigilDrawSystem.java:134-150 | moving back to the previous point right after a step forward is a backtrack, and it restores the stroke |
| SigilDraw.FullStrokeFrozen | echoesfrombeyond/src/main/java/org/echoesfrombeyond/echoesfrombeyond/sigil/SigilDrawSystem.java:127-129 | at MAX_SIGIL_LENGTH points nothing is drawn, not even a step back |
| SigilDraw.SameLineEncoded | main/src/main/java/org/echoesfrombeyond/system/sigil/SigilValidateSystem.java:53-54 | on the grid, the encoded points draw the same line exactly when the points do |
| SigilDraw.EncodedSteps | main/src/main/java/org/echoesfrombeyond/system/sigil/SigilValidateSystem.java:53-54 | a stroke of adjacent grid points encodes to grid steps |
| SigilDraw.EncodedLinesDistinct | main/src/main/java/org/echoesfrombeyond/system/sigil/SigilValidateSystem.java:53-54 | distinct lines between grid points encode to distinct lines |
| SigilDraw.EncodedStepLines | main/src/main/java/org/echoesfrombeyond/system/sigil/SigilValidateSystem.java:53-54 | two steps of grid points draw one line exactly when their encodings do |
| SigilDraw.DrawnPathIsSigil | main/src/main/java/org/echoesfrombeyond/system/sigil/SigilValidateSystem.java:53-54 | a stroke of at least two grid points that the drawing rules allow encodes to a Sigil `canonicalize` accepts |
| SigilDraw.SigilIsDrawnPath | main/src/main/java/org/echoesfrombeyond/system/sigil/SigilValidateSystem.java:53-54 | conversely, a valid Sigil decodes to in-bounds points that form a stroke the drawing rules allow, and encodes back to itself |
| SigilDraw.SigilDrawComponent.constructor | echoesfrombeyond/src/main/java/org/echoesfrombeyond/echoesfrombeyond/component/sigil/SigilDrawComponent.java:87-96 | every field takes its default value: closed, not drawing, zero rotation, default distance and cursor, ZERO highlighted, no points |
| SigilDraw.SigilDrawComponent.Copy | echoesfrombeyond/src/main/java/org/echoesfrombeyond/echoesfrombeyond/component/sigil/SigilDrawComponent.java:98-107 | copies every field, with a new rotation vector and a new list of the same points |
| SigilDraw.SigilDrawComponent.Reset | echoesfrombeyond/src/main/java/org/echoesfrombeyond/echoesfrombeyond/component/sigil/SigilDrawComponent.java:109-118 | every field returns to its default; the rotation vector and the list are the same objects, reset in place |
| SigilDraw.SigilDrawComponent.Clone | echoesfrombeyond/src/main/java/org/echoesfrombeyond/echoesfrombeyond/component/sigil/SigilDrawComponent.java:120-124 | a fresh component equal field by field that shares no mutable object with the original, and keeps the stroke invariant |
| SigilDraw.ScanRetrace | echoesfrombeyond/src/main/java/org/echoesfrombeyond/echoesfrombeyond/sigil/SigilDrawSystem.java:138-143 | the loop answers true exactly when some visit of the last point sits next to the highlighted point |
| SigilDraw.MaybeDrawLine | echoesfrombeyond/src/main/java/org/echoesfrombeyond/echoesfrombeyond/sigil/SigilDrawSystem.java:125-153 | the stroke becomes the one the move dictates (stay, extend to the highlighted point, or step back), and the builder gains that move's line command |
| SigilDraw.MaybeDrawLineKeepsStroke | echoesfrombeyond/src/main/java/org/echoesfrombeyond/echoesfrombeyond/sigil/SigilDrawSystem.java:125-153 | the drawing state invariant holds after every call: no points while idle, at least one while drawing, and a well-formed stroke |
| SigilDraw.BeginSigilDraw | main/src/main/java/org/echoesfrombeyond/interaction/sigil/BeginSigilDraw.java:56-63 | with the HUD open and no stroke in progress, starts a stroke by appending the highlighted point; otherwise, or without a component, nothing changes |
| SigilDraw.ValidateEvent.constructor | main/src/main/java/org/echoesfrombeyond/system/sigil/SigilValidateSystem.java:75-77 | the event holds the list it is given, not a copy |
| SigilDraw.EndSigilDraw | main/src/main/java/org/echoesfrombeyond/interaction/sigil/EndSigilDraw.java:58-74 | with the HUD open and a stroke in progress, erases the drawn lines when there are several points and a HUD; raises an event holding the component's own list; then clears that list and ends the stroke. Otherwise nothing changes |
| SigilDraw.NextMove | echoesfrombeyond/src/main/java/org/echoesfrombeyond/echoesfrombeyond/sigil/SigilDrawSystem.java:125-153 | the move `maybeDrawLine` makes: none without a stroke in progress, at full length or when the highlight is not adjacent to the last point; a step back onto the point before the last; none onto a line already drawn; otherwise a step to the highlight; `MoveKeepsPath` and `MaybeDrawLine` state what each move does |
| SigilDraw.HighlightOffGrid | echoesfrombeyond/src/main/java/org/echoesfrombeyond/echoesfrombeyond/sigil/SigilDrawSystem.java:88-89 | a square `tick` can highlight but that is off the grid, the one past the last column or row, encodes to a byte off the grid |
| SigilDraw.DrawnStrokeAccepted | echoesfrombeyond/src/main/java/org/echoesfrombeyond/echoesfrombeyond/sigil/SigilDrawSystem.java:125-153 | a stroke of highlightable squares that obeys the drawing rules is accepted exactly when it has at least two points and none of them lies past the grid, since `maybeDrawLine` does not check bounds |
| OnceCell.Once.constructor | util/src/main/java/org/echoesfrombeyond/util/thread/Once.java:81-88 | a new instance holds UNINIT in state NORMAL and has not called its supplier |
| OnceCell.Once.Get | util/src/main/java/org/echoesfrombeyond/util/thread/Once.java:91-105 | a cached value is returned unchanged; while the supplier runs, or after it failed, `get` throws IllegalStateException; otherwise the state becomes CALLING_SUPPLIER and the supplier is called, for the first and only time |
| OnceCell.Once.SupplierCompleted | util/src/main/java/org/echoesfrombeyond/util/thread/Once.java:106-114 | a value the supplier returns is cached and returned, and the state goes back to NORMAL; an exception leaves EXCEPTION_THROWN and propagates; the supplier has still run once |
| OnceCell.Once.GetWith | util/src/main/java/org/echoesfrombeyond/util/thread/Once.java:91-115 | a whole `get` whose supplier does not reenter: the cached value, or IllegalStateException after a failure, or the supplier's own outcome on the first call, which runs the supplier exactly once |
| OnceCell.Of | util/src/main/java/org/echoesfrombeyond/util/thread/Once.java:73-78 | null throws NullPointerException, a `Once` comes back unchanged, and any other supplier is wrapped in a new `Once` that has not called it |
| OnceCell.GetTwice | util/src/test/java/org/echoesfrombeyond/util/thread/OnceTest.java:35-68 | two `get` calls return the same value, null included, and the supplier runs once |
| OnceCell.FailedSupplierStaysFailed | util/src/main/java/org/echoesfrombeyond/util/thread/Once.java:99-111 | after the supplier throws, the first `get` throws that and every later one IllegalStateException, without a second call |
| OnceCell.ReentrantGetThrows | util/src/test/java/org/echoesfrombeyond/util/thread/OnceTest.java:27-33 | a `get` from inside the supplier throws IllegalStateException, and when that propagates the instance is left failed |
| ClassHierarchyMaps.HashClassHierarchyMap.constructor | util/src/main/java/org/echoesfrombeyond/util/type/HashClassHierarchyMap.java:30-32 | a new map has no entries |
| ClassHierarchyMaps.HashClassHierarchyMap.Put | util/src/main/java/org/echoesfrombeyond/util/type/HashClassHierarchyMap.java:78-81 | a null value throws NullPointerException and changes nothing; otherwise the key maps to the value and the previous value, or null, is returned |
| ClassHierarchyMaps.HashClassHierarchyMap.Remove | util/src/main/java/org/echoesfrombeyond/util/type/HashClassHierarchyMap.java:83-86 | the key is unmapped and its previous value, or null, is returned |
| ClassHierarchyMaps.HashClassHierarchyMap.GetSuperclass | util/src/main/java/org/echoesfrombeyond/util/type/HashClassHierarchyMap.java:34-53 | EXACT is the direct mapping; CLOSEST is the direct mapping, else the first mapped class in traversal order; FURTHEST is the last mapped class in traversal order; null exactly when no class of the traversal is mapped |
| ClassHierarchyMaps.HashClassHierarchyMap.GetSubclass | util/src/main/java/org/echoesfrombeyond/util/type/HashClassHierarchyMap.java:55-76 | EXACT is the direct mapping; otherwise the value of a key at the best distance below the class (least for CLOSEST, greatest for FURTHEST), the first such key in iteration order; null exactly when no key is below the class |
| ClassHierarchyMaps.MapOfBAndC | codec/src/test/java/org/echoesfrombeyond/codec/HashClassHierarchyMapTest.java:50-68 | the test fixture: B and C mapped to their names |
| ClassHierarchyMaps.ClosestSubclass | codec/src/test/java/org/echoesfrombeyond/codec/HashClassHierarchyMapTest.java:50-58 | with B and C mapped, the closest subclass of A is B, in either iteration order |
| ClassHierarchyMaps.FurthestSubclass | codec/src/test/java/org/echoesfrombeyond/codec/HashClassHierarchyMapTest.java:60-68 | with B and C mapped, the furthest subclass of A is C, in either iteration order |
| ClassHierarchyMaps.SuperclassQueries | codec/src/test/java/org/echoesfrombeyond/codec/HashClassHierarchyMapTest.java:70-88 | with A and B mapped, the closest superclass of C is B and the furthest is A |
| ClassHierarchyMaps.PutAndRemove | codec/src/test/java/org/echoesfrombeyond/codec/HashClassHierarchyMapTest.java:90-114 | `put` returns the value it replaces, `remove` the one it removes and then null, and a null value is refused |
| ClassHierarchyMaps.ExactQueries | codec/src/test/java/org/echoesfrombeyond/codec/HashClassHierarchyMapTest.java:38-48 | exact queries of either kind find the direct mapping |
| FileTrees.WithoutWf | buildSrc/src/main/kotlin/org/echoesfrombeyond/gradle/task/GeneratePackageInfo.kt:59 | `deleteRecursively` removes the entry and everything under it, nothing else, and leaves a well-formed tree |
| FileTrees.WithDirsWf | buildSrc/src/main/kotlin/org/echoesfrombeyond/gradle/work/GeneratePackageInfoWorkAction.kt:33-35 | `mkdirs` on a path with no file in the way creates it as a directory, keeps every existing entry, and leaves a well-formed tree |
| FileTrees.WriteWf | buildSrc/src/main/kotlin/org/echoesfrombeyond/gradle/work/GeneratePackageInfoWorkAction.kt:37 | `writeBytes` into an existing directory changes that one entry and leaves a well-formed tree |
| FileTrees.FileSystem.DeleteRecursively | buildSrc/src/main/kotlin/org/echoesfrombeyond/gradle/task/GeneratePackageInfo.kt:59 | the tree loses the entry and everything under it |
| FileTrees.FileSystem.Mkdirs | buildSrc/src/main/kotlin/org/echoesfrombeyond/gradle/work/GeneratePackageInfoWorkAction.kt:33-35 | answers whether the directories could be made, and makes them exactly then |
| FileTrees.FileSystem.WriteBytes | buildSrc/src/main/kotlin/org/echoesfrombeyond/gradle/work/GeneratePackageInfoWorkAction.kt:37 | the file holds the bytes, or IOException is thrown and nothing changes, exactly as the target can be opened or not |
| PackageNames.CompareZero | buildSrc/src/main/kotlin/org/echoesfrombeyond/gradle/task/Utils.kt:19-21 | `String.compareTo` answers 0 exactly for equal strings |
| PackageNames.CompareAntisymmetric | buildSrc/src/main/kotlin/org/echoesfrombeyond/gradle/task/Utils.kt:19-21 | swapping the arguments of `compareTo` negates the answer |
| PackageNames.CompareTransitive | buildSrc/src/main/kotlin/org/echoesfrombeyond/gradle/task/Utils.kt:19-21 | the order `compareTo` defines is transitive |
| PackageNames.CompareTotal | buildSrc/src/main/kotlin/org/echoesfrombeyond/gradle/task/Utils.kt:19-21 | of two different strings one sorts before the other |
| PackageNames.InsertSorted | buildSrc/src/main/kotlin/org/echoesfrombeyond/gradle/task/GeneratePackageTree.kt:72 | adding to a sorted set keeps it sorted and duplicate-free, loses nothing, adds nothing but the new element, and holds one of its key afterwards |
| PackageNames.InsertAfterHead | buildSrc/src/main/kotlin/org/echoesfrombeyond/gradle/task/GeneratePackageTree.kt:72 | adding an element that sorts after the head keeps the head and adds to the rest |
| PackageNames.SortedSetContents | buildSrc/src/main/kotlin/org/echoesfrombeyond/gradle/task/GeneratePackageTree.kt:72 | `toSortedSet()` is strictly increasing, holds only input elements, and holds one element for each key of the input |
| PackageNames.SortedSetOfSorted | buildSrc/src/main/kotlin/org/echoesfrombeyond/gradle/task/Utils.kt:51 | a sequence already strictly increasing is its own `toSortedSet()` |
| PackageNames.SortedUnique | buildSrc/src/main/kotlin/org/echoesfrombeyond/gradle/task/GeneratePackageTree.kt:72 | two strictly increasing sequences of strings with the same elements are equal |
| PackageNames.IndexOf | buildSrc/src/main/kotlin/org/echoesfrombeyond/gradle/task/Utils.kt:41 | the first position of the separator: it is there, and not before |
| PackageNames.Split | buildSrc/src/main/kotlin/org/echoesfrombeyond/gradle/task/Utils.kt:41 | `splitToSequence` yields at least one piece |
| PackageNames.SplitSerialized | buildSrc/src/main/kotlin/org/echoesfrombeyond/gradle/task/Utils.kt:40-41 | splitting the packages file on LF gives back each name and one empty piece after the last LF |
| PackageNames.NonBlankKeepsNames | buildSrc/src/main/kotlin/org/echoesfrombeyond/gradle/task/Utils.kt:42 | the blank filter keeps non-blank names and drops the trailing empty piece |
| PackageNames.NonBlankMembers | buildSrc/src/main/kotlin/org/echoesfrombeyond/gradle/task/Utils.kt:42 | the blank filter keeps only non-blank lines of its input |
| PackageNames.NonEmptySegments | buildSrc/src/main/kotlin/org/echoesfrombeyond/gradle/task/Utils.kt:45-47 | resolving name by name from `Paths.get("")` keeps only non-empty names: a name is in the result exactly when it is a non-empty name of the input, and the result is no longer than the input; `NonEmptySegmentsConcat` gives the order |
| PackageNames.InfoOrderIsByName | buildSrc/src/main/kotlin/org/echoesfrombeyond/gradle/task/Utils.kt:18-30 | `PackageInfo` orders, equates and hashes by name alone: `compareTo` is 0 exactly for equal records, equal records hash alike, and the order is antisymmetric |
| PackageNames.Infos | buildSrc/src/main/kotlin/org/echoesfrombeyond/gradle/task/Utils.kt:43-50 | one record per line, in order, each holding the name and its path |
| PackageNames.ReadIsSortedSet | buildSrc/src/main/kotlin/org/echoesfrombeyond/gradle/task/Utils.kt:38-52 | `readPackagesFile` is strictly increasing by name, and each record is a non-blank line of the file with that line's path |
| PackageNames.ReadSerialized | buildSrc/src/main/kotlin/org/echoesfrombeyond/gradle/task/Utils.kt:38-52 | reading a file written from a sorted set of non-blank LF-free names gives those names, in that order, each with its path |
| PackageNames.CompareStrings | buildSrc/src/main/kotlin/org/echoesfrombeyond/gradle/task/Utils.kt:19-21 | `String.compareTo` on names within the Basic Multilingual Plane: the difference of the first differing characters, else of the lengths; `CompareZero`, `CompareAntisymmetric`, `CompareTransitive` and `CompareTotal` state that it is a total order |
| PackageNames.Insert | buildSrc/src/main/kotlin/org/echoesfrombeyond/gradle/task/GeneratePackageTree.kt:72 | `TreeSet.add` under a key order: the element goes in its place unless an element comparing equal is already there; `InsertSorted` states that a sorted set stays sorted and what it holds afterwards |
| PackageNames.ToSortedSet | buildSrc/src/main/kotlin/org/echoesfrombeyond/gradle/task/GeneratePackageTree.kt:72 | `toSortedSet()`: the elements added one by one, first to last; `SortedSetContents` and `SortedSetOfSorted` state what it returns |
| PackageNames.NonEmptySegmentsConcat | buildSrc/src/main/kotlin/org/echoesfrombeyond/gradle/task/Utils.kt:45-47 | resolving the names of two sequences one after the other keeps the non-empty names of each, in order: a non-empty name stays and an empty one is dropped |
| PackageNames.StringHash | buildSrc/src/main/kotlin/org/echoesfrombeyond/gradle/task/Utils.kt:27-29 | `String.hashCode` on names within the Basic Multilingual Plane: the 31-polynomial over the characters with 32-bit wrap-around; it makes equal names hash alike in `InfoOrderIsByName` |
| PackageNames.ReadPackagesFile | buildSrc/src/main/kotlin/org/echoesfrombeyond/gradle/task/Utils.kt:38-52 | `readPackagesFile`: split on LF, drop blank lines, pair each line with its path and collect into a set sorted by name; `ReadIsSortedSet` and `ReadSerialized` state what it returns |
| PackageTree.LastIndexOf | buildSrc/src/main/kotlin/org/echoesfrombeyond/gradle/task/GeneratePackageTree.kt:55 | the position of the last '.', with no '.' after it |
| PackageTree.LastIndexOfIs | buildSrc/src/main/kotlin/org/echoesfrombeyond/gradle/task/GeneratePackageTree.kt:55 | a '.' with no '.' after it is the last one |
| PackageTree.JavaExtension | buildSrc/src/main/kotlin/org/echoesfrombeyond/gradle/task/GeneratePackageTree.kt:55 | `extension == "java"` exactly when the name ends in ".java" |
| PackageTree.ScanDirectory | buildSrc/src/main/kotlin/org/echoesfrombeyond/gradle/task/GeneratePackageTree.kt:48-59 | false when some entry is named package-info.java, otherwise whether some entry has the java extension, in any listing order |
| PackageTree.CheckDirectory | buildSrc/src/main/kotlin/org/echoesfrombeyond/gradle/task/GeneratePackageTree.kt:46-60 | the directory filter keeps a directory exactly when it holds a java file and no package-info.java |
| PackageTree.SplitJoinDots | buildSrc/src/main/kotlin/org/echoesfrombeyond/gradle/task/GeneratePackageTree.kt:61-65 | splitting a dotted name on '.' gives back the directory names it was joined from |
| PackageTree.NonEmptySegmentsKeeps | buildSrc/src/main/kotlin/org/echoesfrombeyond/gradle/task/Utils.kt:45-47 | names that are all non-empty pass through unchanged |
| PackageTree.PathOfJoinDots | buildSrc/src/main/kotlin/org/echoesfrombeyond/gradle/task/GeneratePackageTree.kt:61-65 | the path `readPackagesFile` pairs with a package name is the directory the name came from |
| PackageTree.NamesMembers | buildSrc/src/main/kotlin/org/echoesfrombeyond/gradle/task/GeneratePackageTree.kt:45-71 | a walk yields a name exactly for each directory it visits that the filters keep |
| PackageTree.AllNamesMembers | buildSrc/src/main/kotlin/org/echoesfrombeyond/gradle/task/GeneratePackageTree.kt:45-72 | over all roots, a name is yielded exactly when it is the name of a kept directory of some root |
| PackageTree.PackagesListed | buildSrc/src/main/kotlin/org/echoesfrombeyond/gradle/task/GeneratePackageTree.kt:45-72 | the packages file lists every package of every root once, in sorted order, and nothing else; the same holds for `generatePackageHierarchy` with its own filter |
| PackageTree.PackagesTextIndependentOfWalk | buildSrc/src/main/kotlin/org/echoesfrombeyond/gradle/task/GeneratePackageTree.kt:41-83 | the packages file does not depend on the order the walks visit the directories |
| PackageTree.TaskFileRoundTrip | buildSrc/src/main/kotlin/org/echoesfrombeyond/gradle/task/Utils.kt:38-52 | reading the packages file back gives one record per package, in order, each with its path |
| PackageTree.Extension | buildSrc/src/main/kotlin/org/echoesfrombeyond/gradle/task/GeneratePackageTree.kt:55 | `Path.extension`: what follows the last '.' of a name, or nothing when it has none; `JavaExtension` states when it is "java" |
| PackageTree.IsTaskPackageDir | buildSrc/src/main/kotlin/org/echoesfrombeyond/gradle/task/GeneratePackageTree.kt:46-60 | the `GeneratePackageTree` directory test as a predicate: a directory that holds an entry with the java extension and no package-info.java; `CheckDirectory` is proved to compute it |
| PackageTree.IsScriptPackageDir | build.gradle.kts:164-171 | the `generatePackageHierarchy` directory test: a directory with some regular file, directly inside it, that has the java extension; `NamesMembers` states that the walk keeps exactly these directories |
| PackageTree.PackagesText | buildSrc/src/main/kotlin/org/echoesfrombeyond/gradle/task/GeneratePackageTree.kt:72-82 | the packages file each variant writes: the sorted set of the names of all roots, each followed by LF; `PackagesListed` and `PackagesTextIndependentOfWalk` state what it lists and that the walk order does not matter |
| PackageInfoTask.CleanStep | buildSrc/src/main/kotlin/org/echoesfrombeyond/gradle/task/GeneratePackageInfo.kt:51-59 | one more entry through the filter deletes its subtree exactly when it is doomed |
| PackageInfoTask.WalkCondemns | buildSrc/src/main/kotlin/org/echoesfrombeyond/gradle/task/GeneratePackageInfo.kt:51-59 | an entry survives the walk exactly when no entry at or above it is doomed |
| PackageInfoTask.CleanedUpToAll | buildSrc/src/main/kotlin/org/echoesfrombeyond/gradle/task/GeneratePackageInfo.kt:51-59 | the whole bottom-up walk leaves the cleaned tree |
| PackageInfoTask.Cleanup | buildSrc/src/main/kotlin/org/echoesfrombeyond/gradle/task/GeneratePackageInfo.kt:51-59 | the walk leaves exactly the entries with no doomed entry at or above them |
| PackageInfoTask.CleanedWf | build.gradle.kts:219-240 | the clean-up keeps the tree well formed, and the entries it keeps are unchanged |
| PackageInfoTask.KeptIff | build.gradle.kts:219-240 | with file containment, an entry is kept exactly when it is not doomed itself |
| PackageInfoTask.KeepsPackageDirs | build.gradle.kts:219-240 | every package directory, every directory above it and the files directly inside them survive the clean-up |
| PackageInfoTask.KeepsExactly | build.gradle.kts:219-240 | the clean-up result is exactly the entries that are not doomed |
| PackageInfoTask.ScriptDeletesTopFiles | build.gradle.kts:230-235 | a file at the top of the output tree is always deleted |
| PackageInfoTask.TaskCleanupEmptiesTree | buildSrc/src/main/kotlin/org/echoesfrombeyond/gradle/task/GeneratePackageInfo.kt:51-59 | as written, with NIO `startsWith` and the empty relative path of the root, the whole output tree is deleted whenever no package is the root |
| PackageInfoTask.TaskIntendedKeepsPackages | buildSrc/src/main/kotlin/org/echoesfrombeyond/gradle/task/GeneratePackageInfo.kt:51-59 | with file containment an entry is kept exactly when its directory lies on the path of some package |
| PackageInfoTask.Execute | buildSrc/src/main/kotlin/org/echoesfrombeyond/gradle/work/GeneratePackageInfoWorkAction.kt:14-38 | the work action skips a file of the right length and digest, otherwise makes the missing directories and writes the bytes |
| PackageInfoTask.WriteEstablishes | buildSrc/src/main/kotlin/org/echoesfrombeyond/gradle/work/GeneratePackageInfoWorkAction.kt:14-38 | the tree stays well formed, no other entry changes, and after a successful write the file holds the contents; a skip happens only when the digests match |
| PackageInfoTask.WriteFailsIff | buildSrc/src/main/kotlin/org/echoesfrombeyond/gradle/work/GeneratePackageInfoWorkAction.kt:14-38 | the action throws exactly when a directory sits at the target, or a file sits where one of its directories should be |
| PackageInfoTask.WriteIdempotent | buildSrc/src/main/kotlin/org/echoesfrombeyond/gradle/work/GeneratePackageInfoWorkAction.kt:18-30 | a second run right after a successful one writes nothing and changes nothing |
| PackageInfoTask.WorkItems | buildSrc/src/main/kotlin/org/echoesfrombeyond/gradle/task/GeneratePackageInfo.kt:61-69 | one work item per package, writing the package-info.java of its path with the generator's text for its name |
| PackageInfoTask.ScriptReadsSerialized | build.gradle.kts:204-212 | the script reads a packages file back into its non-blank names, in order, each with its path |
| PackageInfoTask.RunAdvance | build.gradle.kts:250-279 | one item into a run: a failure stops a run that stops at errors, and otherwise the run goes on from the next item |
| PackageInfoTask.RunItems | build.gradle.kts:244-279 | the items run one after another, and the script loop stops at the first exception |
| PackageInfoTask.GeneratePackageInfo | buildSrc/src/main/kotlin/org/echoesfrombeyond/gradle/task/GeneratePackageInfo.kt:43-70 | the output tree is cleaned against the packages read from the file, then each package's work item runs with the variant's text (`GeneratorOf`) |
| PackageInfoTask.RunFrame | build.gradle.kts:244-279 | a run changes no entry outside the targets and keeps the tree well formed |
| PackageInfoTask.RunEstablishes | build.gradle.kts:244-279 | a run with no exception leaves each target holding the bytes of its text |
| PackageInfoTask.TaskRewritesUpToDateFile | buildSrc/src/main/kotlin/org/echoesfrombeyond/gradle/task/GeneratePackageInfo.kt:51-59 | as written, the clean-up deletes an up-to-date package-info.java, so it is written again |
| PackageInfoTask.IntendedSkipsUpToDateFile | buildSrc/src/main/kotlin/org/echoesfrombeyond/gradle/work/GeneratePackageInfoWorkAction.kt:20-30 | with the intended clean-up an up-to-date file stays, and nothing is written |
| PackageInfoTask.ScriptRemovesDroppedPackage | build.gradle.kts:219-240 | when `a.b` leaves the packages, the clean-up deletes `a/b` and keeps `a` with its package-info.java |
| PackageInfoTask.StalePackageInfoKept | build.gradle.kts:219-240 | when `a` leaves the packages but `a.b` stays, nothing is deleted: `a`'s package-info.java survives |
| PackageInfoTask.StartsWith | buildSrc/src/main/kotlin/org/echoesfrombeyond/gradle/task/GeneratePackageInfo.kt:56 | `Path.startsWith` (a non-empty path never starts with the empty NIO path) or `File.startsWith` (every path starts with the empty one); it decides the findings `TaskCleanupEmptiesTree` and `TaskIntendedKeepsPackages` |
| PackageInfoTask.Owner | build.gradle.kts:226-236 | the directory an entry is judged by: a directory itself, a file its parent; in the build script a file at the top of the tree has none, and `ScriptDeletesTopFiles` states that it is deleted |
| PackageInfoTask.Cleaned | buildSrc/src/main/kotlin/org/echoesfrombeyond/gradle/task/GeneratePackageInfo.kt:51-59 | the output tree after the clean-up: the entries no doomed entry at or above lies over; `Cleanup` is proved to leave it, and `KeptIff` and `KeepsPackageDirs` state what it keeps |
| PackageInfoTask.WriteIfChanged | buildSrc/src/main/kotlin/org/echoesfrombeyond/gradle/work/GeneratePackageInfoWorkAction.kt:14-38 | the work action on a tree: nothing when the target has the same length and digest, otherwise the missing directories and then the bytes, with IOException at a directory or under a file; `Execute` is proved to do it, and `WriteFailsIff` and `WriteIdempotent` state when it fails and that it settles |
| PackageInfoTask.DefaultGenerator | buildSrc/src/main/kotlin/org/echoesfrombeyond/gradle/task/GeneratePackageInfo.kt:40 | the convention value of `packageInfoGenerator`: the bare declaration `package <name>;`; the build plug-in sets another, so `GeneratePackageInfo` takes the `Task` generator as a parameter |
| PackageInfoTask.ScriptGenerator | build.gradle.kts:253-255 | the text the build script writes: the declaration, marked AUTOGENERATED and annotated `@NotNullByDefault` |
| PackageInfoTask.GeneratorOf | buildSrc/src/main/kotlin/org/echoesfrombeyond/gradle/task/GeneratePackageInfo.kt:66 | the text each variant writes for a package: the `Task` task's configurable generator, or the build script's fixed `ScriptGenerator`; `GeneratePackageInfo` runs the work items of that text |
| PackageInfoTask.ScriptPackages | build.gradle.kts:204-212 | the build script's reading of the packages file: the non-blank lines with their paths, in file order and without de-duplication; `ScriptReadsSerialized` states what it returns for a written file |

## Left out

- I/O is replaced by values:
  - File contents are byte sequences in an abstract tree.
  - The UTF-8 encoder (`toByteArray(Charsets.UTF_8)`) is the parameter `utf8`.
  - Reading the packages file as UTF-8 is identity on `string`.
  - The buffered writer of the tree tasks is the string it would write (`PackagesText`).
- SHA-1 is the parameter `digest`. Properties that need it to tell contents apart assume `CollisionFree(digest)`.
- Concurrency is not modelled. The worker queue of `GeneratePackageInfo`, the thread-local digests, the `Once` lock with its double-checked read, and Java memory visibility are all absent: every operation runs sequentially.
- PackageInfoTask.RunItems: runs the `Task` work items one after another, in package order. The Gradle worker queue may run them concurrently and in any order. When the targets are distinct and no item fails, each target ends up holding its text whatever the order of the items (`RunEstablishes`), and nothing outside the targets changes (`RunFrame`).
- FileTrees.FileSystem.Mkdirs: is atomic. A real `mkdirs` that fails part-way can leave some directories created.
- `Path.normalize()` and symbolic links in the source walk are not modelled. Relative paths are taken as the names below the root.
- `walkTopDown` and `walkBottomUp` are given as sequences of the tree's paths. Only the properties the code relies on are assumed: each entry appears once, and for `walkBottomUp` every entry comes after everything under it.
- PackageNames.CompareStrings: compares Dafny `char`s, which are Unicode code points, where `String.compareTo` compares UTF-16 code units. The two agree while both names lie in the Basic Multilingual Plane. A character above U+FFFF is one `char` here but two surrogate units in Java, so the order can differ: here U+FFFF sorts before U+10000, while Java puts `"\uFFFF"` after `"\uD800\uDC00"`.
- PackageNames.StringHash: is the 31-polynomial over code points, and `String.hashCode` is the polynomial over UTF-16 code units. The two agree on names within the Basic Multilingual Plane only. U+10000 hashes to 65536 here, while Java's hash of it is 31 * 0xD800 + 0xDC00 = 1770496.
- Bit sets are modelled as finite sets:
  - the `int` masks of the `duplicates` table in `canonicalize` are sets of indices;
  - the `short` set of visited keys is a set of keys.

  `bitCount` becomes cardinality, and `numberOfTrailingZeros` / `highestOneBit` become the least or greatest element. At most 32 indices and 16 keys occur, so each mask fits.
- `HashMap` iteration order is a parameter (`order` in `GetSubclass`). The results are proved for every order.
- Floating point is left out:
  - `SigilDrawSystem.tick` (echoesfrombeyond/src/main/java/org/echoesfrombeyond/echoesfrombeyond/sigil/SigilDrawSystem.java:57-123) moves the cursor and the highlight with trigonometry.
  - `maybeDrawLine` takes the highlighted point as given and does not assume it is on the grid.
  - The component's rotation vector and distances are `real` fields that are only copied.
- HUD and ECS plumbing are left out. `UICommandBuilder` calls are recorded as the commands they add. The validation event stores the component's live list, and when its handler runs is foreign behaviour.
- SigilPointCodec.IsDigit: lists the decimal-digit runs of the Basic Multilingual Plane as of Unicode 15.0. A Java runtime whose Unicode version adds a run there would accept more digits.
- The schema side of `SigilPointCodec` (`toSchema`) is not modelled. Only the string codec and the pattern it documents are.
- echoesfrombeyond's own copy of `SigilValidation` is not part of this model; the one modelled is main's.
- The `Check` class is not part of this model. `ArrayUtil.reverse` is modelled with the check it performs, through `Preconditions.inBounds`.
- The drawing model uses echoesfrombeyond's `SigilPoint` record (echoesfrombeyond/src/main/java/org/echoesfrombeyond/echoesfrombeyond/codec/SigilPoint.java) throughout, with its `isAdjacentTo`, which `maybeDrawLine` calls. `SigilDrawSystem` itself imports main's `SigilPoint` and main's `SigilDrawComponent`. Main's `SigilPoint` has no `isAdjacentTo`, and main's component is not part of this model. The echoesfrombeyond component, which holds echoesfrombeyond's points, stands in for both.
- `main`'s `BeginSigilDraw` imports a `SigilDrawComponent` that is not part of this model. The echoesfrombeyond component stands in for it.
- SigilCanonical.RotationChangesCanon: covers only the rotation half of finding 2. The reversal counterexample for closed loops, `[00,01,10,11,01,02,11,00]` against its reversal, is not proved.
- `TypeUtil.inheritanceDistance` and `traverseHierarchy` are parameters of the queries, not modelled reflection. The sample hierarchy of the tests is written out as `SampleDistance` and `SampleTraverse`.

## Findings

| source | as written | input that shows it | evidently intended | confidence | as-written member | corrected member |
|---|---|---|---|---|---|---|
| main/src/main/java/org/echoesfrombeyond/sigil/SigilValidation.java:59-61 | `pointOutsideGrid` compares the sign-extended `unpackX` with GRID_SIZE, so a byte with its high bit set and a low nibble of 0..3 counts as on the grid; `compactKey` of it is at least 32 and `duplicates[compactKey(p)]` throws ArrayIndexOutOfBoundsException | `{(byte)0x80, (byte)0x90}` | every such byte is outside the grid and the array is rejected with an empty result | not executed | SigilValidation.HighBitSigilThrows | SigilValidation.CanonicalizeUnsigned |
| main/src/main/java/org/echoesfrombeyond/sigil/SigilValidation.java:96-98 | the key starts a closed loop at the first occurrence of its smallest point, so when that point is visited more than once, two rotations of one loop can both be canonical and get different keys | the loop 01,02,12,01,10,11,01 and its rotation 01,10,11,01,02,12,01 | identical Sigils, drawn from any start and in either direction, give equal keys | not executed | SigilCanonical.RotationChangesCanon | SigilFigureKey.FigureKeyRotation |
| buildSrc/src/main/kotlin/org/echoesfrombeyond/gradle/task/GeneratePackageInfo.kt:52-57 | the output root relativises to the empty NIO path, which no non-empty `Path` starts with, so the root is deleted on every run, up-to-date files included | any tree with a package `a` whose `a/package-info.java` is up to date | keep the directories on the path of a package and the files in them, as `File.startsWith` does in the build script | not executed | PackageInfoTask.TaskCleanupEmptiesTree | PackageInfoTask.TaskIntendedKeepsPackages |
| echoesfrombeyond/src/main/java/org/echoesfrombeyond/echoesfrombeyond/codec/SigilPoint.java:57-62 | `Math.abs(x - other.x)` overflows: a difference of Integer.MIN_VALUE stays negative and passes `diffX <= 1` | `(0, 0)` and `(Integer.MIN_VALUE, 0)` are adjacent | adjacency compares the exact differences | not executed | SigilPoints.AdjacentOverflow | SigilPoints.ExactAdjacentMeaning |
