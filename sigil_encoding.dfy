/**
 * How a Sigil point is packed into one byte, and the byte-level helpers of
 * `SigilValidation`: the grid constants, `encodePoint`, `unpackX`, `unpackY`,
 * `pointOutsideGrid` and the perfect-hash `compactKey`.
 *
 * A point (x, y) of the 4x4 grid is the byte whose high nibble is x and whose low nibble
 * is y. `X` and `Y` read those nibbles as unsigned numbers and `InGrid` says the point
 * lies on the grid; they are the intended meaning against which the bit-level helpers
 * are proved. The helpers themselves are written as the Java code computes them, on the
 * sign-extended `int` promotion of the byte.
 */
module SigilEncoding {
  import opened JavaLang

  const GRID_SIZE: int := 4
  const MAX_SIGIL_LENGTH: int := 32
  const X_MASK: bv8 := 0xF0
  const X_SHIFT: nat := 4
  const Y_MASK: bv8 := 0x0F
  /** `X_SHIFT - Integer.numberOfTrailingZeros(GRID_SIZE)`, with GRID_SIZE = 2^2. */
  const COMPACT_SHIFT: nat := X_SHIFT - 2
  const TABLE_SIZE: int := GRID_SIZE * GRID_SIZE

  /** The column of a point: its high nibble, unsigned. */
  function X(p: bv8): nat { (p >> 4) as int }

  /** The row of a point: its low nibble. */
  function Y(p: bv8): nat { (p & 0x0F) as int }

  /** The point lies on the GRID_SIZE x GRID_SIZE grid. */
  predicate InGrid(p: bv8) { X(p) < GRID_SIZE && Y(p) < GRID_SIZE }

  /** `unpackX`: `(byte) ((point & X_MASK) >>> X_SHIFT)` on the promoted byte. */
  function UnpackX(point: bv8): bv8
  {
    Trunc8((SignExtend(point) & SignExtend(X_MASK)) >> X_SHIFT)
  }

  /** `unpackY`: `(byte) (point & Y_MASK)`. */
  function UnpackY(point: bv8): bv8
  {
    Trunc8(SignExtend(point) & SignExtend(Y_MASK))
  }

  /** `pointOutsideGrid`, with the signed comparison of the Java code. */
  predicate PointOutsideGrid(point: bv8)
  {
    Signed(UnpackX(point)) >= GRID_SIZE || Signed(UnpackY(point)) >= GRID_SIZE
  }

  /**
   * The grid check as it is evidently meant: the column is read from the unsigned byte
   * (`Byte.toUnsignedInt(point) >>> X_SHIFT`), so no byte with its top bit set passes.
   */
  predicate PointOutsideGridUnsigned(point: bv8)
  {
    ((point as bv32) >> X_SHIFT) as int >= GRID_SIZE || Signed(UnpackY(point)) >= GRID_SIZE
  }

  /** `compactKey`: `(unsigned >>> COMPACT_SHIFT) | (unsigned & Y_MASK)`. */
  function CompactKey(point: bv8): nat
  {
    var unsigned := point as bv32;
    ((unsigned >> COMPACT_SHIFT) | (unsigned & SignExtend(Y_MASK))) as int
  }

  /** `encodePoint`: `(byte) (((x << X_SHIFT) & X_MASK) | (y & Y_MASK))`; the cast keeps the low 8 bits. */
  function EncodePoint(x: Int32, y: Int32): bv8
  {
    ((Low8(x) << X_SHIFT) & X_MASK) | (Low8(y) & Y_MASK)
  }

  // ---------------------------------------------------------------------------------------
  // Bit-level facts. Each lemma stays either in bit-vectors or in integers: the solver
  // handles either quickly and their mixture slowly.

  lemma UnpackYBits(p: bv8)
    ensures UnpackY(p) == p & 0x0F
  {
  }

  lemma UnpackXBits(p: bv8)
    ensures UnpackX(p) == if p < 0x80 then p >> 4 else (p >> 4) | 0xF0
  {
  }

  lemma NibbleValues(p: bv8)
    ensures (p & 0x0F) as int == p as int % 16
    ensures (p >> 4) as int == p as int / 16
    ensures p as int == 16 * ((p >> 4) as int) + (p & 0x0F) as int
  {
  }

  lemma HighNibbleSet(p: bv8)
    requires p >= 0x80
    ensures ((p >> 4) | 0xF0) as int == (p >> 4) as int + 0xF0
  {
  }

  lemma EncodedNibbles(a: bv8, b: bv8)
    ensures (((a << X_SHIFT) & X_MASK) | (b & Y_MASK)) >> 4 == a & 0x0F
    ensures (((a << X_SHIFT) & X_MASK) | (b & Y_MASK)) & 0x0F == b & 0x0F
  {
  }

  lemma ModOfMod(x: int)
    ensures (x % 256) % 16 == x % 16
  {
    var q, r := x / 256, x % 256;
    assert x == 256 * q + r;
    assert r == 16 * (r / 16) + r % 16;
    assert x == 16 * (16 * q + r / 16) + r % 16;
  }

  // ---------------------------------------------------------------------------------------
  // What the helpers compute.

  /** `unpackX` yields the signed byte divided by 16, rounded down: -8..7. */
  lemma UnpackXValue(p: bv8)
    ensures Signed(UnpackX(p)) == Signed(p) / 16
    ensures -8 <= Signed(UnpackX(p)) < 8
  {
    UnpackXBits(p);
    NibbleValues(p);
    if p >= 0x80 { HighNibbleSet(p); }
  }

  /** `unpackY` yields the low nibble: 0..15. */
  lemma UnpackYValue(p: bv8)
    ensures Signed(UnpackY(p)) == Y(p) == p as int % 16
  {
    UnpackYBits(p);
    NibbleValues(p);
  }

  /** On the grid, the unpacked coordinates are the column and the row. */
  lemma UnpackInGrid(p: bv8)
    requires InGrid(p)
    ensures Signed(UnpackX(p)) == X(p) && Signed(UnpackY(p)) == Y(p)
  {
    UnpackXValue(p);
    UnpackYValue(p);
    NibbleValues(p);
  }

  /**
   * The grid check as written lets through exactly the grid points and the bytes with the
   * top bit set whose row is on the grid: their column unpacks to -8..-1.
   */
  lemma GridCheckAsWritten(p: bv8)
    ensures !PointOutsideGrid(p) <==> InGrid(p) || (p >= 0x80 && Y(p) < GRID_SIZE)
  {
    UnpackXValue(p);
    UnpackYValue(p);
    NibbleValues(p);
  }

  /** The corrected grid check lets through exactly the grid points. */
  lemma GridCheckUnsigned(p: bv8)
    ensures !PointOutsideGridUnsigned(p) <==> InGrid(p)
  {
    UnpackYValue(p);
  }

  lemma CompactKeyBits(p: bv8)
    requires InGrid(p)
    ensures CompactKey(p) == ((p >> 2) | (p & 0x0F)) as int
    ensures (p >> 2) | (p & 0x0F) == ((p >> 4) << 2) | (p & 0x0F)
  {
  }

  /** On the grid the key is 4x + y: a perfect hash into 0..15. */
  lemma CompactKeyInGrid(p: bv8)
    requires InGrid(p)
    ensures CompactKey(p) == 4 * X(p) + Y(p) < TABLE_SIZE
  {
    CompactKeyBits(p);
    var k := ((p >> 4) << 2) | (p & 0x0F);
    assert k >> 2 == p >> 4 && k & 0x03 == p & 0x0F && k < 16;
    NibbleValues(p);
    assert k as int == 4 * ((k >> 2) as int) + (k & 0x03) as int;
  }

  /** Distinct grid points have distinct keys. */
  lemma CompactKeyInjective(p: bv8, q: bv8)
    requires InGrid(p) && InGrid(q) && CompactKey(p) == CompactKey(q)
    ensures p == q
  {
    CompactKeyInGrid(p);
    CompactKeyInGrid(q);
    NibbleValues(p);
    NibbleValues(q);
    SameValueSameByte(p, q);
  }

  lemma CompactKeyHighBitBits(p: bv8)
    requires p >= 0x80
    ensures ((p as bv32 >> COMPACT_SHIFT) | (p as bv32 & 0x0F)) >= 32
  {
  }

  /** A byte with its top bit set has a key of at least 32, past the end of the table. */
  lemma CompactKeyHighBit(p: bv8)
    requires p >= 0x80
    ensures CompactKey(p) >= 32 > TABLE_SIZE
  {
    CompactKeyHighBitBits(p);
  }

  lemma EncodePointArith(x: int, y: int, c: int)
    requires c == 16 * ((x % 256) % 16) + (y % 256) % 16
    ensures c == 16 * (x % 16) + y % 16
  {
    ModOfMod(x);
    ModOfMod(y);
  }

  /** The byte encodePoint builds: x and y taken modulo 16. */
  lemma EncodePointValue(x: Int32, y: Int32)
    ensures EncodePoint(x, y) as int == 16 * (x % 16) + y % 16
  {
    var a, b, c := Low8(x), Low8(y), EncodePoint(x, y);
    EncodedNibbles(a, b);
    NibbleValues(a);
    NibbleValues(b);
    NibbleValues(c);
    EncodePointArith(x, y, c as int);
  }

  lemma DecodeArith(x: int, y: int, c: int, s: int)
    requires -8 <= x < 8 && 0 <= y < 16 && c == 16 * (x % 16) + y % 16
    requires s == if c < 128 then c else c - 256
    ensures s / 16 == x && c % 16 == y
  {
    if x < 0 {
      assert c == 16 * (x + 16) + y;
      assert s == 16 * x + y;
    }
  }

  lemma EncodeArith(n: int, x: int, y: int)
    requires 0 <= n < 256 && y == n % 16
    requires x == (if n < 128 then n else n - 256) / 16
    ensures 16 * (x % 16) + y % 16 == n
  {
    var s := if n < 128 then n else n - 256;
    assert s == 16 * x + s % 16;
    assert s % 16 == y;
  }

  /**
   * Unpacking undoes encodePoint exactly on the coordinates a nibble can hold: x in -8..7
   * (the high nibble is read signed) and y in 0..15.
   */
  lemma UnpackEncodePoint(x: Int32, y: Int32)
    ensures (Signed(UnpackX(EncodePoint(x, y))) == x && Signed(UnpackY(EncodePoint(x, y))) == y)
        <==> (-8 <= x < 8 && 0 <= y < 16)
  {
    var c := EncodePoint(x, y);
    EncodePointValue(x, y);
    UnpackXValue(c);
    UnpackYValue(c);
    if -8 <= x < 8 && 0 <= y < 16 {
      DecodeArith(x, y, c as int, Signed(c));
    }
  }

  /** Every byte is the encoding of its unpacked coordinates. */
  lemma EncodePointOfUnpacked(p: bv8)
    ensures EncodePoint(Signed(UnpackX(p)), Signed(UnpackY(p))) == p
  {
    var x, y := Signed(UnpackX(p)), Signed(UnpackY(p));
    UnpackXValue(p);
    UnpackYValue(p);
    EncodePointValue(x, y);
    EncodeArith(p as int, x, y);
    SameValueSameByte(EncodePoint(x, y), p);
  }

  lemma GridArith(x: int, y: int, c: int)
    requires 0 <= x < GRID_SIZE && 0 <= y < GRID_SIZE && c == 16 * (x % 16) + y % 16
    ensures c / 16 == x && c % 16 == y
  {
  }

  /** A grid coordinate pair encodes to the grid point with that column and row. */
  lemma EncodePointInGrid(x: Int32, y: Int32)
    requires 0 <= x < GRID_SIZE && 0 <= y < GRID_SIZE
    ensures InGrid(EncodePoint(x, y)) && X(EncodePoint(x, y)) == x && Y(EncodePoint(x, y)) == y
  {
    var c := EncodePoint(x, y);
    EncodePointValue(x, y);
    NibbleValues(c);
    GridArith(x, y, c as int);
  }
}
