/**
 * The pieces of the Java language the modelled code relies on: the `byte` and `int`
 * primitive types with their two's-complement behaviour, `java.util.Optional`, and the
 * exceptions the modelled methods can raise.
 *
 * A Java `byte` is modelled by its bit pattern, a `bv8`; `Signed` gives the `int` value
 * Java sees after promotion and `SignExtend` the 32 bits of that promotion. A Java `int`
 * is an `Int32`, an integer in the 32-bit range; arithmetic that may overflow goes
 * through `Wrap32`.
 */
module JavaLang {

  type Int32 = x: int | -0x8000_0000 <= x < 0x8000_0000

  const INT_MIN: Int32 := -0x8000_0000
  const INT_MAX: Int32 := 0x7FFF_FFFF

  /** The exceptions the modelled code can throw. */
  datatype Throwable =
    | ArrayIndexOutOfBounds
    | IllegalArgument
    | NullPointer
    | IllegalState
    | InvalidObject
    | NumberFormat
    | IndexOutOfBounds
    | Thrown(name: string)   // anything thrown by code outside the model (a supplier, I/O)

  /** `java.util.Optional`. */
  datatype Option<T> = None | Some(value: T)

  /** A Java call that either returns a value or completes abruptly with an exception. */
  datatype Result<T> = Returned(value: T) | Threw(error: Throwable)

  /** The `int` value of a byte: Java's sign-extending widening conversion. */
  function Signed(b: bv8): (v: int)
    ensures -128 <= v < 128
    ensures v % 256 == b as int % 256
  {
    var n := b as int;
    if n < 128 then n else n - 256
  }

  /** The 32 bits of a byte promoted to `int`. */
  function SignExtend(b: bv8): bv32
  {
    if b & 0x80 != 0 then (b as bv32) | 0xFFFF_FF00 else b as bv32
  }

  /** The `(byte)` narrowing cast of a 32-bit value: its low 8 bits. */
  function Trunc8(x: bv32): bv8
  {
    (x & 0xFF) as bv8
  }

  const HEX_DIGITS: seq<bv8> := [0x0, 0x1, 0x2, 0x3, 0x4, 0x5, 0x6, 0x7, 0x8, 0x9, 0xA, 0xB, 0xC, 0xD, 0xE, 0xF]

  /** The four-bit pattern of a number below 16. */
  function Nibble(n: int): (b: bv8)
    requires 0 <= n < 16
    ensures b as int == n && b < 16
  {
    HEX_DIGITS[n]
  }

  /** The `(byte)` narrowing cast of an `int` value: its low 8 bits, assembled nibble by nibble. */
  function Low8(x: int): (b: bv8)
    ensures b as int == x % 256
  {
    var n := x % 256;
    var hi, lo := Nibble(n / 16), Nibble(n % 16);
    assert ((hi << 4) | lo) as int == 16 * (hi as int) + lo as int;
    (hi << 4) | lo
  }

  /** The `int` that 32-bit two's-complement arithmetic produces for the exact value `x`. */
  function Wrap32(x: int): (r: Int32)
    ensures (r - x) % 0x1_0000_0000 == 0
    ensures INT_MIN <= x <= INT_MAX ==> r == x
  {
    (x + 0x8000_0000) % 0x1_0000_0000 - 0x8000_0000
  }

  /** `Math.abs(int)`: the absolute value, except that `Math.abs(Integer.MIN_VALUE)` is itself. */
  function Abs(x: Int32): (r: Int32)
    ensures x != INT_MIN ==> r >= 0 && (r == x || r == -x)
    ensures x == INT_MIN ==> r == INT_MIN
  {
    if x < 0 then Wrap32(-(x as int)) else x
  }

  /** The mathematical absolute value. */
  function AbsInt(x: int): nat { if x < 0 then -x else x }

  /**
   * Java's `a / 2` on `int`: the half rounded toward zero, so that the remainder takes the
   * sign of the dividend (Dafny's own `/` is Euclidean and rounds a negative odd number down).
   */
  function JavaHalf(a: int): (q: int)
    ensures a >= 0 ==> 0 <= a - 2 * q <= 1
    ensures a < 0 ==> -1 <= a - 2 * q <= 0
  {
    if a < 0 then -((-a) / 2) else a / 2
  }

  /** Two bytes with the same numeric value are the same bit pattern. */
  lemma SameValueSameByte(a: bv8, b: bv8)
    requires a as int == b as int
    ensures a == b
  {
  }

  /**
   * `Character.isWhitespace`: the Unicode space, line and paragraph separators other than the
   * non-breaking ones, and the ASCII controls TAB, LF, VT, FF, CR and FS..US.
   */
  predicate IsWhitespace(c: char)
  {
    c == ' ' || c == '\t' || c == '\n' || c == '\U{000B}' || c == '\U{000C}' || c == '\r'
    || ('\U{001C}' <= c <= '\U{001F}')
    || c == '\U{1680}' || ('\U{2000}' <= c <= '\U{2006}') || ('\U{2008}' <= c <= '\U{200A}')
    || c == '\U{2028}' || c == '\U{2029}' || c == '\U{205F}' || c == '\U{3000}'
  }
}
