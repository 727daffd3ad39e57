/**
 * `org.echoesfrombeyond.sigil.SigilKey`: the key a canonicalised Sigil is stored under.
 * It holds the point array it is given (without copying it) and the `Arrays.hashCode` of
 * that array, computed once at construction. Equality, hashing and ordering are those of
 * the array contents.
 */
module SigilKeys {
  import opened JavaLang
  import SigilCanonical

  /** `Arrays.hashCode(byte[])` of the first `n` bytes: 1, then `31 * h + b` per byte, in 32-bit arithmetic. */
  function HashPrefix(s: seq<bv8>, n: nat): Int32
    requires n <= |s|
  {
    if n == 0 then 1 else Wrap32(31 * HashPrefix(s, n - 1) + Signed(s[n - 1]))
  }

  /** `Arrays.hashCode(byte[])` of the whole array. */
  function HashOf(s: seq<bv8>): Int32
  {
    HashPrefix(s, |s|)
  }

  /** The same polynomial in unbounded integers. */
  function HashPolynomial(s: seq<bv8>, n: nat): int
    requires n <= |s|
  {
    if n == 0 then 1 else 31 * HashPolynomial(s, n - 1) + Signed(s[n - 1])
  }

  lemma WrapShift(y: int, m: int)
    ensures Wrap32(y + 0x1_0000_0000 * m) == Wrap32(y)
  {
    var z := y + 0x8000_0000;
    assert (z + 0x1_0000_0000 * m) % 0x1_0000_0000 == z % 0x1_0000_0000;
  }

  lemma WrapLinear(x: int, e: int)
    ensures Wrap32(31 * Wrap32(x) + e) == Wrap32(31 * x + e)
  {
    var w := Wrap32(x);
    var m := (w - x) / 0x1_0000_0000;
    assert w == x + 0x1_0000_0000 * m;
    assert 31 * w + e == 31 * x + e + 0x1_0000_0000 * (31 * m);
    WrapShift(31 * x + e, 31 * m);
  }

  /**
   * Wrapping after every step gives the 32-bit reduction of the exact polynomial
   * `31^n + s[0]*31^(n-1) + ... + s[n-1]`: the hash depends on the contents alone.
   */
  lemma {:induction false} HashIsPolynomial(s: seq<bv8>, n: nat)
    requires n <= |s|
    ensures HashPrefix(s, n) == Wrap32(HashPolynomial(s, n))
  {
    if n > 0 {
      var p, e := HashPolynomial(s, n - 1), Signed(s[n - 1]);
      var h := HashPrefix(s, n - 1);
      HashIsPolynomial(s, n - 1);
      WrapLinear(p, e);
      var x := 31 * h + e;
      assert HashPrefix(s, n) == Wrap32(x);
      assert x == 31 * Wrap32(p) + e;
    }
  }

  /**
   * `Arrays.compare(byte[], byte[])` on two non-null arrays: at the first position where
   * they differ, the difference of the signed bytes (`Byte.compare`); when one is a prefix
   * of the other, the difference of the lengths.
   */
  function LexCompare(a: seq<bv8>, b: seq<bv8>): int
  {
    if a == [] || b == [] then |a| - |b|
    else if a[0] != b[0] then Signed(a[0]) - Signed(b[0])
    else LexCompare(a[1..], b[1..])
  }

  lemma SignedInjective(x: bv8, y: bv8)
    requires Signed(x) == Signed(y)
    ensures x == y
  {
    assert x as int == y as int;
    SameValueSameByte(x, y);
  }

  /** The comparison is zero exactly on equal contents. */
  lemma {:induction false} LexCompareZero(a: seq<bv8>, b: seq<bv8>)
    ensures LexCompare(a, b) == 0 <==> a == b
  {
    if a != [] && b != [] {
      if a[0] != b[0] {
        if Signed(a[0]) == Signed(b[0]) { SignedInjective(a[0], b[0]); }
      } else {
        LexCompareZero(a[1..], b[1..]);
        assert a == [a[0]] + a[1..] && b == [b[0]] + b[1..];
      }
    }
  }

  /** Swapping the operands negates the result. */
  lemma {:induction false} LexCompareAntisymmetric(a: seq<bv8>, b: seq<bv8>)
    ensures LexCompare(b, a) == -LexCompare(a, b)
  {
    if a != [] && b != [] && a[0] == b[0] {
      LexCompareAntisymmetric(a[1..], b[1..]);
    }
  }

  /** A proper prefix comes first. */
  lemma {:induction false} LexComparePrefix(a: seq<bv8>, b: seq<bv8>)
    requires |a| < |b| && a == b[..|a|]
    ensures LexCompare(a, b) < 0
  {
    if a != [] {
      assert a[0] == b[0];
      assert a[1..] == b[1..][..|a[1..]|];
      LexComparePrefix(a[1..], b[1..]);
    }
  }

  /** The order is transitive. */
  lemma {:induction false} LexCompareTransitive(a: seq<bv8>, b: seq<bv8>, c: seq<bv8>)
    requires LexCompare(a, b) < 0 && LexCompare(b, c) < 0
    ensures LexCompare(a, c) < 0
  {
    if a != [] && b != [] && c != [] && a[0] == b[0] && b[0] == c[0] {
      LexCompareTransitive(a[1..], b[1..], c[1..]);
    }
  }

  /** Dropping a common prefix does not change the comparison. */
  lemma {:induction false} LexCompareFrom(a: seq<bv8>, b: seq<bv8>, i: nat)
    requires i <= |a| && i <= |b| && a[..i] == b[..i]
    ensures LexCompare(a, b) == LexCompare(a[i..], b[i..])
  {
    if i > 0 {
      assert a[0] == a[..i][0] == b[..i][0] == b[0];
      assert a[1..][..i - 1] == a[..i][1..] == b[..i][1..] == b[1..][..i - 1];
      LexCompareFrom(a[1..], b[1..], i - 1);
      assert a[1..][i - 1..] == a[i..] && b[1..][i - 1..] == b[i..];
    }
  }

  /** The comparison is decided at the first position where the contents differ, or by the lengths. */
  lemma LexCompareMismatch(a: seq<bv8>, b: seq<bv8>, i: nat)
    requires i <= |a| && i <= |b| && a[..i] == b[..i]
    requires i == |a| || i == |b| || a[i] != b[i]
    ensures LexCompare(a, b) == if i == |a| || i == |b| then |a| - |b| else Signed(a[i]) - Signed(b[i])
  {
    LexCompareFrom(a, b, i);
    if i < |a| && i < |b| {
      assert a[i..][0] == a[i] && b[i..][0] == b[i];
    }
  }

  class SigilKey {
    const points: array<bv8>
    const hash: Int32

    /** The stored hash is the content hash of the stored array, and the array has a Java length. */
    ghost predicate Valid()
      reads points
    {
      hash == HashOf(points[..]) && points.Length <= INT_MAX
    }

    /** `SigilKey(byte[] points)`: keeps the array itself and hashes it with `Arrays.hashCode`. */
    constructor(pts: array<bv8>)
      requires pts.Length <= INT_MAX
      ensures points == pts && Valid()
    {
      var result: Int32 := 1;
      var i := 0;
      while i < pts.Length
        invariant 0 <= i <= pts.Length
        invariant result == HashPrefix(pts[..], i)
      {
        result := Wrap32(31 * result + Signed(pts[i]));
        i := i + 1;
      }
      points := pts;
      hash := result;
    }

    /** `hashCode`: the hash fixed at construction, which is the hash of the contents. */
    method HashCode() returns (h: Int32)
      requires Valid()
      ensures h == HashOf(points[..])
    {
      h := hash;
    }

    /** `equals(Object)`: another key with element-wise equal points (`Arrays.equals`). */
    method Equals(obj: SigilKey?) returns (r: bool)
      ensures r <==> obj != null && points[..] == obj.points[..]
    {
      if obj == null {
        return false;
      }
      if points.Length != obj.points.Length {
        return false;
      }
      var i := 0;
      while i < points.Length
        invariant 0 <= i <= points.Length
        invariant points[..i] == obj.points[..i]
      {
        if points[i] != obj.points[i] {
          return false;
        }
        assert points[..i + 1] == points[..i] + [points[i]];
        assert obj.points[..i + 1] == obj.points[..i] + [obj.points[i]];
        i := i + 1;
      }
      assert points[..] == points[..i] && obj.points[..] == obj.points[..i];
      return true;
    }

    /** `compareTo(SigilKey)`: `Arrays.compare` of the two point arrays; a null argument throws. */
    method CompareTo(other: SigilKey?) returns (r: Result<Int32>)
      requires Valid() && (other != null ==> other.Valid())
      ensures other == null ==> r == Threw(NullPointer)
      ensures other != null ==> r == Returned(LexCompare(points[..], other.points[..]))
    {
      if other == null {
        return Threw(NullPointer);
      }
      var a, b := points, other.points;
      var n := if a.Length < b.Length then a.Length else b.Length;
      var i := 0;
      while i < n && a[i] == b[i]
        invariant 0 <= i <= n
        invariant forall k :: 0 <= k < i ==> a[k] == b[k]
      {
        i := i + 1;
      }
      ghost var sa, sb := a[..], b[..];
      assert sa[..i] == sb[..i];
      LexCompareMismatch(sa, sb, i);
      if i < n {
        assert LexCompare(sa, sb) == Signed(a[i]) - Signed(b[i]);
        return Returned(Signed(a[i]) - Signed(b[i]));
      }
      assert LexCompare(sa, sb) == a.Length - b.Length;
      return Returned(a.Length - b.Length);
    }

    /**
     * `isCanonical`: false for fewer than two points, or when some point visited at `i` and
     * again at `j >= i + 3` closes a loop whose inner part is out of order (unsigned
     * `points[i + 1] > points[j - 1]`).
     */
    method IsCanonical() returns (r: bool)
      ensures r == SigilCanonical.IsCanonical(points[..])
    {
      if points.Length < 2 {
        return false;
      }
      ghost var s := points[..];
      var i := 0;
      while i < points.Length
        invariant 0 <= i <= points.Length
        invariant forall a: nat, b: nat :: a < i && a + 3 <= b < |s| ==> SigilCanonical.InOrder(s, a, b)
      {
        var first := points[i];
        var j := i + 1;
        while j < points.Length
          invariant i + 1 <= j <= points.Length
          invariant forall a: nat, b: nat :: a < i && a + 3 <= b < |s| ==> SigilCanonical.InOrder(s, a, b)
          invariant forall b: nat :: i + 3 <= b < j ==> SigilCanonical.InOrder(s, i, b)
        {
          var second := points[j];
          if first == second && j - i >= 3 {
            var small, large := points[i + 1], points[j - 1];
            if small > large {
              assert !SigilCanonical.InOrder(s, i, j);
              return false;
            }
          }
          j := j + 1;
        }
        i := i + 1;
      }
      return true;
    }
  }
}
