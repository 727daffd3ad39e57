/**
 * Sequence reversal, the specification of both `ArrayUtil.reverse` methods.
 */
module Reversal {

  /** The elements of `s` in the opposite order. */
  function Reversed<T>(s: seq<T>): (r: seq<T>)
    ensures |r| == |s|
  {
    if s == [] then [] else Reversed(s[1..]) + [s[0]]
  }

  /** `s` with its `count` elements from `start` on in the opposite order. */
  function ReverseRange<T>(s: seq<T>, start: nat, count: nat): (r: seq<T>)
    requires start + count <= |s|
    ensures |r| == |s|
  {
    s[..start] + Reversed(s[start..start + count]) + s[start + count..]
  }

  lemma {:induction false} ReversedAt<T>(s: seq<T>, k: nat)
    requires k < |s|
    ensures |Reversed(s)| == |s| && Reversed(s)[k] == s[|s| - 1 - k]
  {
    if k < |s| - 1 {
      ReversedAt(s[1..], k);
    }
  }

  /** Reversal swaps the first and the last element. */
  lemma ReversedEnds<T>(s: seq<T>)
    requires |s| > 0
    ensures Reversed(s)[0] == s[|s| - 1] && Reversed(s)[|s| - 1] == s[0]
  {
    ReversedAt(s, 0);
    ReversedAt(s, |s| - 1);
  }

  /** Reversal characterised element by element. */
  lemma ReversedIndexwise<T>(s: seq<T>, r: seq<T>)
    requires |r| == |s| && forall k :: 0 <= k < |s| ==> r[k] == s[|s| - 1 - k]
    ensures r == Reversed(s)
  {
    forall k | 0 <= k < |s| ensures r[k] == Reversed(s)[k] { ReversedAt(s, k); }
  }

  /** Reversing a sequence with one element added at the end puts that element first. */
  lemma {:induction false} ReversedSnoc<T>(s: seq<T>, e: T)
    ensures Reversed(s + [e]) == [e] + Reversed(s)
  {
    if s != [] {
      assert (s + [e])[1..] == s[1..] + [e];
      ReversedSnoc(s[1..], e);
    }
  }

  /** Reversing twice gives back the original. */
  lemma ReversedReversed<T>(s: seq<T>)
    ensures Reversed(Reversed(s)) == s
  {
    forall k | 0 <= k < |s| ensures Reversed(Reversed(s))[k] == s[k] {
      ReversedAt(Reversed(s), k);
      ReversedAt(s, |s| - 1 - k);
    }
  }

  /** Reversal keeps every element, with its multiplicity. */
  lemma {:induction false} ReversedMultiset<T>(s: seq<T>)
    ensures multiset(Reversed(s)) == multiset(s)
  {
    if s != [] {
      ReversedMultiset(s[1..]);
      assert s == [s[0]] + s[1..];
    }
  }

  /** Reversal neither adds nor loses an element. */
  lemma ReversedPoints<T>(s: seq<T>)
    ensures forall x :: x in Reversed(s) <==> x in s
  {
    ReversedMultiset(s);
    assert forall x :: x in Reversed(s) <==> x in multiset(Reversed(s));
  }

  /** The element at each position after a range reversal. */
  lemma ReverseRangeAt<T>(s: seq<T>, start: nat, count: nat, k: nat)
    requires start + count <= |s| && k < |s|
    ensures |ReverseRange(s, start, count)| == |s|
    ensures ReverseRange(s, start, count)[k]
         == if start <= k < start + count then s[2 * start + count - 1 - k] else s[k]
  {
    if start <= k < start + count {
      ReversedAt(s[start..start + count], k - start);
    }
  }

  /** Reversing the same range twice gives back the original. */
  lemma ReverseRangeTwice<T>(s: seq<T>, start: nat, count: nat)
    requires start + count <= |s|
    ensures ReverseRange(ReverseRange(s, start, count), start, count) == s
  {
    var r := ReverseRange(s, start, count);
    forall k | 0 <= k < |s| ensures ReverseRange(r, start, count)[k] == s[k] {
      ReverseRangeAt(r, start, count, k);
      if start <= k < start + count {
        ReverseRangeAt(s, start, count, 2 * start + count - 1 - k);
      } else {
        ReverseRangeAt(s, start, count, k);
      }
    }
  }

  /** A range reversal only permutes the elements. */
  lemma ReverseRangeMultiset<T>(s: seq<T>, start: nat, count: nat)
    requires start + count <= |s|
    ensures multiset(ReverseRange(s, start, count)) == multiset(s)
  {
    ReversedMultiset(s[start..start + count]);
    assert s == s[..start] + s[start..start + count] + s[start + count..];
  }

  /** Reversing the whole sequence as a range is plain reversal. */
  lemma ReverseRangeWhole<T>(s: seq<T>)
    ensures ReverseRange(s, 0, |s|) == Reversed(s)
  {
    assert s[0..|s|] == s;
  }

  /** Reversing a range of fewer than two elements changes nothing. */
  lemma ReverseShortRange<T>(s: seq<T>, start: nat, count: nat)
    requires start + count <= |s| && count < 2
    ensures ReverseRange(s, start, count) == s
  {
    assert Reversed(s[start..start + count]) == s[start..start + count];
    assert s == s[..start] + s[start..start + count] + s[start + count..];
  }
}

/**
 * `org.echoesfrombeyond.util.ArrayUtil`: the unchecked in-place reversal that
 * `SigilValidation` uses.
 */
module ArrayUtil {
  import opened JavaLang
  import opened Reversal

  /** `s` with the elements at `a` and `b` exchanged. */
  function Swap(s: seq<bv8>, a: nat, b: nat): (r: seq<bv8>)
    requires a < |s| && b < |s|
    ensures |r| == |s|
  {
    s[a := s[b]][b := s[a]]
  }

  /**
   * `s` after the first `i` steps of the swap loop: step `k` exchanges the positions `k`
   * places in from either end of the range.
   */
  function Swapped(s: seq<bv8>, start: nat, count: nat, i: nat): (r: seq<bv8>)
    requires start + count <= |s| && 2 * i <= count
    ensures |r| == |s|
  {
    if i == 0 then s else Swap(Swapped(s, start, count, i - 1), start + i - 1, start + count - i)
  }

  /** After `i` steps the outer `i` elements at either end of the range are mirrored, the rest untouched. */
  lemma {:induction false} SwappedAt(s: seq<bv8>, start: nat, count: nat, i: nat, k: nat)
    requires start + count <= |s| && 2 * i <= count && k < |s|
    ensures Swapped(s, start, count, i)[k]
         == if start <= k < start + i || start + count - i <= k < start + count
            then s[2 * start + count - 1 - k] else s[k]
  {
    if i > 0 {
      SwappedAt(s, start, count, i - 1, k);
      SwappedAt(s, start, count, i - 1, start + i - 1);
      SwappedAt(s, start, count, i - 1, start + count - i);
    }
  }

  /** `count / 2` steps reverse the range: at most one middle element is left, and it stays put. */
  lemma SwappedReversed(s: seq<bv8>, start: nat, count: nat, half: nat)
    requires start + count <= |s| && 0 <= count - 2 * half <= 1
    ensures Swapped(s, start, count, half) == ReverseRange(s, start, count)
  {
    forall k | 0 <= k < |s| ensures Swapped(s, start, count, half)[k] == ReverseRange(s, start, count)[k] {
      SwappedAt(s, start, count, half, k);
      ReverseRangeAt(s, start, count, k);
    }
  }

  /**
   * `reverse(array, startInclusive, count)`: swaps the ends of the range inward for
   * `count / 2` steps. It checks nothing, so an out-of-range index surfaces as Java's own
   * bounds failure; the model asks its caller for a range the swaps stay inside.
   */
  method Reverse(arr: array<bv8>, startInclusive: Int32, count: Int32)
    requires count < 2 || (0 <= startInclusive && startInclusive + count <= arr.Length)
    modifies arr
    ensures count < 2 ==> arr[..] == old(arr[..])
    ensures count >= 2 ==> arr[..] == ReverseRange(old(arr[..]), startInclusive, count)
  {
    var endExclusive := startInclusive + count;
    var half := JavaHalf(count);
    ghost var s := arr[..];
    var i := 0;
    while i < half
      invariant count < 2 ==> i == 0 && arr[..] == s
      invariant count >= 2 ==> 0 <= i <= half && arr[..] == Swapped(s, startInclusive, count, i)
    {
      var firstIndex := startInclusive + i;
      var secondIndex := endExclusive - i - 1;
      var temp := arr[firstIndex];
      arr[firstIndex] := arr[secondIndex];
      arr[secondIndex] := temp;
      i := i + 1;
    }
    if count >= 2 {
      SwappedReversed(s, startInclusive, count, half);
    }
  }
}

/**
 * `org.echoesfrombeyond.util.array.ArrayUtil`: the same reversal behind the library's
 * range check, which rejects a bad range before anything is swapped.
 */
module CheckedArrayUtil {
  import opened JavaLang
  import opened Reversal
  import Preconditions
  import ArrayUtil

  /**
   * `reverse(array, startInclusive, count)`: `Check.inBounds(array, startInclusive, count)`
   * first, then the same swap loop as the unchecked variant. A failed check throws and
   * leaves the array unchanged.
   */
  method Reverse(arr: array?<bv8>, startInclusive: Int32, count: Int32) returns (r: Result<()>)
    requires arr != null ==> arr.Length <= INT_MAX
    modifies arr
    ensures arr == null ==> r == Threw(NullPointer)
    ensures arr != null ==> r == Preconditions.InBounds(Some(arr.Length), startInclusive, count)
    ensures arr != null && r.Threw? ==> arr[..] == old(arr[..])
    ensures arr != null && r.Returned? ==>
      0 <= startInclusive && 0 <= count && startInclusive + count <= arr.Length &&
      arr[..] == ReverseRange(old(arr[..]), startInclusive, count)
  {
    if arr == null {
      return Threw(NullPointer);
    }
    r := Preconditions.InBounds(Some(arr.Length), startInclusive, count);
    if r.Threw? {
      return;
    }
    Preconditions.InBoundsOutcome(Some(arr.Length), startInclusive, count);
    ArrayUtil.Reverse(arr, startInclusive, count);
    if count < 2 {
      ReverseShortRange(old(arr[..]), startInclusive, count);
    }
  }
}
