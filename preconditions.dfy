/**
 * `Preconditions`: the argument checks of the utility library. Each check either returns
 * normally or throws, so each is a function to `Result<()>` (or to the checked value).
 */
module Preconditions {
  import opened JavaLang

  /**
   * `checkInRange(arrayLen, index, len)`: the index must lie inside the array, and the
   * exclusive end `index + len`, computed in 32-bit arithmetic, must neither wrap below
   * `index` nor pass the array's end.
   */
  function CheckInRange(arrayLen: Int32, index: Int32, len: Int32): Result<()>
    requires arrayLen >= 0
  {
    if index < 0 || index >= arrayLen then Threw(ArrayIndexOutOfBounds)
    else
      var toIndexExclusive := Wrap32(index + len);
      if toIndexExclusive < index || toIndexExclusive > arrayLen then Threw(IllegalArgument)
      else Returned(())
  }

  /**
   * The check passes exactly for a non-empty array, an index inside it and a length that
   * keeps the range inside it; an index outside the array is reported before the length.
   */
  lemma CheckInRangeExact(arrayLen: Int32, index: Int32, len: Int32)
    requires arrayLen >= 0
    ensures CheckInRange(arrayLen, index, len).Returned?
        <==> 0 <= index < arrayLen && 0 <= len && index + len <= arrayLen
    ensures CheckInRange(arrayLen, index, len) == Threw(ArrayIndexOutOfBounds)
        <==> !(0 <= index < arrayLen)
  {
    if 0 <= index < arrayLen {
      if len >= 0 && index + len > INT_MAX {
        assert Wrap32(index + len) == index + len - 0x1_0000_0000;
      }
    }
  }

  /** `nonNull`: throws `NullPointerException` on null, otherwise returns its argument. */
  function NonNull<T>(o: Option<T>): (r: Result<T>)
    ensures r.Returned? <==> o.Some?
    ensures r.Returned? ==> r.value == o.value
    ensures r.Threw? ==> r.error == NullPointer
  {
    match o
    case None => Threw(NullPointer)
    case Some(v) => Returned(v)
  }

  /**
   * `inBounds(array, start, len)`: null check, then the range check against the array's
   * length. The array is given by its length; `None` is a null reference.
   */
  function InBounds(arrayLength: Option<Int32>, start: Int32, len: Int32): Result<()>
    requires arrayLength.Some? ==> arrayLength.value >= 0
  {
    match NonNull(arrayLength)
    case Threw(e) => Threw(e)
    case Returned(n) => CheckInRange(n, start, len)
  }

  /** What `inBounds` accepts and how it reports each failure. */
  lemma InBoundsOutcome(arrayLength: Option<Int32>, start: Int32, len: Int32)
    requires arrayLength.Some? ==> arrayLength.value >= 0
    ensures arrayLength.None? ==> InBounds(arrayLength, start, len) == Threw(NullPointer)
    ensures arrayLength.Some? ==>
      (InBounds(arrayLength, start, len).Returned? <==>
         0 <= start < arrayLength.value && 0 <= len && start + len <= arrayLength.value)
  {
    if arrayLength.Some? {
      CheckInRangeExact(arrayLength.value, start, len);
    }
  }

  /** The cases the library's own tests exercise. */
  lemma CheckInRangeExamples()
    ensures CheckInRange(1, 0, 0) == Returned(())
    ensures CheckInRange(0, 0, 0) == Threw(ArrayIndexOutOfBounds)
    ensures CheckInRange(3, 0, 3) == Returned(())
    ensures CheckInRange(3, 0, 4) == Threw(IllegalArgument)
    ensures CheckInRange(INT_MAX, INT_MAX - 1, INT_MIN) == Threw(IllegalArgument)
    ensures CheckInRange(10, 5, -1) == Threw(IllegalArgument)
  {
  }
}
