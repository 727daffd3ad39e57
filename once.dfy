/**
 * `Once`: a supplier that computes its value on the first `get` and caches it. The states
 * are NORMAL, CALLING_SUPPLIER (the supplier is running) and EXCEPTION_THROWN (the supplier
 * failed, and never runs again). The lock is left out: the model is sequential.
 *
 * The supplier is code outside the model, and it may itself call `get` on the same instance.
 * So `get` is split at the supplier call: `Get` either answers at once or starts the call
 * (`CallSupplier`), and `SupplierCompleted` receives how the supplier finished. A `Get`
 * between the two is a reentrant call.
 */
module OnceCell {
  import opened JavaLang

  datatype State = CallingSupplier | ExceptionThrown | Normal

  /** How `get` goes on: with a value, with an exception, or by calling the supplier. */
  datatype GetStep<T> = Value(value: T) | Raised(error: Throwable) | CallSupplier

  /**
   * `Once<T>`. `value` is `None` while it holds the UNINIT sentinel; the supplier may return
   * any `T`, null included, and that is cached like every other value.
   */
  class Once<T> {
    var value: Option<T>
    var state: State
    /** How many times the supplier has been called. */
    ghost var calls: nat

    /**
     * The states `Once` can be in: not called yet; calling; failed; or holding the
     * value the one call returned.
     */
    ghost predicate Valid()
      reads this
    {
      calls <= 1
      && (calls == 0 ==> value.None? && state == Normal)
      && (state == CallingSupplier ==> calls == 1 && value.None?)
      && (state == ExceptionThrown ==> calls == 1 && value.None?)
      && (value.Some? ==> calls == 1 && state == Normal)
      && (value.None? && state == Normal ==> calls == 0)
    }

    /** The private constructor: UNINIT and NORMAL. */
    constructor()
      ensures Valid() && value == None && state == Normal && calls == 0
    {
      value := None;
      state := Normal;
      calls := 0;
    }

    /**
     * `get()` up to the supplier call: a cached value is returned; a call made while the
     * supplier runs, or after it failed, throws IllegalStateException; otherwise the state
     * becomes CALLING_SUPPLIER and the supplier is called.
     */
    method Get() returns (r: GetStep<T>)
      requires Valid()
      modifies this
      ensures Valid()
      ensures old(value).Some? ==> r == Value(old(value).value) && state == old(state) && calls == old(calls)
      ensures old(value).None? && old(state) != Normal ==>
        r == Raised(IllegalState) && state == old(state) && calls == old(calls)
      ensures old(value).None? && old(state) == Normal ==>
        r == CallSupplier && state == CallingSupplier && calls == old(calls) + 1 == 1
      ensures value == old(value)
    {
      var current := value;
      if current.Some? {
        return Value(current.value);
      }
      if state == CallingSupplier {
        return Raised(IllegalState);
      }
      if state == ExceptionThrown {
        return Raised(IllegalState);
      }
      // The source reads `value` again here, under the lock, for a value another thread
      // stored meanwhile; run sequentially, that second read sees the first one's UNINIT.
      state := CallingSupplier;
      calls := calls + 1;
      r := CallSupplier;
    }

    /**
     * The rest of `get()`: a value the supplier returns is cached and returned and the state
     * goes back to NORMAL; an exception from the supplier leaves EXCEPTION_THROWN behind and
     * propagates.
     */
    method SupplierCompleted(outcome: Result<T>) returns (r: Result<T>)
      requires Valid() && state == CallingSupplier
      modifies this
      ensures Valid() && r == outcome && calls == old(calls)
      ensures outcome.Returned? ==> value == Some(outcome.value) && state == Normal
      ensures outcome.Threw? ==> value == None && state == ExceptionThrown
    {
      if outcome.Returned? {
        value := Some(outcome.value);
        state := Normal;
      }
      if state == CallingSupplier {
        state := ExceptionThrown;
      }
      r := outcome;
    }

    /**
     * A whole `get()` whose supplier, if called, does not call back into this instance and
     * finishes with `outcome`.
     */
    method GetWith(outcome: Result<T>) returns (r: Result<T>)
      requires Valid() && state != CallingSupplier
      modifies this
      ensures Valid() && state != CallingSupplier
      ensures old(value).Some? ==> r == Returned(old(value).value) && value == old(value) && calls == old(calls)
      ensures old(value).None? && old(state) == ExceptionThrown ==>
        r == Threw(IllegalState) && state == ExceptionThrown && calls == old(calls)
      ensures old(value).None? && old(state) == Normal ==> r == outcome && calls == 1
      ensures old(value).None? && old(state) == Normal && outcome.Returned? ==> value == Some(outcome.value)
      ensures old(value).None? && old(state) == Normal && outcome.Threw? ==> value == None && state == ExceptionThrown
    {
      var step := Get();
      match step
      case Value(v) => r := Returned(v);
      case Raised(e) => r := Threw(e);
      case CallSupplier => r := SupplierCompleted(outcome);
    }
  }

  /** What `Once.of` is given: null, an instance of `Once`, or any other supplier. */
  datatype Getter<T> = NullGetter | OnceGetter(once: Once<T>) | OtherGetter

  /**
   * `Once.of(getter)`: null throws NullPointerException, a `Once` is returned as it is, and
   * any other supplier is wrapped in a new `Once` that has not called it.
   */
  method Of<T>(getter: Getter<T>) returns (r: Result<Once<T>>)
    ensures getter.NullGetter? ==> r == Threw(NullPointer)
    ensures getter.OnceGetter? ==> r == Returned(getter.once)
    ensures getter.OtherGetter? ==>
      r.Returned? && fresh(r.value) && r.value.Valid() && r.value.value == None && r.value.calls == 0
  {
    match getter
    case NullGetter => r := Threw(NullPointer);
    case OnceGetter(once) => r := Returned(once);
    case OtherGetter =>
      var once := new Once<T>();
      r := Returned(once);
  }

  /**
   * Two `get` calls on a new instance: the supplier runs once, for the first, and the
   * second returns the same value, even when that value is null.
   */
  method GetTwice<T>(answer: T) returns (first: Result<T>, second: Result<T>, ghost calls: nat)
    ensures first == Returned(answer) && second == Returned(answer) && calls == 1
  {
    var once := new Once<T>();
    first := once.GetWith(Returned(answer));
    second := once.GetWith(Returned(answer));
    calls := once.calls;
  }

  /**
   * A supplier that fails is not called again: the first `get` throws what it threw, and
   * every later `get` throws IllegalStateException.
   */
  method FailedSupplierStaysFailed<T>(error: Throwable, later: Result<T>)
    returns (first: Result<T>, second: Result<T>, ghost calls: nat)
    ensures first == Threw(error) && second == Threw(IllegalState) && calls == 1
  {
    var once := new Once<T>();
    first := once.GetWith(Threw(error));
    second := once.GetWith(later);
    calls := once.calls;
  }

  /**
   * A supplier that calls `get` on its own instance: the inner call throws
   * IllegalStateException. When the supplier lets that propagate, the outer `get` throws it
   * too and the instance is left in EXCEPTION_THROWN.
   */
  method ReentrantGetThrows<T>() returns (inner: GetStep<T>, outer: Result<T>, state: State)
    ensures inner == Raised(IllegalState) && outer == Threw(IllegalState) && state == ExceptionThrown
  {
    var once := new Once<T>();
    var step := once.Get();
    inner := once.Get();
    outer := once.SupplierCompleted(Threw(inner.error));
    state := once.state;
  }
}
