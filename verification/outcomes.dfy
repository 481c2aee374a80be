/** Java exceptions raised by MyArrayList and its iterator, modelled as values.
    A failing operation returns `Throw(e)` instead of unwinding. */
module Outcomes {

  datatype Exception =
    | IndexOutOfBounds        // Objects.checkIndex and the explicit check of add(int, E)
    | ArrayIndexOutOfBounds   // a raw array store or System.arraycopy out of range (a subclass of the above)
    | IllegalArgument         // negative initial capacity
    | NullPointer             // remove(Object) dereferencing a null slot
    | NoSuchElement           // iterator moved past either end
    | IllegalState            // iterator write with no last-returned index
    | ConcurrentModification  // iterator write whose index went stale

  /** The exceptions a `catch (IndexOutOfBoundsException e)` clause intercepts. */
  predicate IsIndexOutOfBounds(e: Exception) {
    e == IndexOutOfBounds || e == ArrayIndexOutOfBounds
  }

  /** Outcome of a call: the returned value, or the exception thrown. */
  datatype Result<+R> = Ok(value: R) | Throw(exc: Exception)
}
