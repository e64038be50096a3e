/**
 * Handles and persistent roots as the property tables see them.
 *
 * A `Handle<Value>` is either empty (a null cell pointer) or designates an
 * engine value.  `Persistent<Value>::New(h)` creates a root for the value
 * of `h` that lives until `Dispose()` is called; the ghost counter
 * `disposals` records how often that happened, so that "disposed exactly
 * once" can be stated.
 */
module Handles {

  /** Identity of an engine value (a `jsval`). */
  type ValueRef = nat

  datatype Handle = Empty | Of(value: ValueRef) {
    predicate IsEmpty() {
      Empty?
    }
  }

  class Persistent {
    /** The handle this root was created from; a root of an empty handle is itself empty. */
    const handle: Handle
    /** How many times `Dispose()` has been called on this root. */
    ghost var disposals: nat

    constructor New(data: Handle)
      ensures handle == data
      ensures disposals == 0
    {
      handle := data;
      disposals := 0;
    }

    predicate IsEmpty() {
      handle.IsEmpty()
    }

    method Dispose()
      modifies this
      ensures disposals == old(disposals) + 1
    {
      disposals := disposals + 1;
    }
  }
}
