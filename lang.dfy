/**
 * What the modelled Java code uses from the language itself: a nullable value
 * (None stands for `null`) and the exceptions the core throws, made explicit as
 * results instead of control flow.
 */
module Lang {

  /** A Java reference that may be `null` (None). */
  datatype Option<+T> = None | Some(value: T)

  /** The exceptions the modelled code throws. */
  datatype Exception =
    | NullPointer        // java.lang.NullPointerException, from Objects.requireNonNull
    | IllegalArgument    // java.lang.IllegalArgumentException
    | IllegalState       // java.lang.IllegalStateException
    | IndexOutOfBounds   // java.lang.IndexOutOfBoundsException, from List.get
    | NoSuchElement      // java.util.NoSuchElementException, from Iterator.next
    | NotAnObject        // whatever JSONElement.expectObject throws

  /** The outcome of a call that returns a value: the value or the exception thrown. */
  datatype Result<+T> = Ok(value: T) | Throw(exn: Exception)

  /** The outcome of a call that returns nothing. */
  datatype Outcome = Done | Thrown(exn: Exception)
}
