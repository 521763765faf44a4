/** Failure-carrying datatypes shared by the whole model.

The Kotlin source signals every failure by throwing; here each exception the
codec can raise becomes a `Failure` value, and the functions that may throw
return a `Result`.
 */
module Wrappers {

  /** A Kotlin nullable value: `None` stands for null. */
  datatype Option<+T> = None | Some(value: T)

  /** The exceptions the modelled Kotlin code can raise. */
  datatype Failure =
    | NotImplemented                       // `TODO()`: kotlin.NotImplementedError
    | IllegalArgument(message: string)     // `require(...)` or an explicit IllegalArgumentException
    | IllegalState(message: string)        // `error(...)`
    | IndexOutOfBounds(index: int)         // `List.get` with an index outside the list
    | NullPointer                          // `!!` applied to null
    | SerializerNotFound(className: string) // `KClass.serializer()` for a class without a generated serializer
    | NoSuchElement                        // `List.first()` on an empty list
    | ClassCast                            // a handler of one alternative applied to a value of another
    | Malformed                            // the decoder's input does not have the expected shape
    | MalformedVarint                      // a varint whose terminating byte is missing (binary decoding)

  /** A value, or the failure that prevented computing it; usable with `:-`. */
  datatype Result<+T> = Ok(value: T) | Err(error: Failure) {

    predicate IsFailure() {
      Err?
    }

    function PropagateFailure<U>(): Result<U>
      requires Err?
    {
      Err(error)
    }

    function Extract(): T
      requires Ok?
    {
      value
    }
  }
}
