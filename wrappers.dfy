/** Option, Result and the error reasons that the codec throws. */
module Wrappers {

  datatype Option<+T> = None | Some(value: T) {
    function GetOr(default: T): T {
      match this
      case Some(v) => v
      case None => default
    }
  }

  /** Every `throw` of the codec, by reason. */
  datatype Error =
    // label and buffer primitives
    | MalformedLabel          // a varint that runs past the end of its buffer
    | ReadPastEnd             // a single-byte read at the end of the buffer
    // block framing
    | InvalidBlockLength      // a negative block length label
    | ShortBlock              // fewer bytes left than the block length label says
    | NoMoreBlocks            // a reader asked for a block after the last one
    | IncorrectResultLength   // the encoder's output length differs from the capacity it allocated
    // block readers and dedup trackers
    | BackreferenceNotAllowed // a backreference label where the reader forbids them
    | InvalidBackreference    // a backreference to an unpopulated table slot
    | NullLabel               // a Null label where the reader cannot handle one
    | AbsentLabel             // an Absent label where the reader cannot handle one
    | ErrorLabel              // an Error label where the reader cannot handle one
    // schema-driven decoder
    | InvalidNonNull          // a marker other than Null or NonNull before an unlabeled type
    | UnboundLength           // the omittable-field branch that evaluates an unbound name
    | NegativeArrayLength     // an array length label below zero
    | InvalidBoolean          // a label other than the two boolean markers
    | UnsupportedType         // a wire type the decoder has no case for
    // schema-driven encoder
    | MissingDedupeKey        // a scalar written with no active deduplication key
    | UnsupportedDedupeType   // a writer requested for a type that has none
    | NestedDedupe            // a Dedupe type inside an active deduplication key
    | MissingField            // a required field that the value does not have
    | NotAnArray              // an Array type given a value that is not an array
    | NotImplemented          // Float64 and Variant, which the encoder rejects
    | TypeMismatch            // a scalar value of the wrong JavaScript type
    | JsTypeError             // a JavaScript TypeError (property access on null, `in` on a primitive)

  datatype Result<+T> = Ok(value: T) | Err(error: Error) {
    predicate IsFailure() { Err? }

    function PropagateFailure<U>(): Result<U>
      requires Err?
    {
      Err(error)
    }

    function Extract(): T
      requires Ok?
    {
      value
    }
  }

  /** The result of an operation that only succeeds or throws. */
  datatype Outcome = Pass | Fail(error: Error) {
    predicate IsFailure() { Fail? }

    function PropagateFailure(): Outcome
      requires Fail?
    {
      this
    }
  }
}
