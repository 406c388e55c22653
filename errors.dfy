/** Results shared by both stores. Every error string the Go stores construct
    becomes one constructor of Error; the two engine errors that the model
    reaches deterministically are added at the end. */
module Errors {

  datatype Option<+T> = None | Some(value: T)

  datatype Error =
    | ReadOnlyMode        // "readonly mod active"
    | UnknownBucketName   // "unknown bucket name"
    | ValueNotFound       // "value not found": Set with an empty value
    | KeyNotFound         // "key not found": Delete with an empty key
    | KeyOrValueNotFound  // "key or value not found"
    | NotImplemented      // "not implemented"
    | BucketNameRequired  // engine: creating a bucket with an empty name
    | BucketNotFound      // engine: deleting a bucket that does not exist

  /** A Go `(T, error)` pair in which exactly one side is meaningful. */
  datatype Result<+T> = Ok(value: T) | Err(error: Error)

  /** A Go `error` return on its own: nil or an error. */
  datatype Outcome = Pass | Fail(error: Error)

  /** A Go slice that may be nil; an empty non-nil slice is `Items([])`. */
  datatype Listing<+T> = Nil | Items(elems: seq<T>)
  {
    function Elems(): seq<T>
    {
      if Nil? then [] else elems
    }
  }
}
