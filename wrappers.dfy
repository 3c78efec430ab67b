/** Option and Result values, and the Python exception kinds that the tokenizers raise. */
module Wrappers {

  datatype Option<T> = None | Some(value: T)

  /** The exception classes raised by the tokenizer code. */
  datatype Error =
    | AssertionError       // a failed `assert`
    | ValueError           // `max`/`min` of an empty sequence, `int(...)` of a malformed string, unpacking
    | KeyError             // a dictionary lookup of a missing key
    | NotImplementedError  // an operation that a tokenizer refuses
    | AttributeError       // a method called on a value whose type lacks it

  datatype Result<T> = Ok(value: T) | Err(error: Error)

  /** A byte, as an element of Python's `bytes`. */
  type Byte = b: int | 0 <= b < 256

  type Bytes = seq<Byte>
}
