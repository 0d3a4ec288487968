/** Outcomes shared by every module: an optional value, and the result of
    calling a C# member that may return, throw or never finish. */
module Wrappers {

  /** A C# reference that may be null, or a value that may be absent. */
  datatype Option<T> = None | Some(value: T)

  /** The .NET exceptions the modelled members can raise. */
  datatype Fault =
    | IndexOutOfRange            // array indexer out of bounds
    | NullReference              // a call through a null delegate
    | InvalidOperation           // Enumerable.First() on an empty sequence
    | ArgumentOutOfRange         // List<T> indexer, String.Remove / IndexOf arguments out of range
    | DuplicateKey               // ToDictionary met the same key twice
    | DivideByZero               // integer % by zero
    | Overflow                   // int.MinValue % -1
    | TypeNotFoundInStaticTable  // TypeNotFoundInStaticTableException
    | NotANumber                 // a double division by zero whose NaN or infinity the model does not follow

  /** What a call does: returns a value, throws, or runs forever. */
  datatype Outcome<T> = Returns(value: T) | Throws(fault: Fault) | Diverges
}
