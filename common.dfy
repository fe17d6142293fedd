/** Values shared by every part of the model: bytes, identifiers, and the
    Option/Result wrappers that stand for the source's nulls and exceptions. */
module Common {

  /** A .NET `byte`. */
  newtype byte = x: int | 0 <= x < 256

  /** A .NET `Guid`; only equality matters to the model. */
  type Guid = nat

  datatype Option<T> = None | Some(value: T)

  /** The exceptions the modelled code throws or lets propagate. */
  datatype Exception =
    | ArgumentException               // id already taken; extension not an audio one
    | AudioNotFoundException
    | NotFoundException
    | ValidationFailedException
    | EmailAlreadyRegisteredException
    | UserNotFoundException
    | FileNotFoundException
    | IOException
    | StorageWriteFailure             // the blob store's save threw
    | StorageDeleteFailure            // the blob store's delete threw
    | StorageReadFailure              // the blob store's read threw
    | DbSaveFailure                   // SaveChanges threw
    | DbUpdateConcurrencyException    // an update matched no stored row
    | TagParseFailure                 // the tag reader threw something other than a corrupt-file error
    | IdDecodeFailure                 // the id codec could not decode a token

  /** A call that returns a value or throws. */
  datatype Result<T> = Ok(value: T) | Err(error: Exception)
}
