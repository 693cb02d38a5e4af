/**
  Option and Result types shared by the model, and the one flat failure taxonomy
  that stands for the exceptions the explorer code can raise.
 */
module Outcomes {

  /** `None` stands for a Java `null` (a missing resource, a missing entry). */
  datatype Option<+T> = None | Some(value: T)

  /** The exceptions of the explorer, flattened into one datatype.
      `FileException(cause)` is the wrapper the listing methods throw; its
      `cause` is the innermost exception that the wrapper chain carries.
      `PathException(wrapped)` is thrown by `PATH.GetFileExtension` with no
      cause and by `PATH.GetClearFileName` around the exception it caught. */
  datatype Failure =
    | IndexOutOfBounds    // StringIndexOutOfBounds- / ArrayIndexOutOfBoundsException
    | NullPointer         // a method called on a `null` path name
    | InvalidPath         // Paths.get rejects a NUL character
    | PathException(wrapped: Option<Failure>)  // PATH's own exception and what it wraps
    | DirectoryNotFound   // DirectoryNotFoundException
    | NotDirectory        // NotDirectoryException: the folder is a regular file
    | NoFileSystem        // Paths.get(URI) for a URI no file system provides
    | NoSuchFile          // the walked root does not exist inside the archive
    | ArchiveAccess       // the archive file could not be opened as a file system
    | FileException(cause: Failure)

  /** A value or the failure that replaced it; usable with `:-`. */
  datatype Result<+T> = Ok(value: T) | Err(failure: Failure) {

    predicate IsFailure() {
      Err?
    }

    function PropagateFailure<U>(): Result<U>
      requires Err?
    {
      Err(failure)
    }

    function Extract(): T
      requires Ok?
    {
      value
    }
  }
}
