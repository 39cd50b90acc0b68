/**
 * The Python exceptions the handler can meet, and the choice between the
 * code as written and the code as its authors evidently meant it.
 */
module Runtime {

  /** An exception, by class; only the ones that matter to the handler are told apart. */
  datatype Raised =
    | NameError(name: string)
    | NotImplementedError
    | UnicodeEncodeError(position: nat)
    | FileNotFoundError
    /** Any other `OSError` from `open` or `os.fstat` (a directory, no permission). */
    | OSError(reason: string)
    /** Whatever reading the request body raises. */
    | ReadError

  /**
   * `AsWritten` follows the source line by line, defects included;
   * `Corrected` repairs the four defects the model exhibits and keeps
   * everything else.
   */
  datatype Revision = AsWritten | Corrected
}
