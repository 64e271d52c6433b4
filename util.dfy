/** The collaborators the supervisor talks to, seen only at their interface:
    Go's `error` values, the file-reading function (util.FileReaderFn) and the
    outcome of an operating-system call. */
module Util {

  /** An opaque Go `error`; the core never inspects it, only passes it on. */
  datatype Error = Error(message: string)

  datatype Option<+T> = None | Some(value: T)

  /** The `(value, error)` pair a Go function returns. */
  datatype Result<+T> = Success(value: T) | Failure(error: Error)

  /** Success or failure of a call into the operating system (process
      creation, signal delivery), decided by the environment. */
  datatype Outcome = Pass | Fail(error: Error)

  /** What the file reader returns for one path: the content, or an error. */
  datatype ReadResult = Read(content: string) | ReadError(error: Error)

  /** util.FileReaderFn: path to content or error. Each call into the core
      gets the reader as it stands at that moment. */
  type FileReader = string -> ReadResult
}
