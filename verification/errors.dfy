/**
 * The error taxonomy the manager reports and the exceptions that carry it. An
 * `OSError(code, message)` reaching `execute` carries either one of the taxonomy codes
 * below, when the manager raised it itself, or an integer errno, when `os.makedirs`
 * failed in `_ensure_dir` for a reason other than a missing permission (a path
 * component that is a file, a read-only or full file system): `_ensure_dir` converts
 * only `PermissionError` and lets every other `OSError` through unchanged. Any other
 * exception (an `OSError` with fewer than two arguments included) reaches `execute`
 * as `Unclassified`, with its `str()`.
 */
module Errors {
  import opened Text

  /** The first argument of a two-argument `OSError`: a taxonomy name or an errno. */
  datatype Code = Named(name: string) | Errno(number: int)

  const ErrUnknown: Code := Named("ERR_UNKNOWN")
  const ErrDependency: Code := Named("ERR_DEPENDENCY")
  const ErrNetwork: Code := Named("ERR_NETWORK")
  const ErrDisk: Code := Named("ERR_DISK")
  const ErrPermission: Code := Named("ERR_PERMISSION")
  const ErrSteamCmd: Code := Named("ERR_STEAMCMD")

  datatype Failure =
    | OSError(code: Code, message: string)
    | Unclassified(text: string)

  /** How a code is printed: a name as itself, an errno as its decimal numeral. */
  function CodeText(code: Code): string
  {
    match code
    case Named(name) => name
    case Errno(number) => IntToString(number)
  }

  /** `str(e)`: Python renders a two-argument `OSError` as `[Errno <code>] <message>`. */
  function Describe(f: Failure): string
  {
    match f
    case OSError(code, message) => "[Errno " + CodeText(code) + "] " + message
    case Unclassified(text) => text
  }

  /** The `{code, message}` pair printed for a failed run; the code is a JSON string for
      a taxonomy name and a JSON number for an errno. */
  datatype ErrorInfo = ErrorInfo(code: Code, message: string)

  /** One of the six codes of the taxonomy, the only codes the script itself raises. */
  predicate IsErrorCode(code: Code) {
    || code == ErrUnknown || code == ErrDependency || code == ErrNetwork
    || code == ErrDisk || code == ErrPermission || code == ErrSteamCmd
  }

  /** A failure whose `OSError` code, if it has one, is a taxonomy code: every failure
      the script raises itself, and any exception that is not a two-argument `OSError`.
      An errno passed through by `_ensure_dir` is not classified. */
  predicate Classified(f: Failure) {
    f.OSError? ==> IsErrorCode(f.code)
  }

  /** The `except` clauses of `execute`: a two-argument `OSError` is given back as its
      code and message; everything else becomes `ERR_UNKNOWN` with the exception's text. */
  function Normalise(f: Failure): (e: ErrorInfo)
    ensures f.OSError? ==> OSError(e.code, e.message) == f
    ensures f.Unclassified? ==> e.code == ErrUnknown && e.message == Describe(f)
  {
    match f
    case OSError(code, message) => ErrorInfo(code, message)
    case Unclassified(text) => ErrorInfo(ErrUnknown, text)
  }

  /** The reported pair carries a taxonomy code when the failure was classified, and its
      message is the exception's text unless the exception carried its own. */
  lemma NormaliseIsClosed(f: Failure)
    requires Classified(f)
    ensures IsErrorCode(Normalise(f).code)
    ensures f.Unclassified? ==> Normalise(f).message == Describe(f)
  {
  }

  /** An errno passed through by `_ensure_dir` is reported as that errno, with the
      `strerror` text as the message, and it is outside the taxonomy. */
  lemma ErrnoIsReportedAsIs(number: int, strerror: string)
    ensures Normalise(OSError(Errno(number), strerror)) == ErrorInfo(Errno(number), strerror)
    ensures !IsErrorCode(Normalise(OSError(Errno(number), strerror)).code)
  {
  }
}
