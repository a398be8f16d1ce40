/** Go-style error values as the sync command sees them: sentinels compared by identity,
    connect RPC errors that carry a status code, and errors wrapped with `%w`. */
module Errors {

  datatype Option<+T> = None | Some(value: T)

  /** A value or the error returned in its place. */
  datatype Result<+T> = Ok(value: T) | Fail(err: Error)

  /** The connect status codes the command distinguishes; every other code is OtherCode. */
  datatype Code = NotFound | AlreadyExists | Internal | Unknown | OtherCode

  datatype Error =
    | ObjectNotFound                          // git.ErrObjectNotFound
    | ModuleDoesNotExist                      // bufsync.ErrModuleDoesNotExist
    | Connect(code: Code, detail: string)     // an RPC failure, or connect.NewError(code, ...)
    | InvalidArgument(detail: string)         // appcmd.NewInvalidArgumentError(f)
    | Message(detail: string)                 // errors.New, or fmt.Errorf without %w
    | Wrapped(context: string, cause: Error)  // fmt.Errorf("context: %w", cause)

  /** connect.CodeOf: the code of the first connect error on the wrap chain, Unknown if there is none. */
  function CodeOf(e: Error): Code
  {
    match e
    case Connect(c, _) => c
    case Wrapped(_, cause) => CodeOf(cause)
    case _ => Unknown
  }

  /** errors.Is against a sentinel: `target` is `e` itself or sits further down its wrap chain. */
  predicate Is(e: Error, target: Error)
  {
    e == target || (e.Wrapped? && Is(e.cause, target))
  }
}
