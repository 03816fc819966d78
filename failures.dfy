/** The failure kinds of the version tool and the wrappers that carry them.
    The source throws plain strings; each `throw` becomes one tagged error
    holding the data the message is built from. */
module Failures {

  datatype Error =
    | InvalidVersionString(text: string)     // `Invalid version string: ...`
    | InvalidComponent(component: string)    // `Version component must be major|minor|patch, ...`
    | InvalidTypeScript(text: string)        // `Invalid version.ts: ...`
    | UncommittedChanges(files: seq<string>) // `First commit or revert uncommitted changes: ...`
    | ReadFailed(reason: string)             // a file-system error other than NotFound, rethrown as is

  datatype Result<T> = Ok(value: T) | Err(error: Error)

  datatype Option<T> = None | Some(value: T)

  /** The result of an operation that returns nothing but may throw. */
  datatype Outcome = Pass | Fail(error: Error)
}
