/** Values shared by every part of the review tool: the error taxonomy,
    a result type in place of `anyhow::Result`, and the `u32` range of
    the pull-request number. */
module Base {

  const U32_MAX: int := 0xFFFF_FFFF

  /** Rust's `u32`. */
  type U32 = n: int | 0 <= n <= U32_MAX

  datatype Option<+T> = None | Some(value: T)

  /** One constructor per `bail!`/`context` site that the model reaches;
      errors coming from collaborators that are not modelled (git, the
      manifest reader, the filesystem) are carried as `External`. */
  datatype Error =
    | MissingCommand
    | UnknownCommand(command: string)
    | TooFewArguments
    | MissingPrMarker(token: string)
    | InvalidPrNumber(digits: string)
    | MissingSeparator(arg: string)
    | NegatedExclude(pattern: string)
    | InvalidGlob(glob: string)
    | RemoveFailed(target: seq<string>)
    | TraverseFailed
    | CopyFailed(target: seq<string>)
    | TemplateResetFailed(dir: string)
    | CommandFailed
    | External(what: string)

  datatype Result<+T> = Ok(value: T) | Err(error: Error)

  /** `anyhow::Result<()>` */
  type Outcome = Result<()>
}
