/** Option and Result values standing in for Python's None and for the
    exceptions raised by stgit/commands/common.py. */
module Errors {

  datatype Option<T> = None | Some(value: T)

  datatype Result<T, E> = Ok(value: T) | Err(error: E)

  /** RevParseException: the revision text matches none of the three forms. */
  datatype RevParseError = RevParseException

  /** The CmdException messages raised by the modelled functions. */
  datatype CmdError =
    | NoPatchesApplied
    | UnknownPatchName(name: string)
    | MalformedPatchName(name: string)
    | DuplicatePatchName(name: string)
    | IncorrectNameEmail(address: string)
    | IncorrectNameEmailDate(address: string)
}
