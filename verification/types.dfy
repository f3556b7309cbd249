/** Result codes and the optional-value wrapper shared by every part of the model. */
module Types {

  /** The two Core::hresult values the diagnostics interface returns. */
  datatype HResult = ErrorNone | ErrorGeneral

  /** A value that may be absent: an unset out-parameter, a missing file, a failed scan. */
  datatype Option<+T> = None | Some(value: T)
}
