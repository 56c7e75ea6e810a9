/** The outcomes shared by the whole model.

    Every exception the Python client can raise on the paths modelled here
    becomes an `Err` value carrying one of the `Error` kinds below, so that
    callers can see the error paths instead of being forbidden from them by
    preconditions. */
module Outcomes {

  /** Python's `None`-or-value. */
  datatype Option<+T> = None | Some(value: T)

  /** The exceptions of the modelled code, by cause. */
  datatype Error =
    /** `AttributeError`: `.get` called on a value that is not a dict. */
    | NotAMapping(key: string)
    /** `AttributeError`: `.replace` called on a truthy date value that is not a string. */
    | NotAString
    /** `ValueError` from `datetime.fromisoformat`. */
    | MalformedDate(text: string)
    /** `TypeError`: a naive item date compared with an aware bound. */
    | NaiveAwareComparison
    /** `requests.HTTPError` from `raise_for_status`, naming the sub-resource. */
    | RetrievalFailed(resource: string, status: int)
    /** `OverflowError` from date arithmetic leaving years 1..9999. */
    | DateOutOfRange
    /** `KeyError` from `item[key]`. */
    | MissingKey(key: string)
    /** A value whose Python `str()` is outside the model (a list or a dict). */
    | UnrenderableValue(key: string)

  /** What an export leaves on disk: the file it (over)writes and the whole
      content the file ends up holding. */
  datatype Artifact = Artifact(path: string, content: string)

  /** Either a value or the error that aborted the computation. */
  datatype Result<+T> = Ok(value: T) | Err(error: Error)
}
