/** Shared vocabulary of the emoji upload script: optional values and the HTTP
    status codes the script compares responses against. */
module Base {

  /** A value that may be missing, like Python's `None`. */
  datatype Option<T> = None | Some(value: T)

  /** Status every call except the metadata update expects on success. */
  const StatusOk := 200

  /** Status the metadata update expects on success (no content). */
  const StatusNoContent := 204
}
