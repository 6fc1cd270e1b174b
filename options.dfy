/** The usual optional-value wrapper, used for "no result" (a parse that
    fails, a body value that JSON.stringify maps to undefined). */
module Options {
  datatype Option<+T> = None | Some(value: T)
}
