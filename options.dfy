/** The optional result of a single-row lookup: `result.rows[0]` is either a row or `undefined`. */
module Options {

  datatype Option<+T> = None | Some(value: T)
}
