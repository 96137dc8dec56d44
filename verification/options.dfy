/** The optional value returned by operations that may fail softly, standing
    for JavaScript's `null` or `undefined`. */
module Options {

  datatype Option<+T> = None | Some(value: T)
}
