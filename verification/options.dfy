/** A value that may be missing: JavaScript's `undefined` where the source reads an
    absent array element or object property. */
module Options {

  datatype Option<+T> = None | Some(value: T)
}
