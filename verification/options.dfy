/** An optional value, standing for JavaScript's `undefined` where the source uses it. */
module Options {

  datatype Option<+T> = None | Some(value: T)

}
