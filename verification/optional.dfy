/** The absent-or-present value used where the site reads `undefined` or `null`. */
module Optional {

  datatype Option<+T> = None | Some(value: T)
}
