/** The absent-or-present value used for JavaScript's `null`/`undefined`
    slots (an unset filter list, a missing record field). */
module Optional {
  datatype Option<+T> = None | Some(value: T)
}
