/** The absent-or-present result used where the modelled code returns `null`. */
module Options {
  datatype Option<+T> = None | Some(value: T)
}
