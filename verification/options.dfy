/** The optional-value type used by the search and by the view's advance step. */
module Options {

  datatype Option<+T> = None | Some(value: T)
}
