/** The nullable values of the source (`String?`, `lastOrNull()`, `?.get`) as an option type. */
module Wrappers {

  datatype Option<+T> = None | Some(value: T)

}
