/** The optional value used for parsed version components and map lookups. */
module Wrappers {

  /** `None` stands for a JavaScript `undefined` or `NaN`. */
  datatype Option<+T> = None | Some(value: T)
}
