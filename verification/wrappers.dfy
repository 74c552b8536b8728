/** The optional value used where the Swift code has `T?`, and where the model
    records that the Swift process would stop on a raised Objective-C exception. */
module Wrappers {

  datatype Option<+T> = None | Some(value: T)

}
