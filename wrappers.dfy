/** The optional value the storage map reads as (`Option<TransactionOutput>`). */
module Wrappers {

  datatype Option<+T> = None | Some(value: T)
}
