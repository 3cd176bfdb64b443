/** Failure-carrying results shared by every module of the model. Java's
    exceptions become `Err` values naming the exception class. */
module Wrappers {

  datatype Option<+T> = None | Some(value: T)

  /** The exceptions the modelled code throws or lets escape. */
  datatype Exception =
    | NoSuchElement     // java.util.NoSuchElementException
    | IndexOutOfBounds  // IndexOutOfBoundsException from a List or an array copy
    | NullPointer       // NullPointerException from dereferencing a null field
    | IllegalArgument   // IllegalArgumentException
    | Arithmetic        // ArithmeticException, integer division by zero
    | Db                // simpledb.common.DbException
    | PageUnavailable   // the buffer pool could not produce the requested page
    | IO                // java.io.IOException
    | TransactionAborted  // simpledb.transaction.TransactionAbortedException
    | ConcurrentModification  // java.util.ConcurrentModificationException from a fail-fast iterator

  datatype Result<+T> = Ok(value: T) | Err(error: Exception)
}
