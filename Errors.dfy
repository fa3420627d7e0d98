/**
 * The exceptions the core raises. Their defining class, common/Error.java,
 * is not part of this model; only the names the core uses are kept.
 */
module Errors {

  datatype Error =
    | BadXIDFileException      // the .xid file fails the length check
    | FileExistsException      // create: the .xid file is already there
    | FileCannotRWException    // create: the new file is not readable and writable
    | CacheFullException       // get: every slot of a bounded cache is taken
    | HookException(cause: string)  // the shape a cache loader's Err is expected to take: the exception getForCache throws

  /**
   * The outcome of an operation that may raise. In the transaction manager an
   * Err stands for Panic.panic, which ends the process; in the cache it is an
   * exception the caller receives.
   */
  datatype Result<T> = Ok(value: T) | Err(error: Error)
}
