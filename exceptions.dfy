/**
 * The two exceptions the newest services throw. Their classes are not part of
 * this model; only the kind and the message matter to a caller.
 */
module Exceptions {
  import opened Wrappers

  datatype DataException =
    | DataNotFound(message: string)       // DataNotFoundException, answered with 404
    | DataAlreadyExists(message: string)  // DataAlreadyExistsException, answered with 409

  type ServiceResult<T> = Result<T, DataException>
}
