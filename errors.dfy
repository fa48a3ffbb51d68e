/**
 * The failures the engine signals. Each `throw std::runtime_error` of the
 * engine becomes one of these values; a failing file read becomes `Malformed`.
 */
module Errors {

  datatype DbError =
    | DuplicateTable(name: string)      // createTable on a name already in use
    | TableNotFound(name: string)       // a routed operation names a missing table
    | RecordNotFound(id: int)           // updateRecord finds no record with that id
    | ArityMismatch(expected: nat, given: nat)  // addData got the wrong number of values
    | Malformed                         // the save file cannot be read
    | CounterOverflow(name: string)     // loading would push a table's counter past INT_MAX

  /** Outcome of an operation that returns nothing on success. */
  datatype Status = Ok | Err(error: DbError)

  /** Outcome of an operation that returns a value on success. */
  datatype Result<T> = Success(value: T) | Failure(error: DbError)
}
