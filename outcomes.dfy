/** Success and failure values shared by the whole catalog model. */
module Outcomes {

  datatype Option<T> = None | Some(value: T)

  /** The ways an operation of the catalog can fail. Each one is an exception
      or an early return of the Python code; none of them changes any state. */
  datatype Error =
    | InvalidPrice        // 'Invalid price format': the price text is not a decimal number
    | ColumnNotFound      // 'Column not found': a drop names no column of the table
    | DuplicateColumn     // SQLite refuses two columns with the same name
    | EmptyStatement      // SQLite refuses a column list or SET list with nothing in it
    | NoSuchColumn        // SQLite refuses a statement naming a column the table lacks
    | RecordNotFound      // the edit page's 404: no product has the requested id
    | VersionNotFound     // 'version not found': no ledger entry has the requested id
    | IntegerOverflow     // sqlite3 cannot bind a Python int outside the signed 64-bit range
    | SyntaxError         // SQLite cannot parse a DEFAULT clause whose quotes do not pair up

  datatype Result<T> = Ok(value: T) | Err(error: Error)
}
