/** The errors the in-memory tables can produce (the SQL driver's errors that matter to the core). */
module Storage {

  /** `ErrNoRows` is database/sql's sql.ErrNoRows; `ErrDuplicateKey` is the primary-key violation
      an INSERT of an existing id raises. */
  datatype StoreError = ErrNoRows | ErrDuplicateKey
}
