/** Scalar identifiers shared by every part of the recovery manager, and the
    error-carrying result type used where the manager can fail. */
module Types {

  /** Log sequence numbers, transaction ids and page ids are plain integers. */
  type Lsn = int
  type TxId = int
  type PageId = int

  /** The null LSN: "no log record" (an unseen transaction, a page never written). */
  const NullLsn: Lsn := -1

  datatype Result<+T, +E> = Ok(value: T) | Err(error: E)
}
