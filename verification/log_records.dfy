/** Log records, one variant per record kind, and the shape facts about logs
    that the recovery phases rely on. */
module LogRecords {
  import opened Types
  import opened Tables

  /** Every record carries its LSN, the LSN of the previous record of the same
      transaction and its transaction id; the payload depends on the kind. */
  datatype LogRecord =
    | Update(lsn: Lsn, prevLsn: Lsn, txId: TxId,
             pageId: PageId, offset: int, beforeImage: string, afterImage: string)
    | Compensation(lsn: Lsn, prevLsn: Lsn, txId: TxId,
                   pageId: PageId, offset: int, undoContent: string, undoNextLsn: Lsn)
    | Commit(lsn: Lsn, prevLsn: Lsn, txId: TxId)
    | Abort(lsn: Lsn, prevLsn: Lsn, txId: TxId)
    | End(lsn: Lsn, prevLsn: Lsn, txId: TxId)
    | BeginCheckpoint(lsn: Lsn, prevLsn: Lsn, txId: TxId)
    | EndCheckpoint(lsn: Lsn, prevLsn: Lsn, txId: TxId,
                    txTable: TxTable, dirtyPages: DirtyPageTable)
  {
    /** UPDATE and CLR records are the ones that change a page. */
    predicate IsPageRecord() {
      Update? || Compensation?
    }
  }

  /** The log is stored so that the record at position i has LSN i: the
      master record and the minimum recLSN are used as line counts. */
  ghost predicate IndexedByLsn(log: seq<LogRecord>) {
    forall i :: 0 <= i < |log| ==> log[i].lsn == i
  }

  /** LSNs strictly increase along the sequence (creation order). */
  ghost predicate Ascending(s: seq<LogRecord>) {
    forall i, j :: 0 <= i < j < |s| ==> s[i].lsn < s[j].lsn
  }
}
